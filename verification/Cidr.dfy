/** IPv4 blocks: masking an address to its block, and how blocks overlap. */
module Cidr {
  import opened Wire

  type MaskLen = m: int | 0 <= m <= 32

  function Pow2(n: nat): (p: nat)
    ensures p > 0
  {
    if n == 0 then 1 else 2 * Pow2(n - 1)
  }

  lemma Pow2Values()
    ensures Pow2(8) == 0x100 && Pow2(16) == 0x1_0000 && Pow2(24) == 0x100_0000 && Pow2(32) == 0x1_0000_0000
  {
  }

  /** How many addresses a block of this mask length has. */
  function Size(mask: MaskLen): (n: nat)
    ensures n > 0
  {
    Pow2(32 - mask)
  }

  predicate Covers(network: u32, mask: MaskLen, v: u32) {
    network <= v < network + Size(mask)
  }

  /** `v` with its low `k` bits cleared. */
  function Floor(v: nat, k: nat): (f: nat)
    ensures f <= v < f + Pow2(k)
    decreases k
  {
    if k == 0 then v else 2 * Floor(v / 2, k - 1)
  }

  /** The host bits of an aligned network are all zero. */
  predicate Aligned(network: u32, mask: MaskLen) {
    network == Floor(network, 32 - mask)
  }

  /** The bitwise AND of the low `n` bits. */
  function BitAnd(a: nat, b: nat, n: nat): (r: nat)
    ensures r <= a
  {
    if n == 0 then 0 else 2 * BitAnd(a / 2, b / 2, n - 1) + (if a % 2 == 1 && b % 2 == 1 then 1 else 0)
  }

  /** The netmask word: `!0u32 << (32 - mask)`, and 0 for a mask of length 0. */
  function MaskWord(mask: MaskLen): (w: nat) {
    Pow2Monotone(32 - mask, 32);
    if mask == 0 then 0 else Pow2(32) - Pow2(32 - mask)
  }

  lemma {:induction false} AndWithOnes(a: nat, n: nat)
    requires a < Pow2(n)
    ensures BitAnd(a, Pow2(n) - 1, n) == a
  {
    if n > 0 {
      AndWithOnes(a / 2, n - 1);
      assert (Pow2(n) - 1) / 2 == Pow2(n - 1) - 1;
    }
  }

  lemma {:induction false} Pow2Monotone(k: nat, n: nat)
    requires k <= n
    ensures Pow2(k) <= Pow2(n)
  {
    if k < n {
      Pow2Monotone(k, n - 1);
    }
  }

  /** ANDing with a run of ones above `k` clears the low `k` bits. */
  lemma {:induction false} AndClearsLowBits(a: nat, k: nat, n: nat)
    requires k <= n && a < Pow2(n)
    ensures Pow2(k) <= Pow2(n)
    ensures BitAnd(a, Pow2(n) - Pow2(k), n) == Floor(a, k)
  {
    Pow2Monotone(k, n);
    if k == 0 {
      AndWithOnes(a, n);
    } else {
      Pow2Monotone(k - 1, n - 1);
      AndClearsLowBits(a / 2, k - 1, n - 1);
    }
  }

  lemma {:induction false} FloorIdempotent(v: nat, k: nat)
    ensures Floor(Floor(v, k), k) == Floor(v, k)
  {
    if k > 0 {
      FloorIdempotent(v / 2, k - 1);
      assert 2 * Floor(v / 2, k - 1) / 2 == Floor(v / 2, k - 1);
    }
  }

  lemma {:induction false} FloorNests(v: nat, k: nat, k': nat)
    requires k <= k'
    ensures Floor(v, k') <= Floor(v, k)
    ensures Floor(v, k) + Pow2(k) <= Floor(v, k') + Pow2(k')
  {
    if k > 0 {
      FloorNests(v / 2, k - 1, k' - 1);
    }
  }

  /** An aligned block holding `v` can only start at `v` with its low bits cleared. */
  lemma {:induction false} FloorUnique(n: nat, v: nat, k: nat)
    requires n == Floor(n, k) && n <= v < n + Pow2(k)
    ensures n == Floor(v, k)
  {
    if k > 0 {
      FloorUnique(n / 2, v / 2, k - 1);
    }
  }

  /** The masked address is the aligned start of the one block of that size holding the address. */
  lemma MaskedIsBlockStart(addr: u32, mask: MaskLen)
    ensures var network := BitAnd(addr, MaskWord(mask), 32);
            Aligned(network, mask) && Covers(network, mask, addr)
  {
    assert addr < Pow2(32) by { Pow2Values(); }
    MaskedIsFloor(addr, mask);
    FloorIsBlockStart(addr, mask, BitAnd(addr, MaskWord(mask), 32));
  }

  lemma MaskedIsFloor(addr: u32, mask: MaskLen)
    requires addr < Pow2(32)
    ensures BitAnd(addr, MaskWord(mask), 32) == Floor(addr, 32 - mask)
  {
    AndClearsLowBits(addr, 32 - mask, 32);
  }

  lemma FloorIsBlockStart(addr: u32, mask: MaskLen, network: u32)
    requires network == Floor(addr, 32 - mask)
    ensures Aligned(network, mask) && Covers(network, mask, addr)
  {
    FloorIdempotent(addr, 32 - mask);
  }

  /**
   Of two aligned blocks that share an address the one with the longer mask lies inside the other.
   */
  lemma NestedOrDisjoint(n1: u32, m1: MaskLen, n2: u32, m2: MaskLen, v: u32)
    requires Aligned(n1, m1) && Aligned(n2, m2)
    requires Covers(n1, m1, v) && Covers(n2, m2, v)
    requires m1 <= m2
    ensures n1 <= n2 && n2 + Size(m2) <= n1 + Size(m1)
  {
    FloorUnique(n1, v, 32 - m1);
    FloorUnique(n2, v, 32 - m2);
    FloorNests(v, 32 - m2, 32 - m1);
  }

  // ---------- blocks as common prefixes ----------

  lemma {:induction false} FloorIsMultiple(v: nat, k: nat) returns (q: nat)
    ensures Floor(v, k) == Pow2(k) * q
  {
    if k == 0 {
      q := v;
    } else {
      q := FloorIsMultiple(v / 2, k - 1);
      assert 2 * (Pow2(k - 1) * q) == (2 * Pow2(k - 1)) * q;
    }
  }

  lemma {:induction false} ProductGrows(p: nat, a: nat, b: nat)
    requires a <= b
    ensures p * a <= p * b
  {
    assert p * b == p * a + p * (b - a);
  }

  lemma AtMostQuotient(p: nat, a: nat, b: nat)
    requires p > 0 && p * a < p * b + p
    ensures a <= b
  {
    if a > b {
      ProductGrows(p, b + 1, a);
    }
  }

  lemma QuotientIs(v: nat, p: nat, q: nat)
    requires p > 0 && p * q <= v < p * q + p
    ensures v / p == q
  {
    var d := v / p;
    assert v == p * d + v % p;
    AtMostQuotient(p, d, q);
    AtMostQuotient(p, q, d);
  }

  /** An aligned block holds the addresses that agree with any of its own in the leading bits: those left
      when the host bits are dropped. */
  lemma CoversIsCommonPrefix(network: u32, mask: MaskLen, addr: u32, v: u32)
    requires Aligned(network, mask) && Covers(network, mask, addr)
    ensures Covers(network, mask, v) <==> v / Pow2(32 - mask) == addr / Pow2(32 - mask)
  {
    var k, p := 32 - mask, Pow2(32 - mask);
    FloorUnique(network, addr, k);
    var q := FloorIsMultiple(addr, k);
    QuotientIs(addr, p, q);
    var q' := FloorIsMultiple(v, k);
    QuotientIs(v, p, q');
    if Covers(network, mask, v) {
      QuotientIs(v, p, q);
    }
  }
}
