/** Machine integers, addresses and big-endian byte strings shared by every component. */
module Wire {

  type byte = x: int | 0 <= x < 0x100
  type u16 = x: int | 0 <= x < 0x1_0000
  type u32 = x: int | 0 <= x < 0x1_0000_0000
  type u64 = x: int | 0 <= x < 0x1_0000_0000_0000_0000
  type u128 = x: int | 0 <= x < 0x1_0000_0000_0000_0000_0000_0000_0000_0000
  type i64 = x: int | -0x8000_0000_0000_0000 <= x < 0x8000_0000_0000_0000
  type bytes = seq<byte>

  function Front<T>(s: seq<T>): seq<T> requires s != [] { s[..|s| - 1] }

  function Last<T>(s: seq<T>): T requires s != [] { s[|s| - 1] }

  /** Points in time and durations, in nanoseconds. */
  type Instant = int

  const SECOND: int := 1_000_000_000

  const TWO_TO_64: int := 0x1_0000_0000_0000_0000

  datatype Option<+T> = None | Some(value: T)

  datatype Result<+T, +E> = Ok(value: T) | Err(error: E)

  /** An address is the number its octets spell in network order. */
  datatype IpAddr = V4(v4: u32) | V6(v6: u128)

  datatype SocketAddr = SocketAddr(ip: IpAddr, port: u16)

  /** The loopback address 127.0.0.1. */
  const LOCALHOST: IpAddr := V4(0x7F00_0001)

  function Pow256(n: nat): (p: nat)
    ensures p > 0
  {
    if n == 0 then 1 else 256 * Pow256(n - 1)
  }

  lemma Pow256Values()
    ensures Pow256(2) == 0x1_0000
    ensures Pow256(4) == 0x1_0000_0000
    ensures Pow256(8) == TWO_TO_64
    ensures Pow256(16) == 0x1_0000_0000_0000_0000_0000_0000_0000_0000
  {
  }

  /** `v` as `n` octets, most significant first. */
  function ToBE(v: nat, n: nat): (s: bytes)
    ensures |s| == n
  {
    if n == 0 then [] else ToBE(v / 256, n - 1) + [v % 256]
  }

  function FromBE(s: bytes): (v: nat)
    ensures v < Pow256(|s|)
  {
    if s == [] then 0 else FromBE(s[..|s| - 1]) * 256 + s[|s| - 1]
  }

  lemma {:induction false} FromToBE(v: nat, n: nat)
    requires v < Pow256(n)
    ensures FromBE(ToBE(v, n)) == v
  {
    if n > 0 {
      FromToBE(v / 256, n - 1);
      assert ToBE(v, n)[..n - 1] == ToBE(v / 256, n - 1);
    }
  }

  lemma SplitOctet(v: nat, last: byte)
    ensures (v * 256 + last) / 256 == v && (v * 256 + last) % 256 == last
  {
  }

  lemma {:induction false} ToFromBE(s: bytes)
    ensures ToBE(FromBE(s), |s|) == s
  {
    if s != [] {
      var v, last := FromBE(s[..|s| - 1]), s[|s| - 1];
      ToFromBE(s[..|s| - 1]);
      SplitOctet(v, last);
      assert ToBE(v * 256 + last, |s|) == ToBE(v, |s| - 1) + [last];
      assert s == s[..|s| - 1] + [last];
    }
  }

  lemma Regroup(a: int, p: int)
    ensures a * p * 256 == a * (256 * p)
  {
  }

  /** The first octet is the most significant one. */
  lemma {:induction false} FirstOctetLeads(s: bytes)
    requires s != []
    ensures FromBE(s) == s[0] * Pow256(|s| - 1) + FromBE(s[1..])
  {
    if |s| > 1 {
      var front, first: int, p := s[..|s| - 1], s[0], Pow256(|s| - 2);
      FirstOctetLeads(front);
      assert front[1..] == s[1..][..|s| - 2];
      calc {
        FromBE(s);
        (first * p + FromBE(front[1..])) * 256 + s[|s| - 1];
        first * p * 256 + FromBE(s[1..]);
        { assert Pow256(|s| - 1) == 256 * p; Regroup(first, p); }
        first * Pow256(|s| - 1) + FromBE(s[1..]);
      }
    }
  }

  function Two(a: int, b: int): int { a * 0x100 + b }

  function Four(a: int, b: int, c: int, d: int): int { a * 0x100_0000 + b * 0x1_0000 + c * 0x100 + d }

  /** Two and four octets, spelt out. */
  lemma OctetsOfWords(s: bytes)
    ensures |s| == 2 ==> FromBE(s) == Two(s[0], s[1])
    ensures |s| == 4 ==> FromBE(s) == Four(s[0], s[1], s[2], s[3])
  {
    Pow256Values();
    assert Pow256(1) == 256 && Pow256(3) == 0x100_0000;
    if |s| == 2 {
      FirstOctetLeads(s);
    } else if |s| == 4 {
      FirstOctetLeads(s);
      FirstOctetLeads(s[1..]);
      FirstOctetLeads(s[1..][1..]);
    }
  }

  function BE16(v: u16): (s: bytes) ensures |s| == 2 { ToBE(v, 2) }

  function BE32(v: u32): (s: bytes) ensures |s| == 4 { ToBE(v, 4) }

  function BE64(v: u64): (s: bytes) ensures |s| == 8 { ToBE(v, 8) }

  function BE128(v: u128): (s: bytes) ensures |s| == 16 { ToBE(v, 16) }

  function Read16(s: bytes): (v: u16) requires |s| == 2 { Pow256Values(); FromBE(s) }

  function Read32(s: bytes): (v: u32) requires |s| == 4 { Pow256Values(); FromBE(s) }

  function Read64(s: bytes): (v: u64) requires |s| == 8 { Pow256Values(); FromBE(s) }

  function Read128(s: bytes): (v: u128) requires |s| == 16 { Pow256Values(); FromBE(s) }

  /** A whole number of turns of a 64-bit counter. */
  predicate WholeTurns(n: int) { n % TWO_TO_64 == 0 }

  /** Two counts agree in 64 bits exactly when they are whole turns apart. */
  lemma CountsAgree(a: nat, b: nat)
    requires a <= b
    ensures a % TWO_TO_64 == b % TWO_TO_64 <==> WholeTurns(b - a)
  {
    assert a == TWO_TO_64 * (a / TWO_TO_64) + a % TWO_TO_64;
    assert b == TWO_TO_64 * (b / TWO_TO_64) + b % TWO_TO_64;
    if a % TWO_TO_64 == b % TWO_TO_64 {
      assert b - a == TWO_TO_64 * (b / TWO_TO_64 - a / TWO_TO_64);
    }
  }

  /** The two's complement reading of a 64-bit word, and its inverse. */
  function AsSigned(v: u64): i64 {
    if v < 0x8000_0000_0000_0000 then v else v - TWO_TO_64
  }

  function AsUnsigned(v: i64): u64 {
    if v >= 0 then v else v + TWO_TO_64
  }

  /** Reading a word as signed changes it by nothing or 2^64, and so does the way back. */
  lemma TwosComplement(v: u64, w: i64)
    ensures WholeTurns(v - AsSigned(v)) && WholeTurns(AsUnsigned(w) - w)
    ensures AsSigned(v) < 0 <==> v >= 0x8000_0000_0000_0000
  {
  }

  /** Writing a word of 2, 4, 8 or 16 octets and reading it back are inverse both ways. */
  lemma Word16(v: u16, s: bytes)
    requires |s| == 2
    ensures Read16(BE16(v)) == v && BE16(Read16(s)) == s
  {
    Pow256Values();
    FromToBE(v, 2);
    ToFromBE(s);
  }

  lemma Word32(v: u32, s: bytes)
    requires |s| == 4
    ensures Read32(BE32(v)) == v && BE32(Read32(s)) == s
  {
    Pow256Values();
    FromToBE(v, 4);
    ToFromBE(s);
  }

  lemma Word64(v: u64, s: bytes)
    requires |s| == 8
    ensures Read64(BE64(v)) == v && BE64(Read64(s)) == s
  {
    Pow256Values();
    FromToBE(v, 8);
    ToFromBE(s);
  }

  lemma Word128(v: u128, s: bytes)
    requires |s| == 16
    ensures Read128(BE128(v)) == v && BE128(Read128(s)) == s
  {
    Pow256Values();
    FromToBE(v, 16);
    ToFromBE(s);
  }

  /** `s` with `part` written over it from offset `at`. */
  function Splice(s: bytes, at: nat, part: bytes): (r: bytes)
    requires at + |part| <= |s|
    ensures |r| == |s|
    ensures r[at..at + |part|] == part
    ensures forall i :: 0 <= i < |s| && !(at <= i < at + |part|) ==> r[i] == s[i]
  {
    s[..at] + part + s[at + |part|..]
  }

  /** `copy_from_slice` on part of a buffer. */
  method CopyFromSlice(buf: array<byte>, at: nat, part: bytes)
    requires at + |part| <= buf.Length
    modifies buf
    ensures buf[..] == Splice(old(buf[..]), at, part)
  {
    forall i | 0 <= i < |part| {
      buf[at + i] := part[i];
    }
  }
}
