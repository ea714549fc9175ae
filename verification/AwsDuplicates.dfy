/** When the compiled table still lists a range twice, told in terms of the list it was compiled from. */
module AwsDuplicates {
  import opened Wire
  import opened Cidr
  import opened AwsRegions

  /** The input ranges for one block, in list order. */
  function RangesAt(ps: seq<RegionPrefix>, network: u32, maskLen: MaskLen): seq<RegionPrefix> {
    if ps == [] then []
    else
      (if ps[0].network == network && ps[0].maskLen == maskLen then [ps[0]] else []) +
      RangesAt(ps[1..], network, maskLen)
  }

  predicate KeyIs(p: CompiledPrefix, network: u32, maskLen: MaskLen) {
    p.network == network && p.maskLen == maskLen
  }

  /** The entries of this key are those from `lo` up to `hi`. */
  ghost predicate IsRun(s: seq<CompiledPrefix>, network: u32, maskLen: MaskLen, lo: nat, hi: nat) {
    && lo <= hi <= |s| && WithKey(s, network, maskLen) == s[lo..hi]
    && forall i :: 0 <= i < |s| ==> (KeyIs(s[i], network, maskLen) <==> lo <= i < hi)
  }

  lemma RunAfterOther(s: seq<CompiledPrefix>, network: u32, maskLen: MaskLen, lo: nat, hi: nat)
    requires s != [] && IsRun(s[1..], network, maskLen, lo, hi) && !KeyIs(s[0], network, maskLen)
    ensures IsRun(s, network, maskLen, lo + 1, hi + 1)
  {
  }

  lemma RunFromFirst(s: seq<CompiledPrefix>, network: u32, maskLen: MaskLen, hi: nat)
    requires s != [] && IsRun(s[1..], network, maskLen, 0, hi) && KeyIs(s[0], network, maskLen)
    ensures IsRun(s, network, maskLen, 0, hi + 1)
  {
  }

  lemma KeyLasts(s: seq<CompiledPrefix>, network: u32, maskLen: MaskLen, j: nat)
    requires SortedByKey(s) && 0 < j < |s| && KeyIs(s[0], network, maskLen) && KeyIs(s[j], network, maskLen)
    ensures KeyIs(s[1], network, maskLen)
  {
  }

  /** In a sorted table the entries of one key stand together. */
  lemma {:induction false} KeyRun(s: seq<CompiledPrefix>, network: u32, maskLen: MaskLen) returns (lo: nat, hi: nat)
    requires SortedByKey(s)
    ensures IsRun(s, network, maskLen, lo, hi)
  {
    if s == [] {
      lo, hi := 0, 0;
    } else {
      lo, hi := KeyRun(s[1..], network, maskLen);
      if !KeyIs(s[0], network, maskLen) {
        RunAfterOther(s, network, maskLen, lo, hi);
        lo, hi := lo + 1, hi + 1;
      } else {
        if lo == hi {
          lo, hi := 0, 0;
        } else {
          assert s[1..][lo] == s[lo + 1] && s[1..][0] == s[1];
          KeyLasts(s, network, maskLen, lo + 1);
        }
        RunFromFirst(s, network, maskLen, hi);
        lo, hi := 0, hi + 1;
      }
    }
  }

  ghost predicate GroupedInEachKey(s: seq<CompiledPrefix>) {
    forall n: u32, m: MaskLen :: Grouped(WithKey(s, n, m))
  }

  ghost predicate GroupedInEachBlock(ps: seq<RegionPrefix>) {
    forall n: u32, m: MaskLen :: Grouped(RangesAt(ps, n, m))
  }

  lemma RunIsGrouped(s: seq<CompiledPrefix>, n: u32, m: MaskLen)
    requires SortedByKey(s) && Grouped(s)
    ensures Grouped(WithKey(s, n, m))
  {
    var lo, hi := KeyRun(s, n, m);
    var run := s[lo..hi];
    forall k | 0 < k < |run| && run[k] in run[..k] ensures run[k - 1] == run[k] {
      assert s[lo + k] in s[..lo + k];
    }
  }

  lemma EqualNeighbour(s: seq<CompiledPrefix>, i: nat, k: nat)
    requires SortedByKey(s) && GroupedInEachKey(s) && i < k < |s| && s[i] == s[k]
    ensures s[k - 1] == s[k]
  {
    var lo, hi := KeyRun(s, s[k].network, s[k].maskLen);
    var run := s[lo..hi];
    assert Grouped(WithKey(s, s[k].network, s[k].maskLen));
    assert KeyIs(s[i], s[k].network, s[k].maskLen) && KeyIs(s[k], s[k].network, s[k].maskLen);
    assert run[..k - lo][i - lo] == run[k - lo];
  }

  /** A sorted table keeps equal entries together exactly when each key's entries do. */
  lemma GroupedByKey(s: seq<CompiledPrefix>)
    requires SortedByKey(s)
    ensures Grouped(s) <==> GroupedInEachKey(s)
  {
    if Grouped(s) {
      forall n: u32, m: MaskLen ensures Grouped(WithKey(s, n, m)) {
        RunIsGrouped(s, n, m);
      }
    }
    if GroupedInEachKey(s) {
      forall k | 0 < k < |s| && s[k] in s[..k] ensures s[k - 1] == s[k] {
        var i :| 0 <= i < k && s[i] == s[k];
        EqualNeighbour(s, i, k);
      }
    }
  }

  lemma {:induction false} StoredRun(compiled: seq<CompiledPrefix>, regions: seq<string>, ps: seq<RegionPrefix>,
                                     n: u32, m: MaskLen)
    requires StoresAll(compiled, regions, ps)
    ensures StoresAll(WithKey(compiled, n, m), regions, RangesAt(ps, n, m))
  {
    if ps != [] {
      assert Stores(compiled[0], regions, ps[0]);
      forall i | 0 <= i < |ps| - 1 ensures Stores(compiled[1..][i], regions, ps[1..][i]) {
        assert Stores(compiled[i + 1], regions, ps[i + 1]);
      }
      StoredRun(compiled[1..], regions, ps[1..], n, m);
    }
  }

  /** Interning tells regions apart, so entries are equal exactly when the ranges they stand for are. */
  lemma {:induction false} GroupedAlike(compiled: seq<CompiledPrefix>, regions: seq<string>, ps: seq<RegionPrefix>)
    requires Distinct(regions) && StoresAll(compiled, regions, ps)
    ensures Grouped(compiled) <==> Grouped(ps)
  {
  }

  /**
   The table lists no range twice exactly when, for every block, the input lists its equal ranges one
   after another among the ranges of that block. The sort key leaves the region out, so a block listed
   for one region, then another, then the first again keeps its duplicate.
   */
  lemma TableHasNoDuplicatesExactlyWhen(t: AwsLookup, ps: seq<RegionPrefix>)
    requires Distinct(t.regions) && CompiledFrom(t, ps)
    ensures Distinct(t.prefixes) <==> GroupedInEachBlock(ps)
  {
    var compiled :| StoresAll(compiled, t.regions, ps) && t.prefixes == Dedup(SortByKey(compiled));
    var sorted := SortByKey(compiled);
    DedupLeavesNoDuplicates(sorted);
    GroupedByKey(sorted);
    forall n: u32, m: MaskLen ensures Grouped(WithKey(sorted, n, m)) <==> Grouped(RangesAt(ps, n, m)) {
      SortIsStable(compiled, n, m);
      StoredRun(compiled, t.regions, ps, n, m);
      GroupedAlike(WithKey(compiled, n, m), t.regions, RangesAt(ps, n, m));
    }
  }

  function Interleaved(network: u32, maskLen: MaskLen, a: string, b: string): seq<RegionPrefix> {
    [RegionPrefix(network, maskLen, a), RegionPrefix(network, maskLen, b), RegionPrefix(network, maskLen, a)]
  }

  /** Such a list: one block under region a, then b, then a again. */
  lemma InterleavedRegionsKeepADuplicate(t: AwsLookup, network: u32, maskLen: MaskLen, a: string, b: string)
    requires a != b && Distinct(t.regions)
    requires CompiledFrom(t, Interleaved(network, maskLen, a, b))
    ensures !Distinct(t.prefixes)
  {
    var ps := Interleaved(network, maskLen, a, b);
    assert ps[1..] == [ps[1], ps[2]] && ps[1..][1..] == [ps[2]];
    assert RangesAt([ps[2]], network, maskLen) == [ps[2]];
    assert RangesAt(ps, network, maskLen) == ps;
    assert ps[..2][0] == ps[2];
    assert !Grouped(ps);
    TableHasNoDuplicatesExactlyWhen(t, ps);
  }
}
