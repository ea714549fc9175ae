/** How far the AWS lookup agrees with longest-prefix match (section 5.1 of RFC 4632). */
module AwsMatching {
  import opened Wire
  import opened Cidr
  import opened AwsRegions

  ghost predicate WellFormed(ps: seq<CompiledPrefix>) {
    && SortedByKey(ps)
    && forall p :: p in ps ==> Aligned(p.network, p.maskLen)
  }

  /** Of two entries holding an address, the later one in the table has the longer or equal mask. */
  lemma LaterCoverIsLonger(ps: seq<CompiledPrefix>, v: u32, i: nat, j: nat)
    requires WellFormed(ps) && i <= j < |ps| && ps[i].Has(v) && ps[j].Has(v)
    ensures ps[i].maskLen <= ps[j].maskLen
  {
    if i < j && ps[j].maskLen < ps[i].maskLen {
      assert ps[i] in ps && ps[j] in ps;
      assert ps[i].KeyAtMost(ps[j]);
      NestedOrDisjoint(ps[j].network, ps[j].maskLen, ps[i].network, ps[i].maskLen, v);
    }
  }

  /** The first entry holding the address that the backward walk meets already has the longest mask
      of all that start no later: the rest of the walk never changes the answer. */
  lemma {:induction false} FirstHitIsFinal(ps: seq<CompiledPrefix>, v: u32, idx: nat, m: nat, n: nat)
    requires WellFormed(ps) && idx < |ps| && m <= n <= idx + 1
    requires WalkBack(ps, v, idx, m).Some?
    ensures WalkBack(ps, v, idx, n) == WalkBack(ps, v, idx, m)
  {
    if m < n {
      FirstHitIsFinal(ps, v, idx, m, n - 1);
      var i := WalkFindsHit(ps, v, idx, m);
      if ps[idx - (n - 1)].Has(v) {
        LaterCoverIsLonger(ps, v, idx - (n - 1), i);
      }
    }
  }

  lemma {:induction false} LastCover(ps: seq<CompiledPrefix>, v: u32, i: nat) returns (last: nat)
    requires i < |ps| && ps[i].Has(v)
    ensures i <= last < |ps| && ps[last].Has(v)
    ensures forall j :: last < j < |ps| ==> !ps[j].Has(v)
    decreases |ps| - i
  {
    if j :| i < j < |ps| && ps[j].Has(v) {
      last := LastCover(ps, v, j);
    } else {
      last := i;
    }
  }

  /** Entry `i` holds `v` but has 32 or more successors that start at or before `v`. */
  predicate FarBehind(ps: seq<CompiledPrefix>, v: u32, i: nat) {
    i + WALK_LIMIT < |ps| && ps[i].Has(v) && ps[i + WALK_LIMIT].network <= v
  }

  predicate HeldLater(ps: seq<CompiledPrefix>, v: u32, i: nat) {
    exists j :: i < j < |ps| && ps[j].Has(v)
  }

  /**
   What a caller can check in the table before trusting the lookup of `v`: ranges starting exactly
   at `v` share one mask, and an entry holding `v` that has 32 or more successors starting at or
   before `v` is not the last entry holding it.
   */
  ghost predicate SearchSuffices(ps: seq<CompiledPrefix>, v: u32) {
    && (forall i, j :: 0 <= i < |ps| && 0 <= j < |ps| && ps[i].network == v && ps[j].network == v ==>
          ps[i].maskLen == ps[j].maskLen)
    && (forall i: nat :: FarBehind(ps, v, i) ==> HeldLater(ps, v, i))
  }

  /** Every outcome the lookup can have for `v` is a longest match. */
  ghost predicate AlwaysLongestMatch(ps: seq<CompiledPrefix>, v: u32) {
    forall idx: nat :: SearchIndex(ps, v, idx) ==> LongestMatch(ps, v, WalkBack(ps, v, idx, Window(idx)))
  }

  /** The lookup is longest-prefix match for `v` if and only if the table passes that check. */
  lemma LookupIsLongestMatchExactlyWhen(ps: seq<CompiledPrefix>, v: u32)
    requires WellFormed(ps)
    ensures AlwaysLongestMatch(ps, v) <==> SearchSuffices(ps, v)
  {
    if SearchSuffices(ps, v) {
      forall idx: nat | SearchIndex(ps, v, idx)
        ensures LongestMatch(ps, v, WalkBack(ps, v, idx, Window(idx)))
      {
        if ps[idx].network == v {
          ExactStart(ps, v, idx);
        } else {
          BetweenStarts(ps, v, idx);
        }
      }
    } else {
      CheckIsNecessary(ps, v);
    }
  }

  lemma {:induction false} ExactStart(ps: seq<CompiledPrefix>, v: u32, idx: nat)
    requires WellFormed(ps) && SearchSuffices(ps, v) && idx < |ps| && ps[idx].network == v
    ensures LongestMatch(ps, v, WalkBack(ps, v, idx, Window(idx)))
  {
    assert ps[idx].Has(v);
    forall j | 0 <= j < |ps| && ps[j].Has(v) ensures ps[j].maskLen <= ps[idx].maskLen {
      if j <= idx {
        LaterCoverIsLonger(ps, v, j, idx);
      } else {
        assert ps[idx].KeyAtMost(ps[j]);
      }
    }
    WalkIsBestOfWindow(ps, v, idx, Window(idx), idx);
    var i := WalkFindsHit(ps, v, idx, Window(idx));
  }

  lemma BetweenStarts(ps: seq<CompiledPrefix>, v: u32, idx: nat)
    requires WellFormed(ps) && SearchSuffices(ps, v) && SearchIndex(ps, v, idx) && ps[idx].network != v
    ensures LongestMatch(ps, v, WalkBack(ps, v, idx, Window(idx)))
  {
    var best := WalkBack(ps, v, idx, Window(idx));
    if best.Some? {
      var i := WalkFindsHit(ps, v, idx, Window(idx));
    }
    forall j | 0 <= j < |ps| && ps[j].Has(v) ensures best.Some? && ps[j].maskLen <= best.value.maskLen {
      assert j <= idx;
      if idx - Window(idx) < j {
        WalkIsBestOfWindow(ps, v, idx, Window(idx), j);
      } else if best.Some? {
        var i := WalkFindsHit(ps, v, idx, Window(idx));
        LaterCoverIsLonger(ps, v, j, i);
      } else {
        var last := LastCover(ps, v, j);
        LastHolderIsNear(ps, v, idx, last);
        WalkIsBestOfWindow(ps, v, idx, Window(idx), last);
      }
    }
  }

  lemma LastHolderIsNear(ps: seq<CompiledPrefix>, v: u32, idx: nat, last: nat)
    requires WellFormed(ps) && SearchSuffices(ps, v) && SearchIndex(ps, v, idx)
    requires last <= idx && ps[last].Has(v) && forall j :: last < j < |ps| ==> !ps[j].Has(v)
    ensures idx < last + WALK_LIMIT
  {
    assert !HeldLater(ps, v, last);
    assert !FarBehind(ps, v, last);
    if last + WALK_LIMIT <= idx {
      StartsInOrder(ps, last + WALK_LIMIT, idx);
    }
  }

  lemma NoneStartsAt(ps: seq<CompiledPrefix>, v: u32, i: nat, j: nat)
    requires SortedByKey(ps) && FarBehind(ps, v, i) && !HeldLater(ps, v, i) && j < |ps|
    ensures ps[j].network != v
  {
  }

  lemma StartsInOrder(ps: seq<CompiledPrefix>, i: nat, j: nat)
    requires SortedByKey(ps) && i <= j < |ps|
    ensures ps[i].network <= ps[j].network
  {
  }

  lemma CheckIsNecessary(ps: seq<CompiledPrefix>, v: u32)
    requires WellFormed(ps) && !SearchSuffices(ps, v)
    ensures !AlwaysLongestMatch(ps, v)
  {
    if i, j :|
      && 0 <= i < |ps| && 0 <= j < |ps|
      && ps[i].network == v && ps[j].network == v && ps[i].maskLen < ps[j].maskLen
    {
      // The search may stop at the shorter of two ranges that start at v.
      assert ps[i].Has(v) && ps[j].Has(v) && SearchIndex(ps, v, i);
      var best := WalkBack(ps, v, i, Window(i));
      WalkIsBestOfWindow(ps, v, i, Window(i), i);
      var k := WalkFindsHit(ps, v, i, Window(i));
      LaterCoverIsLonger(ps, v, k, i);
      assert !LongestMatch(ps, v, best);
    } else {
      var i: nat :| FarBehind(ps, v, i) && !HeldLater(ps, v, i);
      var idx := FarHolderIsMissed(ps, v, i);
    }
  }

  /** The walk starts too far beyond the only range that holds `v`. */
  lemma FarHolderIsMissed(ps: seq<CompiledPrefix>, v: u32, i: nat) returns (idx: nat)
    requires WellFormed(ps) && FarBehind(ps, v, i) && !HeldLater(ps, v, i)
    ensures SearchIndex(ps, v, idx) && WalkBack(ps, v, idx, Window(idx)) == None
  {
    idx := LastStart(ps, v, i + WALK_LIMIT);
    forall j | 0 <= j < |ps| ensures ps[j].network != v {
      NoneStartsAt(ps, v, i, j);
    }
    if WalkBack(ps, v, idx, Window(idx)).Some? {
      var k := WalkFindsHit(ps, v, idx, Window(idx));
    }
  }

  lemma {:induction false} LastStart(ps: seq<CompiledPrefix>, v: u32, i: nat) returns (idx: nat)
    requires SortedByKey(ps) && i < |ps| && ps[i].network <= v
    ensures i <= idx < |ps| && ps[idx].network <= v
    ensures forall j :: idx < j < |ps| ==> ps[j].network > v
    decreases |ps| - i
  {
    if i + 1 < |ps| && ps[i + 1].network <= v {
      idx := LastStart(ps, v, i + 1);
    } else {
      idx := i;
      forall j | idx < j < |ps| ensures ps[j].network > v {
        if j > i + 1 {
          assert ps[i + 1].KeyAtMost(ps[j]);
        }
      }
    }
  }

  /** A condition on the table alone under which every address is looked up correctly: no two ranges
      share a start, and no range has 32 later ranges starting inside it. */
  lemma SparseTableSuffices(ps: seq<CompiledPrefix>, v: u32)
    requires WellFormed(ps)
    requires forall i, j :: 0 <= i < j < |ps| ==> ps[i].network != ps[j].network
    requires forall i, j :: 0 <= i < j < |ps| && j - i >= 32 ==> !ps[i].Has(ps[j].network)
    ensures AlwaysLongestMatch(ps, v)
  {
    forall i: nat ensures !FarBehind(ps, v, i) {
      if FarBehind(ps, v, i) {
        assert ps[i].KeyAtMost(ps[i + WALK_LIMIT]);
        assert ps[i].Has(ps[i + WALK_LIMIT].network);
      }
    }
    LookupIsLongestMatchExactlyWhen(ps, v);
  }

  // ---------- against the raw list ----------

  predicate RangeHas(r: RegionPrefix, v: u32) { Covers(r.network, r.maskLen, v) }

  /** `r` names the region of a most specific parsed range holding the address, if there is one. */
  ghost predicate ParsedLongestMatch(raw: seq<RawPrefix>, v: u32, r: Option<string>) {
    match r
    case None => forall p :: p in Parsed(raw) ==> !RangeHas(p, v)
    case Some(name) =>
      exists p :: p in Parsed(raw) && RangeHas(p, v) && p.region == name
                  && forall q :: q in Parsed(raw) && RangeHas(q, v) ==> q.maskLen <= p.maskLen
  }

  /** The postcondition of loading. */
  ghost predicate Compiles(raw: seq<RawPrefix>, t: AwsLookup) {
    && t.Valid()
    && forall r :: t.Lists(r) <==> IsEntry(raw, r)
  }

  /** Both mask and address parse, and `v` agrees with the address in the bits the mask counts. */
  predicate EntryHolds(p: RawPrefix, v: u32) {
    && p.cidr.Cidr? && p.cidr.maskLen <= 32
    && v / Pow2(32 - p.cidr.maskLen) == p.cidr.addr / Pow2(32 - p.cidr.maskLen)
  }

  /** `r` names the region of an entry of the list that holds the address, none that does having a longer
      mask; it names none when no entry does. */
  ghost predicate RawLongestMatch(raw: seq<RawPrefix>, v: u32, r: Option<string>) {
    match r
    case None => forall i :: 0 <= i < |raw| ==> !EntryHolds(raw[i], v)
    case Some(name) =>
      exists i :: 0 <= i < |raw| && EntryHolds(raw[i], v) && raw[i].region == name
                  && forall j :: 0 <= j < |raw| && EntryHolds(raw[j], v) ==> raw[j].cidr.maskLen <= raw[i].cidr.maskLen
  }

  /** The range an entry parses to. */
  function RangeOf(p: RawPrefix): (r: RegionPrefix)
    requires p.cidr.Cidr? && p.cidr.maskLen <= 32
    ensures ParsesTo(p, r) && r.maskLen == p.cidr.maskLen && r.region == p.region
  {
    var (network, maskLen) := ParseCidr(p.cidr).value;
    RegionPrefix(network, maskLen, p.region)
  }

  lemma EntryIsRange(raw: seq<RawPrefix>, i: nat, v: u32)
    requires i < |raw|
    ensures EntryHolds(raw[i], v) <==>
            raw[i].cidr.Cidr? && raw[i].cidr.maskLen <= 32 && RangeHas(RangeOf(raw[i]), v)
    ensures EntryHolds(raw[i], v) ==> RangeOf(raw[i]) in Parsed(raw)
  {
    if raw[i].cidr.Cidr? && raw[i].cidr.maskLen <= 32 {
      var r := RangeOf(raw[i]);
      CoversIsCommonPrefix(r.network, r.maskLen, raw[i].cidr.addr, v);
      ParsedAreEntries(raw, r);
    }
  }

  lemma RangeIsEntry(raw: seq<RawPrefix>, r: RegionPrefix, v: u32) returns (i: nat)
    requires r in Parsed(raw) && RangeHas(r, v)
    ensures i < |raw| && EntryHolds(raw[i], v) && RangeOf(raw[i]) == r
  {
    ParsedAreEntries(raw, r);
    i :| 0 <= i < |raw| && ParsesTo(raw[i], r);
    EntryIsRange(raw, i, v);
  }

  /** Matching the parsed ranges is matching the entries. */
  lemma ParsedMatchIsRawMatch(raw: seq<RawPrefix>, v: u32, r: Option<string>)
    ensures ParsedLongestMatch(raw, v, r) <==> RawLongestMatch(raw, v, r)
  {
    forall i | 0 <= i < |raw|
      ensures EntryHolds(raw[i], v) ==> RangeOf(raw[i]) in Parsed(raw) && RangeHas(RangeOf(raw[i]), v)
    {
      EntryIsRange(raw, i, v);
    }
    if ParsedLongestMatch(raw, v, r) && r.Some? {
      var p :| p in Parsed(raw) && RangeHas(p, v) && p.region == r.value
               && forall q :: q in Parsed(raw) && RangeHas(q, v) ==> q.maskLen <= p.maskLen;
      var i := RangeIsEntry(raw, p, v);
    }
    if RawLongestMatch(raw, v, r) {
      forall q | q in Parsed(raw) && RangeHas(q, v)
        ensures exists j :: 0 <= j < |raw| && EntryHolds(raw[j], v) && RangeOf(raw[j]) == q
      {
        var j := RangeIsEntry(raw, q, v);
      }
    }
  }

  /** Some range starting at `v` with the longest mask of those has the region of entry `i`. */
  ghost predicate SharesLongestRegion(ps: seq<CompiledPrefix>, v: u32, i: nat)
    requires i < |ps|
  {
    exists j :: 0 <= j < |ps| && LongestStart(ps, v, j) && ps[j].regionIdx == ps[i].regionIdx
  }

  ghost predicate LongestStart(ps: seq<CompiledPrefix>, v: u32, j: nat)
    requires j < |ps|
  {
    ps[j].network == v && forall k :: 0 <= k < |ps| && ps[k].network == v ==> ps[k].maskLen <= ps[j].maskLen
  }

  /** The check again, for a caller who only wants the region: ranges starting at `v` may differ in mask
      as long as each is of the region of a longest one. */
  ghost predicate RegionsSuffice(ps: seq<CompiledPrefix>, v: u32) {
    && (forall i :: 0 <= i < |ps| && ps[i].network == v ==> SharesLongestRegion(ps, v, i))
    && (forall i: nat :: FarBehind(ps, v, i) ==> HeldLater(ps, v, i))
  }

  /** Every region the lookup can report for `v` is that of a longest match in the raw list. */
  ghost predicate AnswersAreLongest(raw: seq<RawPrefix>, t: AwsLookup, v: u32)
    requires t.Valid()
  {
    forall r :: t.Answers(V4(v), r) ==> RawLongestMatch(raw, v, r)
  }

  /**
   From the raw list to the answer: whatever a loaded table can report for an address is the region of
   a longest match in the list it was loaded from, if and only if the table passes the region check.
   */
  lemma AnswerMatchesTheRawListExactlyWhen(raw: seq<RawPrefix>, t: AwsLookup, v: u32)
    requires Compiles(raw, t)
    ensures AnswersAreLongest(raw, t, v) <==> RegionsSuffice(t.prefixes, v)
  {
    if RegionsSuffice(t.prefixes, v) {
      forall r | t.Answers(V4(v), r) ensures RawLongestMatch(raw, v, r) {
        ParsedMatchIsRawMatch(raw, v, r);
        var idx: nat :| SearchIndex(t.prefixes, v, idx) && r == t.RegionAt(v, idx);
        RegionIsLongest(raw, t, v, idx);
      }
    }
    if AnswersAreLongest(raw, t, v) {
      forall i | 0 <= i < |t.prefixes| && t.prefixes[i].network == v ensures SharesLongestRegion(t.prefixes, v, i) {
        StartIsReported(t, v, i);
        assert t.Answers(V4(v), t.RegionAt(v, i));
        ParsedMatchIsRawMatch(raw, v, t.RegionAt(v, i));
        ReportedStartIsLongest(raw, t, v, i);
      }
      forall i: nat | FarBehind(t.prefixes, v, i) ensures HeldLater(t.prefixes, v, i) {
        if !HeldLater(t.prefixes, v, i) {
          MissedHolderShows(raw, t, v, i);
        }
      }
    }
  }

  lemma MissedHolderShows(raw: seq<RawPrefix>, t: AwsLookup, v: u32, i: nat)
    requires Compiles(raw, t) && FarBehind(t.prefixes, v, i) && !HeldLater(t.prefixes, v, i)
    ensures !AnswersAreLongest(raw, t, v)
  {
    var idx := FarHolderIsMissed(t.prefixes, v, i);
    assert t.Answers(V4(v), t.RegionAt(v, idx)) && t.RegionAt(v, idx) == None;
    EntryIsRaw(raw, t, i);
    assert RangeHas(Named(t.prefixes[i], t.regions), v);
    assert !ParsedLongestMatch(raw, v, None);
    ParsedMatchIsRawMatch(raw, v, None);
  }

  lemma EntryIsRaw(raw: seq<RawPrefix>, t: AwsLookup, i: nat)
    requires Compiles(raw, t) && i < |t.prefixes|
    ensures t.prefixes[i].regionIdx < |t.regions| && Named(t.prefixes[i], t.regions) in Parsed(raw)
  {
    assert t.prefixes[i] in t.prefixes;
    assert t.Lists(Named(t.prefixes[i], t.regions));
    ParsedAreEntries(raw, Named(t.prefixes[i], t.regions));
  }

  /** A search that stops at a range starting at `v` reports that range's region. */
  lemma StartIsReported(t: AwsLookup, v: u32, i: nat)
    requires t.Valid() && i < |t.prefixes| && t.prefixes[i].network == v
    ensures SearchIndex(t.prefixes, v, i) && t.prefixes[i] in t.prefixes
    ensures t.RegionAt(v, i) == Some(t.regions[t.prefixes[i].regionIdx])
  {
    var ps := t.prefixes;
    assert ps[i].Has(v);
    assert WalkBack(ps, v, i, 0) == None;
    assert WalkBack(ps, v, i, 1) == Some(Best(ps[i].maskLen, ps[i].regionIdx));
    FirstHitIsFinal(ps, v, i, 1, Window(i));
    HitInRange(ps, t.regions, v, i, Window(i));
  }

  /** A raw range is listed by some entry. */
  lemma RawIsEntry(raw: seq<RawPrefix>, t: AwsLookup, p: RegionPrefix) returns (j: nat)
    requires Compiles(raw, t) && p in Parsed(raw)
    ensures j < |t.prefixes| && t.prefixes[j].regionIdx < |t.regions| && Named(t.prefixes[j], t.regions) == p
  {
    ParsedAreEntries(raw, p);
    assert t.Lists(p);
    var e :| e in t.prefixes && Named(e, t.regions) == p;
    j :| 0 <= j < |t.prefixes| && t.prefixes[j] == e;
  }

  lemma LongestRawIsLongestStart(raw: seq<RawPrefix>, t: AwsLookup, v: u32, i: nat, j: nat)
    requires Compiles(raw, t) && i < |t.prefixes| && j < |t.prefixes|
    requires t.prefixes[i].network == v && t.prefixes[j].Has(v)
    requires forall q :: q in Parsed(raw) && RangeHas(q, v) ==> q.maskLen <= t.prefixes[j].maskLen
    ensures LongestStart(t.prefixes, v, j)
  {
    var ps := t.prefixes;
    forall k | 0 <= k < |ps| && ps[k].network == v ensures ps[k].maskLen <= ps[j].maskLen {
      EntryIsRaw(raw, t, k);
      assert RangeHas(Named(ps[k], t.regions), v);
    }
    assert ps[i] in ps && ps[j] in ps;
    NestedOrDisjoint(ps[i].network, ps[i].maskLen, ps[j].network, ps[j].maskLen, v);
  }

  lemma ReportedStartIsLongest(raw: seq<RawPrefix>, t: AwsLookup, v: u32, i: nat)
    requires Compiles(raw, t) && i < |t.prefixes| && t.prefixes[i].network == v
    requires t.prefixes[i] in t.prefixes && ParsedLongestMatch(raw, v, Some(t.regions[t.prefixes[i].regionIdx]))
    ensures SharesLongestRegion(t.prefixes, v, i)
  {
    var p :| p in Parsed(raw) && RangeHas(p, v) && p.region == t.regions[t.prefixes[i].regionIdx]
             && forall q :: q in Parsed(raw) && RangeHas(q, v) ==> q.maskLen <= p.maskLen;
    var j := RawIsEntry(raw, t, p);
    LongestRawIsLongestStart(raw, t, v, i, j);
  }

  lemma LongestStartIsLongest(ps: seq<CompiledPrefix>, v: u32, j: nat)
    requires WellFormed(ps) && j < |ps| && LongestStart(ps, v, j)
    ensures LongestMatch(ps, v, Some(Best(ps[j].maskLen, ps[j].regionIdx)))
  {
    assert HitAt(ps, v, j, Best(ps[j].maskLen, ps[j].regionIdx));
    forall k | 0 <= k < |ps| && ps[k].Has(v) ensures ps[k].maskLen <= ps[j].maskLen {
      if k <= j {
        LaterCoverIsLonger(ps, v, k, j);
      } else {
        assert ps[j].KeyAtMost(ps[k]);
      }
    }
  }

  lemma RegionIsLongest(raw: seq<RawPrefix>, t: AwsLookup, v: u32, idx: nat)
    requires Compiles(raw, t) && RegionsSuffice(t.prefixes, v) && SearchIndex(t.prefixes, v, idx)
    ensures ParsedLongestMatch(raw, v, t.RegionAt(v, idx))
  {
    var ps := t.prefixes;
    if ps[idx].network == v {
      StartIsReported(t, v, idx);
      var j :| 0 <= j < |ps| && LongestStart(ps, v, j) && ps[j].regionIdx == ps[idx].regionIdx;
      LongestStartIsLongest(ps, v, j);
      LongestInRaw(raw, t, v, Some(Best(ps[j].maskLen, ps[j].regionIdx)), t.RegionAt(v, idx));
    } else {
      BetweenStarts(ps, v, idx);
      HitInRange(ps, t.regions, v, idx, Window(idx));
      LongestInRaw(raw, t, v, WalkBack(ps, v, idx, Window(idx)), t.RegionAt(v, idx));
    }
  }

  lemma LongestInRaw(raw: seq<RawPrefix>, t: AwsLookup, v: u32, best: Option<Best>, r: Option<string>)
    requires Compiles(raw, t) && LongestMatch(t.prefixes, v, best)
    requires match best
             case None => r == None
             case Some(b) => b.regionIdx < |t.regions| && r == Some(t.regions[b.regionIdx])
    ensures ParsedLongestMatch(raw, v, r)
  {
    var ps := t.prefixes;
    forall q | q in Parsed(raw) && RangeHas(q, v)
      ensures best.Some? && q.maskLen <= best.value.maskLen
    {
      ParsedAreEntries(raw, q);
      assert t.Lists(q);
      var p :| p in ps && Named(p, t.regions) == q;
      var i :| 0 <= i < |ps| && ps[i] == p;
      assert ps[i].Has(v);
    }
    if best.Some? {
      var i: nat :| HitAt(ps, v, i, best.value);
      var p := Named(ps[i], t.regions);
      assert t.Lists(p);
      ParsedAreEntries(raw, p);
      assert RangeHas(p, v);
    }
  }

  // ---------- addresses the lookup gets wrong ----------

  /** A /8 (such as 10.0.0.0/8) followed by the 32 single addresses after its first. */
  function CrowdedBlock(start: u32): seq<CompiledPrefix>
    requires start <= 0xFF00_0000
  {
    seq(33, i requires 0 <= i < 33 => if i == 0 then CompiledPrefix(start, 8, 0) else CompiledPrefix(start + i, 32, 1))
  }

  /** The 34th address of the /8 lies in it, but the lookup finds nothing: 32 other ranges start in between. */
  lemma CrowdedBlockIsMissed(start: u32, idx: nat)
    requires start <= 0xFF00_0000 && Aligned(start, 8)
    requires SearchIndex(CrowdedBlock(start), start + 33, idx)
    ensures WellFormed(CrowdedBlock(start))
    ensures CrowdedBlock(start)[0].Has(start + 33)
    ensures WalkBack(CrowdedBlock(start), start + 33, idx, Window(idx)) == None
  {
    Pow2Values();
    var ps := CrowdedBlock(start);
    assert forall i :: 0 < i < 33 ==> ps[i] == CompiledPrefix(start + i, 32, 1);
    assert ps[32].network <= start + 33;
    if WalkBack(ps, start + 33, idx, Window(idx)).Some? {
      var i := WalkFindsHit(ps, start + 33, idx, Window(idx));
    }
  }

  lemma LongerMaskStaysAligned(n: u32, m1: MaskLen, m2: MaskLen)
    requires Aligned(n, m1) && m1 <= m2
    ensures Aligned(n, m2)
  {
    FloorNests(n, 32 - m2, 32 - m1);
  }

  /** A /8 and a /16 that start together: looking up their first address may stop at the /8 and
      report its region. */
  lemma SharedStartMayLoseTheLongerMask(start: u32)
    requires Aligned(start, 8)
    ensures var ps := [CompiledPrefix(start, 8, 0), CompiledPrefix(start, 16, 1)];
            && WellFormed(ps)
            && ps[1].Has(start)
            && SearchIndex(ps, start, 0)
            && WalkBack(ps, start, 0, Window(0)) == Some(Best(8, 0))
  {
    var ps := [CompiledPrefix(start, 8, 0), CompiledPrefix(start, 16, 1)];
    LongerMaskStaysAligned(start, 8, 16);
    assert ps[0].Has(start);
    assert WalkBack(ps, start, 0, 0) == None;
  }
}
