/**
 The AWS region index: compiling a list of CIDR ranges into a sorted, region-interned table, and
 looking an address up in it by binary search followed by a bounded backward walk.
 */
module AwsRegions {
  import opened Wire
  import opened Cidr

  /** How far back the lookup walks. */
  const WALK_LIMIT := 32

  /** A `network/mask` string after parsing its two numbers. */
  datatype CidrText = Garbled | Cidr(addr: u32, maskLen: byte)

  datatype RawPrefix = RawPrefix(cidr: CidrText, region: string)

  /** A range as the input means it: the region by name. */
  datatype RegionPrefix = RegionPrefix(network: u32, maskLen: MaskLen, region: string)

  /** A range as the table stores it: the region by index. */
  datatype CompiledPrefix = CompiledPrefix(network: u32, maskLen: MaskLen, regionIdx: nat) {
    predicate Has(v: u32) { Covers(network, maskLen, v) }

    /** The sort key (network, maskLen), compared lexicographically. */
    predicate KeyAtMost(that: CompiledPrefix) {
      network < that.network || (network == that.network && maskLen <= that.maskLen)
    }
  }

  function ParseCidr(t: CidrText): (r: Option<(u32, MaskLen)>)
    ensures r.Some? <==> t.Cidr? && t.maskLen <= 32
    ensures r.Some? ==> r.value.1 == t.maskLen && Aligned(r.value.0, r.value.1) && Covers(r.value.0, r.value.1, t.addr)
  {
    match t
    case Garbled => None
    case Cidr(addr, maskLen) =>
      if maskLen > 32 then None
      else
        MaskedIsBlockStart(addr, maskLen);
        Some((BitAnd(addr, MaskWord(maskLen), 32), maskLen))
  }

  /** The parsable ranges of the input, in order. */
  function Parsed(raw: seq<RawPrefix>): (ps: seq<RegionPrefix>) {
    if raw == [] then []
    else
      var p := raw[|raw| - 1];
      Parsed(raw[..|raw| - 1]) +
      match ParseCidr(p.cidr) { case None => [] case Some((n, m)) => [RegionPrefix(n, m, p.region)] }
  }

  /** The entry parses to this range, under this region. */
  predicate ParsesTo(p: RawPrefix, r: RegionPrefix) {
    ParseCidr(p.cidr) == Some((r.network, r.maskLen)) && p.region == r.region
  }

  /** The list has such an entry. */
  ghost predicate IsEntry(raw: seq<RawPrefix>, r: RegionPrefix) {
    exists i :: 0 <= i < |raw| && ParsesTo(raw[i], r)
  }

  /** Parsing goes entry by entry: nothing is reordered or merged... */
  lemma {:induction false} ParsedEntryByEntry(a: seq<RawPrefix>, b: seq<RawPrefix>)
    ensures Parsed(a + b) == Parsed(a) + Parsed(b)
  {
    if b == [] {
      assert a + b == a;
    } else {
      ParsedEntryByEntry(a, b[..|b| - 1]);
      assert (a + b)[..|a + b| - 1] == a + b[..|b| - 1] && (a + b)[|a + b| - 1] == b[|b| - 1];
    }
  }

  /** ...and nothing left out but what does not parse. */
  lemma ParsedOne(p: RawPrefix)
    ensures Parsed([p]) ==
            if p.cidr.Garbled? || p.cidr.maskLen > 32 then []
            else [RegionPrefix(ParseCidr(p.cidr).value.0, p.cidr.maskLen, p.region)]
  {
    assert [p][..0] == [];
  }

  lemma EntrySnoc(raw: seq<RawPrefix>, r: RegionPrefix)
    requires raw != []
    ensures IsEntry(raw, r) <==> IsEntry(raw[..|raw| - 1], r) || ParsesTo(raw[|raw| - 1], r)
  {
    var n := |raw| - 1;
    assert forall i :: 0 <= i < n ==> raw[..n][i] == raw[i];
    if IsEntry(raw[..n], r) {
      var i :| 0 <= i < n && ParsesTo(raw[..n][i], r);
      assert ParsesTo(raw[i], r);
    }
  }

  lemma {:induction false} ParsedAreEntries(raw: seq<RawPrefix>, r: RegionPrefix)
    ensures r in Parsed(raw) <==> IsEntry(raw, r)
  {
    if raw != [] {
      ParsedAreEntries(raw[..|raw| - 1], r);
      EntrySnoc(raw, r);
    }
  }

  // ---------- sorting and deduplication ----------

  ghost predicate SortedByKey(s: seq<CompiledPrefix>) {
    forall i, j :: 0 <= i < j < |s| ==> s[i].KeyAtMost(s[j])
  }

  function Insert(x: CompiledPrefix, s: seq<CompiledPrefix>): (r: seq<CompiledPrefix>)
    requires SortedByKey(s)
    ensures SortedByKey(r)
    ensures forall y :: y in r <==> y == x || y in s
  {
    if s == [] || x.KeyAtMost(s[0]) then [x] + s
    else
      assert [s[0]] + s[1..] == s;
      var rest := Insert(x, s[1..]);
      ConsSorted(s[0], s[1..], x, rest);
      [s[0]] + rest
  }

  lemma ConsSorted(y: CompiledPrefix, s: seq<CompiledPrefix>, x: CompiledPrefix, rest: seq<CompiledPrefix>)
    requires SortedByKey([y] + s) && SortedByKey(rest) && y.KeyAtMost(x)
    requires forall z :: z in rest <==> z == x || z in s
    ensures SortedByKey([y] + rest)
  {
    forall z | z in rest ensures y.KeyAtMost(z) {
      if z != x {
        var i :| 0 <= i < |s| && s[i] == z;
        assert ([y] + s)[0].KeyAtMost(([y] + s)[i + 1]);
      }
    }
  }

  /** A stable sort by (network, maskLen). */
  function SortByKey(s: seq<CompiledPrefix>): (r: seq<CompiledPrefix>)
    ensures SortedByKey(r)
    ensures forall y :: y in r <==> y in s
  {
    if s == [] then [] else Insert(s[0], SortByKey(s[1..]))
  }

  function WithKey(s: seq<CompiledPrefix>, network: u32, maskLen: MaskLen): seq<CompiledPrefix> {
    if s == [] then []
    else (if s[0].network == network && s[0].maskLen == maskLen then [s[0]] else []) + WithKey(s[1..], network, maskLen)
  }

  lemma {:induction false} InsertIsStable(x: CompiledPrefix, s: seq<CompiledPrefix>, network: u32, maskLen: MaskLen)
    requires SortedByKey(s)
    ensures WithKey(Insert(x, s), network, maskLen) == WithKey([x] + s, network, maskLen)
  {
    assert ([x] + s)[1..] == s;
    if s == [] || x.KeyAtMost(s[0]) {
    } else {
      InsertIsStable(x, s[1..], network, maskLen);
      assert ([x] + s[1..])[1..] == s[1..];
      var rest := Insert(x, s[1..]);
      assert ([s[0]] + rest)[1..] == rest;
    }
  }

  /** Entries with equal keys keep their input order, which fixes the result completely. */
  lemma {:induction false} SortIsStable(s: seq<CompiledPrefix>, network: u32, maskLen: MaskLen)
    ensures WithKey(SortByKey(s), network, maskLen) == WithKey(s, network, maskLen)
  {
    if s != [] {
      SortIsStable(s[1..], network, maskLen);
      InsertIsStable(s[0], SortByKey(s[1..]), network, maskLen);
      var t := [s[0]] + SortByKey(s[1..]);
      assert t[1..] == SortByKey(s[1..]);
    }
  }

  /** Drop each entry equal to the last one kept. */
  function Dedup(s: seq<CompiledPrefix>): (r: seq<CompiledPrefix>)
    ensures forall x :: x in r <==> x in s
    ensures SortedByKey(s) ==> SortedByKey(r)
    ensures s != [] ==> r != [] && r[|r| - 1] == s[|s| - 1]
  {
    if s == [] then []
    else
      var d := Dedup(s[..|s| - 1]);
      var x := s[|s| - 1];
      assert s == s[..|s| - 1] + [x];
      if d != [] && d[|d| - 1] == x then d else d + [x]
  }

  ghost predicate Distinct<T>(s: seq<T>) {
    forall i, j :: 0 <= i < j < |s| ==> s[i] != s[j]
  }

  /** Equal entries stand next to each other: one seen before equals its immediate predecessor. */
  ghost predicate Grouped<T>(s: seq<T>) {
    forall k :: 0 < k < |s| && s[k] in s[..k] ==> s[k - 1] == s[k]
  }

  lemma GroupedSplit<T>(s: seq<T>, n: nat)
    requires n + 1 == |s|
    ensures Grouped(s) <==> Grouped(s[..n]) && (s[n] in s[..n] ==> s[n - 1] == s[n])
  {
  }

  lemma DistinctSnoc<T>(d: seq<T>, x: T)
    ensures Distinct(d + [x]) <==> Distinct(d) && x !in d
  {
    if Distinct(d + [x]) {
      assert forall i :: 0 <= i < |d| ==> (d + [x])[i] == d[i] && (d + [x])[|d|] == x;
    }
  }

  /** Deduplication is complete exactly when equal entries are adjacent: the sort key leaves the
      region out, so equal ranges of different regions can keep two equal entries apart. */
  lemma {:induction false} DedupLeavesNoDuplicates(s: seq<CompiledPrefix>)
    ensures Distinct(Dedup(s)) <==> Grouped(s)
  {
    if s != [] {
      var n := |s| - 1;
      var d := Dedup(s[..n]);
      DedupLeavesNoDuplicates(s[..n]);
      GroupedSplit(s, n);
      DistinctSnoc(d, s[n]);
    }
  }

  // ---------- compiling ----------

  function Named(p: CompiledPrefix, regions: seq<string>): RegionPrefix
    requires p.regionIdx < |regions|
  {
    RegionPrefix(p.network, p.maskLen, regions[p.regionIdx])
  }

  ghost predicate InRange(s: seq<CompiledPrefix>, regions: seq<string>) {
    forall p :: p in s ==> p.regionIdx < |regions|
  }

  datatype AwsLookup = AwsLookup(regions: seq<string>, prefixes: seq<CompiledPrefix>) {

    /** What every compiled table satisfies. */
    ghost predicate Valid() {
      && Distinct(regions)
      && InRange(prefixes, regions)
      && SortedByKey(prefixes)
      && (forall p :: p in prefixes ==> Aligned(p.network, p.maskLen))
    }

    /** The table lists this range under this region. */
    ghost predicate Lists(r: RegionPrefix)
      requires InRange(prefixes, regions)
    {
      exists p :: p in prefixes && Named(p, regions) == r
    }

    /** The region some run of the lookup reports: the search may stop at any of several equal networks. */
    ghost predicate Answers(ip: IpAddr, r: Option<string>)
      requires Valid()
    {
      match ip
      case V6(_) => r == None
      case V4(v) => exists idx: nat :: SearchIndex(prefixes, v, idx) && r == RegionAt(v, idx)
    }

    ghost function RegionAt(v: u32, idx: nat): Option<string>
      requires Valid() && idx < |prefixes|
    {
      HitInRange(prefixes, regions, v, idx, Window(idx));
      match WalkBack(prefixes, v, idx, Window(idx))
      case None => None
      case Some(best) => Some(regions[best.regionIdx])
    }

    method BinarySearch(v: u32) returns (found: bool, i: nat)
      requires Valid()
      ensures i <= |prefixes|
      ensures found ==> i < |prefixes| && prefixes[i].network == v
      ensures !found ==> forall j :: 0 <= j < i ==> prefixes[j].network < v
      ensures !found ==> forall j :: i <= j < |prefixes| ==> prefixes[j].network > v
    {
      var lo, hi := 0, |prefixes|;
      while lo < hi
        invariant 0 <= lo <= hi <= |prefixes|
        invariant forall j :: 0 <= j < lo ==> prefixes[j].network < v
        invariant forall j :: hi <= j < |prefixes| ==> prefixes[j].network > v
      {
        var mid := lo + (hi - lo) / 2;
        if prefixes[mid].network < v {
          lo := mid + 1;
        } else if prefixes[mid].network > v {
          hi := mid;
        } else {
          return true, mid;
        }
      }
      return false, lo;
    }

    /** The region owning `ip`, as far as the lookup sees. */
    method RegionFor(ip: IpAddr) returns (r: Option<string>)
      requires Valid()
      requires ip.V4? ==> prefixes != []  // an empty table has no entry to start the walk from
      ensures Answers(ip, r) && (ip.V6? ==> r == None)
    {
      match ip {
        case V6(_) => return None;
        case V4(v) =>
          var found, i := BinarySearch(v);
          var idx := if found then i else if i == 0 then 0 else i - 1;
          assert SearchIndex(prefixes, v, idx);
          var best := WalkFrom(v, idx);
          HitInRange(prefixes, regions, v, idx, Window(idx));
          match best {
            case None => r := None;
            case Some(b) => r := Some(regions[b.regionIdx]);
          }
          assert r == RegionAt(v, idx);
      }
    }

    method WalkFrom(v: u32, idx: nat) returns (best: Option<Best>)
      requires idx < |prefixes|
      ensures best == WalkBack(prefixes, v, idx, Window(idx))
    {
      best := None;
      for back := 0 to Window(idx)
        invariant best == WalkBack(prefixes, v, idx, back)
      {
        var p := prefixes[idx - back];
        HitIsCover(p, v);
        if p.network > v {
          continue;
        }
        if v <= SaturatingAdd(p.network, NetSize(p.maskLen)) {
          if best.None? || p.maskLen > best.value.maskLen {
            best := Some(Best(p.maskLen, p.regionIdx));
          }
        }
      }
    }
  }

  method LoadBundled(raw: seq<RawPrefix>) returns (t: AwsLookup)
    ensures t.Valid()
    ensures forall r :: t.Lists(r) <==> IsEntry(raw, r)
    ensures forall name :: name in t.regions ==> exists r :: IsEntry(raw, r) && r.region == name
    ensures CompiledFrom(t, Parsed(raw))
  {
    var regionToIdx: map<string, nat> := map[];
    var regions: seq<string> := [];
    var compiled: seq<CompiledPrefix> := [];
    for k := 0 to |raw|
      invariant Compiling(regionToIdx, regions, compiled, Parsed(raw[..k]))
    {
      var p := raw[k];
      assert raw[..k + 1][..k] == raw[..k];
      match ParseCidr(p.cidr) {
        case None =>
          assert Parsed(raw[..k + 1]) == Parsed(raw[..k]);
        case Some((net, maskLen)) =>
          CompilingStep(regionToIdx, regions, compiled, Parsed(raw[..k]), RegionPrefix(net, maskLen, p.region));
          if p.region !in regionToIdx {
            regionToIdx := regionToIdx[p.region := |regions|];
            regions := regions + [p.region];
          }
          compiled := compiled + [CompiledPrefix(net, maskLen, regionToIdx[p.region])];
      }
    }
    assert raw[..|raw|] == raw;
    t := AwsLookup(regions, Dedup(SortByKey(compiled)));
    LoadedTable(t, regionToIdx, compiled, Parsed(raw));
    forall r ensures r in Parsed(raw) <==> IsEntry(raw, r) {
      ParsedAreEntries(raw, r);
    }
  }

  /** The state of the loading loop: regions interned without repetition, each of them used, and the
      ranges `ps` stored in order. */
  ghost predicate Compiling(regionToIdx: map<string, nat>, regions: seq<string>, compiled: seq<CompiledPrefix>,
                            ps: seq<RegionPrefix>)
  {
    && Interns(regionToIdx, regions)
    && (forall name :: name in regions ==> Uses(ps, name))
    && StoresAll(compiled, regions, ps)
  }

  ghost predicate Interns(regionToIdx: map<string, nat>, regions: seq<string>) {
    && (forall name :: name in regionToIdx ==> regionToIdx[name] < |regions| && regions[regionToIdx[name]] == name)
    && (forall i :: 0 <= i < |regions| ==> regions[i] in regionToIdx && regionToIdx[regions[i]] == i)
  }

  ghost predicate Uses(ps: seq<RegionPrefix>, name: string) {
    exists r :: r in ps && r.region == name
  }

  predicate Stores(p: CompiledPrefix, regions: seq<string>, r: RegionPrefix) {
    p.regionIdx < |regions| && Named(p, regions) == r && Aligned(r.network, r.maskLen)
  }

  ghost predicate StoresAll(compiled: seq<CompiledPrefix>, regions: seq<string>, ps: seq<RegionPrefix>) {
    |compiled| == |ps| && forall i :: 0 <= i < |ps| ==> Stores(compiled[i], regions, ps[i])
  }

  /** The table is the ranges `ps`, one entry each, stably sorted and deduplicated. */
  ghost predicate CompiledFrom(t: AwsLookup, ps: seq<RegionPrefix>) {
    exists compiled :: StoresAll(compiled, t.regions, ps) && t.prefixes == Dedup(SortByKey(compiled))
  }

  lemma CompilingStep(regionToIdx: map<string, nat>, regions: seq<string>, compiled: seq<CompiledPrefix>,
                      ps: seq<RegionPrefix>, r: RegionPrefix)
    requires Compiling(regionToIdx, regions, compiled, ps) && Aligned(r.network, r.maskLen)
    ensures var unseen := r.region !in regionToIdx;
            var regionToIdx' := if unseen then regionToIdx[r.region := |regions|] else regionToIdx;
            var regions' := if unseen then regions + [r.region] else regions;
            var entry := CompiledPrefix(r.network, r.maskLen, regionToIdx'[r.region]);
            Compiling(regionToIdx', regions', compiled + [entry], ps + [r])
  {
  }

  lemma LoadedTable(t: AwsLookup, regionToIdx: map<string, nat>, compiled: seq<CompiledPrefix>, ps: seq<RegionPrefix>)
    requires Compiling(regionToIdx, t.regions, compiled, ps)
    requires SortedByKey(t.prefixes) && forall p :: p in t.prefixes <==> p in compiled
    ensures t.Valid()
    ensures forall r :: t.Lists(r) <==> r in ps
    ensures forall name :: name in t.regions ==> exists r :: r in ps && r.region == name
  {
  }

  // ---------- looking up ----------

  /** The best range met so far on the walk: mask length and region. */
  datatype Best = Best(maskLen: MaskLen, regionIdx: nat)

  function SaturatingAdd(a: u32, b: u32): u32 {
    if a + b > 0xFFFF_FFFF then 0xFFFF_FFFF else a + b
  }

  function NetSize(maskLen: MaskLen): (n: u32)
    ensures n == Size(maskLen) - 1
  {
    Pow2Values();
    Pow2Monotone(32 - maskLen, 32);
    if maskLen == 0 then 0xFFFF_FFFF else Pow2(32 - maskLen) - 1
  }

  /** The saturating range test of the loop is membership in the block. */
  lemma HitIsCover(p: CompiledPrefix, v: u32)
    ensures p.Has(v) <==> p.network <= v <= SaturatingAdd(p.network, NetSize(p.maskLen))
  {
  }

  /** Where the binary search may leave the walk's starting point. */
  ghost predicate SearchIndex(ps: seq<CompiledPrefix>, v: u32, idx: nat) {
    && idx < |ps|
    && (ps[idx].network == v ||
        ((forall j :: 0 <= j < |ps| ==> ps[j].network != v)
         && (forall j :: idx < j < |ps| ==> ps[j].network > v)
         && (idx == 0 || ps[idx].network < v)))
  }

  /** How many entries the walk from `idx` visits. */
  function Window(idx: nat): nat {
    if idx + 1 < WALK_LIMIT then idx + 1 else WALK_LIMIT
  }

  /** The outcome of visiting `n` entries backwards from `idx`. */
  function WalkBack(ps: seq<CompiledPrefix>, v: u32, idx: nat, n: nat): (best: Option<Best>)
    requires idx < |ps| && n <= idx + 1
  {
    if n == 0 then None
    else
      var best := WalkBack(ps, v, idx, n - 1);
      var p := ps[idx - (n - 1)];
      if p.Has(v) && (best.None? || p.maskLen > best.value.maskLen) then
        Some(Best(p.maskLen, p.regionIdx))
      else best
  }

  predicate HitAt(ps: seq<CompiledPrefix>, v: u32, i: nat, best: Best) {
    i < |ps| && ps[i].Has(v) && best == Best(ps[i].maskLen, ps[i].regionIdx)
  }

  /** What the walk reports is an entry of its window that holds the address... */
  lemma {:induction false} WalkFindsHit(ps: seq<CompiledPrefix>, v: u32, idx: nat, n: nat) returns (i: nat)
    requires idx < |ps| && n <= idx + 1 && WalkBack(ps, v, idx, n).Some?
    ensures idx - n < i <= idx && HitAt(ps, v, i, WalkBack(ps, v, idx, n).value)
  {
    if WalkBack(ps, v, idx, n) == WalkBack(ps, v, idx, n - 1) {
      i := WalkFindsHit(ps, v, idx, n - 1);
    } else {
      i := idx - (n - 1);
    }
  }

  lemma {:induction false} HitInRange(ps: seq<CompiledPrefix>, regions: seq<string>, v: u32, idx: nat, n: nat)
    requires InRange(ps, regions) && idx < |ps| && n <= idx + 1
    ensures WalkBack(ps, v, idx, n).Some? ==> WalkBack(ps, v, idx, n).value.regionIdx < |regions|
  {
    if WalkBack(ps, v, idx, n).Some? {
      var i := WalkFindsHit(ps, v, idx, n);
      assert ps[i] in ps;
    }
  }

  /** ...with a mask at least as long as that of any entry of the window that holds it. */
  lemma {:induction false} WalkIsBestOfWindow(ps: seq<CompiledPrefix>, v: u32, idx: nat, n: nat, j: nat)
    requires idx < |ps| && n <= idx + 1
    requires idx - n < j <= idx && ps[j].Has(v)
    ensures WalkBack(ps, v, idx, n).Some? && ps[j].maskLen <= WalkBack(ps, v, idx, n).value.maskLen
  {
    if j != idx - (n - 1) {
      WalkIsBestOfWindow(ps, v, idx, n - 1, j);
    }
  }

  /** Longest-prefix match over the whole table (section 5.1 of RFC 4632). */
  ghost predicate LongestMatch(ps: seq<CompiledPrefix>, v: u32, best: Option<Best>) {
    match best
    case None => forall i :: 0 <= i < |ps| ==> !ps[i].Has(v)
    case Some(b) =>
      && (exists i :: HitAt(ps, v, i, b))
      && (forall i :: 0 <= i < |ps| && ps[i].Has(v) ==> ps[i].maskLen <= b.maskLen)
  }
}
