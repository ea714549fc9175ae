/** The route picker: which bridge, if any, a new flow should take. */
module Router {
  import opened Wire
  import opened AwsRegions
  import opened Capture

  const RECENT_CAPACITY := 64
  const REROUTE_INTERVAL: int := 60 * SECOND
  const MARGIN := Finite(2.0)

  /** A round-trip time in milliseconds; Infinite stands for one that is not known. */
  datatype Rtt = Finite(ms: real) | Infinite {
    function Plus(that: Rtt): Rtt {
      if Finite? && that.Finite? then Finite(ms + that.ms) else Infinite
    }

    predicate Less(that: Rtt) {
      Finite? && (that.Infinite? || ms < that.ms)
    }
  }

  datatype BridgeEntry = BridgeEntry(name: string, endpoint: SocketAddr, listenPort: u16, regionRtt: map<string, Rtt>)

  datatype Route = Direct | ViaBridge(idx: nat)

  datatype Decision = Decision(route: Route, decidedAt: Instant, directRtt: Rtt, viaRtt: Rtt)

  datatype DecisionLog = DecisionLog(at: Instant, dest: SocketAddr, region: Option<string>, directRtt: Rtt, viaRtt: Rtt,
                                     route: Route, bridgeName: Option<string>)

  type Pings = map<string, Rtt>

  // ---------- the stateless decision ----------

  /** The measured length of the path through a bridge, when both halves have been measured. */
  function PathVia(b: BridgeEntry, pings: Pings, region: Option<string>): Option<Rtt> {
    if b.name !in pings then None
    else
      match region
      case None => None
      case Some(r) => if r in b.regionRtt then Some(pings[b.name].Plus(b.regionRtt[r])) else None
  }

  /** The first shortest path among the first `n` bridges. */
  function BestOf(bridges: seq<BridgeEntry>, pings: Pings, region: Option<string>, n: nat): (best: Option<(nat, Rtt)>)
    requires n <= |bridges|
    ensures best.Some? ==> best.value.0 < n && PathVia(bridges[best.value.0], pings, region) == Some(best.value.1)
  {
    if n == 0 then None
    else
      var best := BestOf(bridges, pings, region, n - 1);
      match PathVia(bridges[n - 1], pings, region)
      case None => best
      case Some(total) => if best.None? || total.Less(best.value.1) then Some((n - 1, total)) else best
  }

  /** The route and the best bridge path a pick would come to with these measurements and this margin. */
  function DecideBy(margin: Rtt, bridges: seq<BridgeEntry>, pings: Pings, region: Option<string>,
                    direct: Rtt): (r: (Route, Rtt))
    ensures r.0.ViaBridge? ==> r.0.idx < |bridges|
  {
    match BestOf(bridges, pings, region, |bridges|)
    case None => (Direct, Infinite)
    case Some((idx, total)) => if total.Plus(margin).Less(direct) then (ViaBridge(idx), total) else (Direct, total)
  }

  /** The picker's decision: its margin is fixed. */
  function Decide(bridges: seq<BridgeEntry>, pings: Pings, region: Option<string>, direct: Rtt): (r: (Route, Rtt))
    ensures r.0.ViaBridge? ==> r.0.idx < |bridges|
  {
    DecideBy(MARGIN, bridges, pings, region, direct)
  }

  /** Bridge `i` has a measured path, no bridge a shorter one, and no earlier bridge an equal one. */
  ghost predicate IsFirstShortest(bridges: seq<BridgeEntry>, pings: Pings, region: Option<string>, n: nat, i: nat)
    requires n <= |bridges|
  {
    && i < n
    && var mine := PathVia(bridges[i], pings, region);
       && mine.Some?
       && (forall j :: 0 <= j < n && PathVia(bridges[j], pings, region).Some? ==>
             !PathVia(bridges[j], pings, region).value.Less(mine.value))
       && (forall j :: 0 <= j < i && PathVia(bridges[j], pings, region).Some? ==>
             mine.value.Less(PathVia(bridges[j], pings, region).value))
  }

  lemma {:induction false} BestIsFirstShortest(bridges: seq<BridgeEntry>, pings: Pings, region: Option<string>, n: nat)
    requires n <= |bridges|
    ensures var best := BestOf(bridges, pings, region, n);
            && (best.Some? ==> IsFirstShortest(bridges, pings, region, n, best.value.0))
            && (best.None? ==> forall j :: 0 <= j < n ==> PathVia(bridges[j], pings, region).None?)
  {
    if n > 0 {
      BestIsFirstShortest(bridges, pings, region, n - 1);
    }
  }

  /** A bridge is chosen exactly when it is the first with the shortest measured path and that path
      beats the direct one by more than the margin. */
  lemma DecisionIsOptimal(bridges: seq<BridgeEntry>, pings: Pings, region: Option<string>, direct: Rtt, i: nat)
    ensures Decide(bridges, pings, region, direct).0 == ViaBridge(i) <==>
            && IsFirstShortest(bridges, pings, region, |bridges|, i)
            && PathVia(bridges[i], pings, region).value.Plus(MARGIN).Less(direct)
  {
    BestIsFirstShortest(bridges, pings, region, |bridges|);
    var best := BestOf(bridges, pings, region, |bridges|);
    if best.Some? && IsFirstShortest(bridges, pings, region, |bridges|, i) {
      var j := best.value.0;
      assert PathVia(bridges[j], pings, region).Some? && PathVia(bridges[i], pings, region).Some?;
    }
  }

  /** The way through the bridge has been measured, in both halves, and is not infinitely long. */
  predicate Reachable(b: BridgeEntry, pings: Pings, region: Option<string>) {
    && b.name in pings && pings[b.name].Finite?
    && region.Some? && region.value in b.regionRtt && b.regionRtt[region.value].Finite?
  }

  /** How long it is. */
  function Milliseconds(b: BridgeEntry, pings: Pings, region: Option<string>): real
    requires Reachable(b, pings, region)
  {
    pings[b.name].ms + b.regionRtt[region.value].ms
  }

  /** Bridge `i` is the first of those with the least measured sum. */
  ghost predicate IsNearest(bridges: seq<BridgeEntry>, pings: Pings, region: Option<string>, i: nat) {
    && i < |bridges| && Reachable(bridges[i], pings, region)
    && (forall j :: 0 <= j < |bridges| && Reachable(bridges[j], pings, region) ==>
          Milliseconds(bridges[i], pings, region) <= Milliseconds(bridges[j], pings, region))
    && (forall j :: 0 <= j < i && Reachable(bridges[j], pings, region) ==>
          Milliseconds(bridges[i], pings, region) < Milliseconds(bridges[j], pings, region))
  }

  lemma PathIsSum(b: BridgeEntry, pings: Pings, region: Option<string>)
    ensures Reachable(b, pings, region) ==> PathVia(b, pings, region) == Some(Finite(Milliseconds(b, pings, region)))
    ensures !Reachable(b, pings, region) ==>
              PathVia(b, pings, region) == None || PathVia(b, pings, region) == Some(Infinite)
  {
  }

  lemma NearestIsFirstShortest(bridges: seq<BridgeEntry>, pings: Pings, region: Option<string>, i: nat)
    ensures IsNearest(bridges, pings, region, i) <==>
            && i < |bridges| && Reachable(bridges[i], pings, region)
            && IsFirstShortest(bridges, pings, region, |bridges|, i)
  {
    forall j | 0 <= j < |bridges|
      ensures Reachable(bridges[j], pings, region) ==>
                PathVia(bridges[j], pings, region) == Some(Finite(Milliseconds(bridges[j], pings, region)))
      ensures !Reachable(bridges[j], pings, region) ==>
                PathVia(bridges[j], pings, region) == None || PathVia(bridges[j], pings, region) == Some(Infinite)
    {
      PathIsSum(bridges[j], pings, region);
    }
  }

  /**
   The decision in milliseconds: bridge `i` is chosen if and only if it is the first of those with the
   least sum of client-to-bridge and bridge-to-region time, and that sum plus 2 is below the direct time
   or the direct time is infinite.  An infinite half rules a bridge out.
   */
  lemma DecisionOnMeasurements(bridges: seq<BridgeEntry>, pings: Pings, region: Option<string>, direct: Rtt, i: nat)
    ensures Decide(bridges, pings, region, direct).0 == ViaBridge(i) <==>
            && IsNearest(bridges, pings, region, i)
            && (direct.Infinite? || Milliseconds(bridges[i], pings, region) + 2.0 < direct.ms)
  {
    DecisionIsOptimal(bridges, pings, region, direct, i);
    NearestIsFirstShortest(bridges, pings, region, i);
    if i < |bridges| {
      PathIsSum(bridges[i], pings, region);
    }
  }

  /** The time reported with it is the least sum, or infinite when no bridge is within reach. */
  lemma ReportedTime(bridges: seq<BridgeEntry>, pings: Pings, region: Option<string>, direct: Rtt, i: nat)
    ensures IsNearest(bridges, pings, region, i) ==>
              Decide(bridges, pings, region, direct).1 == Finite(Milliseconds(bridges[i], pings, region))
    ensures (forall b :: b in bridges ==> !Reachable(b, pings, region)) ==>
              Decide(bridges, pings, region, direct) == (Direct, Infinite)
  {
    BestIsFirstShortest(bridges, pings, region, |bridges|);
    var best := BestOf(bridges, pings, region, |bridges|);
    if best.Some? {
      PathIsSum(bridges[best.value.0], pings, region);
    }
    if IsNearest(bridges, pings, region, i) {
      NearestIsFirstShortest(bridges, pings, region, i);
      PathIsSum(bridges[i], pings, region);
      var j := best.value.0;
      assert PathVia(bridges[j], pings, region).Some? && PathVia(bridges[i], pings, region).Some?;
    }
  }

  /**
   The configuration has a margin of its own, which the picker never sees.  The decision it makes is
   not the one configured if and only if the advantage of the first shortest path over the direct one
   lies between the two margins: more than the smaller, and not more than the larger.
   */
  lemma FixedMarginDiffersExactlyWhen(configured: real, bridges: seq<BridgeEntry>, pings: Pings,
                                      region: Option<string>, direct: Rtt)
    ensures var lo := Finite(if configured < MARGIN.ms then configured else MARGIN.ms);
            var hi := Finite(if configured < MARGIN.ms then MARGIN.ms else configured);
            Decide(bridges, pings, region, direct) != DecideBy(Finite(configured), bridges, pings, region, direct) <==>
            exists i: nat :: IsFirstShortest(bridges, pings, region, |bridges|, i) &&
                        var path := PathVia(bridges[i], pings, region).value;
                        path.Plus(lo).Less(direct) && !path.Plus(hi).Less(direct)
  {
    BestIsFirstShortest(bridges, pings, region, |bridges|);
    var best := BestOf(bridges, pings, region, |bridges|);
    forall i: nat | IsFirstShortest(bridges, pings, region, |bridges|, i)
      ensures best == Some((i, PathVia(bridges[i], pings, region).value))
    {
      var j := best.value.0;
      assert PathVia(bridges[j], pings, region).Some? && PathVia(bridges[i], pings, region).Some?;
    }
  }

  // ---------- the stateful picker ----------

  datatype RouterState = RouterState(pings: Pings, cache: map<IpAddr, Decision>, recent: seq<DecisionLog>)

  const INITIAL := RouterState(map[], map[], [])

  predicate CacheHit(s: RouterState, ip: IpAddr, now: Instant) {
    ip in s.cache && now - s.cache[ip].decidedAt < REROUTE_INTERVAL
  }

  function LogEntry(bridges: seq<BridgeEntry>, dest: SocketAddr, region: Option<string>, direct: Rtt, now: Instant,
                    d: (Route, Rtt)): DecisionLog
    requires d.0.ViaBridge? ==> d.0.idx < |bridges|
  {
    DecisionLog(now, dest, region, direct, d.1, d.0, if d.0.ViaBridge? then Some(bridges[d.0.idx].name) else None)
  }

  /** Appending to the bounded log drops the oldest entry when it is full. */
  function PushRecent(recent: seq<DecisionLog>, e: DecisionLog): seq<DecisionLog> {
    (if |recent| >= RECENT_CAPACITY then recent[1..] else recent) + [e]
  }

  function RouteOf(bridges: seq<BridgeEntry>, s: RouterState, dest: SocketAddr, region: Option<string>, direct: Rtt,
                   now: Instant): Route
  {
    if CacheHit(s, dest.ip, now) then s.cache[dest.ip].route else Decide(bridges, s.pings, region, direct).0
  }

  function AfterPick(bridges: seq<BridgeEntry>, s: RouterState, dest: SocketAddr, region: Option<string>,
                     direct: Rtt, now: Instant): RouterState
  {
    if CacheHit(s, dest.ip, now) then s
    else
      var d := Decide(bridges, s.pings, region, direct);
      s.(cache := s.cache[dest.ip := Decision(d.0, now, direct, d.1)],
         recent := PushRecent(s.recent, LogEntry(bridges, dest, region, direct, now, d)))
  }

  function AfterRecord(s: RouterState, name: string, rtt: Rtt): RouterState {
    s.(pings := s.pings[name := rtt])
  }

  class Router {
    const bridges: seq<BridgeEntry>
    const aws: AwsLookup
    var clientToBridge: Pings
    var cache: map<IpAddr, Decision>
    var recent: seq<DecisionLog>

    ghost predicate Valid()
      reads this
    {
      && aws.Valid() && aws.prefixes != []
      && |recent| <= RECENT_CAPACITY
      && (forall ip :: ip in cache && cache[ip].route.ViaBridge? ==> cache[ip].route.idx < |bridges|)
    }

    ghost function State(): RouterState
      reads this
    {
      RouterState(clientToBridge, cache, recent)
    }

    constructor (bridges: seq<BridgeEntry>, aws: AwsLookup)
      requires aws.Valid() && aws.prefixes != []
      ensures Valid() && State() == INITIAL && this.bridges == bridges && this.aws == aws
    {
      this.bridges := bridges;
      this.aws := aws;
      clientToBridge, cache, recent := map[], map[], [];
    }

    method RecordClientToBridge(name: string, rtt: Rtt)
      requires Valid()
      modifies this
      ensures Valid() && State() == AfterRecord(old(State()), name, rtt)
    {
      clientToBridge := clientToBridge[name := rtt];
    }

    /** `region` is what the lookup answered, if it was asked. */
    method Pick(dest: SocketAddr, direct: Rtt, now: Instant) returns (route: Route, ghost region: Option<string>)
      requires Valid()
      modifies this
      ensures Valid()
      ensures !CacheHit(old(State()), dest.ip, now) ==> aws.Answers(dest.ip, region)
      ensures State() == AfterPick(bridges, old(State()), dest, region, direct, now)
      ensures route == RouteOf(bridges, old(State()), dest, region, direct, now)
      ensures route.ViaBridge? ==> route.idx < |bridges|
    {
      if dest.ip in cache {
        var d := cache[dest.ip];
        if now - d.decidedAt < REROUTE_INTERVAL {
          return d.route, None;
        }
      }
      var reg := aws.RegionFor(dest.ip);
      region := reg;
      var via;
      route, via := DecideNow(reg, direct);
      cache := cache[dest.ip := Decision(route, now, direct, via)];
      if |recent| >= RECENT_CAPACITY {
        recent := recent[1..];
      }
      var bridgeName := if route.ViaBridge? then Some(bridges[route.idx].name) else None;
      recent := recent + [DecisionLog(now, dest, reg, direct, via, route, bridgeName)];
    }

    method DecideNow(region: Option<string>, direct: Rtt) returns (route: Route, via: Rtt)
      ensures (route, via) == Decide(bridges, clientToBridge, region, direct)
    {
      var best := Best(region);
      match best {
        case Some((idx, total)) =>
          route, via := if total.Plus(MARGIN).Less(direct) then ViaBridge(idx) else Direct, total;
        case None =>
          route, via := Direct, Infinite;
      }
    }

    method Best(region: Option<string>) returns (best: Option<(nat, Rtt)>)
      ensures best == BestOf(bridges, clientToBridge, region, |bridges|)
    {
      best := None;
      for idx := 0 to |bridges|
        invariant best == BestOf(bridges, clientToBridge, region, idx)
      {
        var b := bridges[idx];
        if b.name !in clientToBridge || region.None? || region.value !in b.regionRtt {
          continue;
        }
        var total := clientToBridge[b.name].Plus(b.regionRtt[region.value]);
        if best.None? || total.Less(best.value.1) {
          best := Some((idx, total));
        }
      }
    }

    /** The last `n` decisions, newest first. */
    method RecentDecisions(n: nat) returns (r: seq<DecisionLog>)
      ensures |r| == if n < |recent| then n else |recent|
      ensures forall i :: 0 <= i < |r| ==> r[i] == recent[|recent| - 1 - i]
    {
      r := [];
      while |r| < n && |r| < |recent|
        invariant |r| <= |recent| && |r| <= n
        invariant forall i :: 0 <= i < |r| ==> r[i] == recent[|recent| - 1 - i]
      {
        r := r + [recent[|recent| - 1 - |r|]];
      }
    }
  }

  // ---------- the resolver built on it ----------

  function ActionFor(bridges: seq<BridgeEntry>, route: Route): RouteAction
    requires route.ViaBridge? ==> route.idx < |bridges|
  {
    match route
    case Direct => Passthrough
    case ViaBridge(idx) => RewriteTo(SocketAddr(LOCALHOST, bridges[idx].listenPort))
  }

  /** The listeners the capture is told it may redirect to. */
  function ListenerTargets(bridges: seq<BridgeEntry>): (ts: seq<SocketAddr>)
    ensures |ts| == |bridges|
    ensures forall i :: 0 <= i < |bridges| ==> ts[i] == SocketAddr(LOCALHOST, bridges[i].listenPort)
  {
    seq(|bridges|, i requires 0 <= i < |bridges| => SocketAddr(LOCALHOST, bridges[i].listenPort))
  }

  class SmartResolver {
    const router: Router
    const directRtt: map<string, Rtt>
    const aws: AwsLookup

    constructor (router: Router, directRtt: map<string, Rtt>, aws: AwsLookup)
      ensures this.router == router && this.directRtt == directRtt && this.aws == aws
    {
      this.router, this.directRtt, this.aws := router, directRtt, aws;
    }

    function DirectEstimate(region: Option<string>): Rtt {
      if region.Some? && region.value in directRtt then directRtt[region.value] else Infinite
    }

    method Resolve(dst: SocketAddr, proto: IpProtocol, now: Instant)
      returns (action: RouteAction, ghost here: Option<string>, ghost region: Option<string>)
      requires router.Valid() && aws.Valid() && aws.prefixes != []
      modifies router
      ensures router.Valid()
      ensures aws.Answers(dst.ip, here)
      ensures router.State() == AfterPick(router.bridges, old(router.State()), dst, region, DirectEstimate(here), now)
      ensures var route := RouteOf(router.bridges, old(router.State()), dst, region, DirectEstimate(here), now);
              match route
              case Direct => action == Passthrough
              case ViaBridge(i) =>
                i < |router.bridges| && action == RewriteTo(SocketAddr(V4(0x7F00_0001), router.bridges[i].listenPort))
      ensures match here
              case None => DirectEstimate(here) == Infinite
              case Some(r) => DirectEstimate(here) == if r in directRtt then directRtt[r] else Infinite
      ensures action.RewriteTo? ==> action.target in ListenerTargets(router.bridges)
    {
      var looked := aws.RegionFor(dst.ip);
      here := looked;
      var direct := Infinite;
      if looked.Some? && looked.value in directRtt {
        direct := directRtt[looked.value];
      }
      var route;
      route, region := router.Pick(dst, direct, now);
      match route {
        case Direct => action := Passthrough;
        case ViaBridge(idx) =>
          action := RewriteTo(SocketAddr(LOCALHOST, router.bridges[idx].listenPort));
          assert action.target == ListenerTargets(router.bridges)[idx];
      }
    }
  }
}
