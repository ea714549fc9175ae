/** Whole runs of the route picker: what its cache and log say about the calls made so far. */
module RouterTrace {
  import opened Wire
  import opened Capture
  import opened Router

  /** A call on the router; a pick carries the answer the region lookup gave or would have given. */
  datatype Call =
    | Record(name: string, rtt: Rtt)
    | Pick(dest: SocketAddr, region: Option<string>, direct: Rtt, now: Instant)

  function Apply(bridges: seq<BridgeEntry>, s: RouterState, c: Call): RouterState {
    match c
    case Record(name, rtt) => AfterRecord(s, name, rtt)
    case Pick(dest, region, direct, now) => AfterPick(bridges, s, dest, region, direct, now)
  }

  function Run(bridges: seq<BridgeEntry>, tr: seq<Call>): RouterState {
    if tr == [] then INITIAL else Apply(bridges, Run(bridges, tr[..|tr| - 1]), tr[|tr| - 1])
  }

  /** What the `k`-th call, a pick, returns. */
  function Returned(bridges: seq<BridgeEntry>, tr: seq<Call>, k: nat): Route
    requires k < |tr| && tr[k].Pick?
  {
    RouteOf(bridges, Run(bridges, tr[..k]), tr[k].dest, tr[k].region, tr[k].direct, tr[k].now)
  }

  /** The measurements recorded in a run: for each name the last one. */
  function Measured(tr: seq<Call>): Pings {
    if tr == [] then map[]
    else
      var c, before := tr[|tr| - 1], Measured(tr[..|tr| - 1]);
      if c.Record? then before[c.name := c.rtt] else before
  }

  /** That is: a bridge is measured if and only if it was recorded, and then as it was recorded last. */
  lemma {:induction false} MeasuredIsLatest(tr: seq<Call>, name: string) returns (i: nat)
    ensures name in Measured(tr) <==> exists k :: 0 <= k < |tr| && tr[k].Record? && tr[k].name == name
    ensures name in Measured(tr) ==>
              && i < |tr| && tr[i] == Record(name, Measured(tr)[name])
              && forall j :: i < j < |tr| ==> !(tr[j].Record? && tr[j].name == name)
  {
    i := 0;
    if tr != [] {
      var n := |tr| - 1;
      assert forall k :: 0 <= k < n ==> tr[..n][k] == tr[k];
      if tr[n].Record? && tr[n].name == name {
        i := n;
      } else {
        i := MeasuredIsLatest(tr[..n], name);
      }
    }
  }

  /** The stateless decision on the measurements at the time of the `j`-th call. */
  function DecidedAt(bridges: seq<BridgeEntry>, tr: seq<Call>, j: nat): (Route, Rtt)
    requires j < |tr| && tr[j].Pick?
  {
    Decide(bridges, Measured(tr[..j]), tr[j].region, tr[j].direct)
  }

  lemma {:induction false} PingsAreMeasurements(bridges: seq<BridgeEntry>, tr: seq<Call>)
    ensures Run(bridges, tr).pings == Measured(tr)
  {
    if tr != [] {
      PingsAreMeasurements(bridges, tr[..|tr| - 1]);
    }
  }

  /** Each cached decision was made by some earlier pick for its address. */
  lemma {:induction false} CacheIsExplained(bridges: seq<BridgeEntry>, tr: seq<Call>, ip: IpAddr) returns (j: nat)
    requires ip in Run(bridges, tr).cache
    ensures j < |tr| && tr[j].Pick? && tr[j].dest.ip == ip
    ensures var d := DecidedAt(bridges, tr, j);
            Run(bridges, tr).cache[ip] == Decision(d.0, tr[j].now, tr[j].direct, d.1)
  {
    var n := |tr| - 1;
    var before := Run(bridges, tr[..n]);
    if tr[n].Pick? && tr[n].dest.ip == ip && !CacheHit(before, ip, tr[n].now) {
      PingsAreMeasurements(bridges, tr[..n]);
      j := n;
    } else {
      j := CacheIsExplained(bridges, tr[..n], ip);
      assert tr[..n][..j] == tr[..j];
    }
  }

  /** Time does not run backwards between picks. */
  ghost predicate Monotone(tr: seq<Call>) {
    forall i, j :: 0 <= i < j < |tr| && tr[i].Pick? && tr[j].Pick? ==> tr[i].now <= tr[j].now
  }

  /**
   Caching refines the stateless decision: the route returned at time t is what would be decided on
   the measurements, region and direct estimate of a pick for the same address made now or less than
   a minute before t, whatever measurements were recorded in between.
   */
  lemma ReturnedRouteIsRecentDecision(bridges: seq<BridgeEntry>, tr: seq<Call>, k: nat)
    requires Monotone(tr) && k < |tr| && tr[k].Pick?
    ensures exists j :: 0 <= j <= k && tr[j].Pick? && tr[j].dest.ip == tr[k].dest.ip
                        && 0 <= tr[k].now - tr[j].now < 60_000_000_000
                        && Returned(bridges, tr, k) == DecidedAt(bridges, tr, j).0
  {
    var s, ip := Run(bridges, tr[..k]), tr[k].dest.ip;
    if CacheHit(s, ip, tr[k].now) {
      var j := CacheIsExplained(bridges, tr[..k], ip);
      assert tr[..k][..j] == tr[..j] && tr[..k][j] == tr[j];
      assert Returned(bridges, tr, k) == DecidedAt(bridges, tr, j).0;
    } else {
      PingsAreMeasurements(bridges, tr[..k]);
      assert Returned(bridges, tr, k) == DecidedAt(bridges, tr, k).0;
    }
  }

  /** A router nobody reports measurements to never uses a bridge. */
  lemma {:induction false} UnmeasuredRouterGoesDirect(bridges: seq<BridgeEntry>, tr: seq<Call>, k: nat)
    requires k < |tr| && tr[k].Pick?
    requires forall i :: 0 <= i < k ==> !tr[i].Record?
    ensures Returned(bridges, tr, k) == Direct
  {
    var before, c := tr[..k], tr[k];
    PingsAreMeasurements(bridges, before);
    NothingMeasured(before);
    NoPathUnmeasured(bridges, c.region, |bridges|);
    if CacheHit(Run(bridges, before), c.dest.ip, c.now) {
      var j := CacheIsExplained(bridges, before, c.dest.ip);
      NothingMeasured(before[..j]);
      NoPathUnmeasured(bridges, before[j].region, |bridges|);
    }
  }

  lemma {:induction false} NoPathUnmeasured(bridges: seq<BridgeEntry>, region: Option<string>, n: nat)
    requires n <= |bridges|
    ensures BestOf(bridges, map[], region, n) == None
  {
    if n > 0 {
      NoPathUnmeasured(bridges, region, n - 1);
    }
  }

  lemma {:induction false} NothingMeasured(tr: seq<Call>)
    requires forall i :: 0 <= i < |tr| ==> !tr[i].Record?
    ensures Measured(tr) == map[]
  {
    if tr != [] {
      NothingMeasured(tr[..|tr| - 1]);
    }
  }

  // ---------- the log ----------

  /** The latest entry for an address in an unbounded log. */
  function LastFor(log: seq<DecisionLog>, ip: IpAddr): (e: Option<DecisionLog>)
    ensures e.Some? ==> e.value in log && e.value.dest.ip == ip
  {
    if log == [] then None
    else if log[|log| - 1].dest.ip == ip then Some(log[|log| - 1])
    else LastFor(log[..|log| - 1], ip)
  }

  /** All decisions of a run, in order, told without a cache: a pick decides afresh unless the last
      decision for its address is less than a minute old. */
  function FreshDecisions(bridges: seq<BridgeEntry>, tr: seq<Call>): seq<DecisionLog> {
    if tr == [] then []
    else
      var n := |tr| - 1;
      var log, c := FreshDecisions(bridges, tr[..n]), tr[n];
      if c.Record? then log
      else
        var last := LastFor(log, c.dest.ip);
        if last.Some? && c.now - last.value.at < 60_000_000_000 then log
        else
          var (route, via) := DecidedAt(bridges, tr, n);
          var name := if route.ViaBridge? then Some(bridges[route.idx].name) else None;
          log + [DecisionLog(c.now, c.dest, c.region, c.direct, via, route, name)]
  }

  function Suffix(log: seq<DecisionLog>, n: nat): seq<DecisionLog> {
    if |log| <= n then log else log[|log| - n..]
  }

  lemma PushKeepsSuffix(log: seq<DecisionLog>, e: DecisionLog)
    ensures PushRecent(Suffix(log, RECENT_CAPACITY), e) == Suffix(log + [e], RECENT_CAPACITY)
  {
  }

  /**
   The bounded log is the last 64 decisions of the run in order, and the cache holds for each address
   the route, round-trip times and time of the latest decision about it, even one the log has dropped.
   */
  lemma {:induction false} LogAndCacheAgreeWithHistory(bridges: seq<BridgeEntry>, tr: seq<Call>)
    ensures var s, log := Run(bridges, tr), FreshDecisions(bridges, tr);
            && s.recent == Suffix(log, 64)
            && (forall ip :: ip in s.cache <==> LastFor(log, ip).Some?)
            && (forall ip :: ip in s.cache ==>
                  var e := LastFor(log, ip).value;
                  s.cache[ip] == Decision(e.route, e.at, e.directRtt, e.viaRtt))
  {
    if tr != [] {
      var n := |tr| - 1;
      LogAndCacheAgreeWithHistory(bridges, tr[..n]);
      PingsAreMeasurements(bridges, tr[..n]);
      var s, log, c := Run(bridges, tr[..n]), FreshDecisions(bridges, tr[..n]), tr[n];
      if c.Pick? && !CacheHit(s, c.dest.ip, c.now) {
        var e := LogEntry(bridges, c.dest, c.region, c.direct, c.now, DecidedAt(bridges, tr, n));
        assert FreshDecisions(bridges, tr) == log + [e];
        PushKeepsSuffix(log, e);
        forall ip ensures LastFor(log + [e], ip) == if ip == c.dest.ip then Some(e) else LastFor(log, ip) {
          assert (log + [e])[..|log|] == log;
        }
      }
    }
  }

  // ---------- the resolver as the capture sees it ----------

  /** The answers of the smart resolver at one moment, given what the lookup says of each address. */
  function SmartAnswers(bridges: seq<BridgeEntry>, tr: seq<Call>, regionOf: SocketAddr -> Option<string>,
                        directOf: SocketAddr -> Rtt, now: Instant): Resolver
  {
    (dst, proto) =>
      RoutesStayInRange(bridges, tr, dst, regionOf(dst), directOf(dst), now);
      ActionFor(bridges, RouteOf(bridges, Run(bridges, tr), dst, regionOf(dst), directOf(dst), now))
  }

  lemma {:induction false} RoutesStayInRange(bridges: seq<BridgeEntry>, tr: seq<Call>, dst: SocketAddr,
                                             region: Option<string>, direct: Rtt, now: Instant)
    ensures var r := RouteOf(bridges, Run(bridges, tr), dst, region, direct, now);
            r.ViaBridge? ==> r.idx < |bridges|
  {
    if CacheHit(Run(bridges, tr), dst.ip, now) {
      var j := CacheIsExplained(bridges, tr, dst.ip);
    }
  }

  /** Both resolvers redirect only to targets the capture was told about, which is what keeps the
      capture from looping. */
  lemma ResolversKeepToDeclaredTargets(bridges: seq<BridgeEntry>, tr: seq<Call>, regionOf: SocketAddr -> Option<string>,
                                       directOf: SocketAddr -> Rtt, now: Instant, rules: seq<RedirectRule>,
                                       dst: SocketAddr, proto: IpProtocol)
    ensures var smart := SmartAnswers(bridges, tr, regionOf, directOf, now)(dst, proto);
            var route := RouteOf(bridges, Run(bridges, tr), dst, regionOf(dst), directOf(dst), now);
            && (route == Direct ==> smart == Passthrough)
            && (route.ViaBridge? ==>
                && route.idx < |bridges|
                && smart == RewriteTo(SocketAddr(V4(0x7F00_0001), bridges[route.idx].listenPort))
                && smart.target in ListenerTargets(bridges))
    ensures var fixed := FixedResolve(rules, dst, proto);
            fixed.RewriteTo? ==> fixed.target in TargetsOf(rules)
  {
    RoutesStayInRange(bridges, tr, dst, regionOf(dst), directOf(dst), now);
    var route := RouteOf(bridges, Run(bridges, tr), dst, regionOf(dst), directOf(dst), now);
    if route.ViaBridge? {
      assert ListenerTargets(bridges)[route.idx] in ListenerTargets(bridges);
    }
    FixedResolverTakesFirstMatch(rules, dst, proto);
  }
}
