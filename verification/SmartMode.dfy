/** Starting smart mode: what is wired to what, and what comes of it. */
module SmartMode {
  import opened Wire
  import opened AwsRegions
  import opened Capture
  import opened WinDivert
  import opened Router
  import RouterTrace
  import opened CaptureLoop

  function Endpoints(bridges: seq<BridgeEntry>): (es: seq<SocketAddr>)
    ensures |es| == |bridges|
    ensures forall i :: 0 <= i < |bridges| ==> es[i] == bridges[i].endpoint
  {
    seq(|bridges|, i requires 0 <= i < |bridges| => bridges[i].endpoint)
  }

  /** Whatever has been measured, picked and cached, and whatever the lookups answer. */
  ghost predicate NeverLoops(filter: Filter, bridges: seq<BridgeEntry>) {
    forall tr, regionOf, directOf, now, data: Packet ::
      DoesNotLoop(filter, Endpoints(bridges), RouterTrace.SmartAnswers(bridges, tr, regionOf, directOf, now), data)
  }

  lemma SmartFilterNeverLoops(filter: Filter, bridges: seq<BridgeEntry>)
    requires Selects(filter, ListenerTargets(bridges), Endpoints(bridges))
    ensures NeverLoops(filter, bridges)
  {
    forall tr, regionOf, directOf, now, data: Packet
      ensures DoesNotLoop(filter, Endpoints(bridges),
                          RouterTrace.SmartAnswers(bridges, tr, regionOf, directOf, now), data)
    {
      var resolve := RouterTrace.SmartAnswers(bridges, tr, regionOf, directOf, now);
      forall dst, proto | resolve(dst, proto).RewriteTo?
        ensures resolve(dst, proto).target in ListenerTargets(bridges)
      {
        RouterTrace.ResolversKeepToDeclaredTargets(bridges, tr, regionOf, directOf, now, [], dst, proto);
      }
      SelectingDoesNotLoop(filter, ListenerTargets(bridges), Endpoints(bridges), resolve, data);
    }
  }

  // ---------- starting smart mode ----------

  /** The estimates bridges' measurements start from, by name. */
  const ESTIMATES: map<string, Rtt> := map[
    "dallas" := Finite(22.0), "nj" := Finite(35.0), "seattle" := Finite(50.0), "sea" := Finite(50.0),
    "frankfurt" := Finite(110.0), "fra" := Finite(110.0)]

  method Estimate(name: string) returns (rtt: Rtt)
    ensures rtt == if name in ESTIMATES then ESTIMATES[name] else Finite(40.0)
  {
    if name == "dallas" {
      rtt := Finite(22.0);
    } else if name == "nj" {
      rtt := Finite(35.0);
    } else if name == "seattle" || name == "sea" {
      rtt := Finite(50.0);
    } else if name == "frankfurt" || name == "fra" {
      rtt := Finite(110.0);
    } else {
      rtt := Finite(40.0);
    }
  }

  /** Each bridge's measurement is its estimate, and there are no others. */
  ghost predicate IsSeeded(pings: Pings, bridges: seq<BridgeEntry>) {
    && (forall name :: name in pings <==> exists b :: b in bridges && b.name == name)
    && (forall name :: name in pings ==>
          pings[name] == if name in ESTIMATES then ESTIMATES[name] else Finite(40.0))
  }

  datatype SmartError = NoBridges

  /** The resolver's router has no measurement, and so nothing but direct routes in its cache. */
  predicate Blind(s: RouterState) {
    s.pings == map[] && forall ip :: ip in s.cache ==> s.cache[ip].route == Direct
  }

  /** A blind router goes direct, and stays blind. */
  lemma BlindGoesDirect(bridges: seq<BridgeEntry>, s: RouterState, dest: SocketAddr, region: Option<string>,
                        direct: Rtt, now: Instant)
    requires Blind(s)
    ensures RouteOf(bridges, s, dest, region, direct, now) == Direct
    ensures Blind(AfterPick(bridges, s, dest, region, direct, now))
  {
    RouterTrace.NoPathUnmeasured(bridges, region, |bridges|);
  }

  /**
   Smart mode without the dashboard.  The capture asks the resolver, and the resolver its own router;
   measurements are reported to the router that starting the listeners made.
   */
  class SmartMode {
    const filter: Filter
    const resolver: SmartResolver
    const seeded: Router

    ghost predicate Valid()
      reads this, resolver, resolver.router, seeded
    {
      && resolver.router != seeded && resolver.router.Valid() && seeded.Valid()
      && resolver.aws.Valid() && resolver.aws.prefixes != []
      && Blind(resolver.router.State())
    }

    constructor (bridges: seq<BridgeEntry>, directRtt: map<string, Rtt>, aws: AwsLookup)
      requires aws.Valid() && aws.prefixes != [] && bridges != []
      ensures Valid() && fresh(resolver.router) && fresh(seeded)
      ensures filter.Compiles() && NeverLoops(filter, bridges)
      ensures Selects(filter, ListenerTargets(bridges), Endpoints(bridges))
      ensures resolver.router.bridges == bridges && resolver.router.State() == INITIAL
      ensures seeded.State() == INITIAL.(pings := seeded.State().pings) && IsSeeded(seeded.State().pings, bridges)
    {
      var router := new Router(bridges, aws);
      resolver := new SmartResolver(router, directRtt, aws);
      var built := BuildFilter(ListenerTargets(bridges), Endpoints(bridges));
      filter := built.value;
      assert ListenerTargets(bridges)[0] in ListenerTargets(bridges);
      SmartFilterNeverLoops(built.value, bridges);
      var second := new Router(bridges, aws);
      seeded := second;
      new;
      StartSmart(second);
    }

    /** A measurement changes only the router it is reported to. */
    method Measured(name: string, rtt: Rtt)
      requires Valid()
      modifies seeded
      ensures Valid() && resolver.router.State() == old(resolver.router.State())
      ensures seeded.State() == AfterRecord(old(seeded.State()), name, rtt)
    {
      seeded.RecordClientToBridge(name, rtt);
    }

    /** Whatever has been measured and asked so far, no packet is redirected. */
    method Resolve(dst: SocketAddr, proto: IpProtocol, now: Instant) returns (action: RouteAction)
      requires Valid()
      modifies resolver.router
      ensures Valid() && action == Passthrough
    {
      ghost var s := resolver.router.State();
      ghost var here, region;
      action, here, region := resolver.Resolve(dst, proto, now);
      BlindGoesDirect(resolver.router.bridges, s, dst, region, resolver.DirectEstimate(here), now);
    }
  }

  /** Smart mode is not started without bridges. */
  method StartSmartMode(bridges: seq<BridgeEntry>, directRtt: map<string, Rtt>, aws: AwsLookup)
    returns (r: Result<SmartMode, SmartError>)
    requires aws.Valid() && aws.prefixes != []
    ensures r.Err? <==> bridges == []
    ensures r.Ok? ==>
              && fresh(r.value) && r.value.Valid()
              && r.value.filter.Compiles() && NeverLoops(r.value.filter, bridges)
              && Selects(r.value.filter, ListenerTargets(bridges), Endpoints(bridges))
              && r.value.resolver.router.bridges == bridges && r.value.resolver.router.State() == INITIAL
              && IsSeeded(r.value.seeded.State().pings, bridges)
  {
    if bridges == [] {
      return Err(NoBridges);
    }
    var mode := new SmartMode(bridges, directRtt, aws);
    r := Ok(mode);
  }

  /** Starting the listeners gives their router an estimate for each bridge. */
  method StartSmart(router: Router)
    requires router.Valid() && router.State() == INITIAL
    modifies router
    ensures router.Valid() && router.State() == INITIAL.(pings := router.State().pings)
    ensures IsSeeded(router.State().pings, router.bridges)
  {
    var bridges := router.bridges;
    for i := 0 to |bridges|
      invariant router.Valid() && router.State() == INITIAL.(pings := router.State().pings)
      invariant IsSeeded(router.State().pings, bridges[..i])
    {
      assert bridges[..i + 1] == bridges[..i] + [bridges[i]];
      var rtt := Estimate(bridges[i].name);
      router.RecordClientToBridge(bridges[i].name, rtt);
    }
    assert bridges[..|bridges|] == bridges;
  }
}
