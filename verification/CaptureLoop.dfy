/** What an armed filter means for the capture's own traffic. */
module CaptureLoop {
  import opened Wire
  import opened Capture
  import opened WinDivert

  /**
   The armed filter keeps the capture from looping: it matches no packet to a bridge and no packet
   the capture has rewritten, but it does match the UDP reply to one.
   */
  ghost predicate DoesNotLoop(filter: Filter, endpoints: seq<SocketAddr>, resolve: Resolver, data: Packet) {
    && (Destination(data).ip in (set e | e in endpoints :: e.ip) ==> !filter.Matches(Sight(data, true)))
    && (IsRedirected(data, resolve) ==>
        var t := TargetOf(data, resolve);
        var sent := WithDestination(data, t.ip.v4, t.port);
        && Parses(sent) && !filter.Matches(Sight(sent, true))
        && Parses(Swapped(sent)) && (Proto(data) == Udp ==> filter.Matches(Sight(Swapped(sent), false))))
  }

  ghost predicate Selects(filter: Filter, targets: seq<SocketAddr>, endpoints: seq<SocketAddr>) {
    forall p :: filter.Matches(p) <==> Selected(targets, endpoints, p)
  }

  lemma SelectingDoesNotLoop(filter: Filter, targets: seq<SocketAddr>, endpoints: seq<SocketAddr>, resolve: Resolver,
                             data: Packet)
    requires Selects(filter, targets, endpoints)
    requires forall dst, proto :: resolve(dst, proto).RewriteTo? ==> resolve(dst, proto).target in targets
    ensures DoesNotLoop(filter, endpoints, resolve, data)
  {
    NoCaptureLoop(targets, endpoints, map[], data, resolve);
    if IsRedirected(data, resolve) {
      var t := TargetOf(data, resolve);
      WithDestinationParses(data, t.ip.v4, t.port);
      SwappedExchangesEndpoints(WithDestination(data, t.ip.v4, t.port));
      if Proto(data) == Udp {
        RepliesAreCaptured(targets, endpoints, data, resolve);
      }
    }
  }

  /** The fixed rules as a resolver. */
  function FixedAnswers(rules: seq<RedirectRule>): Resolver {
    (dst, proto) => FixedResolve(rules, dst, proto)
  }

  /** Fixed rules and the bridge endpoints to leave alone: there is a filter if there are rules, it selects
      just the traffic it should, and it keeps the capture from looping. */
  method WithRules(rules: seq<RedirectRule>, endpoints: seq<SocketAddr>) returns (r: Result<Filter, FilterError>)
    ensures r.Err? <==> rules == []
    ensures r.Ok? ==> Selects(r.value, TargetsOf(rules), endpoints)
    ensures r.Ok? ==> (r.value.Compiles() <==> exists a :: a in TargetsOf(rules) && a.ip.V4?)
    ensures r.Ok? ==> forall data: Packet :: DoesNotLoop(r.value, endpoints, FixedAnswers(rules), data)
  {
    r := BuildFilter(TargetsOf(rules), endpoints);
    if r.Ok? {
      var resolve := FixedAnswers(rules);
      forall dst, proto | resolve(dst, proto).RewriteTo? ensures resolve(dst, proto).target in TargetsOf(rules) {
        FixedResolverTakesFirstMatch(rules, dst, proto);
      }
      forall data: Packet ensures DoesNotLoop(r.value, endpoints, resolve, data) {
        SelectingDoesNotLoop(r.value, TargetsOf(rules), endpoints, resolve, data);
      }
    }
  }
}
