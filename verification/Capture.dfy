/**
 Transparent capture: the driver filter, the per-packet destination rewriting of raw IPv4 packets
 (section 3.1 of RFC 791) and the flow table that undoes it for replies.
 */
module Capture {
  import opened Wire

  const FLOW_IDLE: int := 120 * SECOND
  const PROTO_TCP: byte := 6
  const PROTO_UDP: byte := 17

  datatype IpProtocol = Tcp | Udp

  /** What a resolver decides for one outbound packet. */
  datatype RouteAction = Passthrough | RewriteTo(target: SocketAddr)

  type Resolver = (SocketAddr, IpProtocol) -> RouteAction

  // ---------- fixed rules ----------

  datatype RedirectRule = RedirectRule(protocol: IpProtocol, dstIp: IpAddr, dstPortLo: u16, dstPortHi: u16,
                                       redirectToIp: IpAddr, redirectToPort: u16)
  {
    predicate Applies(dst: SocketAddr, proto: IpProtocol) {
      protocol == proto && dstIp == dst.ip && dstPortLo <= dst.port <= dstPortHi
    }

    function Target(): SocketAddr { SocketAddr(redirectToIp, redirectToPort) }
  }

  function FixedResolve(rules: seq<RedirectRule>, dst: SocketAddr, proto: IpProtocol): RouteAction {
    if rules == [] then Passthrough
    else if rules[0].Applies(dst, proto) then RewriteTo(rules[0].Target())
    else FixedResolve(rules[1..], dst, proto)
  }

  function TargetsOf(rules: seq<RedirectRule>): (ts: seq<SocketAddr>)
    ensures |ts| == |rules|
    ensures forall i :: 0 <= i < |rules| ==> ts[i] == rules[i].Target()
  {
    seq(|rules|, i requires 0 <= i < |rules| => rules[i].Target())
  }

  /** Rule `i` is the first that applies. */
  predicate FirstToApply(rules: seq<RedirectRule>, i: int, dst: SocketAddr, proto: IpProtocol) {
    && 0 <= i < |rules| && rules[i].Applies(dst, proto)
    && forall j :: 0 <= j < i ==> !rules[j].Applies(dst, proto)
  }

  lemma {:induction false} FirstToApplyDecides(rules: seq<RedirectRule>, i: nat, dst: SocketAddr, proto: IpProtocol)
    requires FirstToApply(rules, i, dst, proto)
    ensures FixedResolve(rules, dst, proto) == RewriteTo(rules[i].Target())
  {
    if i > 0 {
      assert !rules[0].Applies(dst, proto);
      assert forall j :: 0 <= j < i - 1 ==> rules[1..][j] == rules[j + 1];
      FirstToApplyDecides(rules[1..], i - 1, dst, proto);
    }
  }

  /** The first applicable rule decides, and so every rewrite goes to one of the redirect targets. */
  lemma {:induction false} FixedResolverTakesFirstMatch(rules: seq<RedirectRule>, dst: SocketAddr, proto: IpProtocol)
    ensures FixedResolve(rules, dst, proto).Passthrough? <==>
            forall i :: 0 <= i < |rules| ==> !rules[i].Applies(dst, proto)
    ensures FixedResolve(rules, dst, proto).RewriteTo? ==>
              exists i :: FirstToApply(rules, i, dst, proto)
                          && FixedResolve(rules, dst, proto).target == rules[i].Target() == TargetsOf(rules)[i]
  {
    if rules != [] && !rules[0].Applies(dst, proto) {
      var rest := rules[1..];
      FixedResolverTakesFirstMatch(rest, dst, proto);
      assert forall i :: 0 <= i < |rest| ==> rest[i] == rules[i + 1];
      if FixedResolve(rest, dst, proto).RewriteTo? {
        var i :| FirstToApply(rest, i, dst, proto) && FixedResolve(rest, dst, proto).target == rest[i].Target();
        assert forall j :: 0 < j < i + 1 ==> rules[j] == rest[j - 1];
        assert FirstToApply(rules, i + 1, dst, proto);
      } else {
        assert forall i :: 0 < i < |rules| ==> rules[i] == rest[i - 1];
      }
    }
  }

  /** Later rules are asked only when earlier ones pass. */
  lemma {:induction false} ResolveInOrder(a: seq<RedirectRule>, b: seq<RedirectRule>, dst: SocketAddr,
                                          proto: IpProtocol)
    ensures var first := FixedResolve(a, dst, proto);
            FixedResolve(a + b, dst, proto) == if first.Passthrough? then FixedResolve(b, dst, proto) else first
  {
    if a == [] {
      assert a + b == b;
    } else {
      ResolveInOrder(a[1..], b, dst, proto);
      assert (a + b)[1..] == a[1..] + b;
    }
  }

  // ---------- the driver filter ----------

  /** What the driver's filter language can see of an IPv4 packet. */
  datatype Seen = Seen(udp: bool, outbound: bool, srcIp: u32, srcPort: u16, dstIp: u32)

  datatype Filter =
    | IsUdp
    | IsOutbound
    | IsInbound
    | DstAddrIs(addr: u32)
    | SrcAddrIs(addr: u32)
    | SrcPortIs(port: u16)
    | Not(arg: Filter)
    | And(left: Filter, right: Filter)
    | AnyOf(args: seq<Filter>)
  {
    predicate Matches(p: Seen) {
      match this
      case IsUdp => p.udp
      case IsOutbound => p.outbound
      case IsInbound => !p.outbound
      case DstAddrIs(a) => p.dstIp == a
      case SrcAddrIs(a) => p.srcIp == a
      case SrcPortIs(n) => p.srcPort == n
      case Not(f) => !f.Matches(p)
      case And(f, g) => f.Matches(p) && g.Matches(p)
      case AnyOf(fs) => exists f :: f in fs && f.Matches(p)
    }

    /** An empty group is not in the driver's language. */
    predicate Compiles() {
      match this
      case Not(f) => f.Compiles()
      case And(f, g) => f.Compiles() && g.Compiles()
      case AnyOf(fs) => fs != [] && forall f :: f in fs ==> f.Compiles()
      case _ => true
    }
  }

  predicate IsV4Of(addrs: seq<SocketAddr>, ip: u32) {
    exists a :: a in addrs && a.ip == V4(ip)
  }

  /** The traffic the filter is meant to select: UDP leaving for neither a bridge nor a redirect
      target, and UDP arriving from a redirect target. */
  predicate Selected(targets: seq<SocketAddr>, endpoints: seq<SocketAddr>, p: Seen) {
    && p.udp
    && if p.outbound then !IsV4Of(endpoints, p.dstIp) && !IsV4Of(targets, p.dstIp)
       else SocketAddr(V4(p.srcIp), p.srcPort) in targets
  }

  function DestinationTest(a: SocketAddr): Filter
    requires a.ip.V4?
  {
    DstAddrIs(a.ip.v4)
  }

  function SourceTest(a: SocketAddr): Filter
    requires a.ip.V4?
  {
    And(SrcAddrIs(a.ip.v4), SrcPortIs(a.port))
  }

  /** The list holds exactly the destination tests of the V4 addresses of `addrs`. */
  ghost predicate TestsDestinations(fs: seq<Filter>, addrs: seq<SocketAddr>) {
    && (forall f :: f in fs ==> f.DstAddrIs? && IsV4Of(addrs, f.addr))
    && (forall a :: a in addrs && a.ip.V4? ==> DestinationTest(a) in fs)
  }

  ghost predicate TestsSources(fs: seq<Filter>, addrs: seq<SocketAddr>) {
    && (forall f :: f in fs ==>
          && f.And? && f.left.SrcAddrIs? && f.right.SrcPortIs?
          && SocketAddr(V4(f.left.addr), f.right.port) in addrs)
    && (forall a :: a in addrs && a.ip.V4? ==> SourceTest(a) in fs)
  }

  method DestinationTests(addrs: seq<SocketAddr>) returns (fs: seq<Filter>)
    ensures TestsDestinations(fs, addrs)
  {
    fs := [];
    for i := 0 to |addrs|
      invariant TestsDestinations(fs, addrs[..i])
    {
      assert addrs[..i + 1] == addrs[..i] + [addrs[i]];
      if addrs[i].ip.V4? {
        fs := fs + [DestinationTest(addrs[i])];
      }
    }
    assert addrs[..|addrs|] == addrs;
  }

  method SourceTests(addrs: seq<SocketAddr>) returns (fs: seq<Filter>)
    ensures TestsSources(fs, addrs)
  {
    fs := [];
    for i := 0 to |addrs|
      invariant TestsSources(fs, addrs[..i])
    {
      assert addrs[..i + 1] == addrs[..i] + [addrs[i]];
      if addrs[i].ip.V4? {
        assert addrs[i] == SocketAddr(V4(addrs[i].ip.v4), addrs[i].port);
        fs := fs + [SourceTest(addrs[i])];
      }
    }
    assert addrs[..|addrs|] == addrs;
  }

  datatype FilterError = NoRedirectTargets

  /** The filter selects exactly the intended traffic; the driver can compile it when some redirect
      target is an IPv4 address. */
  method BuildFilter(targets: seq<SocketAddr>, endpoints: seq<SocketAddr>) returns (r: Result<Filter, FilterError>)
    ensures r.Err? <==> targets == []
    ensures r.Ok? ==> forall p :: r.value.Matches(p) <==> Selected(targets, endpoints, p)
    ensures r.Ok? ==> (r.value.Compiles() <==> exists a :: a in targets && a.ip.V4?)
  {
    if targets == [] {
      return Err(NoRedirectTargets);
    }
    var bridgeTests := DestinationTests(endpoints);
    var targetTests := DestinationTests(targets);
    var excludes := bridgeTests + targetTests;
    var sourceTests := SourceTests(targets);
    var outboundClause := OutboundClause(excludes);
    var inboundClause := InboundClause(sourceTests);
    forall p: Seen
      ensures AnyOf([outboundClause, inboundClause]).Matches(p) <==> Selected(targets, endpoints, p)
    {
      EitherMatches(outboundClause, inboundClause, p);
      OutboundMeaning(bridgeTests, targetTests, endpoints, targets, p);
      InboundMeaning(sourceTests, targets, p);
    }
    EitherCompiles(outboundClause, inboundClause);
    DestinationsCompile(bridgeTests, targetTests, endpoints, targets);
    SourcesCompile(sourceTests, targets);
    r := Ok(AnyOf([outboundClause, inboundClause]));
  }

  function OutboundClause(excludes: seq<Filter>): Filter {
    if excludes == [] then And(IsUdp, IsOutbound) else And(And(IsUdp, IsOutbound), Not(AnyOf(excludes)))
  }

  function InboundClause(sourceTests: seq<Filter>): Filter {
    And(And(IsUdp, IsInbound), AnyOf(sourceTests))
  }

  lemma EitherMatches(f: Filter, g: Filter, p: Seen)
    ensures AnyOf([f, g]).Matches(p) <==> f.Matches(p) || g.Matches(p)
  {
  }

  lemma EitherCompiles(f: Filter, g: Filter)
    ensures AnyOf([f, g]).Compiles() <==> f.Compiles() && g.Compiles()
  {
  }

  lemma OutboundMeaning(bridgeTests: seq<Filter>, targetTests: seq<Filter>, endpoints: seq<SocketAddr>,
                        targets: seq<SocketAddr>, p: Seen)
    requires TestsDestinations(bridgeTests, endpoints) && TestsDestinations(targetTests, targets)
    ensures OutboundClause(bridgeTests + targetTests).Matches(p) <==> p.outbound && Selected(targets, endpoints, p)
  {
    var excludes := bridgeTests + targetTests;
    var test := DstAddrIs(p.dstIp);
    assert test.Matches(p);
    if a :| a in endpoints && a.ip == V4(p.dstIp) {
      assert DestinationTest(a) == test && test in excludes;
    }
    if a :| a in targets && a.ip == V4(p.dstIp) {
      assert DestinationTest(a) == test && test in excludes;
    }
    forall f | f in excludes ensures f.Matches(p) <==> f.addr == p.dstIp {
    }
    assert AnyOf(excludes).Matches(p) <==> IsV4Of(endpoints, p.dstIp) || IsV4Of(targets, p.dstIp);
    assert And(IsUdp, IsOutbound).Matches(p) <==> p.udp && p.outbound;
    assert Not(AnyOf(excludes)).Matches(p) <==> !AnyOf(excludes).Matches(p);
  }

  lemma InboundMeaning(sourceTests: seq<Filter>, targets: seq<SocketAddr>, p: Seen)
    requires TestsSources(sourceTests, targets)
    ensures InboundClause(sourceTests).Matches(p) <==> !p.outbound && Selected(targets, [], p)
  {
    SourcesMeaning(sourceTests, targets, p);
    assert And(IsUdp, IsInbound).Matches(p) <==> p.udp && !p.outbound;
  }

  lemma SourcesMeaning(sourceTests: seq<Filter>, targets: seq<SocketAddr>, p: Seen)
    requires TestsSources(sourceTests, targets)
    ensures AnyOf(sourceTests).Matches(p) <==> SocketAddr(V4(p.srcIp), p.srcPort) in targets
  {
    var a := SocketAddr(V4(p.srcIp), p.srcPort);
    forall f | f in sourceTests ensures f.Matches(p) <==> SocketAddr(V4(f.left.addr), f.right.port) == a {
      assert f.Matches(p) <==> f.left.Matches(p) && f.right.Matches(p);
    }
    if a in targets {
      assert SourceTest(a) in sourceTests;
    }
  }

  lemma DestinationsCompile(bridgeTests: seq<Filter>, targetTests: seq<Filter>, endpoints: seq<SocketAddr>,
                            targets: seq<SocketAddr>)
    requires TestsDestinations(bridgeTests, endpoints) && TestsDestinations(targetTests, targets)
    ensures OutboundClause(bridgeTests + targetTests).Compiles()
  {
    var excludes := bridgeTests + targetTests;
    forall f | f in excludes ensures f.Compiles() {
    }
    if excludes != [] {
      assert AnyOf(excludes).Compiles();
      assert Not(AnyOf(excludes)).Compiles();
    }
  }

  lemma SourcesCompile(sourceTests: seq<Filter>, targets: seq<SocketAddr>)
    requires TestsSources(sourceTests, targets)
    ensures InboundClause(sourceTests).Compiles() <==> exists a :: a in targets && a.ip.V4?
  {
    forall f | f in sourceTests ensures f.Compiles() {
      assert f.left.Compiles() && f.right.Compiles();
    }
    assert And(IsUdp, IsInbound).Compiles();
    assert InboundClause(sourceTests).Compiles() <==> sourceTests != [];
    if sourceTests != [] {
      var f := sourceTests[0];
      var a := SocketAddr(V4(f.left.addr), f.right.port);
      assert a in targets && a.ip.V4?;
    }
    if a :| a in targets && a.ip.V4? {
      assert SourceTest(a) in sourceTests;
    }
  }
}
