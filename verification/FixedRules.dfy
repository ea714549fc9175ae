/** Fixed rules: what a configured rule captures, and where its listener tunnels it. */
module FixedRules {
  import opened Wire
  import opened Capture
  import opened WinDivert
  import opened CaptureLoop
  import opened PacketOctets
  import Crypto
  import opened Syn
  import opened Forwarder

  /** A configured rule.  Its listener tunnels to `dest`; capturing, if asked for, has a range of its own. */
  datatype Rule = Rule(
    listen: SocketAddr,
    bridge: SocketAddr,
    dest: SocketAddr,
    protocol: string,
    capture: bool,
    captureIp: Option<IpAddr>,
    portLo: Option<u16>,
    portHi: Option<u16>)

  function OrElse<T>(o: Option<T>, otherwise: T): T {
    if o.Some? then o.value else otherwise
  }

  /** The redirect a rule asks for, if it asks for one and names a protocol there is. */
  function RedirectFor(r: Rule): Option<RedirectRule> {
    if !r.capture || (r.protocol != "tcp" && r.protocol != "udp") then None
    else
      var lo := OrElse(r.portLo, r.dest.port);
      Some(RedirectRule(if r.protocol == "tcp" then Tcp else Udp, OrElse(r.captureIp, r.dest.ip), lo,
                        OrElse(r.portHi, lo), r.listen.ip, r.listen.port))
  }

  /** The rules that ask for a redirect, in order. */
  function Capturing(rules: seq<Rule>): (cs: seq<Rule>)
    ensures forall r :: r in cs <==> r in rules && RedirectFor(r).Some?
  {
    if rules == [] then []
    else
      assert rules == Front(rules) + [Last(rules)];
      Capturing(Front(rules)) + if RedirectFor(Last(rules)).Some? then [Last(rules)] else []
  }

  function Redirects(rules: seq<Rule>): (rs: seq<RedirectRule>)
    ensures |rs| == |Capturing(rules)|
    ensures forall i :: 0 <= i < |rs| ==> RedirectFor(Capturing(rules)[i]) == Some(rs[i])
  {
    if rules == [] then []
    else
      var r := RedirectFor(Last(rules));
      Redirects(Front(rules)) + if r.Some? then [r.value] else []
  }

  /** The capture is armed if some rule asks for a redirect; it is given no bridge to leave alone. */
  method InstallCapture(rules: seq<Rule>) returns (installed: Option<Filter>)
    ensures installed.None? <==> Capturing(rules) == []
    ensures installed.Some? ==> Selects(installed.value, TargetsOf(Redirects(rules)), [])
    ensures installed.Some? ==> (installed.value.Compiles() <==> exists r :: r in Capturing(rules) && r.listen.ip.V4?)
  {
    var captureRules: seq<RedirectRule> := [];
    for i := 0 to |rules|
      invariant captureRules == Redirects(rules[..i])
    {
      assert Front(rules[..i + 1]) == rules[..i];
      var r := RedirectFor(rules[i]);
      if r.Some? {
        captureRules := captureRules + [r.value];
      }
    }
    assert rules[..|rules|] == rules;
    if captureRules == [] {
      return None;
    }
    var filter := WithRules(captureRules, []);
    TargetsAreListeners(rules);
    installed := Some(filter.value);
  }

  lemma TargetsAreListeners(rules: seq<Rule>)
    ensures forall a :: a in TargetsOf(Redirects(rules)) <==> exists r :: r in Capturing(rules) && r.listen == a
  {
    var rs, ts := Capturing(rules), TargetsOf(Redirects(rules));
    assert forall i :: 0 <= i < |rs| ==> ts[i] == rs[i].listen && rs[i] in rs;
  }

  // ---------- what is captured ----------

  /** The driver hands over the packet on its way out, and it is redirected. */
  predicate IsCaptured(filter: Filter, rules: seq<Rule>, data: Packet) {
    filter.Matches(Sight(data, true)) && IsRedirected(data, FixedAnswers(Redirects(rules)))
  }

  /** Rule `i` of those that capture is the first that applies to the packet. */
  predicate Decides(rules: seq<Rule>, i: int, data: Packet) {
    FirstToApply(Redirects(rules), i, Destination(data), Proto(data))
  }

  /** The driver hands over what leaves by UDP for anywhere but a redirect target, bridges included, and
      never a TCP packet, in or out. */
  lemma HandedOverExactlyWhen(filter: Filter, rules: seq<Rule>, data: Packet)
    requires Selects(filter, TargetsOf(Redirects(rules)), [])
    ensures filter.Matches(Sight(data, true)) <==>
            Proto(data) == Udp && forall r :: r in Capturing(rules) ==> r.listen.ip != Destination(data).ip
    ensures filter.Matches(Sight(data, false)) <==>
            Proto(data) == Udp && exists r :: r in Capturing(rules) && r.listen == Source(data)
  {
    TargetsAreListeners(rules);
    if IsV4Of(TargetsOf(Redirects(rules)), DstIp(data)) {
      var a :| a in TargetsOf(Redirects(rules)) && a.ip == V4(DstIp(data));
    }
  }

  lemma DecidedTarget(rules: seq<Rule>, i: int, data: Packet)
    requires Decides(rules, i, data)
    ensures FixedResolve(Redirects(rules), Destination(data), Proto(data)) == RewriteTo(Capturing(rules)[i].listen)
  {
    FirstToApplyDecides(Redirects(rules), i, Destination(data), Proto(data));
    assert RedirectFor(Capturing(rules)[i]) == Some(Redirects(rules)[i]);
  }

  lemma Decider(rules: seq<Rule>, data: Packet) returns (i: int)
    requires FixedResolve(Redirects(rules), Destination(data), Proto(data)).RewriteTo?
    ensures Decides(rules, i, data)
  {
    var rs := Redirects(rules);
    FixedResolverTakesFirstMatch(rs, Destination(data), Proto(data));
    i :| FirstToApply(rs, i, Destination(data), Proto(data));
  }

  /** What is handed over is redirected if and only if the first rule that applies has an IPv4 listener,
      and then to that listener. */
  lemma RedirectedExactlyWhen(rules: seq<Rule>, data: Packet)
    ensures IsRedirected(data, FixedAnswers(Redirects(rules))) <==>
            exists i :: Decides(rules, i, data) && Capturing(rules)[i].listen.ip.V4?
    ensures forall i :: Decides(rules, i, data) && IsRedirected(data, FixedAnswers(Redirects(rules))) ==>
              TargetOf(data, FixedAnswers(Redirects(rules))) == Capturing(rules)[i].listen
  {
    forall i | Decides(rules, i, data)
      ensures FixedAnswers(Redirects(rules))(Destination(data), Proto(data)) == RewriteTo(Capturing(rules)[i].listen)
    {
      DecidedTarget(rules, i, data);
    }
    if FixedAnswers(Redirects(rules))(Destination(data), Proto(data)).RewriteTo? {
      var i := Decider(rules, data);
    }
  }

  /**
   So a packet is captured, one of a tunnel to its bridge like any other, if and only if it is UDP, no
   listener has its destination address, and the first rule that applies to it has an IPv4 listener.
   */
  lemma CapturedExactlyWhen(filter: Filter, rules: seq<Rule>, data: Packet)
    requires Selects(filter, TargetsOf(Redirects(rules)), [])
    ensures IsCaptured(filter, rules, data) <==>
            && Proto(data) == Udp
            && (forall r :: r in Capturing(rules) ==> r.listen.ip != Destination(data).ip)
            && exists i :: Decides(rules, i, data) && Capturing(rules)[i].listen.ip.V4?
  {
    HandedOverExactlyWhen(filter, rules, data);
    RedirectedExactlyWhen(rules, data);
  }

  /** A TCP rule decides about nothing that is captured. */
  lemma TcpRulesCaptureNothing(filter: Filter, rules: seq<Rule>, data: Packet, i: int)
    requires Selects(filter, TargetsOf(Redirects(rules)), [])
    requires IsCaptured(filter, rules, data) && Decides(rules, i, data)
    ensures Capturing(rules)[i].protocol == "udp"
  {
    HandedOverExactlyWhen(filter, rules, data);
    assert RedirectFor(Capturing(rules)[i]) == Some(Redirects(rules)[i]);
  }

  /** As it is configured, the rule captures UDP for this destination: its own address unless it names
      another, and the ports from the lower to the upper, both included, the upper being the lower and the
      lower the destination's unless they are named. */
  predicate Wants(r: Rule, dst: SocketAddr) {
    && r.capture && r.protocol == "udp"
    && (match r.captureIp case None => dst.ip == r.dest.ip case Some(ip) => dst.ip == ip)
    && (match (r.portLo, r.portHi)
        case (None, None) => dst.port == r.dest.port
        case (Some(lo), None) => dst.port == lo
        case (None, Some(hi)) => r.dest.port <= dst.port <= hi
        case (Some(lo), Some(hi)) => lo <= dst.port <= hi)
  }

  /** Rule `i` of the configuration is the first that does. */
  predicate FirstToWant(rules: seq<Rule>, i: int, dst: SocketAddr) {
    0 <= i < |rules| && Wants(rules[i], dst) && forall j :: 0 <= j < i ==> !Wants(rules[j], dst)
  }

  lemma WantsItsRedirect(r: Rule, dst: SocketAddr)
    ensures Wants(r, dst) <==> RedirectFor(r).Some? && RedirectFor(r).value.Applies(dst, Udp)
    ensures RedirectFor(r).Some? ==> RedirectFor(r).value.Target() == r.listen
  {
  }

  /** The action is a redirect to the listener of the first rule that wants the destination, if any does. */
  ghost predicate FollowsRules(rules: seq<Rule>, dst: SocketAddr, action: RouteAction) {
    && (action == Passthrough <==> forall i :: 0 <= i < |rules| ==> !Wants(rules[i], dst))
    && (action.RewriteTo? ==> exists i :: FirstToWant(rules, i, dst) && action.target == rules[i].listen)
  }

  lemma OneMoreRule(rules: seq<Rule>, dst: SocketAddr, before: RouteAction)
    requires rules != [] && FollowsRules(Front(rules), dst, before)
    ensures FollowsRules(rules, dst,
                         if before.RewriteTo? then before
                         else if Wants(Last(rules), dst) then RewriteTo(Last(rules).listen)
                         else Passthrough)
  {
    var front, n := Front(rules), |rules| - 1;
    assert forall j :: 0 <= j < n ==> rules[j] == front[j];
    if before.RewriteTo? {
      var i :| FirstToWant(front, i, dst) && before.target == front[i].listen;
      assert FirstToWant(rules, i, dst);
    } else if Wants(Last(rules), dst) {
      assert FirstToWant(rules, n, dst);
    }
  }

  lemma ResolveOneMore(rules: seq<Rule>, dst: SocketAddr)
    requires rules != []
    ensures var before := FixedResolve(Redirects(Front(rules)), dst, Udp);
            FixedResolve(Redirects(rules), dst, Udp) ==
            if before.RewriteTo? then before
            else if Wants(Last(rules), dst) then RewriteTo(Last(rules).listen)
            else Passthrough
  {
    var r := Last(rules);
    WantsItsRedirect(r, dst);
    var tail := if RedirectFor(r).Some? then [RedirectFor(r).value] else [];
    ResolveInOrder(Redirects(Front(rules)), tail, dst, Udp);
  }

  /** The configuration in order: a UDP packet goes to the listener of the first rule that wants it. */
  lemma {:induction false} ResolvedByConfiguration(rules: seq<Rule>, dst: SocketAddr)
    ensures FollowsRules(rules, dst, FixedResolve(Redirects(rules), dst, Udp))
  {
    if rules != [] {
      ResolvedByConfiguration(Front(rules), dst);
      ResolveOneMore(rules, dst);
      OneMoreRule(rules, dst, FixedResolve(Redirects(Front(rules)), dst, Udp));
    }
  }

  /**
   In terms of the configuration: a packet is captured if and only if its ninth octet says UDP, no rule
   that captures listens at its destination address, and the first UDP rule that wants its destination has
   an IPv4 listener; and it goes to that listener.
   */
  lemma CapturedByConfigurationExactlyWhen(filter: Filter, rules: seq<Rule>, data: Packet)
    requires Selects(filter, TargetsOf(Redirects(rules)), [])
    ensures var dst := Destination(data);
            && (IsCaptured(filter, rules, data) <==>
                && data[9] == 17
                && (forall r :: r in rules && r.capture && (r.protocol == "tcp" || r.protocol == "udp") ==>
                      r.listen.ip != dst.ip)
                && exists i :: FirstToWant(rules, i, dst) && rules[i].listen.ip.V4?)
            && (IsCaptured(filter, rules, data) ==>
                exists i ::
                  FirstToWant(rules, i, dst) && TargetOf(data, FixedAnswers(Redirects(rules))) == rules[i].listen)
  {
    ReadsOctets(data);
    HandedOverExactlyWhen(filter, rules, data);
    ResolvedByConfiguration(rules, Destination(data));
    if Proto(data) == Udp {
      var dst := Destination(data);
      assert FixedAnswers(Redirects(rules))(dst, Udp) == FixedResolve(Redirects(rules), dst, Udp);
    }
  }

  /** A UDP rule whose captured range takes in the address of its own bridge. */
  predicate CoversItsBridge(r: Rule) {
    var redirect := RedirectFor(r);
    && redirect.Some? && redirect.value.Applies(r.bridge, Udp)
    && r.listen.ip.V4? && r.listen.ip != r.bridge.ip
  }

  lemma OneRule(r: Rule)
    requires RedirectFor(r).Some?
    ensures Capturing([r]) == [r] && Redirects([r]) == [RedirectFor(r).value]
  {
    assert Front([r]) == [] && Last([r]) == r;
  }

  /** With such a rule alone every frame its tunnels send to the bridge is captured and comes back to the
      rule's own listener: nothing ever reaches the bridge. */
  lemma TunnelComesBackToItsListener(filter: Filter, r: Rule, data: Packet)
    requires CoversItsBridge(r) && Selects(filter, TargetsOf(Redirects([r])), [])
    requires Proto(data) == Udp && Destination(data) == r.bridge
    ensures IsCaptured(filter, [r], data)
    ensures TargetOf(data, FixedAnswers(Redirects([r]))) == r.listen
  {
    OneRule(r);
    assert Decides([r], 0, data);
    CapturedExactlyWhen(filter, [r], data);
    RedirectedExactlyWhen([r], data);
  }

  // ---------- where it is tunnelled ----------

  /** What a rule's listener sees: a datagram, or its reaper forgetting some sources. */
  datatype ListenerStep =
    | Datagram(src: SocketAddr, payload: bytes, clientSecret: Crypto.Secret, connectionId: u32)
    | Forget(sources: set<SocketAddr>)

  function ListenerNext(c: Crypto.Suite, link: BridgeLink, rule: Rule, tunnels: map<SocketAddr, Tunnel>,
                        s: ListenerStep): map<SocketAddr, Tunnel>
  {
    match s
    case Datagram(src, payload, clientSecret, connectionId) =>
      Receive(c, link, tunnels, src, Some(rule.dest), payload, clientSecret, connectionId).0
    case Forget(sources) => tunnels - sources
  }

  /** The tunnels a rule's listener has after a run. */
  function TunnelsAfter(c: Crypto.Suite, link: BridgeLink, rule: Rule,
                        steps: seq<ListenerStep>): map<SocketAddr, Tunnel>
  {
    if steps == [] then map[] else ListenerNext(c, link, rule, TunnelsAfter(c, link, rule, Front(steps)), Last(steps))
  }

  ghost predicate AllToDest(c: Crypto.Suite, link: BridgeLink, rule: Rule, tunnels: map<SocketAddr, Tunnel>) {
    forall src :: src in tunnels ==> tunnels[src].dest == rule.dest && OpenedFor(c, link, tunnels[src])
  }

  lemma ReceivedToDest(c: Crypto.Suite, link: BridgeLink, rule: Rule, tunnels: map<SocketAddr, Tunnel>, src: SocketAddr,
                       payload: bytes, clientSecret: Crypto.Secret, connectionId: u32)
    requires AllToDest(c, link, rule, tunnels)
    ensures var (after, r) := Receive(c, link, tunnels, src, Some(rule.dest), payload, clientSecret, connectionId);
            && AllToDest(c, link, rule, after)
            && r.Some? && r.value.tunnel.dest == rule.dest && OpenedFor(c, link, r.value.tunnel)
            && r.value.wire == FrameFor(c, r.value.tunnel.handle, r.value.tunnel.txSequence, payload)
  {
    ReceiveOutcome(c, link, tunnels, src, Some(rule.dest), payload, clientSecret, connectionId);
    var r := Receive(c, link, tunnels, src, Some(rule.dest), payload, clientSecret, connectionId).1;
    if src in tunnels {
      OpenedStays(c, link, tunnels[src], r.value.tunnel);
    }
  }

  /** All tunnels of a rule's listener lead to the rule's destination, in every run. */
  lemma {:induction false} ListenerKeepsToDest(c: Crypto.Suite, link: BridgeLink, rule: Rule, steps: seq<ListenerStep>)
    ensures AllToDest(c, link, rule, TunnelsAfter(c, link, rule, steps))
  {
    if steps != [] {
      ListenerKeepsToDest(c, link, rule, Front(steps));
      var tunnels := TunnelsAfter(c, link, rule, Front(steps));
      match Last(steps) {
        case Datagram(src, payload, clientSecret, connectionId) =>
          ReceivedToDest(c, link, rule, tunnels, src, payload, clientSecret, connectionId);
        case Forget(_) =>
      }
    }
  }

  /** The rule captures for the address of its destination, and the port is the destination's. */
  predicate MeansThisPort(rule: Rule, port: u16) {
    (rule.captureIp == None || rule.captureIp == Some(rule.dest.ip)) && port == rule.dest.port
  }

  /** A captured datagram is delivered, payload and all, to the listener of the rule that decides. */
  lemma DeliveredToListener(rules: seq<Rule>, i: int, data: Packet)
    requires Decides(rules, i, data) && IsRedirected(data, FixedAnswers(Redirects(rules)))
    ensures var t := TargetOf(data, FixedAnswers(Redirects(rules)));
            var sent := WithDestination(data, t.ip.v4, t.port);
            Parses(sent) && Destination(sent) == Capturing(rules)[i].listen && Payload(sent) == Payload(data)
  {
    RedirectedExactlyWhen(rules, data);
    var t := TargetOf(data, FixedAnswers(Redirects(rules)));
    WithDestinationParses(data, t.ip.v4, t.port);
  }

  /**
   A rule's listener, in whatever state, forwards what it receives in a frame and tunnel that the bridge
   reads as this payload for the rule's destination; so it reads the destination the game addressed if
   and only if that is the rule's own.
   */
  lemma {:induction false} FixedRuleIsRightExactlyWhen(
    c: Crypto.Suite, link: BridgeLink, rule: Rule, data: Packet, steps: seq<ListenerStep>, src: SocketAddr,
    clientSecret: Crypto.Secret, connectionId: u32, keys: BridgeKeys, now: i64)
    requires Admits(c, keys, now, link)
    ensures var r := Receive(c, link, TunnelsAfter(c, link, rule, steps), src, Some(rule.dest), Payload(data),
                             clientSecret, connectionId).1;
            && r.Some?
            && BridgeReads(c, keys, now, r.value, Payload(data), rule.dest)
            && (BridgeReads(c, keys, now, r.value, Payload(data), Destination(data)) <==>
                Destination(data) == rule.dest)
  {
    ListenerKeepsToDest(c, link, rule, steps);
    var tunnels := TunnelsAfter(c, link, rule, steps);
    ReceivedToDest(c, link, rule, tunnels, src, Payload(data), clientSecret, connectionId);
    var f := Receive(c, link, tunnels, src, Some(rule.dest), Payload(data), clientSecret, connectionId).1.value;
    FramesAreRead(c, link, f, Payload(data), keys, now);
  }

  /** And a datagram a rule decides about is addressed to the rule's own destination if and only if the
      rule captures for no other address and the datagram's port is the destination's. */
  lemma DecidedRightExactlyWhen(rules: seq<Rule>, i: int, data: Packet)
    requires Decides(rules, i, data)
    ensures Destination(data) == Capturing(rules)[i].dest <==> MeansThisPort(Capturing(rules)[i], DstPort(data))
  {
    assert RedirectFor(Capturing(rules)[i]) == Some(Redirects(rules)[i]);
  }
}
