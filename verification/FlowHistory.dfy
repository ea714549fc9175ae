/** Whole runs of the capture: what the flow table says about the packets seen so far. */
module FlowHistory {
  import opened Wire
  import opened Capture
  import opened WinDivert

  /** One turn of the capture loop: a packet, with the resolver's answers at that moment, or a reap. */
  datatype Step =
    | Captured(data: bytes, outbound: bool, resolve: Resolver, now: Instant)
    | Reap(now: Instant)

  function Apply(flows: FlowTable, s: Step): FlowTable {
    match s
    case Captured(data, outbound, resolve, now) => FlowsAfter(flows, data, outbound, resolve, now)
    case Reap(now) => Reaped(flows, now)
  }

  /** The table after a history, starting empty. */
  function Run(h: seq<Step>): FlowTable {
    if h == [] then map[] else Apply(Run(h[..|h| - 1]), h[|h| - 1])
  }

  /** An outbound packet from port `p` was rewritten. */
  predicate Redirects(s: Step, p: u16) {
    s.Captured? && s.outbound && IsRedirected(s.data, s.resolve) && SrcPort(s.data) == p
  }

  /** A packet came in for port `p`. */
  predicate Arrives(s: Step, p: u16) {
    s.Captured? && !s.outbound && Parses(s.data) && DstPort(s.data) == p
  }

  /** The index of the latest redirect of `p`, or -1. */
  function LastRedirect(h: seq<Step>, p: u16): (k: int)
    ensures -1 <= k < |h|
    ensures k >= 0 ==> Redirects(h[k], p)
    ensures forall j :: k < j < |h| ==> !Redirects(h[j], p)
  {
    if h == [] then -1
    else if Redirects(h[|h| - 1], p) then |h| - 1
    else LastRedirect(h[..|h| - 1], p)
  }

  /** When `p` last sent a rewritten packet or was sent one. */
  function LastTraffic(h: seq<Step>, p: u16): Instant {
    if h == [] then 0
    else
      var s := h[|h| - 1];
      if Redirects(s, p) || Arrives(s, p) then s.now else LastTraffic(h[..|h| - 1], p)
  }

  /** Every reap since the latest redirect found traffic of `p` within the idle limit. */
  ghost predicate NeverIdle(h: seq<Step>, p: u16) {
    forall j :: LastRedirect(h, p) < j < |h| ==> Spared(h, p, j)
  }

  /** If step `j` is a reap, it finds traffic of `p` within the idle limit. */
  predicate Spared(h: seq<Step>, p: u16, j: nat)
    requires j < |h|
  {
    h[j].Reap? ==> LastTraffic(h[..j], p) >= h[j].now - FLOW_IDLE
  }

  /**
   The flow table is determined by the history: `p` has an entry exactly when it was redirected and
   no reap since then found it idle, and the entry holds the original destination and target of the
   latest redirect and the time of the latest traffic.
   */
  lemma {:induction false} TableIsReplayOfHistory(h: seq<Step>, p: u16)
    ensures p in Run(h) <==> LastRedirect(h, p) >= 0 && NeverIdle(h, p)
    ensures p in Run(h) ==>
              var s := h[LastRedirect(h, p)];
              Run(h)[p] == FlowEntry(Destination(s.data), TargetOf(s.data, s.resolve), LastTraffic(h, p))
  {
    if h != [] {
      var n := |h| - 1;
      var front, s := h[..n], h[n];
      TableIsReplayOfHistory(front, p);
      if !Redirects(s, p) {
        IdlenessSoFar(h, p);
      }
    }
  }

  lemma IdlenessSoFar(h: seq<Step>, p: u16)
    requires h != [] && !Redirects(h[|h| - 1], p)
    ensures var n := |h| - 1;
            NeverIdle(h, p) <==>
            NeverIdle(h[..n], p) && (LastRedirect(h, p) < n ==> Spared(h, p, n))
  {
    var n := |h| - 1;
    forall j | 0 <= j < n ensures Spared(h[..n], p, j) <==> Spared(h, p, j) {
      assert h[..n][..j] == h[..j];
    }
  }

  /** Origins recorded in the table are the IPv4 destinations the packets carried. */
  lemma {:induction false} OriginsAreV4(h: seq<Step>)
    ensures forall p :: p in Run(h) ==> Run(h)[p].origDst.ip.V4?
  {
    if h != [] {
      OriginsAreV4(h[..|h| - 1]);
    }
  }

  // ---------- the round trip ----------

  /** From step `k` on, `p` is redirected for no other destination and never found idle. */
  ghost predicate KeepsFlow(h: seq<Step>, k: nat, p: u16, dst: SocketAddr) {
    && (forall j :: k <= j < |h| && Redirects(h[j], p) ==> Destination(h[j].data) == dst)
    && (forall j :: k < j < |h| ==> Spared(h, p, j))
  }

  lemma {:induction false} FlowSurvives(h: seq<Step>, k: nat, p: u16)
    requires k < |h| && Redirects(h[k], p) && KeepsFlow(h, k, p, Destination(h[k].data))
    ensures p in Run(h) && Run(h)[p].origDst == Destination(h[k].data)
  {
    TableIsReplayOfHistory(h, p);
    assert LastRedirect(h, p) >= k;
  }

  /**
   The NAT round trip. Once a packet has been redirected, and whatever else happens meanwhile as long
   as its port is not redirected elsewhere and not reaped, any packet arriving for that port comes
   out as if sent by the original destination; and the reply to the redirected packet comes out octet
   for octet as the reply to the packet the game sent.
   */
  lemma {:induction false} ReplyComesFromOriginalDestination(
      h: seq<Step>, k: nat, p: u16, reply: bytes, resolve: Resolver)
    requires k < |h| && Redirects(h[k], p) && KeepsFlow(h, k, p, Destination(h[k].data))
    ensures Parses(reply) && DstPort(reply) == p ==>
              var r := Rewritten(Run(h), reply, false, resolve);
              && r.Some? && Parses(r.value)
              && Source(r.value) == Destination(h[k].data) && Destination(r.value) == Destination(reply)
    ensures var sent := Rewritten(Run(h[..k]), h[k].data, true, h[k].resolve);
            sent.Some? && Parses(sent.value) &&
            Rewritten(Run(h), Swapped(sent.value), false, resolve) == Some(Swapped(h[k].data))
  {
    var data: Packet := h[k].data;
    FlowSurvives(h, k, p);
    var dst := Destination(data);
    if Parses(reply) && DstPort(reply) == p {
      WithSourceParses(reply, dst.ip.v4, dst.port);
    }
    var t := TargetOf(data, h[k].resolve);
    WithDestinationParses(data, t.ip.v4, t.port);
    var sent := WithDestination(data, t.ip.v4, t.port);
    SwappedExchangesEndpoints(sent);
    SwapUndoesRewrite(data, t.ip.v4, t.port);
  }

  /** What comes out for a packet arriving for `p`: it gets the destination of the latest redirect of
      `p` as its source, unless there was none or it has been found idle. */
  lemma InboundComesFromLatestDestination(h: seq<Step>, reply: Packet, resolve: Resolver)
    ensures var p, k := DstPort(reply), LastRedirect(h, DstPort(reply));
            Rewritten(Run(h), reply, false, resolve) ==
            if k >= 0 && NeverIdle(h, p) then Some(FromEndpoint(reply, Destination(h[k].data))) else None
  {
    TableIsReplayOfHistory(h, DstPort(reply));
    OriginsAreV4(h);
  }

  /** The packet with this IPv4 endpoint as its source. */
  function FromEndpoint(data: Packet, a: SocketAddr): bytes
    requires a.ip.V4?
  {
    WithSource(data, a.ip.v4, a.port)
  }

  /**
   The reply to a redirected packet comes out as the reply to the packet the game sent if and only if
   no reap since the latest redirect of its port found the port idle, and that latest redirect was
   for the same destination.
   */
  lemma ReplyIsRightExactlyWhen(h: seq<Step>, k: nat, p: u16, resolve: Resolver)
    requires k < |h| && Redirects(h[k], p)
    ensures LastRedirect(h, p) >= k
    ensures var sent := Rewritten(Run(h[..k]), h[k].data, true, h[k].resolve);
            sent.Some? && Parses(sent.value) &&
            (Rewritten(Run(h), Swapped(sent.value), false, resolve) == Some(Swapped(h[k].data)) <==>
             NeverIdle(h, p) && Destination(h[LastRedirect(h, p)].data) == Destination(h[k].data))
  {
    var data: Packet := h[k].data;
    var t := TargetOf(data, h[k].resolve);
    WithDestinationParses(data, t.ip.v4, t.port);
    var sent := WithDestination(data, t.ip.v4, t.port);
    SwappedExchangesEndpoints(sent);
    SwappedExchangesEndpoints(data);
    SwapUndoesRewrite(data, t.ip.v4, t.port);
    InboundComesFromLatestDestination(h, Swapped(sent), resolve);
    var dst := Destination(h[LastRedirect(h, p)].data);
    WithSourceParses(Swapped(sent), dst.ip.v4, dst.port);
  }

  /** Two packets of one port go to different destinations; the reply to the first then comes out as
      if sent by the destination of the second. */
  lemma LateReplyIsMisattributed(a: Packet, b: Packet, resolve: Resolver, now: Instant)
    requires IsRedirected(a, resolve) && IsRedirected(b, resolve)
    requires SrcPort(a) == SrcPort(b) && Destination(a) != Destination(b)
    ensures var h := [Captured(a, true, resolve, now), Captured(b, true, resolve, now)];
            var sent := Rewritten(Run(h[..0]), a, true, resolve);
            sent.Some? && Parses(sent.value) &&
            var r := Rewritten(Run(h), Swapped(sent.value), false, resolve);
            r.Some? && Parses(r.value) && Source(r.value) == Destination(b) && r.value != Swapped(a)
  {
    var h := [Captured(a, true, resolve, now), Captured(b, true, resolve, now)];
    assert Redirects(h[0], SrcPort(a)) && Redirects(h[1], SrcPort(a));
    ReplyIsRightExactlyWhen(h, 0, SrcPort(a), resolve);
    var sent := Rewritten(Run(h[..0]), a, true, resolve).value;
    var t := TargetOf(a, resolve);
    WithDestinationParses(a, t.ip.v4, t.port);
    SwappedExchangesEndpoints(sent);
    InboundComesFromLatestDestination(h, Swapped(sent), resolve);
    WithSourceParses(Swapped(sent), DstIp(b), DstPort(b));
  }

  /** The source of an arriving packet plays no part: whatever it is, redirect target or not, the
      packet comes out the same. */
  lemma InboundSourceIsNotChecked(h: seq<Step>, data: Packet, ip: u32, port: u16, resolve: Resolver)
    ensures Parses(WithSource(data, ip, port)) && Source(WithSource(data, ip, port)) == SocketAddr(V4(ip), port)
    ensures Rewritten(Run(h), WithSource(data, ip, port), false, resolve) == Rewritten(Run(h), data, false, resolve)
    ensures Rewritten(Run(h), data, false, resolve).Some? <==> DstPort(data) in Run(h)
  {
    WithSourceParses(data, ip, port);
    OriginsAreV4(h);
    if DstPort(data) in Run(h) {
      var orig := Run(h)[DstPort(data)].origDst;
      SourceOverwrites(data, ip, port, orig.ip.v4, orig.port);
    }
  }

  /** Turning round a rewritten packet and restoring its source is turning round the original. */
  lemma {:induction false} SwapUndoesRewrite(data: Packet, ip: u32, port: u16)
    ensures var sent := WithDestination(data, ip, port);
            && Parses(sent) && Parses(Swapped(sent))
            && WithSource(Swapped(sent), DstIp(data), DstPort(data)) == Swapped(data)
  {
    WithDestinationParses(data, ip, port);
    var sent: Packet := WithDestination(data, ip, port);
    SwappedExchangesEndpoints(sent);
    WithDestinationParses(data, SrcIp(data), SrcPort(data));
    WithDestinationParses(sent, SrcIp(sent), SrcPort(sent));
    // Setting the destination twice is setting it once, and likewise the source.
    assert Turned(sent) == Turned(data) by {
      DestinationOverwrites(data, ip, port, SrcIp(data), SrcPort(data));
    }
    SourceOverwrites(Turned(data), ip, port, DstIp(data), DstPort(data));
  }

  lemma DestinationOverwrites(data: Packet, ip1: u32, port1: u16, ip2: u32, port2: u16)
    ensures Parses(WithDestination(data, ip1, port1))
    ensures WithDestination(WithDestination(data, ip1, port1), ip2, port2) == WithDestination(data, ip2, port2)
  {
    WithDestinationParses(data, ip1, port1);
    SpliceTwice(data, 16, BE32(ip1), BE32(ip2), HeaderLen(data) + 2, BE16(port1), BE16(port2));
  }

  lemma SourceOverwrites(data: Packet, ip1: u32, port1: u16, ip2: u32, port2: u16)
    ensures Parses(WithSource(data, ip1, port1))
    ensures WithSource(WithSource(data, ip1, port1), ip2, port2) == WithSource(data, ip2, port2)
  {
    WithSourceParses(data, ip1, port1);
    SpliceTwice(data, 12, BE32(ip1), BE32(ip2), HeaderLen(data), BE16(port1), BE16(port2));
  }

  lemma SpliceTwice(s: bytes, i: nat, a1: bytes, a2: bytes, j: nat, b1: bytes, b2: bytes)
    requires |a1| == |a2| && |b1| == |b2| && i + |a1| <= j && j + |b1| <= |s|
    ensures Splice(Splice(Splice(Splice(s, i, a1), j, b1), i, a2), j, b2) == Splice(Splice(s, i, a2), j, b2)
  {
    var x := Splice(Splice(Splice(Splice(s, i, a1), j, b1), i, a2), j, b2);
    var y := Splice(Splice(s, i, a2), j, b2);
    forall k | 0 <= k < |s| ensures x[k] == y[k] {
      if i <= k < i + |a1| {
        assert x[k] == a2[k - i] == y[k];
      } else if j <= k < j + |b1| {
        assert x[k] == b2[k - j] == y[k];
      }
    }
  }
}
