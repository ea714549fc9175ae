/**
 Smart routing end to end: packets leave the game, are captured and redirected to a local listener,
 are tunnelled by it, and come out of the bridge.  Capture, reaping, delivery to the listeners and
 loss happen in any order.
 */
module Transparency {
  import opened Wire
  import Crypto
  import Protocol
  import License
  import opened Syn
  import Capture
  import opened WinDivert
  import FlowHistory
  import opened Forwarder

  /** A rewritten packet on its way to a listener, with the packet the game sent. */
  datatype InFlight = InFlight(sent: Packet, original: Packet)

  /** What the listener on `port` did with a packet. */
  datatype Delivery = Delivery(original: Packet, port: u16, forwarded: Forwarded)

  datatype World = World(
    flows: FlowTable,
    inFlight: seq<InFlight>,
    tunnels: map<u16, map<u16, Tunnel>>,  // per listener, by the game's source port
    log: seq<Delivery>)

  datatype Step =
    | Flow(step: FlowHistory.Step)        // a turn of the capture loop
    | Deliver(i: nat, clientSecret: Crypto.Secret, connectionId: u32)
    | Lose(i: nat)

  const INITIAL := World(map[], [], map[], [])

  /** The listeners by port, each with the link to its bridge. */
  type Links = map<u16, BridgeLink>

  predicate Enabled(w: World, s: Step) {
    match s
    case Flow(_) => true
    case Deliver(i, _, _) => i < |w.inFlight|
    case Lose(i) => i < |w.inFlight|
  }

  function Without<T>(s: seq<T>, i: nat): seq<T>
    requires i < |s|
  {
    s[..i] + s[i + 1..]
  }

  /** What a turn of the capture loop sends off to a redirect target. */
  function SentBy(step: FlowHistory.Step): seq<InFlight> {
    if step.Captured? && step.outbound && IsRedirected(step.data, step.resolve) then
      var t := TargetOf(step.data, step.resolve);
      WithDestinationParses(step.data, t.ip.v4, t.port);
      [InFlight(WithDestination(step.data, t.ip.v4, t.port), step.data)]
    else []
  }

  /** A packet for one of the local listeners. */
  predicate IsForListener(links: Links, sent: Packet) {
    Proto(sent) == Capture.Udp && Destination(sent).ip == LOCALHOST && DstPort(sent) in links
  }

  function TunnelsOf(w: World, port: u16): map<u16, Tunnel> {
    if port in w.tunnels then w.tunnels[port] else map[]
  }

  /** The listener's tunnels after a packet, and how it was forwarded. */
  function Received(c: Crypto.Suite, links: Links, w: World, sent: Packet, clientSecret: Crypto.Secret,
                    connectionId: u32): (map<u16, Tunnel>, Option<Forwarded>)
    requires IsForListener(links, sent)
  {
    var p := SrcPort(sent);
    Receive(c, links[DstPort(sent)], TunnelsOf(w, DstPort(sent)), p, Origin(w.flows, p), Payload(sent),
            clientSecret, connectionId)
  }

  function Next(c: Crypto.Suite, links: Links, w: World, s: Step): World
    requires Enabled(w, s)
  {
    match s
    case Flow(step) => w.(flows := FlowHistory.Apply(w.flows, step), inFlight := w.inFlight + SentBy(step))
    case Deliver(i, clientSecret, connectionId) =>
      var f := w.inFlight[i];
      var w' := w.(inFlight := Without(w.inFlight, i));
      if !IsForListener(links, f.sent) then w'
      else
        var port := DstPort(f.sent);
        var (tunnels, r) := Received(c, links, w, f.sent, clientSecret, connectionId);
        w'.(tunnels := w.tunnels[port := tunnels],
            log := if r.Some? then w.log + [Delivery(f.original, port, r.value)] else w.log)
    case Lose(i) => w.(inFlight := Without(w.inFlight, i))
  }

  ghost predicate Possible(c: Crypto.Suite, links: Links, steps: seq<Step>)
    decreases |steps|, 0
  {
    steps != [] ==> Possible(c, links, Front(steps)) && Enabled(Run(c, links, Front(steps)), Last(steps))
  }

  ghost function Run(c: Crypto.Suite, links: Links, steps: seq<Step>): World
    requires Possible(c, links, steps)
    decreases |steps|, 1
  {
    if steps == [] then INITIAL else Next(c, links, Run(c, links, Front(steps)), Last(steps))
  }

  /** The capture loop's part of a run. */
  function FlowSteps(steps: seq<Step>): seq<FlowHistory.Step> {
    if steps == [] then [] else FlowSteps(Front(steps)) + if Last(steps).Flow? then [Last(steps).step] else []
  }

  /** The flow table of a run is that of the capture loop's part of it. */
  lemma {:induction false} FlowsAreHistory(c: Crypto.Suite, links: Links, steps: seq<Step>)
    requires Possible(c, links, steps)
    ensures Run(c, links, steps).flows == FlowHistory.Run(FlowSteps(steps))
  {
    if steps != [] {
      FlowsAreHistory(c, links, Front(steps));
      if Last(steps).Flow? {
        assert FlowSteps(steps)[..|FlowSteps(steps)| - 1] == FlowSteps(Front(steps));
      } else {
        assert FlowSteps(steps) == FlowSteps(Front(steps));
      }
    }
  }

  // ---------- one tunnel for each listener and source port ----------

  /** What the listener on `port` forwarded for the game's port `p`, in order. */
  function Served(log: seq<Delivery>, port: u16, p: u16): (ds: seq<Delivery>)
    ensures forall d :: d in ds <==> d in log && d.port == port && SrcPort(d.original) == p
  {
    if log == [] then []
    else
      var d := Last(log);
      assert log == Front(log) + [d];
      Served(Front(log), port, p) + if d.port == port && SrcPort(d.original) == p then [d] else []
  }

  /** All of it went into one tunnel, which the listener still has, under sequence numbers 1, 2, 3, ... */
  ghost predicate OneTunnel(w: World, port: u16, p: u16) {
    var ds := Served(w.log, port, p);
    && (ds != [] <==> p in TunnelsOf(w, port))
    && (ds != [] ==> TunnelsOf(w, port)[p] == Last(ds).forwarded.tunnel)
    && Numbered(ds)
  }

  predicate Numbered(ds: seq<Delivery>) {
    forall i :: 0 <= i < |ds| ==> ds[i].forwarded.tunnel == ds[0].forwarded.tunnel.(txSequence := SequenceOf(i))
  }

  /** The rewritten packet carries what the game sent, from the same port. */
  predicate Faithful(f: InFlight) {
    SrcPort(f.sent) == SrcPort(f.original) && Payload(f.sent) == Payload(f.original)
  }

  ghost predicate AllFaithful(w: World) {
    forall f :: f in w.inFlight ==> Faithful(f)
  }

  lemma SentIsFaithful(step: FlowHistory.Step)
    ensures forall f :: f in SentBy(step) ==> Faithful(f)
  {
    if SentBy(step) != [] {
      var t := TargetOf(step.data, step.resolve);
      WithDestinationParses(step.data, t.ip.v4, t.port);
    }
  }

  lemma {:induction false} FlightsStayFaithful(c: Crypto.Suite, links: Links, steps: seq<Step>)
    requires Possible(c, links, steps)
    ensures AllFaithful(Run(c, links, steps))
  {
    if steps != [] {
      FlightsStayFaithful(c, links, Front(steps));
      if Last(steps).Flow? {
        SentIsFaithful(Last(steps).step);
      }
    }
  }

  /** A packet is forwarded in the tunnel its port already has, or else in a new one to its flow's origin. */
  lemma PacketOutcome(c: Crypto.Suite, links: Links, w: World, sent: Packet, clientSecret: Crypto.Secret,
                      connectionId: u32)
    requires IsForListener(links, sent)
    ensures var p, port := SrcPort(sent), DstPort(sent);
            var (after, r) := Received(c, links, w, sent, clientSecret, connectionId);
            IsOutcome(c, links[port], TunnelsOf(w, port), p, Origin(w.flows, p), Payload(sent), after, r)
  {
    var p, port := SrcPort(sent), DstPort(sent);
    ReceiveOutcome(c, links[port], TunnelsOf(w, port), p, Origin(w.flows, p), Payload(sent), clientSecret,
                   connectionId);
  }

  lemma ServedSnoc(log: seq<Delivery>, d: Delivery, port: u16, p: u16)
    ensures Served(log + [d], port, p) ==
            if d.port == port && SrcPort(d.original) == p then Served(log, port, p) + [d] else Served(log, port, p)
  {
    assert Front(log + [d]) == log;
  }

  lemma NumberedSnoc(ds: seq<Delivery>, d: Delivery)
    requires Numbered(ds)
    requires if ds == [] then d.forwarded.tunnel.txSequence == SequenceOf(0)
             else Advances(Last(ds).forwarded.tunnel, d.forwarded.tunnel)
    ensures Numbered(ds + [d])
  {
    NextSequence(|ds|);
    if ds != [] {
      assert Last(ds).forwarded.tunnel == ds[0].forwarded.tunnel.(txSequence := SequenceOf(|ds| - 1));
      assert SequenceOf(|ds| - 1) == |ds| % TWO_TO_64;
    }
  }

  lemma OneMoreServed(w: World, w': World, port: u16, p: u16, d: Delivery)
    requires OneTunnel(w, port, p) && w'.log == w.log + [d] && d.port == port && SrcPort(d.original) == p
    requires TunnelsOf(w', port) == TunnelsOf(w, port)[p := d.forwarded.tunnel]
    requires if p in TunnelsOf(w, port) then Advances(TunnelsOf(w, port)[p], d.forwarded.tunnel)
             else d.forwarded.tunnel.txSequence == SequenceOf(0)
    ensures OneTunnel(w', port, p)
  {
    ServedSnoc(w.log, d, port, p);
    NumberedSnoc(Served(w.log, port, p), d);
    assert Last(Served(w'.log, port, p)) == d;
  }

  lemma OthersServed(w: World, w': World, port: u16, p: u16, d: Delivery)
    requires OneTunnel(w, port, p) && w'.log == w.log + [d] && (d.port != port || SrcPort(d.original) != p)
    requires p in TunnelsOf(w', port) <==> p in TunnelsOf(w, port)
    requires p in TunnelsOf(w, port) ==> TunnelsOf(w', port)[p] == TunnelsOf(w, port)[p]
    ensures OneTunnel(w', port, p)
  {
    ServedSnoc(w.log, d, port, p);
  }

  /** The listener forwarded `d`, in the tunnel it had for the port or in a new one. */
  ghost predicate Forwards(w: World, w': World, d: Delivery) {
    var p, before := SrcPort(d.original), TunnelsOf(w, d.port);
    && w'.log == w.log + [d] && TunnelsOf(w', d.port) == before[p := d.forwarded.tunnel]
    && (forall q :: q != d.port ==> TunnelsOf(w', q) == TunnelsOf(w, q))
    && if p in before then Advances(before[p], d.forwarded.tunnel) else d.forwarded.tunnel.txSequence == SequenceOf(0)
  }

  /** Nothing was forwarded, and no tunnel changed. */
  ghost predicate ForwardsNothing(w: World, w': World) {
    w'.log == w.log && forall q :: TunnelsOf(w', q) == TunnelsOf(w, q)
  }

  lemma OutcomeForwards(c: Crypto.Suite, link: BridgeLink, w: World, w': World, f: InFlight,
                        after: map<u16, Tunnel>, r: Option<Forwarded>)
    requires Faithful(f) && w'.tunnels == w.tunnels[DstPort(f.sent) := after]
    requires var p, port := SrcPort(f.sent), DstPort(f.sent);
             IsOutcome(c, link, TunnelsOf(w, port), p, Origin(w.flows, p), Payload(f.sent), after, r)
    requires w'.log == if r.Some? then w.log + [Delivery(f.original, DstPort(f.sent), r.value)] else w.log
    ensures if r.Some? then Forwards(w, w', Delivery(f.original, DstPort(f.sent), r.value)) else ForwardsNothing(w, w')
  {
  }

  lemma StepForwards(c: Crypto.Suite, links: Links, w: World, s: Step)
    requires Enabled(w, s) && AllFaithful(w)
    ensures var w' := Next(c, links, w, s);
            ForwardsNothing(w, w') || (w'.log != [] && Forwards(w, w', Last(w'.log)))
  {
    if s.Deliver? && IsForListener(links, w.inFlight[s.i].sent) {
      var f := w.inFlight[s.i];
      assert Faithful(f);
      PacketOutcome(c, links, w, f.sent, s.clientSecret, s.connectionId);
      var (after, r) := Received(c, links, w, f.sent, s.clientSecret, s.connectionId);
      OutcomeForwards(c, links[DstPort(f.sent)], w, Next(c, links, w, s), f, after, r);
    }
  }

  lemma OneTunnelStep(c: Crypto.Suite, links: Links, w: World, s: Step, port: u16, p: u16)
    requires Enabled(w, s) && AllFaithful(w) && OneTunnel(w, port, p)
    ensures OneTunnel(Next(c, links, w, s), port, p)
  {
    StepForwards(c, links, w, s);
    var w' := Next(c, links, w, s);
    if w'.log != w.log {
      var d := Last(w'.log);
      if d.port == port && SrcPort(d.original) == p {
        OneMoreServed(w, w', port, p, d);
      } else {
        OthersServed(w, w', port, p, d);
      }
    }
  }

  /** For each listener and source port there is one tunnel, in every run. */
  lemma {:induction false} RunsKeepOneTunnel(c: Crypto.Suite, links: Links, steps: seq<Step>, port: u16, p: u16)
    requires Possible(c, links, steps)
    ensures OneTunnel(Run(c, links, steps), port, p)
  {
    if steps != [] {
      RunsKeepOneTunnel(c, links, Front(steps), port, p);
      FlightsStayFaithful(c, links, Front(steps));
      OneTunnelStep(c, links, Run(c, links, Front(steps)), Last(steps), port, p);
    }
  }

  // ---------- where it goes ----------

  /** The index of the step at which the listener on `port` forwards its first datagram for `p`, or -1. */
  ghost function FirstServed(c: Crypto.Suite, links: Links, steps: seq<Step>, port: u16, p: u16): (n: int)
    requires Possible(c, links, steps)
    ensures -1 <= n < |steps|
    decreases |steps|
  {
    if steps == [] then -1
    else
      var n := FirstServed(c, links, Front(steps), port, p);
      if n >= 0 || Served(Run(c, links, steps).log, port, p) == [] then n else |steps| - 1
  }

  /** Step `n` is possible, and it is the one with which the listener starts serving the port. */
  ghost predicate StartsServing(c: Crypto.Suite, links: Links, steps: seq<Step>, port: u16, p: u16, n: nat)
    requires n < |steps|
  {
    && Possible(c, links, steps[..n]) && Possible(c, links, steps[..n + 1])
    && Served(Run(c, links, steps[..n]).log, port, p) == []
    && Served(Run(c, links, steps[..n + 1]).log, port, p) != []
  }

  lemma StartsServingExtends(c: Crypto.Suite, links: Links, steps: seq<Step>, port: u16, p: u16, n: nat)
    requires n + 1 < |steps| && StartsServing(c, links, Front(steps), port, p, n)
    ensures StartsServing(c, links, steps, port, p, n)
  {
    assert Front(steps)[..n] == steps[..n] && Front(steps)[..n + 1] == steps[..n + 1];
  }

  lemma {:induction false} FirstServedIsFirst(c: Crypto.Suite, links: Links, steps: seq<Step>, port: u16, p: u16)
    requires Possible(c, links, steps)
    ensures var n := FirstServed(c, links, steps, port, p);
            && (n >= 0 <==> Served(Run(c, links, steps).log, port, p) != [])
            && (n >= 0 ==> StartsServing(c, links, steps, port, p, n))
  {
    if steps != [] {
      var n := FirstServed(c, links, Front(steps), port, p);
      FirstServedIsFirst(c, links, Front(steps), port, p);
      if n >= 0 {
        LogGrows(c, links, Run(c, links, Front(steps)), Last(steps), port, p);
        StartsServingExtends(c, links, steps, port, p, n);
      } else {
        assert steps[..|steps|] == steps;
      }
    }
  }

  lemma LogGrows(c: Crypto.Suite, links: Links, w: World, s: Step, port: u16, p: u16)
    requires Enabled(w, s)
    ensures var before, after := Served(w.log, port, p), Served(Next(c, links, w, s).log, port, p);
            before <= after && |after| <= |before| + 1
  {
    if Next(c, links, w, s).log != w.log {
      ServedSnoc(w.log, Last(Next(c, links, w, s).log), port, p);
    }
  }

  /** The datagram went into a tunnel to the destination of the latest redirect of `p` in the history. */
  predicate GoesToLatestRedirect(h: seq<FlowHistory.Step>, p: u16, d: Delivery) {
    var k := FlowHistory.LastRedirect(h, p);
    k >= 0 && d.forwarded.tunnel.dest == Destination(h[k].data)
  }

  /** The first datagram a listener forwards for a port goes to where the port was last redirected from. */
  lemma FirstGoesToLatestRedirect(c: Crypto.Suite, links: Links, steps: seq<Step>, s: Step, port: u16, p: u16)
    requires Possible(c, links, steps) && Enabled(Run(c, links, steps), s)
    requires Served(Run(c, links, steps).log, port, p) == []
    ensures var h, ds := FlowSteps(steps), Served(Next(c, links, Run(c, links, steps), s).log, port, p);
            ds != [] ==> GoesToLatestRedirect(h, p, ds[0])
  {
    var w := Run(c, links, steps);
    if Served(Next(c, links, w, s).log, port, p) != [] {
      var f := w.inFlight[s.i];
      FlightsStayFaithful(c, links, steps);
      assert Faithful(f);
      RunsKeepOneTunnel(c, links, steps, port, p);
      PacketOutcome(c, links, w, f.sent, s.clientSecret, s.connectionId);
      var r := Received(c, links, w, f.sent, s.clientSecret, s.connectionId).1;
      ServedSnoc(w.log, Delivery(f.original, DstPort(f.sent), r.value), port, p);
      FlowsAreHistory(c, links, steps);
      FlowHistory.TableIsReplayOfHistory(FlowSteps(steps), p);
    }
  }

  /** Whatever the listener forwarded for `p`, it forwarded first to the latest redirect at that time. */
  ghost predicate FirstGoesRight(c: Crypto.Suite, links: Links, steps: seq<Step>, port: u16, p: u16)
    requires Possible(c, links, steps)
  {
    var ds := Served(Run(c, links, steps).log, port, p);
    var n := FirstServed(c, links, steps, port, p);
    ds != [] ==> n >= 0 && GoesToLatestRedirect(FlowSteps(steps[..n]), p, ds[0])
  }

  lemma FirstStaysFirst(c: Crypto.Suite, links: Links, steps: seq<Step>, port: u16, p: u16)
    requires Possible(c, links, steps) && steps != [] && FirstGoesRight(c, links, Front(steps), port, p)
    requires Served(Run(c, links, Front(steps)).log, port, p) != []
    ensures FirstGoesRight(c, links, steps, port, p)
  {
    LogGrows(c, links, Run(c, links, Front(steps)), Last(steps), port, p);
    var n := FirstServed(c, links, Front(steps), port, p);
    assert Front(steps)[..n] == steps[..n];
  }

  lemma {:induction false} FirstDestination(c: Crypto.Suite, links: Links, steps: seq<Step>, port: u16, p: u16)
    requires Possible(c, links, steps)
    ensures FirstGoesRight(c, links, steps, port, p)
  {
    if steps != [] {
      FirstDestination(c, links, Front(steps), port, p);
      if Served(Run(c, links, Front(steps)).log, port, p) != [] {
        FirstStaysFirst(c, links, steps, port, p);
      } else {
        FirstServedIsFirst(c, links, Front(steps), port, p);
        FirstGoesToLatestRedirect(c, links, Front(steps), Last(steps), port, p);
      }
    }
  }

  /**
   Where every forwarded datagram goes: to the destination of the latest redirect of its source port
   before its listener's first forwarding for that port.  So it goes where the game sent it if and
   only if that redirect was for the same destination.
   */
  lemma {:induction false} DeliveryIsRightExactlyWhen(c: Crypto.Suite, links: Links, steps: seq<Step>, d: Delivery)
    requires Possible(c, links, steps) && d in Run(c, links, steps).log
    ensures var p, n := SrcPort(d.original), FirstServed(c, links, steps, d.port, SrcPort(d.original));
            n >= 0 &&
            var h := FlowSteps(steps[..n]);
            var k := FlowHistory.LastRedirect(h, p);
            && k >= 0
            && d.forwarded.tunnel.dest == Destination(h[k].data)
            && (d.forwarded.tunnel.dest == Destination(d.original) <==>
                Destination(h[k].data) == Destination(d.original))
  {
    var p := SrcPort(d.original);
    FirstDestination(c, links, steps, d.port, p);
    FirstServedIsFirst(c, links, steps, d.port, p);
    RunsKeepOneTunnel(c, links, steps, d.port, p);
    assert d in Served(Run(c, links, steps).log, d.port, p);
  }

  /**
   The same for a single forwarding, whatever the state and whatever else is in flight: it goes right
   exactly when the listener's tunnel for the source port, or without one the flow table's origin for
   it, is for the destination the game addressed.
   */
  lemma {:induction false} ForwardingIsRightExactlyWhen(
    c: Crypto.Suite, links: Links, w: World, i: nat, clientSecret: Crypto.Secret, connectionId: u32)
    requires i < |w.inFlight| && Faithful(w.inFlight[i]) && IsForListener(links, w.inFlight[i].sent)
    ensures var original, port := w.inFlight[i].original, DstPort(w.inFlight[i].sent);
            var p, tunnels := SrcPort(original), TunnelsOf(w, port);
            var w' := Next(c, links, w, Deliver(i, clientSecret, connectionId));
            && (w'.log == w.log <==> p !in tunnels && Origin(w.flows, p).None?)
            && (w'.log != w.log ==>
                && w'.log == w.log + [Last(w'.log)]
                && Last(w'.log).original == original && Last(w'.log).port == port
                && p in TunnelsOf(w', port) && TunnelsOf(w', port)[p] == Last(w'.log).forwarded.tunnel
                && (Last(w'.log).forwarded.tunnel.dest == Destination(original) <==>
                    if p in tunnels then tunnels[p].dest == Destination(original)
                    else Origin(w.flows, p) == Some(Destination(original))))
  {
    PacketOutcome(c, links, w, w.inFlight[i].sent, clientSecret, connectionId);
  }

  // ---------- what the bridge makes of it ----------

  ghost predicate DeliverySound(c: Crypto.Suite, links: Links, d: Delivery) {
    && d.port in links && OpenedFor(c, links[d.port], d.forwarded.tunnel)
    && d.forwarded.wire == FrameFor(c, d.forwarded.tunnel.handle, d.forwarded.tunnel.txSequence, Payload(d.original))
  }

  ghost predicate LogSound(c: Crypto.Suite, links: Links, w: World) {
    forall d :: d in w.log ==> DeliverySound(c, links, d)
  }

  lemma SoundStep(c: Crypto.Suite, links: Links, w: World, s: Step)
    requires Enabled(w, s) && s.Deliver? && IsForListener(links, w.inFlight[s.i].sent)
    requires Faithful(w.inFlight[s.i]) && LogSound(c, links, w)
    requires OneTunnel(w, DstPort(w.inFlight[s.i].sent), SrcPort(w.inFlight[s.i].sent))
    ensures LogSound(c, links, Next(c, links, w, s))
  {
    var sent := w.inFlight[s.i].sent;
    var port, p := DstPort(sent), SrcPort(sent);
    PacketOutcome(c, links, w, sent, s.clientSecret, s.connectionId);
    var r := Received(c, links, w, sent, s.clientSecret, s.connectionId).1;
    if r.Some? && p in TunnelsOf(w, port) {
      var last := Last(Served(w.log, port, p));
      assert DeliverySound(c, links, last);
      OpenedStays(c, links[port], last.forwarded.tunnel, r.value.tunnel);
    }
  }

  /** Every forwarded datagram is a frame with the game's payload in a tunnel opened for its destination. */
  lemma {:induction false} RunsStaySound(c: Crypto.Suite, links: Links, steps: seq<Step>)
    requires Possible(c, links, steps)
    ensures LogSound(c, links, Run(c, links, steps))
  {
    if steps != [] {
      var front, s := Front(steps), Last(steps);
      RunsStaySound(c, links, front);
      FlightsStayFaithful(c, links, front);
      var w := Run(c, links, front);
      if s.Deliver? && IsForListener(links, w.inFlight[s.i].sent) {
        RunsKeepOneTunnel(c, links, front, DstPort(w.inFlight[s.i].sent), SrcPort(w.inFlight[s.i].sent));
        SoundStep(c, links, w, s);
      }
    }
  }

  /**
   From the game's packet to what the bridge reads, in every run: with a token the bridge accepts,
   the bridge is asked to connect to the destination the game addressed, and reads the payload the
   game sent, if and only if the latest redirect of the source port before the listener's first
   forwarding for it was for that destination.
   */
  lemma {:induction false} TunnelsAreReadRightExactlyWhen(
    c: Crypto.Suite, links: Links, steps: seq<Step>, d: Delivery, keys: BridgeKeys, now: i64)
    requires Possible(c, links, steps) && d in Run(c, links, steps).log
    requires d.port in links && Admits(c, keys, now, links[d.port])
    ensures var p, n := SrcPort(d.original), FirstServed(c, links, steps, d.port, SrcPort(d.original));
            n >= 0 &&
            var h := FlowSteps(steps[..n]);
            var k := FlowHistory.LastRedirect(h, p);
            && k >= 0
            && BridgeReads(c, keys, now, d.forwarded, Payload(d.original), Destination(h[k].data))
            && (BridgeReads(c, keys, now, d.forwarded, Payload(d.original), Destination(d.original)) <==>
                Destination(h[k].data) == Destination(d.original))
  {
    RunsStaySound(c, links, steps);
    FramesAreRead(c, links[d.port], d.forwarded, Payload(d.original), keys, now);
    DeliveryIsRightExactlyWhen(c, links, steps, d);
  }

  /** Port `p` was only ever redirected for this destination. */
  ghost predicate OnlyRedirectedFor(h: seq<FlowHistory.Step>, p: u16, dest: SocketAddr) {
    forall i :: 0 <= i < |h| && FlowHistory.Redirects(h[i], p) ==> Destination(h[i].data) == dest
  }

  lemma {:induction false} FlowStepsPrefix(steps: seq<Step>, n: nat)
    requires n <= |steps|
    ensures FlowSteps(steps[..n]) <= FlowSteps(steps)
  {
    if n < |steps| {
      FlowStepsPrefix(Front(steps), n);
      assert Front(steps)[..n] == steps[..n];
    } else {
      assert steps[..n] == steps;
    }
  }

  /** In particular all is well for a game that uses a source port for one destination only. */
  lemma {:induction false} TunnelsAreReadRight(
    c: Crypto.Suite, links: Links, steps: seq<Step>, d: Delivery, keys: BridgeKeys, now: i64)
    requires Possible(c, links, steps) && d in Run(c, links, steps).log
    requires OnlyRedirectedFor(FlowSteps(steps), SrcPort(d.original), Destination(d.original))
    requires d.port in links && Admits(c, keys, now, links[d.port])
    ensures BridgeReads(c, keys, now, d.forwarded, Payload(d.original), Destination(d.original))
  {
    TunnelsAreReadRightExactlyWhen(c, links, steps, d, keys, now);
    var n := FirstServed(c, links, steps, d.port, SrcPort(d.original));
    FlowStepsPrefix(steps, n);
    var h := FlowSteps(steps[..n]);
    var k := FlowHistory.LastRedirect(h, SrcPort(d.original));
    assert h[k] == FlowSteps(steps)[k];
  }

  // ---------- the way back ----------

  lemma LastRedirectGrows(h: seq<FlowHistory.Step>, h': seq<FlowHistory.Step>, p: u16)
    requires h <= h'
    ensures FlowHistory.LastRedirect(h, p) <= FlowHistory.LastRedirect(h', p)
  {
    var k := FlowHistory.LastRedirect(h, p);
    if k >= 0 {
      assert h'[k] == h[k];
    }
  }

  lemma {:induction false} ServedWasRedirected(c: Crypto.Suite, links: Links, steps: seq<Step>, port: u16, p: u16)
    requires Possible(c, links, steps) && p in TunnelsOf(Run(c, links, steps), port)
    ensures FlowHistory.LastRedirect(FlowSteps(steps), p) >= 0
  {
    RunsKeepOneTunnel(c, links, steps, port, p);
    FirstDestination(c, links, steps, port, p);
    var n := FirstServed(c, links, steps, port, p);
    FlowStepsPrefix(steps, n);
    LastRedirectGrows(FlowSteps(steps[..n]), FlowSteps(steps), p);
  }

  /** The packet comes out for the game as from this sender, and otherwise as it was. */
  predicate ComesFrom(out: Option<bytes>, reply: Packet, sender: SocketAddr) {
    && out.Some? && Parses(out.value) && Source(out.value) == sender
    && Destination(out.value) == Destination(reply) && Payload(out.value) == Payload(reply)
  }

  /**
   What a listener hands back for a source port it serves comes out, at that moment of the run, as from
   the destination of the port's tunnel if and only if no reap since the port's latest redirect found it
   idle, and that redirect was for the same destination.
   */
  lemma {:induction false} ReplyComesFromTunnelExactlyWhen(
    c: Crypto.Suite, links: Links, steps: seq<Step>, port: u16, p: u16, reply: Packet, resolve: Capture.Resolver)
    requires Possible(c, links, steps) && p in TunnelsOf(Run(c, links, steps), port) && DstPort(reply) == p
    ensures var w, h := Run(c, links, steps), FlowSteps(steps);
            var k, dest := FlowHistory.LastRedirect(h, p), TunnelsOf(w, port)[p].dest;
            && k >= 0
            && (ComesFrom(Rewritten(w.flows, reply, false, resolve), reply, dest) <==>
                FlowHistory.NeverIdle(h, p) && Destination(h[k].data) == dest)
  {
    ServedWasRedirected(c, links, steps, port, p);
    FlowsAreHistory(c, links, steps);
    var h := FlowSteps(steps);
    FlowHistory.InboundComesFromLatestDestination(h, reply, resolve);
    var dst := Destination(h[FlowHistory.LastRedirect(h, p)].data);
    WithSourceParses(reply, dst.ip.v4, dst.port);
  }

  // ---------- nonces ----------

  /**
   In every run, the frames a listener sends for one source port share a nonce exactly when a multiple
   of 2^64 datagrams apart, and one of them shares it with the tunnel's SYN exactly when it is the
   2^64-th, or a multiple.
   */
  lemma {:induction false} ListenersRepeatNoncesExactlyWhen(
    c: Crypto.Suite, links: Links, steps: seq<Step>, port: u16, p: u16, i: nat, j: nat)
    requires Possible(c, links, steps)
    requires i <= j < |Served(Run(c, links, steps).log, port, p)|
    requires Served(Run(c, links, steps).log, port, p)[i].forwarded.wire.Some?
    requires Served(Run(c, links, steps).log, port, p)[j].forwarded.wire.Some?
    ensures var ds := Served(Run(c, links, steps).log, port, p);
            var a, b := ds[i].forwarded, ds[j].forwarded;
            && a.tunnel.handle == b.tunnel.handle
            && (Protocol.NonceOf(a.wire.value) == Protocol.NonceOf(b.wire.value) <==> WholeTurns(j - i))
            && (Protocol.NonceOf(a.wire.value) == Protocol.NonceOf(a.tunnel.handle.syn) <==> WholeTurns(i + 1))
  {
    var ds := Served(Run(c, links, steps).log, port, p);
    RunsStaySound(c, links, steps);
    RunsKeepOneTunnel(c, links, steps, port, p);
    assert DeliverySound(c, links, ds[i]) && DeliverySound(c, links, ds[j]);
    var t := ds[i].forwarded.tunnel;
    SynNonce(c, links[port], t);
    FramesRepeatNonce(c, t.handle, i, j, Payload(ds[i].original), Payload(ds[j].original));
  }

  // ---------- runs that go wrong ----------

  /**
   Listeners never reopen a tunnel, so when one forwards two datagrams of the same source port that
   the game addressed to different destinations, at least one of them goes to the wrong one.
   */
  lemma {:induction false} ReusedPortMisroutes(c: Crypto.Suite, links: Links, steps: seq<Step>, d1: Delivery,
                                               d2: Delivery)
    requires Possible(c, links, steps) && d1 in Run(c, links, steps).log && d2 in Run(c, links, steps).log
    requires d1.port == d2.port && SrcPort(d1.original) == SrcPort(d2.original)
    requires Destination(d1.original) != Destination(d2.original)
    ensures d1.forwarded.tunnel.dest == d2.forwarded.tunnel.dest
    ensures d1.forwarded.tunnel.dest != Destination(d1.original) || d2.forwarded.tunnel.dest != Destination(d2.original)
  {
    DeliveryIsRightExactlyWhen(c, links, steps, d1);
    DeliveryIsRightExactlyWhen(c, links, steps, d2);
  }

  lemma Extend(c: Crypto.Suite, links: Links, steps: seq<Step>, s: Step)
    requires Possible(c, links, steps) && Enabled(Run(c, links, steps), s)
    ensures Possible(c, links, steps + [s]) && Run(c, links, steps + [s]) == Next(c, links, Run(c, links, steps), s)
  {
    assert Front(steps + [s]) == steps;
  }

  /** The datagram is redirected to the listener on `port`. */
  predicate GoesTo(data: Packet, resolve: Capture.Resolver, port: u16) {
    && IsRedirected(data, resolve) && Proto(data) == Capture.Udp
    && TargetOf(data, resolve) == SocketAddr(LOCALHOST, port)
  }

  /** One more packet is in flight to the listener, and the flow table knows its origin. */
  lemma CaptureNext(c: Crypto.Suite, links: Links, steps: seq<Step>, data: Packet, resolve: Capture.Resolver,
                    port: u16, now: Instant) returns (steps': seq<Step>)
    requires Possible(c, links, steps) && port in links && GoesTo(data, resolve, port)
    ensures Possible(c, links, steps')
    ensures var w, w' := Run(c, links, steps), Run(c, links, steps');
            && w'.inFlight != [] && w'.inFlight == w.inFlight + [Last(w'.inFlight)]
            && w'.log == w.log && w'.tunnels == w.tunnels
            && Origin(w'.flows, SrcPort(data)) == Some(Destination(data))
            && var f := Last(w'.inFlight);
               f.original == data && Faithful(f) && IsForListener(links, f.sent) && DstPort(f.sent) == port
  {
    var s := Flow(FlowHistory.Captured(data, true, resolve, now));
    Extend(c, links, steps, s);
    steps' := steps + [s];
    var t := TargetOf(data, resolve);
    WithDestinationParses(data, t.ip.v4, t.port);
  }

  lemma {:induction false} DeliverNext(c: Crypto.Suite, links: Links, steps: seq<Step>, clientSecret: Crypto.Secret,
                                       connectionId: u32) returns (steps': seq<Step>, d: Delivery)
    requires Possible(c, links, steps) && Run(c, links, steps).inFlight != []
    requires var f := Run(c, links, steps).inFlight[0];
             && Faithful(f) && IsForListener(links, f.sent)
             && Origin(Run(c, links, steps).flows, SrcPort(f.original)).Some?
    ensures Possible(c, links, steps')
    ensures var w, w' := Run(c, links, steps), Run(c, links, steps');
            var f := w.inFlight[0];
            var p, port := SrcPort(f.original), DstPort(f.sent);
            && w'.inFlight == w.inFlight[1..]
            && w'.log == w.log + [d] && d.original == f.original && d.port == port
            && p in TunnelsOf(w', port) && TunnelsOf(w', port)[p] == d.forwarded.tunnel
            && d.forwarded.tunnel.dest ==
               if p in TunnelsOf(w, port) then TunnelsOf(w, port)[p].dest else Origin(w.flows, p).value
  {
    var w := Run(c, links, steps);
    Extend(c, links, steps, Deliver(0, clientSecret, connectionId));
    steps' := steps + [Deliver(0, clientSecret, connectionId)];
    PacketOutcome(c, links, w, w.inFlight[0].sent, clientSecret, connectionId);
    d := Last(Run(c, links, steps').log);
  }

  /** A datagram is captured and delivered with nothing in between. */
  lemma {:induction false} CaptureAndDeliver(
    c: Crypto.Suite, links: Links, steps: seq<Step>, data: Packet, resolve: Capture.Resolver, port: u16,
    clientSecret: Crypto.Secret, connectionId: u32, now: Instant) returns (steps': seq<Step>, d: Delivery)
    requires Possible(c, links, steps) && Run(c, links, steps).inFlight == []
    requires port in links && GoesTo(data, resolve, port)
    ensures Possible(c, links, steps')
    ensures var w, w', p := Run(c, links, steps), Run(c, links, steps'), SrcPort(data);
            && w'.inFlight == [] && w'.log == w.log + [d] && d.original == data
            && p in TunnelsOf(w', port) && TunnelsOf(w', port)[p] == d.forwarded.tunnel
            && d.forwarded.tunnel.dest ==
               if p in TunnelsOf(w, port) then TunnelsOf(w, port)[p].dest else Destination(data)
  {
    steps' := CaptureNext(c, links, steps, data, resolve, port, now);
    steps', d := DeliverNext(c, links, steps', clientSecret, connectionId);
  }

  /** Ports do get reused: after two datagrams from one port to different destinations, the second
      has been sent to the destination of the first. */
  lemma {:induction false} SecondDestinationIsMissed(
    c: Crypto.Suite, links: Links, a: Packet, b: Packet, resolve: Capture.Resolver, port: u16,
    clientSecret: Crypto.Secret, connectionId: u32, now: Instant) returns (steps: seq<Step>)
    requires port in links && GoesTo(a, resolve, port) && GoesTo(b, resolve, port)
    requires SrcPort(a) == SrcPort(b) && Destination(a) != Destination(b)
    ensures Possible(c, links, steps)
    ensures var log := Run(c, links, steps).log;
            && |log| == 2 && log[0].original == a && log[1].original == b
            && log[0].forwarded.tunnel.dest == Destination(a)
            && log[1].forwarded.tunnel.dest == Destination(a)
  {
    var d1, d2;
    steps, d1 := CaptureAndDeliver(c, links, [], a, resolve, port, clientSecret, connectionId, now);
    steps, d2 := CaptureAndDeliver(c, links, steps, b, resolve, port, clientSecret, connectionId, now);
    assert Run(c, links, steps).log == [d1, d2];
  }

  /** Capture and delivery race: two datagrams of one port to different destinations are captured, for
      the same listener or for two, before either is delivered, and the first is sent to the
      destination of the second though its listener had no tunnel for the port. */
  lemma {:induction false} RacingDatagramIsMisrouted(
    c: Crypto.Suite, links: Links, a: Packet, b: Packet, resolveA: Capture.Resolver, resolveB: Capture.Resolver,
    portA: u16, portB: u16, clientSecret: Crypto.Secret, connectionId: u32, now: Instant) returns (steps: seq<Step>)
    requires portA in links && portB in links && GoesTo(a, resolveA, portA) && GoesTo(b, resolveB, portB)
    requires SrcPort(a) == SrcPort(b) && Destination(a) != Destination(b)
    ensures Possible(c, links, steps)
    ensures var log := Run(c, links, steps).log;
            |log| == 1 && log[0].original == a && log[0].port == portA && log[0].forwarded.tunnel.dest == Destination(b)
  {
    var d;
    steps := CaptureNext(c, links, [], a, resolveA, portA, now);
    steps := CaptureNext(c, links, steps, b, resolveB, portB, now);
    steps, d := DeliverNext(c, links, steps, clientSecret, connectionId);
  }
}
