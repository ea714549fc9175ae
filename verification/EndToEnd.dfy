/** The whole path: a run of the player's machine together with a run of the bridge. */
module EndToEnd {
  import opened Wire
  import Crypto
  import opened Protocol
  import opened Syn
  import Capture
  import opened WinDivert
  import FlowHistory
  import opened Forwarder
  import opened Transparency
  import Bridge
  import opened BridgeRuns
  import opened BridgeHistory

  /** The key under which the bridge knows a tunnel's client. */
  function ClientOf(peer: SocketAddr, t: Tunnel): Bridge.SessionKey {
    Bridge.SessionKey(peer, t.handle.connectionId)
  }

  /** The session last opened for the client is the one its tunnel's SYN asked for. */
  ghost predicate OpenedByTunnel<Id(!new)>(
    c: Crypto.Suite, keys: BridgeKeys, now: i64, bridge: seq<Bridge.Step<Id>>, peer: SocketAddr, t: Tunnel)
  {
    var o, accepted := LatestOpening(bridge, ClientOf(peer, t)), AcceptSyn(c, keys, now, t.handle.syn);
    o >= 0 && accepted.Ok? && bridge[o].aeadKey == accepted.value.key && bridge[o].dest == accepted.value.request
  }

  /** What the bridge does with the frame of a forwarded datagram, on arrival. */
  function PassedOn<Id(==)>(c: Crypto.Suite, s: Bridge.State<Id>, peer: SocketAddr, f: Forwarded)
    : Result<(ConnectRequest, bytes), Bridge.DataRefusal>
    requires f.wire.Some?
    requires ClientOf(peer, f.tunnel) in s.table ==> s.table[ClientOf(peer, f.tunnel)] in s.sessions
  {
    Bridge.Upstream(c, s, ClientOf(peer, f.tunnel), f.wire.value)
  }

  lemma {:induction false} ReadFramesArePassedOn<Id(!new)>(
    c: Crypto.Suite, cfg: Bridge.Config, bridge: seq<Bridge.Step<Id>>, peer: SocketAddr, f: Forwarded, payload: bytes,
    dest: SocketAddr, keys: BridgeKeys, now: i64)
    requires BridgeRuns.Possible(c, cfg, bridge) && OpenedByTunnel(c, keys, now, bridge, peer, f.tunnel)
    requires f.wire.Some? && BridgeReads(c, keys, now, f, payload, dest)
    ensures var s, key := BridgeRuns.Run(c, cfg, bridge), ClientOf(peer, f.tunnel);
            && (key in s.table ==> s.table[key] in s.sessions)
            && PassedOn(c, s, peer, f) ==
               if Listed(cfg, bridge, key) then Result.Ok((ConnectRequest(Udp, dest), payload))
               else Result.Err(Bridge.NoSession)
  {
    var t := f.tunnel;
    FramesArePassedOnExactlyWhen(c, cfg, bridge, ClientOf(peer, t), f.wire.value,
                                 FrameHeader(t.handle.connectionId, t.txSequence), payload);
  }

  /**
   From the game to the game server, in every run of the player's machine and every run of the bridge.
   A datagram forwarded in a tunnel whose SYN opened the client's latest session is written, payload and
   all, to the destination the game addressed if and only if the bridge still lists the client when the
   frame arrives, and the latest redirect of the source port before the listener's first forwarding for
   it was for that destination.  If the client is no longer listed the bridge drops it.
   */
  lemma {:induction false} DatagramsReachTheirDestinationExactlyWhen<Id(!new)>(
    c: Crypto.Suite, links: Links, steps: seq<Transparency.Step>, d: Delivery, keys: BridgeKeys, now: i64,
    cfg: Bridge.Config, bridge: seq<Bridge.Step<Id>>, peer: SocketAddr)
    requires Transparency.Possible(c, links, steps) && d in Transparency.Run(c, links, steps).log
    requires d.port in links && Admits(c, keys, now, links[d.port]) && d.forwarded.wire.Some?
    requires BridgeRuns.Possible(c, cfg, bridge) && OpenedByTunnel(c, keys, now, bridge, peer, d.forwarded.tunnel)
    ensures var p, n := SrcPort(d.original), FirstServed(c, links, steps, d.port, SrcPort(d.original));
            var s, key := BridgeRuns.Run(c, cfg, bridge), ClientOf(peer, d.forwarded.tunnel);
            n >= 0 &&
            var h := FlowSteps(steps[..n]);
            var k := FlowHistory.LastRedirect(h, p);
            && k >= 0
            && (key in s.table ==> s.table[key] in s.sessions)
            && var r := PassedOn(c, s, peer, d.forwarded);
               && (r == Result.Ok((ConnectRequest(Udp, Destination(d.original)), Payload(d.original))) <==>
                   Listed(cfg, bridge, key) && Destination(h[k].data) == Destination(d.original))
               && (r == Result.Err(Bridge.NoSession) <==> !Listed(cfg, bridge, key))
  {
    TunnelsAreReadRightExactlyWhen(c, links, steps, d, keys, now);
    var n := FirstServed(c, links, steps, d.port, SrcPort(d.original));
    var h := FlowSteps(steps[..n]);
    var dest := Destination(h[FlowHistory.LastRedirect(h, SrcPort(d.original))].data);
    ReadFramesArePassedOn(c, cfg, bridge, peer, d.forwarded, Payload(d.original), dest, keys, now);
  }

  /** The header of a data frame: version 1, no flags, the client's connection id and a sequence number. */
  function PlainHeader<Id>(e: Bridge.Emission<Id>): Header {
    Header(1, Flags(false, false, false, false), e.key.connectionId, e.sequence)
  }

  /** The session was opened under the tunnel's key. */
  predicate HasKeyOf<Id(==)>(bridge: seq<Bridge.Step<Id>>, id: Id, t: Tunnel) {
    var o := Opening(bridge, id);
    o.Some? && o.value.AcceptInsert? && o.value.aeadKey == t.handle.key
  }

  /**
   And back.  The listener opens every datagram the bridge sends in its tunnel's session to what was read
   from a destination; handed back to the game, this comes out as from the tunnel's destination if and
   only if no reap since the source port's latest redirect found it idle, and that redirect was for the
   same destination.
   */
  lemma {:induction false} RepliesReachTheGameExactlyWhen<Id(!new)>(
    c: Crypto.Suite, links: Links, steps: seq<Transparency.Step>, port: u16, p: u16, cfg: Bridge.Config,
    bridge: seq<Bridge.Step<Id>>, i: nat, reply: Packet, resolve: Capture.Resolver)
    requires Transparency.Possible(c, links, steps) && p in TunnelsOf(Transparency.Run(c, links, steps), port)
    requires BridgeRuns.Possible(c, cfg, bridge) && i < |SentInRun(c, cfg, bridge)|
    requires var t := TunnelsOf(Transparency.Run(c, links, steps), port)[p];
             HasKeyOf(bridge, SentInRun(c, cfg, bridge)[i].session, t)
    requires DstPort(reply) == p && Payload(reply) == SentInRun(c, cfg, bridge)[i].from.payload
    ensures var w, h := Transparency.Run(c, links, steps), FlowSteps(steps);
            var t, k := TunnelsOf(w, port)[p], FlowHistory.LastRedirect(h, p);
            var es := BridgeRuns.Run(c, cfg, bridge).emitted;
            && k >= 0 && |es| == |SentInRun(c, cfg, bridge)|
            && DecryptFrame(c, t.handle.key, es[i].wire) == Result.Ok((PlainHeader(es[i]), Payload(reply)))
            && (ComesFrom(Rewritten(w.flows, reply, false, resolve), reply, t.dest) <==>
                FlowHistory.NeverIdle(h, p) && Destination(h[k].data) == t.dest)
  {
    DownstreamIsDelivered(c, cfg, bridge);
    ReplyComesFromTunnelExactlyWhen(c, links, steps, port, p, reply, resolve);
  }
}
