/** Per-packet destination NAT on raw IPv4 bytes, and the flow table behind it. */
module WinDivert {
  import opened Wire
  import opened Capture

  // ---------- reading a packet ----------

  /** Header length in octets, from the low half of the first octet. */
  function HeaderLen(data: bytes): nat
    requires data != []
  {
    data[0] % 16 * 4
  }

  /** What the rewriter insists on before touching a packet. */
  predicate Parses(data: bytes) {
    && |data| >= 28
    && data[0] / 16 == 4
    && HeaderLen(data) >= 20
    && |data| >= HeaderLen(data) + 8
    && (data[9] == PROTO_TCP || data[9] == PROTO_UDP)
  }

  type Packet = data: bytes | Parses(data)
    witness [0x45, 0, 0, 0, 0, 0, 0, 0, 0, 17, 0, 0, 0, 0, 0, 0, 0, 0, 0, 0, 0, 0, 0, 0, 0, 0, 0, 0]

  function Proto(data: Packet): IpProtocol { if data[9] == PROTO_TCP then Tcp else Udp }

  function SrcIp(data: Packet): u32 { Read32(data[12..16]) }

  function DstIp(data: Packet): u32 { Read32(data[16..20]) }

  function SrcPort(data: Packet): u16 { Read16(data[HeaderLen(data)..HeaderLen(data) + 2]) }

  function DstPort(data: Packet): u16 { Read16(data[HeaderLen(data) + 2..HeaderLen(data) + 4]) }

  function Source(data: Packet): SocketAddr { SocketAddr(V4(SrcIp(data)), SrcPort(data)) }

  function Destination(data: Packet): SocketAddr { SocketAddr(V4(DstIp(data)), DstPort(data)) }

  function Payload(data: Packet): bytes { data[HeaderLen(data) + 8..] }

  /** What the driver's filter sees of the packet. */
  function Sight(data: Packet, outbound: bool): Seen {
    Seen(Proto(data) == Udp, outbound, SrcIp(data), SrcPort(data), DstIp(data))
  }

  // ---------- rewriting ----------

  function WithDestination(data: Packet, ip: u32, port: u16): (out: bytes) {
    Splice(Splice(data, 16, BE32(ip)), HeaderLen(data) + 2, BE16(port))
  }

  function WithSource(data: Packet, ip: u32, port: u16): (out: bytes) {
    Splice(Splice(data, 12, BE32(ip)), HeaderLen(data), BE16(port))
  }

  /** The same packet going the other way: addresses and ports exchanged. */
  function Swapped(data: Packet): (out: bytes) {
    WithSource(Turned(data), DstIp(data), DstPort(data))
  }

  function Turned(data: Packet): (out: Packet) {
    WithDestinationParses(data, SrcIp(data), SrcPort(data));
    WithDestination(data, SrcIp(data), SrcPort(data))
  }

  /** A rewritten destination: still a packet, of the same length, with the new destination, and
      equal to the old one everywhere but in the six destination octets. */
  lemma WithDestinationParses(data: Packet, ip: u32, port: u16)
    ensures var out := WithDestination(data, ip, port);
            && |out| == |data| && Parses(out)
            && HeaderLen(out) == HeaderLen(data) && Proto(out) == Proto(data)
            && Source(out) == Source(data)
            && Destination(out) == SocketAddr(V4(ip), port)
            && Payload(out) == Payload(data)
            && (forall i :: 0 <= i < |data| && !(16 <= i < 20) && !(HeaderLen(data) + 2 <= i < HeaderLen(data) + 4) ==>
                  out[i] == data[i])
  {
    var h := HeaderLen(data);
    var mid := Splice(data, 16, BE32(ip));
    var out := WithDestination(data, ip, port);
    assert out[16..20] == mid[16..20] == BE32(ip);
    assert out[12..16] == data[12..16] && out[h..h + 2] == data[h..h + 2];
    assert out[h + 8..] == data[h + 8..];
    Word32(ip, BE32(ip));
    Word16(port, BE16(port));
  }

  lemma WithSourceParses(data: Packet, ip: u32, port: u16)
    ensures var out := WithSource(data, ip, port);
            && |out| == |data| && Parses(out)
            && HeaderLen(out) == HeaderLen(data) && Proto(out) == Proto(data)
            && Source(out) == SocketAddr(V4(ip), port)
            && Destination(out) == Destination(data)
            && Payload(out) == Payload(data)
            && (forall i :: 0 <= i < |data| && !(12 <= i < 16) && !(HeaderLen(data) <= i < HeaderLen(data) + 2) ==>
                  out[i] == data[i])
  {
    var h := HeaderLen(data);
    var mid := Splice(data, 12, BE32(ip));
    var out := WithSource(data, ip, port);
    assert out[12..16] == mid[12..16] == BE32(ip);
    assert out[16..20] == data[16..20] && out[h + 2..h + 4] == data[h + 2..h + 4];
    assert out[h + 8..] == data[h + 8..];
    Word32(ip, BE32(ip));
    Word16(port, BE16(port));
  }

  lemma SwappedExchangesEndpoints(data: Packet)
    ensures Parses(Swapped(data))
    ensures Source(Swapped(data)) == Destination(data) && Destination(Swapped(data)) == Source(data)
    ensures Payload(Swapped(data)) == Payload(data)
  {
    WithDestinationParses(data, SrcIp(data), SrcPort(data));
    WithSourceParses(Turned(data), DstIp(data), DstPort(data));
  }

  // ---------- the flow table ----------

  datatype FlowEntry = FlowEntry(origDst: SocketAddr, redirectTarget: SocketAddr, lastSeen: Instant)

  type FlowTable = map<u16, FlowEntry>

  /** The resolver sends this packet to an IPv4 target, so it is rewritten. */
  predicate IsRedirected(data: bytes, resolve: Resolver) {
    Parses(data) &&
    var action := resolve(Destination(data), Proto(data));
    action.RewriteTo? && action.target.ip.V4?
  }

  function TargetOf(data: Packet, resolve: Resolver): SocketAddr
    requires IsRedirected(data, resolve)
  {
    resolve(Destination(data), Proto(data)).target
  }

  /** The table after one packet. */
  function FlowsAfter(flows: FlowTable, data: bytes, outbound: bool, resolve: Resolver, now: Instant): FlowTable {
    if outbound then
      if IsRedirected(data, resolve) then
        flows[SrcPort(data) := FlowEntry(Destination(data), TargetOf(data, resolve), now)]
      else flows
    else if Parses(data) && DstPort(data) in flows then flows[DstPort(data) := flows[DstPort(data)].(lastSeen := now)]
    else flows
  }

  /** What is sent in place of the packet; None means the packet goes through unchanged. */
  function Rewritten(flows: FlowTable, data: bytes, outbound: bool, resolve: Resolver): Option<bytes> {
    if outbound then
      if IsRedirected(data, resolve) then
        var target := TargetOf(data, resolve);
        Some(WithDestination(data, target.ip.v4, target.port))
      else None
    else if Parses(data) && DstPort(data) in flows && flows[DstPort(data)].origDst.ip.V4? then
      var orig := flows[DstPort(data)].origDst;
      Some(WithSource(data, orig.ip.v4, orig.port))
    else None
  }

  function Reaped(flows: FlowTable, now: Instant): FlowTable {
    map p | p in flows && flows[p].lastSeen >= now - FLOW_IDLE :: flows[p]
  }

  method Copy(data: bytes) returns (out: array<byte>)
    ensures fresh(out) && out[..] == data
  {
    out := new byte[|data|](i requires 0 <= i < |data| => data[i]);
  }

  class WinDivertCapture {
    var flows: FlowTable

    /** Original destinations are IPv4: they were read from IPv4 headers. */
    ghost predicate Valid()
      reads this
    {
      forall p :: p in flows ==> flows[p].origDst.ip.V4?
    }

    constructor ()
      ensures Valid() && flows == map[]
    {
      flows := map[];
    }

    method ProcessPacket(data: bytes, outbound: bool, resolve: Resolver, now: Instant) returns (r: Option<bytes>)
      requires Valid()
      modifies this`flows
      ensures Valid()
      ensures flows == FlowsAfter(old(flows), data, outbound, resolve, now)
      ensures r == Rewritten(old(flows), data, outbound, resolve)
      ensures r == None ==> flows == old(flows)
    {
      if |data| < 28 || data[0] / 16 != 4 {
        return None;
      }
      var ihl := data[0] % 16;
      if ihl < 5 {
        return None;
      }
      var headerLen := ihl * 4;
      if |data| < headerLen + 8 {
        return None;
      }
      if data[9] != PROTO_TCP && data[9] != PROTO_UDP {
        return None;
      }
      assert Parses(data);
      if outbound {
        r := RewriteOutbound(data, resolve, now);
      } else {
        r := RewriteInbound(data, resolve, now);
      }
    }

    method RewriteOutbound(data: Packet, resolve: Resolver, now: Instant) returns (r: Option<bytes>)
      requires Valid()
      modifies this`flows
      ensures Valid()
      ensures flows == FlowsAfter(old(flows), data, true, resolve, now)
      ensures r == Rewritten(old(flows), data, true, resolve)
      ensures r == None ==> flows == old(flows)
    {
      var headerLen := HeaderLen(data);
      var action := resolve(Destination(data), Proto(data));
      if action.Passthrough? || action.target.ip.V6? {
        return None;
      }
      var target := action.target;
      flows := flows[SrcPort(data) := FlowEntry(Destination(data), target, now)];
      var out := Copy(data);
      CopyFromSlice(out, 16, BE32(target.ip.v4));
      CopyFromSlice(out, headerLen + 2, BE16(target.port));
      assert out[..] == WithDestination(data, target.ip.v4, target.port);
      r := Some(out[..]);
    }

    method RewriteInbound(data: Packet, ghost resolve: Resolver, now: Instant) returns (r: Option<bytes>)
      requires Valid()
      modifies this`flows
      ensures Valid()
      ensures flows == FlowsAfter(old(flows), data, false, resolve, now)
      ensures r == Rewritten(old(flows), data, false, resolve)
      ensures r == None ==> flows == old(flows)
    {
      var dstPort := DstPort(data);
      if dstPort !in flows {
        return None;
      }
      var entry := flows[dstPort];
      flows := flows[dstPort := entry.(lastSeen := now)];
      var out := Copy(data);
      CopyFromSlice(out, 12, BE32(entry.origDst.ip.v4));
      CopyFromSlice(out, HeaderLen(data), BE16(entry.origDst.port));
      assert out[..] == WithSource(data, entry.origDst.ip.v4, entry.origDst.port);
      r := Some(out[..]);
    }

    method ReapFlows(now: Instant)
      requires Valid()
      modifies this`flows
      ensures Valid()
      ensures flows == Reaped(old(flows), now)
    {
      var cutoff := now - FLOW_IDLE;
      flows := map p | p in flows && flows[p].lastSeen >= cutoff :: flows[p];
    }

    /** Where the game meant the datagrams from this source port to go. */
    method FlowOrigin(port: u16) returns (r: Option<SocketAddr>)
      ensures r == Origin(flows, port)
    {
      if port !in flows {
        return None;
      }
      r := Some(flows[port].origDst);
    }
  }

  function Origin(flows: FlowTable, port: u16): Option<SocketAddr> {
    if port in flows then Some(flows[port].origDst) else None
  }

  /**
   A rewritten packet keeps its length and differs from the original in no octet outside the
   destination address and port (going out) or the source address and port (coming in); a packet
   that is not rewritten leaves the flow table as it was.
   */
  lemma RewriteTouchesOnlyOneEndpoint(flows: FlowTable, data: bytes, outbound: bool, resolve: Resolver, now: Instant)
    requires forall p :: p in flows ==> flows[p].origDst.ip.V4?
    ensures var r := Rewritten(flows, data, outbound, resolve);
            && (r == None ==> FlowsAfter(flows, data, outbound, resolve, now) == flows)
            && (r.Some? ==>
                && Parses(data) && Parses(r.value) && |r.value| == |data|
                && Payload(r.value) == Payload(data) && Proto(r.value) == Proto(data)
                && (outbound ==> Source(r.value) == Source(data) && Destination(r.value) == TargetOf(data, resolve))
                && (!outbound ==>
                    Destination(r.value) == Destination(data) && Source(r.value) == flows[DstPort(data)].origDst)
                && var at := (if outbound then 16 else 12, HeaderLen(data) + if outbound then 2 else 0);
                   forall i :: 0 <= i < |data| && !(at.0 <= i < at.0 + 4) && !(at.1 <= i < at.1 + 2) ==>
                     r.value[i] == data[i])
  {
    if Rewritten(flows, data, outbound, resolve).Some? {
      if outbound {
        var target := TargetOf(data, resolve);
        WithDestinationParses(data, target.ip.v4, target.port);
      } else {
        var orig := flows[DstPort(data)].origDst;
        WithSourceParses(data, orig.ip.v4, orig.port);
      }
    }
  }

  // ---------- no capture loop ----------

  /**
   The capture never sees its own traffic again: packets to a bridge are not selected, nor is a
   packet it has just rewritten, whatever resolver only redirects to declared targets.
   */
  lemma NoCaptureLoop(targets: seq<SocketAddr>, endpoints: seq<SocketAddr>, flows: FlowTable, data: Packet,
                      resolve: Resolver)
    requires forall dst, proto :: resolve(dst, proto).RewriteTo? ==> resolve(dst, proto).target in targets
    ensures Destination(data).ip in (set e | e in endpoints :: e.ip) ==>
              !Selected(targets, endpoints, Sight(data, true))
    ensures var r := Rewritten(flows, data, true, resolve);
            r.Some? ==> Parses(r.value) && !Selected(targets, endpoints, Sight(r.value, true))
  {
    var r := Rewritten(flows, data, true, resolve);
    if r.Some? {
      var target := TargetOf(data, resolve);
      WithDestinationParses(data, target.ip.v4, target.port);
      assert target in targets;
      assert IsV4Of(targets, DstIp(r.value));
    }
  }

  /** The reply to a rewritten UDP packet is captured again: its source is a redirect target. */
  lemma RepliesAreCaptured(targets: seq<SocketAddr>, endpoints: seq<SocketAddr>, data: Packet, resolve: Resolver)
    requires IsRedirected(data, resolve) && TargetOf(data, resolve) in targets && Proto(data) == Udp
    ensures var t := TargetOf(data, resolve);
            var sent := WithDestination(data, t.ip.v4, t.port);
            Parses(sent) && Parses(Swapped(sent)) && Selected(targets, endpoints, Sight(Swapped(sent), false))
  {
    var t := TargetOf(data, resolve);
    WithDestinationParses(data, t.ip.v4, t.port);
    var sent := WithDestination(data, t.ip.v4, t.port);
    SwappedExchangesEndpoints(sent);
    WithDestinationParses(sent, SrcIp(sent), SrcPort(sent));
    WithSourceParses(Turned(sent), DstIp(sent), DstPort(sent));
  }
}
