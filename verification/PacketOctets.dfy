/** The packet rewriter in octets (section 3.1 of RFC 791, and the ports of RFC 768 and RFC 793). */
module PacketOctets {
  import opened Wire
  import opened Capture
  import opened WinDivert

  /** The packets that are looked at: IPv4 with a whole header of five words or more, eight octets behind
      it, and TCP or UDP. */
  lemma ParsesExactlyWhen(data: bytes)
    ensures Parses(data) <==>
            && |data| >= 28 && 0x40 <= data[0] < 0x50 && data[0] % 16 >= 5
            && (data[9] == 6 || data[9] == 17)
            && var words: nat := data[0] % 16; |data| >= 4 * words + 8
  {
  }

  function WordAt(data: bytes, at: nat): int
    requires at + 4 <= |data|
  {
    Four(data[at], data[at + 1], data[at + 2], data[at + 3])
  }

  function HalfAt(data: bytes, at: nat): int
    requires at + 2 <= |data|
  {
    Two(data[at], data[at + 1])
  }

  /** Where the ports start: four octets for each word of header. */
  function PortsAt(data: Packet): nat {
    var words: nat := data[0] % 16;
    4 * words
  }

  lemma WordIs(data: bytes, at: nat)
    requires at + 4 <= |data|
    ensures Read32(data[at..at + 4]) == WordAt(data, at)
  {
    OctetsOfWords(data[at..at + 4]);
  }

  lemma HalfIs(data: bytes, at: nat)
    requires at + 2 <= |data|
    ensures Read16(data[at..at + 2]) == HalfAt(data, at)
  {
    OctetsOfWords(data[at..at + 2]);
  }

  /** What is read from a packet, octet by octet. */
  lemma ReadsOctets(data: Packet)
    ensures HeaderLen(data) == PortsAt(data)
    ensures (Proto(data) == Udp <==> data[9] == 17) && (Proto(data) == Tcp <==> data[9] == 6)
    ensures Source(data) == SocketAddr(V4(WordAt(data, 12)), HalfAt(data, PortsAt(data)))
    ensures Destination(data) == SocketAddr(V4(WordAt(data, 16)), HalfAt(data, PortsAt(data) + 2))
  {
    WordIs(data, 12);
    WordIs(data, 16);
    HalfIs(data, PortsAt(data));
    HalfIs(data, PortsAt(data) + 2);
  }

  /** Where the packet is going, and by what, as its octets have it. */
  function GoingTo(data: Packet): SocketAddr {
    ReadsOctets(data);
    SocketAddr(V4(WordAt(data, 16)), HalfAt(data, PortsAt(data) + 2))
  }

  function By(data: Packet): IpProtocol { if data[9] == 17 then Udp else Tcp }

  /** The two are equal but in four octets from `at` and two from `at'`, which spell this address and port. */
  predicate DiffersInEndpoint(out: bytes, data: bytes, at: nat, at': nat, a: SocketAddr)
    requires at + 4 <= |data| && at' + 2 <= |data|
  {
    && |out| == |data| && a.ip == V4(WordAt(out, at)) && a.port == HalfAt(out, at')
    && forall i :: 0 <= i < |data| && !(at <= i < at + 4) && !(at' <= i < at' + 2) ==> out[i] == data[i]
  }

  lemma DestinationRewritten(data: Packet, ip: u32, port: u16)
    ensures DiffersInEndpoint(WithDestination(data, ip, port), data, 16, PortsAt(data) + 2, SocketAddr(V4(ip), port))
  {
    WithDestinationParses(data, ip, port);
    ReadsOctets(WithDestination(data, ip, port));
  }

  lemma SourceRewritten(data: Packet, ip: u32, port: u16)
    ensures DiffersInEndpoint(WithSource(data, ip, port), data, 12, PortsAt(data), SocketAddr(V4(ip), port))
  {
    WithSourceParses(data, ip, port);
    ReadsOctets(WithSource(data, ip, port));
  }

  /**
   Octets in, octets out, on the way out.  The resolver is asked about the destination the packet's octets
   name and, for UDP, about UDP.  Sent on to an IPv4 target, the packet comes out with just its destination
   octets spelling that target, and the flow of its source port is recorded; otherwise nothing happens.
   */
  lemma OutboundInOctets(flows: FlowTable, data: Packet, resolve: Resolver, now: Instant)
    ensures var action, r := resolve(GoingTo(data), By(data)), Rewritten(flows, data, true, resolve);
            var after := FlowsAfter(flows, data, true, resolve, now);
            if action.RewriteTo? && action.target.ip.V4? then
              && r.Some? && DiffersInEndpoint(r.value, data, 16, PortsAt(data) + 2, action.target)
              && after == flows[HalfAt(data, PortsAt(data)) := FlowEntry(GoingTo(data), action.target, now)]
            else r == None && after == flows
  {
    ReadsOctets(data);
    var action := resolve(GoingTo(data), By(data));
    if action.RewriteTo? && action.target.ip.V4? {
      DestinationRewritten(data, action.target.ip.v4, action.target.port);
    }
  }

  /**
   And on the way in.  The flow is that of the port the packet's octets are addressed to.  With a flow the
   packet comes out with just its source octets spelling the flow's original destination, and the flow has
   been seen now; otherwise nothing happens.
   */
  lemma InboundInOctets(flows: FlowTable, data: Packet, resolve: Resolver, now: Instant)
    requires forall p :: p in flows ==> flows[p].origDst.ip.V4?
    ensures var p, r := HalfAt(data, PortsAt(data) + 2), Rewritten(flows, data, false, resolve);
            var after := FlowsAfter(flows, data, false, resolve, now);
            if p in flows then
              && r.Some? && DiffersInEndpoint(r.value, data, 12, PortsAt(data), flows[p].origDst)
              && after == flows[p := FlowEntry(flows[p].origDst, flows[p].redirectTarget, now)]
            else r == None && after == flows
  {
    ReadsOctets(data);
    var p := DstPort(data);
    if p in flows {
      SourceRewritten(data, flows[p].origDst.ip.v4, flows[p].origDst.port);
    }
  }

  /** What does not parse passes through, either way. */
  lemma UnparsedPassesThrough(flows: FlowTable, data: bytes, outbound: bool, resolve: Resolver, now: Instant)
    requires !Parses(data)
    ensures Rewritten(flows, data, outbound, resolve) == None
    ensures FlowsAfter(flows, data, outbound, resolve, now) == flows
  {
  }

  /** What the driver's filter sees, in octets. */
  lemma SightInOctets(data: Packet, outbound: bool)
    ensures var s := Sight(data, outbound);
            && (s.udp <==> data[9] == 17) && s.outbound == outbound
            && s.srcIp == WordAt(data, 12) && s.dstIp == WordAt(data, 16) && s.srcPort == HalfAt(data, PortsAt(data))
  {
    ReadsOctets(data);
  }

  /** A flow is kept for two minutes after it was last seen. */
  lemma FlowsLastTwoMinutes(flows: FlowTable, now: Instant, p: u16)
    ensures p in Reaped(flows, now) <==> p in flows && now - flows[p].lastSeen <= 120_000_000_000
    ensures p in Reaped(flows, now) ==> Reaped(flows, now)[p] == flows[p]
  {
  }
}
