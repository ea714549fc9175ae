/**
 The client's end of a tunnel: one tunnel per local source, a sequence counter on each, and the
 table that keeps them.  Plain UDP rules key the table by source address and always tunnel to the
 rule's destination; smart-routing listeners key it by source port and ask the capture where the
 datagram was meant to go.
 */
module Forwarder {
  import opened Wire
  import opened Crypto
  import opened Protocol
  import opened License
  import opened Syn
  import Bridge

  /** What a listener needs to open tunnels through its bridge. */
  datatype BridgeLink = BridgeLink(bridgePublic: PublicKey, token: LicenseToken)

  /** A tunnel and how far its counter has got. */
  datatype Tunnel = Tunnel(handle: OpenedTunnel, dest: SocketAddr, txSequence: u64)

  function FrameHeader(connectionId: u32, sequence: u64): Header {
    Header(PROTO_VERSION, NO_FLAGS, connectionId, sequence)
  }

  /** The frame with this sequence number, unless the payload is too large for one. */
  function FrameFor(c: Suite, handle: OpenedTunnel, sequence: u64, payload: bytes): Option<bytes> {
    match FrameWire(c, handle.key, FrameHeader(handle.connectionId, sequence), payload)
    case Ok(wire) => Some(wire)
    case Err(_) => None
  }

  /** The sequence number of the `n`-th frame, counting frames from 0. */
  function SequenceOf(n: nat): u64 { (n + 1) % TWO_TO_64 }

  /** Sending a datagram always uses up a sequence number, even when it is too large to encrypt. */
  function SendOn(c: Suite, t: Tunnel, payload: bytes): (Tunnel, Option<bytes>) {
    var sequence := (t.txSequence + 1) % TWO_TO_64;
    (t.(txSequence := sequence), FrameFor(c, t.handle, sequence, payload))
  }

  /** Opening a tunnel for `dest` with the client's random choices. */
  function Open(c: Suite, link: BridgeLink, transport: TransportProtocol, dest: SocketAddr, clientSecret: Secret,
                connectionId: u32): Result<Tunnel, ProtocolError>
  {
    match Opened(c, clientSecret, link.bridgePublic, link.token, connectionId, ConnectRequest(transport, dest))
    case Err(e) => Err(e)
    case Ok(o) => Ok(Tunnel(o, dest, 0))
  }

  /** The outcome of one local datagram: the tunnel it went into, and the frame sent to the bridge. */
  datatype Forwarded = Forwarded(tunnel: Tunnel, wire: Option<bytes>)

  /** One local datagram: reuse the source's tunnel, or open one to where it was meant to go. */
  function Receive<K(==)>(c: Suite, link: BridgeLink, tunnels: map<K, Tunnel>, src: K, origin: Option<SocketAddr>,
                          payload: bytes, clientSecret: Secret, connectionId: u32): (map<K, Tunnel>, Option<Forwarded>)
  {
    var t :=
      if src in tunnels then Some(tunnels[src])
      else if origin == None then None
      else
        var tunnel := Open(c, link, Udp, origin.value, clientSecret, connectionId);
        if tunnel.Ok? then Some(tunnel.value) else None;
    match t
    case None => (tunnels, None)
    case Some(t) =>
      var (t', wire) := SendOn(c, t, payload);
      (tunnels[src := t'], Some(Forwarded(t', wire)))
  }

  /** With these random choices the client opens this tunnel for a UDP destination. */
  predicate OpensFor(c: Suite, link: BridgeLink, dest: SocketAddr, handle: OpenedTunnel, clientSecret: Secret,
                     connectionId: u32)
  {
    Opened(c, clientSecret, link.bridgePublic, link.token, connectionId, ConnectRequest(Udp, dest)) == Ok(handle)
  }

  /** The tunnel was opened through this link for its destination. */
  ghost predicate OpenedFor(c: Suite, link: BridgeLink, t: Tunnel) {
    exists clientSecret, connectionId :: OpensFor(c, link, t.dest, t.handle, clientSecret, connectionId)
  }

  lemma OpenedStays(c: Suite, link: BridgeLink, t: Tunnel, t': Tunnel)
    requires OpenedFor(c, link, t) && t'.dest == t.dest && t'.handle == t.handle
    ensures OpenedFor(c, link, t')
  {
    var clientSecret, connectionId :| OpensFor(c, link, t.dest, t.handle, clientSecret, connectionId);
    assert OpensFor(c, link, t'.dest, t'.handle, clientSecret, connectionId);
  }

  /** The tunnel after one more datagram. */
  predicate Advances(t: Tunnel, t': Tunnel) {
    t' == t.(txSequence := (t.txSequence + 1) % TWO_TO_64)
  }

  /**
   What becomes of a datagram: it is forwarded in the tunnel its source has, or else in a new one to
   where it was meant to go, if that is known.
   */
  ghost predicate IsOutcome<K>(c: Suite, link: BridgeLink, before: map<K, Tunnel>, src: K, origin: Option<SocketAddr>,
                               payload: bytes, after: map<K, Tunnel>, r: Option<Forwarded>)
  {
    && (r.Some? <==> src in before || origin.Some?)
    && (r.None? ==> after == before)
    && (r.Some? ==>
        var t := r.value.tunnel;
        && after == before[src := t]
        && r.value.wire == FrameFor(c, t.handle, t.txSequence, payload)
        && (src in before ==> Advances(before[src], t))
        && (src !in before ==> t.dest == origin.value && t.txSequence == SequenceOf(0) && OpenedFor(c, link, t)))
  }

  lemma {:induction false} ReceiveOutcome<K>(
    c: Suite, link: BridgeLink, tunnels: map<K, Tunnel>, src: K, origin: Option<SocketAddr>, payload: bytes,
    clientSecret: Secret, connectionId: u32)
    ensures var (after, r) := Receive(c, link, tunnels, src, origin, payload, clientSecret, connectionId);
            IsOutcome(c, link, tunnels, src, origin, payload, after, r)
  {
    if src !in tunnels && origin.Some? {
      var dst := origin.value;
      OpenSendsSynAtZero(c, link, Udp, dst, clientSecret, connectionId);
      var t := Open(c, link, Udp, dst, clientSecret, connectionId).value;
      assert OpensFor(c, link, t.dest, t.handle, clientSecret, connectionId);
      OpenedStays(c, link, t, SendOn(c, t, payload).0);
    }
  }

  // ---------- the tasks ----------

  class UdpSession {
    const handle: OpenedTunnel
    const dest: SocketAddr
    var txSequence: u64
    var lastActive: Instant

    constructor (handle: OpenedTunnel, dest: SocketAddr, now: Instant)
      ensures this.handle == handle && this.dest == dest && txSequence == 0 && lastActive == now
    {
      this.handle, this.dest := handle, dest;
      txSequence, lastActive := 0, now;
    }

    function Rec(): Tunnel
      reads this
    {
      Tunnel(handle, dest, txSequence)
    }

    method SendDatagram(c: Suite, payload: bytes, now: Instant) returns (wire: Option<bytes>)
      modifies this
      ensures lastActive == now
      ensures (Rec(), wire) == SendOn(c, old(Rec()), payload)
    {
      lastActive := now;
      txSequence := (txSequence + 1) % TWO_TO_64;
      var r := EncryptFrame(c, handle.key, FrameHeader(handle.connectionId, txSequence), payload);
      match r {
        case Ok(w) => wire := Some(w);
        case Err(_) => wire := None;
      }
    }
  }

  class UdpForwarder<K(==)> {
    const c: Suite
    const link: BridgeLink
    var sessions: map<K, UdpSession>

    /** No two sources share a session object. */
    ghost predicate Valid()
      reads this
    {
      forall k, k' :: k in sessions && k' in sessions && k != k' ==> sessions[k] != sessions[k']
    }

    ghost function Tunnels(): map<K, Tunnel>
      reads this, sessions.Values
    {
      map k | k in sessions :: sessions[k].Rec()
    }

    constructor (c: Suite, link: BridgeLink)
      ensures Valid() && sessions == map[] && this.c == c && this.link == link
    {
      this.c, this.link, sessions := c, link, map[];
    }

    method HandleDatagram(src: K, origin: Option<SocketAddr>, payload: bytes, clientSecret: Secret,
                          connectionId: u32, now: Instant)
      returns (r: Option<Forwarded>)
      requires Valid()
      modifies this, sessions.Values
      ensures Valid()
      ensures (Tunnels(), r) == Receive(c, link, old(Tunnels()), src, origin, payload, clientSecret, connectionId)
      ensures r.Some? ==> src in sessions && sessions[src].lastActive == now
    {
      ghost var before := Tunnels();
      var session;
      if src in sessions {
        session := sessions[src];
      } else {
        if origin == None {
          return None;
        }
        var request := ConnectRequest(Udp, origin.value);
        var handle := OpenTunnel(c, clientSecret, link.bridgePublic, link.token, connectionId, request);
        if handle.Err? {
          return None;
        }
        session := new UdpSession(handle.value, origin.value, now);
        sessions := sessions[src := session];
      }
      var wire := session.SendDatagram(c, payload, now);
      assert Tunnels() == before[src := session.Rec()];
      r := Some(Forwarded(Tunnel(session.handle, session.dest, session.txSequence), wire));
    }

    /** The reaper of plain UDP rules: find the idle sources... */
    method ReapScan(cutoff: Instant) returns (toDrop: set<K>)
      ensures toDrop == set k | k in sessions && sessions[k].lastActive < cutoff
    {
      toDrop := set k | k in sessions && sessions[k].lastActive < cutoff;
    }

    /** ...and then forget them; the other tunnels keep their counters. */
    method ReapRemove(toDrop: set<K>)
      requires Valid()
      modifies this
      ensures Valid() && Tunnels() == old(Tunnels()) - toDrop
    {
      sessions := sessions - toDrop;
    }
  }

  /** The `n`-th frame of a TCP tunnel carries the `n`-th chunk under the next sequence number. */
  predicate IsTcpFrame(c: Suite, handle: OpenedTunnel, n: nat, chunk: bytes, frame: bytes) {
    chunk != [] && FrameFor(c, handle, SequenceOf(n), chunk) == Some(frame)
  }

  /** The sending half of a TCP tunnel: each read from the local socket becomes a frame, until the
      first empty read. */
  method PumpTcp(c: Suite, handle: OpenedTunnel, chunks: seq<bytes>) returns (frames: seq<bytes>)
    requires forall r :: r in chunks ==> |r| <= MAX_PAYLOAD_LEN  // the read buffer is no larger
    ensures |frames| <= |chunks| && (|frames| < |chunks| ==> chunks[|frames|] == [])
    ensures forall i :: 0 <= i < |frames| ==> IsTcpFrame(c, handle, i, chunks[i], frames[i])
  {
    frames := [];
    var txSequence: u64 := 0;
    for i := 0 to |chunks|
      invariant |frames| == i && IsCountOf(txSequence, i)
      invariant forall j :: 0 <= j < i ==> IsTcpFrame(c, handle, j, chunks[j], frames[j])
    {
      if chunks[i] == [] {
        break;
      }
      var frame;
      txSequence, frame := NextTcpFrame(c, handle, i, txSequence, chunks[i]);
      frames := frames + [frame];
    }
  }

  /** The counter after `n` frames. */
  predicate IsCountOf(txSequence: u64, n: nat) { txSequence == n % TWO_TO_64 }

  method NextTcpFrame(c: Suite, handle: OpenedTunnel, ghost n: nat, txSequence: u64, chunk: bytes)
    returns (sequence: u64, frame: bytes)
    requires |chunk| <= MAX_PAYLOAD_LEN && chunk != [] && IsCountOf(txSequence, n)
    ensures IsCountOf(sequence, n + 1) && IsTcpFrame(c, handle, n, chunk, frame)
  {
    NextSequence(n);
    sequence := (txSequence + 1) % TWO_TO_64;
    FrameDecrypts(c, handle, sequence, chunk);
    var r := EncryptFrame(c, handle.key, FrameHeader(handle.connectionId, sequence), chunk);
    frame := r.value;
  }

  // ---------- nonces ----------

  /** All that a tunnel sends for a sequence of datagrams. */
  function SendAll(c: Suite, t: Tunnel, payloads: seq<bytes>): (r: seq<Option<bytes>>)
    ensures |r| == |payloads|
    decreases |payloads|
  {
    if payloads == [] then []
    else
      var (t', wire) := SendOn(c, t, payloads[0]);
      [wire] + SendAll(c, t', payloads[1..])
  }

  lemma {:induction false} SendAllNumbers(c: Suite, t: Tunnel, payloads: seq<bytes>, n: nat, i: nat)
    requires i < |payloads| && t.txSequence == n % TWO_TO_64
    ensures SendAll(c, t, payloads)[i] == FrameFor(c, t.handle, SequenceOf(n + i), payloads[i])
    decreases i
  {
    NextSequence(n);
    var (t', wire) := SendOn(c, t, payloads[0]);
    if i > 0 {
      SendAllNumbers(c, t', payloads[1..], n + 1, i - 1);
    }
  }

  lemma NextSequence(n: nat)
    ensures (n % TWO_TO_64 + 1) % TWO_TO_64 == SequenceOf(n)
  {
  }

  lemma FrameDecrypts(c: Suite, handle: OpenedTunnel, sequence: u64, payload: bytes)
    ensures var r := FrameFor(c, handle, sequence, payload);
            var h := Header(1, Flags(false, false, false, false), handle.connectionId, sequence);
            && (r.Some? <==> |payload| <= MAX_PAYLOAD_LEN)
            && (r.Some? ==> Header.Decode(r.value) == Ok(h))
            && (r.Some? ==> NonceOf(r.value) == Some(NonceBytes(handle.connectionId, sequence)))
            && (r.Some? ==> DecryptFrame(c, handle.key, r.value) == Ok((h, payload)))
  {
    var h := FrameHeader(handle.connectionId, sequence);
    FrameRoundTrip(c, handle.key, h, payload);
    if |payload| <= MAX_PAYLOAD_LEN {
      var wire := FrameWire(c, handle.key, h, payload).value;
      assert wire == HeaderBytes(h) + wire[HEADER_LEN..];
      HeaderDecodesItsEncoding(h, wire[HEADER_LEN..]);
    }
  }

  lemma OpenSendsSynAtZero(c: Suite, link: BridgeLink, transport: TransportProtocol, dest: SocketAddr,
                           clientSecret: Secret, connectionId: u32)
    ensures var t := Open(c, link, transport, dest, clientSecret, connectionId);
            && t.Ok? && t.value.handle.connectionId == connectionId && t.value.txSequence == 0 && t.value.dest == dest
            && Header.Decode(t.value.handle.syn) == Ok(Header(1, Flags(false, true, false, false), connectionId, 0))
            && NonceOf(t.value.handle.syn) == Some(NonceBytes(connectionId, 0))
  {
    var key := ClientSessionKey(c, clientSecret, link.bridgePublic);
    var h := SynHeader(connectionId);
    var inner := TokenBytes(link.token) + ConnectBytes(ConnectRequest(transport, dest));
    SynRoundTrip(c, key, h, c.publicOf(clientSecret), inner);
    var syn := SynWire(c, key, h, c.publicOf(clientSecret), inner).value;
    assert syn == HeaderBytes(h) + syn[HEADER_LEN..];
    HeaderDecodesItsEncoding(h, syn[HEADER_LEN..]);
  }

  lemma SentIsFrame(c: Suite, t: Tunnel, payloads: seq<bytes>, i: nat)
    requires t.txSequence == 0 && i < |payloads|
    ensures SendAll(c, t, payloads)[i] == FrameFor(c, t.handle, SequenceOf(i), payloads[i])
  {
    SendAllNumbers(c, t, payloads, 0, i);
  }

  /** Of the datagrams put into a new tunnel exactly the oversized ones are lost; the others travel
      under their own position as sequence number and decrypt to what was put in. */
  lemma OnlyOversizedDatagramsAreLost(c: Suite, t: Tunnel, payloads: seq<bytes>, i: nat)
    requires t.txSequence == 0 && i < |payloads|
    ensures var sent := SendAll(c, t, payloads)[i];
            var h := Header(1, Flags(false, false, false, false), t.handle.connectionId, (i + 1) % TWO_TO_64);
            && (sent.Some? <==> |payloads[i]| <= MAX_PAYLOAD_LEN)
            && (sent.Some? ==> Header.Decode(sent.value) == Ok(h))
            && (sent.Some? ==> DecryptFrame(c, t.handle.key, sent.value) == Ok((h, payloads[i])))
  {
    SentIsFrame(c, t, payloads, i);
    FrameDecrypts(c, t.handle, SequenceOf(i), payloads[i]);
  }

  /** If both were sent, the i-th and the j-th frame share a nonce exactly when whole turns apart, and the
      i-th has that of a SYN exactly when its number is whole turns. */
  predicate RepeatNonceExactly(connectionId: u32, i: nat, j: nat, a: Option<bytes>, b: Option<bytes>) {
    a.Some? && b.Some? ==>
      && (NonceOf(a.value) == NonceOf(b.value) <==> WholeTurns(j - i))
      && (NonceOf(a.value) == Some(NonceBytes(connectionId, 0)) <==> WholeTurns(i + 1))
  }

  lemma SequencesAgree(i: nat, j: nat)
    requires i <= j
    ensures SequenceOf(i) == SequenceOf(j) <==> WholeTurns(j - i)
    ensures SequenceOf(i) == 0 <==> WholeTurns(i + 1)
  {
    CountsAgree(i + 1, j + 1);
  }

  lemma {:induction false} FramesRepeatNonce(c: Suite, handle: OpenedTunnel, i: nat, j: nat, a: bytes, b: bytes)
    requires i <= j
    ensures RepeatNonceExactly(handle.connectionId, i, j, FrameFor(c, handle, SequenceOf(i), a),
                               FrameFor(c, handle, SequenceOf(j), b))
  {
    SequencesAgree(i, j);
    NoncesOfFrames(c, handle, SequenceOf(i), SequenceOf(j), a, b);
  }

  lemma {:induction false} NoncesOfFrames(c: Suite, handle: OpenedTunnel, m: u64, n: u64, a: bytes, b: bytes)
    ensures var fa, fb := FrameFor(c, handle, m, a), FrameFor(c, handle, n, b);
            fa.Some? && fb.Some? ==>
              && (NonceOf(fa.value) == NonceOf(fb.value) <==> m == n)
              && (NonceOf(fa.value) == Some(NonceBytes(handle.connectionId, 0)) <==> m == 0)
  {
    FrameDecrypts(c, handle, m, a);
    FrameDecrypts(c, handle, n, b);
    NonceInjective(handle.connectionId, m, handle.connectionId, n);
    NonceInjective(handle.connectionId, m, handle.connectionId, 0);
  }

  lemma {:induction false} SentFramesRepeatNonce(c: Suite, t: Tunnel, payloads: seq<bytes>, i: nat, j: nat)
    requires t.txSequence == 0 && i <= j < |payloads|
    ensures RepeatNonceExactly(t.handle.connectionId, i, j, SendAll(c, t, payloads)[i], SendAll(c, t, payloads)[j])
  {
    SentIsFrame(c, t, payloads, i);
    SentIsFrame(c, t, payloads, j);
    FramesRepeatNonce(c, t.handle, i, j, payloads[i], payloads[j]);
  }

  /** In the life of one tunnel two data frames share a nonce exactly when a multiple of 2^64 datagrams
      apart, and one shares it with the SYN exactly when its number is a multiple of 2^64. */
  lemma {:induction false} TunnelRepeatsNonceExactlyWhen(
    c: Suite, link: BridgeLink, transport: TransportProtocol, dest: SocketAddr, clientSecret: Secret,
    connectionId: u32, t: Tunnel, payloads: seq<bytes>, i: nat, j: nat)
    requires Open(c, link, transport, dest, clientSecret, connectionId) == Ok(t)
    requires i <= j < |payloads|
    ensures var a, b := SendAll(c, t, payloads)[i], SendAll(c, t, payloads)[j];
            a.Some? && b.Some? ==>
              && (NonceOf(a.value) == NonceOf(b.value) <==> WholeTurns(j - i))
              && (NonceOf(a.value) == NonceOf(t.handle.syn) <==> WholeTurns(i + 1))
  {
    OpenSendsSynAtZero(c, link, transport, dest, clientSecret, connectionId);
    SentFramesRepeatNonce(c, t, payloads, i, j);
  }

  /** The bridge takes a tunnel's SYN as a request to open a session and every one of its data frames
      as traffic of that same session. */
  lemma TunnelIsOneSession(c: Suite, link: BridgeLink, transport: TransportProtocol, dest: SocketAddr,
                           clientSecret: Secret,
                           connectionId: u32, t: Tunnel, peer: SocketAddr, sequence: u64, payload: bytes)
    requires Open(c, link, transport, dest, clientSecret, connectionId) == Ok(t)
    ensures Bridge.Dispatch(peer, t.handle.syn) == Ok((Bridge.SessionKey(peer, connectionId), true))
    ensures var r := FrameFor(c, t.handle, sequence, payload);
            r.Some? ==> Bridge.Dispatch(peer, r.value) == Ok((Bridge.SessionKey(peer, connectionId), false))
  {
    OpenSendsSynAtZero(c, link, transport, dest, clientSecret, connectionId);
    FrameDecrypts(c, t.handle, sequence, payload);
  }

  lemma {:induction false} SynNonce(c: Suite, link: BridgeLink, t: Tunnel)
    requires OpenedFor(c, link, t)
    ensures NonceOf(t.handle.syn) == Some(NonceBytes(t.handle.connectionId, 0))
  {
    var clientSecret, connectionId :| OpensFor(c, link, t.dest, t.handle, clientSecret, connectionId);
    OpenSendsSynAtZero(c, link, Udp, t.dest, clientSecret, connectionId);
  }

  // ---------- what the bridge makes of it ----------

  /** The bridge with these keys is the one the link leads to, and takes its token at this time. */
  predicate Admits(c: Suite, keys: BridgeKeys, now: i64, link: BridgeLink) {
    && link.bridgePublic == c.publicOf(keys.secret)
    && link.token.Verify(c, keys.backendKey, now).None?
    && (keys.allowAnyScope || link.token.payload.scope % 2 == 1)
  }

  /** The bridge reads from the tunnel's SYN a request for `dest`, and from the frame this payload;
      nothing but an oversized payload keeps the frame from being sent. */
  predicate BridgeReads(c: Suite, keys: BridgeKeys, now: i64, f: Forwarded, payload: bytes, dest: SocketAddr) {
    var r, t := AcceptSyn(c, keys, now, f.tunnel.handle.syn), f.tunnel;
    && r.Ok?
    && r.value.key == t.handle.key && r.value.header.connectionId == t.handle.connectionId
    && r.value.request == ConnectRequest(Udp, dest)
    && (f.wire.Some? <==> |payload| <= MAX_PAYLOAD_LEN)
    && (f.wire.Some? ==>
        DecryptFrame(c, t.handle.key, f.wire.value) == Ok((FrameHeader(t.handle.connectionId, t.txSequence), payload)))
  }

  lemma {:induction false} FramesAreRead(
    c: Suite, link: BridgeLink, f: Forwarded, payload: bytes, keys: BridgeKeys, now: i64)
    requires OpenedFor(c, link, f.tunnel) && Admits(c, keys, now, link)
    requires f.wire == FrameFor(c, f.tunnel.handle, f.tunnel.txSequence, payload)
    ensures BridgeReads(c, keys, now, f, payload, f.tunnel.dest)
  {
    var t := f.tunnel;
    var clientSecret, connectionId :| OpensFor(c, link, t.dest, t.handle, clientSecret, connectionId);
    AssembledSynIsUnderstood(c, clientSecret, keys, link.token, connectionId, ConnectRequest(Udp, t.dest), now);
    FrameDecrypts(c, t.handle, t.txSequence, payload);
  }
}
