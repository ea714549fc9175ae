/** Opening a tunnel: what the client assembles into a SYN and what the bridge reads out of it. */
module Syn {
  import opened Wire
  import opened Crypto
  import opened Protocol
  import opened License

  /** The tunnel as the client keeps it, and the SYN it sends. */
  datatype OpenedTunnel = OpenedTunnel(key: Key, connectionId: u32, syn: bytes)

  function SynHeader(connectionId: u32): Header {
    Header(PROTO_VERSION, SYN_FLAG, connectionId, 0)
  }

  function Opened(c: Suite, clientSecret: Secret, bridgePublic: PublicKey, token: LicenseToken,
                  connectionId: u32, request: ConnectRequest): Result<OpenedTunnel, ProtocolError>
  {
    var key := ClientSessionKey(c, clientSecret, bridgePublic);
    var inner := TokenBytes(token) + ConnectBytes(request);
    match SynWire(c, key, SynHeader(connectionId), c.publicOf(clientSecret), inner)
    case Err(e) => Err(e)
    case Ok(wire) => Ok(OpenedTunnel(key, connectionId, wire))
  }

  method OpenTunnel(c: Suite, clientSecret: Secret, bridgePublic: PublicKey, token: LicenseToken,
                    connectionId: u32, request: ConnectRequest) returns (r: Result<OpenedTunnel, ProtocolError>)
    ensures r == Opened(c, clientSecret, bridgePublic, token, connectionId, request)
  {
    var key := ClientSessionKey(c, clientSecret, bridgePublic);
    var tokenBytes := token.ToBytes();
    var connectBytes := request.Encode();
    var inner: bytes := [];
    inner := inner + tokenBytes;
    inner := inner + connectBytes;
    assert inner == TokenBytes(token) + ConnectBytes(request);
    var wire := EncryptSynFrame(c, key, SynHeader(connectionId), c.publicOf(clientSecret), inner);
    match wire {
      case Err(e) => r := Err(e);
      case Ok(w) => r := Ok(OpenedTunnel(key, connectionId, w));
    }
  }

  datatype BridgeKeys = BridgeKeys(secret: Secret, backendKey: bytes, allowAnyScope: bool)

  datatype AcceptError =
    | BadFrame(cause: ProtocolError)
    | PayloadTooShort
    | BadLicense(reason: LicenseError)
    | MissingScope

  datatype Accepted = Accepted(header: Header, clientPublic: PublicKey, key: Key, token: LicenseToken,
                               request: ConnectRequest)

  /** The bridge's accept path, from the datagram to the request it will connect. */
  function AcceptSyn(c: Suite, keys: BridgeKeys, now: i64, pkt: bytes): Result<Accepted, AcceptError> {
    match ParseSynFront(pkt)
    case Err(e) => Err(BadFrame(e))
    case Ok((header, clientPublic)) =>
      var key := BridgeSessionKey(c, keys.secret, clientPublic);
      match DecryptSynPayload(c, key, pkt)
      case Err(e) => Err(BadFrame(e))
      case Ok(inner) => AcceptInner(c, keys, now, header, clientPublic, key, inner)
  }

  function AcceptInner(c: Suite, keys: BridgeKeys, now: i64, header: Header, clientPublic: PublicKey, key: Key,
                       inner: bytes): Result<Accepted, AcceptError>
  {
    if |inner| < TOKEN_LEN + 4 then Err(PayloadTooShort)
    else
      match LicenseToken.FromBytes(inner[..TOKEN_LEN])
      case Err(e) => Err(BadLicense(e))
      case Ok(token) =>
        match token.Verify(c, keys.backendKey, now)
        case Some(e) => Err(BadLicense(e))
        case None =>
          if !keys.allowAnyScope && token.payload.scope % 2 == 0 then Err(MissingScope)
          else
            match ConnectRequest.Decode(inner[TOKEN_LEN..])
            case Err(e) => Err(BadFrame(e))
            case Ok(request) => Ok(Accepted(header, clientPublic, key, token, request))
  }

  /** The bridge's verdict on a token and request, once it has read them. */
  function Verdict(c: Suite, keys: BridgeKeys, now: i64, accepted: Accepted): Result<Accepted, AcceptError> {
    match accepted.token.Verify(c, keys.backendKey, now)
    case Some(e) => Err(BadLicense(e))
    case None =>
      if !keys.allowAnyScope && accepted.token.payload.scope % 2 == 0 then Err(MissingScope) else Ok(accepted)
  }

  lemma {:induction false} InnerIsUnderstood(c: Suite, keys: BridgeKeys, now: i64, accepted: Accepted)
    ensures var inner := TokenBytes(accepted.token) + ConnectBytes(accepted.request);
            AcceptInner(c, keys, now, accepted.header, accepted.clientPublic, accepted.key, inner)
            == Verdict(c, keys, now, accepted)
  {
    var token, request := accepted.token, accepted.request;
    var inner := TokenBytes(token) + ConnectBytes(request);
    assert inner[..TOKEN_LEN] == TokenBytes(token) && inner[TOKEN_LEN..] == ConnectBytes(request);
    TokenRoundTrip(token, inner[..TOKEN_LEN]);
    ConnectDecodesItsEncoding(request, []);
    assert ConnectBytes(request) + [] == ConnectBytes(request);
  }

  /**
   Whatever tunnel a client opens towards a bridge's public key, the SYN can be built, fits in 169
   octets, and the bridge reads from it the same header, public key, session key, token and request;
   it turns the client away for the licence's own reasons and no other.
   */
  lemma AssembledSynIsUnderstood(c: Suite, clientSecret: Secret, keys: BridgeKeys, token: LicenseToken,
                                 connectionId: u32, request: ConnectRequest, now: i64)
    ensures var r := Opened(c, clientSecret, c.publicOf(keys.secret), token, connectionId, request);
            && r.Ok?
            && r.value.connectionId == connectionId
            && |r.value.syn| == (if request.dest.ip.V4? then 157 else 169)
            && Header.Decode(r.value.syn) == Ok(Header(1, Flags(false, true, false, false), connectionId, 0))
            && var read := Accepted(SynHeader(connectionId), c.publicOf(clientSecret), r.value.key, token, request);
               AcceptSyn(c, keys, now, r.value.syn) == Verdict(c, keys, now, read)
  {
    var clientPublic := c.publicOf(clientSecret);
    var key := ClientSessionKey(c, clientSecret, c.publicOf(keys.secret));
    BothEndsDeriveTheSameKey(c, clientSecret, keys.secret);
    var inner := TokenBytes(token) + ConnectBytes(request);
    SynRoundTrip(c, key, SynHeader(connectionId), clientPublic, inner);
    var wire := SynWire(c, key, SynHeader(connectionId), clientPublic, inner).value;
    assert wire == HeaderBytes(SynHeader(connectionId)) + wire[HEADER_LEN..];
    HeaderDecodesItsEncoding(SynHeader(connectionId), wire[HEADER_LEN..]);
    InnerIsUnderstood(c, keys, now, Accepted(SynHeader(connectionId), clientPublic, key, token, request));
  }

  // ---------- the bridge's verdict in octets ----------

  /** The signed number eight octets spell. */
  function SignedAt(s: bytes, at: nat): int
    requires at + 8 <= |s|
  {
    AsSigned(Read64(s[at..at + 8]))
  }

  /** The payload that opens at the end of a SYN under this key, if any does. */
  function OpenedPayload(c: Suite, key: Key, pkt: bytes): Option<bytes>
    requires |pkt| >= 61
  {
    c.open(key, pkt[1..13], pkt[..45], pkt[45..])
  }

  /** The opened payload starts with a token the backend signed, read at a time within its window. */
  predicate CarriesGoodToken(c: Suite, keys: BridgeKeys, now: i64, inner: bytes)
    requires |inner| >= 92
  {
    && c.verify(keys.backendKey, inner[..24], inner[24..88])
    && SignedAt(inner, 4) <= now < SignedAt(inner, 12)
  }

  predicate InScope(keys: BridgeKeys, inner: bytes)
    requires |inner| >= 92
  {
    keys.allowAnyScope || inner[23] % 2 == 1
  }

  lemma TokenFromOctets(inner: bytes)
    requires |inner| >= 92
    ensures var r := LicenseToken.FromBytes(inner[..88]);
            && r.Ok? && TokenBytes(r.value) == inner[..88]
            && TokenBytes(r.value)[..24] == inner[..24] && TokenBytes(r.value)[24..] == inner[24..88]
            && r.value.payload.issuedAt == SignedAt(inner, 4) && r.value.payload.expiresAt == SignedAt(inner, 12)
            && r.value.payload.scope % 2 == inner[23] % 2
  {
    var p := inner[..88];
    var t := LicenseToken.FromBytes(p).value;
    TokenRoundTrip(t, p);
    assert p[..24] == inner[..24] && p[24..] == inner[24..88];
    assert p[..24][4..12] == inner[4..12] && p[..24][12..20] == inner[12..20] && p[..24][20..24] == inner[20..24];
    LowestBit(inner[20..24]);
  }

  lemma LowestBit(s: bytes)
    requires s != []
    ensures FromBE(s) % 2 == s[|s| - 1] % 2
  {
  }

  lemma TokenVerdict(c: Suite, keys: BridgeKeys, now: i64, inner: bytes)
    requires |inner| >= 92
    ensures var v := LicenseToken.FromBytes(inner[..88]).value.Verify(c, keys.backendKey, now);
            && LicenseToken.FromBytes(inner[..88]).Ok?
            && (v == None <==> CarriesGoodToken(c, keys, now, inner))
            && (v == Some(BadSignature) <==> !c.verify(keys.backendKey, inner[..24], inner[24..88]))
  {
    TokenFromOctets(inner);
    VerifyExactly(c, LicenseToken.FromBytes(inner[..88]).value, keys.backendKey, now);
  }

  /** What of an opened payload is granted. */
  lemma InnerAcceptedExactlyWhen(c: Suite, keys: BridgeKeys, now: i64, a: Accepted, inner: bytes)
    ensures AcceptInner(c, keys, now, a.header, a.clientPublic, a.key, inner) == Ok(a) <==>
            && |inner| >= 92 && CarriesGoodToken(c, keys, now, inner) && InScope(keys, inner)
            && TokenBytes(a.token) == inner[..88] && ConnectRequest.Decode(inner[88..]) == Ok(a.request)
  {
    if |inner| >= 92 {
      TokenVerdict(c, keys, now, inner);
      TokenFromOctets(inner);
      TokenRoundTrip(a.token, inner[..88]);
    }
  }

  /**
   A SYN is accepted if and only if its payload opens, under the key shared with the client whose public
   key it carries, to a token signed by the backend and read within its window, with the scope the bridge
   asks for, and a request; and then it is accepted as just that.
   */
  lemma AcceptedExactlyWhen(c: Suite, keys: BridgeKeys, now: i64, pkt: bytes, a: Accepted)
    ensures AcceptSyn(c, keys, now, pkt) == Ok(a) <==>
            && |pkt| >= 61
            && a.header.version == 1 && HeaderBytes(a.header) == pkt[..13] && a.clientPublic == pkt[13..45]
            && a.key == c.derive(c.shared(keys.secret, a.clientPublic))
            && var inner := OpenedPayload(c, a.key, pkt);
               && inner.Some? && |inner.value| >= 92
               && CarriesGoodToken(c, keys, now, inner.value) && InScope(keys, inner.value)
               && TokenBytes(a.token) == inner.value[..88]
               && ConnectRequest.Decode(inner.value[88..]) == Ok(a.request)
  {
    FrontDecides(c, keys, now, pkt, a);
    if |pkt| >= 61 && OpenedPayload(c, a.key, pkt).Some? {
      InnerAcceptedExactlyWhen(c, keys, now, a, OpenedPayload(c, a.key, pkt).value);
    }
  }

  lemma FrontDecides(c: Suite, keys: BridgeKeys, now: i64, pkt: bytes, a: Accepted)
    ensures AcceptSyn(c, keys, now, pkt) == Ok(a) <==>
            && |pkt| >= 61
            && a.header.version == 1 && HeaderBytes(a.header) == pkt[..13] && a.clientPublic == pkt[13..45]
            && a.key == c.derive(c.shared(keys.secret, a.clientPublic))
            && OpenedPayload(c, a.key, pkt).Some?
            && AcceptInner(c, keys, now, a.header, a.clientPublic, a.key, OpenedPayload(c, a.key, pkt).value) == Ok(a)
  {
    SynOpensExactlyWhen(c, a.key, pkt, a.header, a.clientPublic, []);
    SynRefusals(c, a.key, pkt);
    if |pkt| >= 61 && OpenedPayload(c, a.key, pkt).Some? {
      SynOpensExactlyWhen(c, a.key, pkt, a.header, a.clientPublic, OpenedPayload(c, a.key, pkt).value);
    }
  }

  /** What the bridge refuses once the payload has opened: too short a payload, a signature the backend's
      key rejects, a scope without the lowest bit; each exactly then. */
  lemma OpenedButRefused(c: Suite, keys: BridgeKeys, now: i64, header: Header, clientPublic: PublicKey, key: Key,
                         inner: bytes)
    ensures var r := AcceptInner(c, keys, now, header, clientPublic, key, inner);
            && (r == Err(PayloadTooShort) <==> |inner| < 92)
            && (|inner| >= 92 ==>
                && (r == Err(BadLicense(BadSignature)) <==> !c.verify(keys.backendKey, inner[..24], inner[24..88]))
                && (r == Err(MissingScope) <==> CarriesGoodToken(c, keys, now, inner) && !InScope(keys, inner)))
  {
    if |inner| >= 92 {
      TokenVerdict(c, keys, now, inner);
      TokenFromOctets(inner);
    }
  }
}
