/** The tunnel's wire protocol: frame header, nonce, data and SYN frames, CONNECT request. */
module Protocol {
  import opened Wire
  import opened Crypto

  const PROTO_VERSION := 1
  const HEADER_LEN := 13
  const NONCE_LEN := 12
  const MIN_FRAME_LEN := HEADER_LEN + TAG_LEN
  const MAX_PAYLOAD_LEN := 1200
  const SYN_HEADER_LEN := HEADER_LEN + PUBKEY_LEN
  const MIN_SYN_FRAME_LEN := SYN_HEADER_LEN + TAG_LEN

  datatype ProtocolError =
    | Truncated(got: nat, need: nat)
    | UnknownVersion(version: byte)
    | PayloadTooLarge(size: nat)
    | AeadFailed

  /** The four flag bits, which sit above the four version bits of the first byte. */
  datatype Flags = Flags(fecParity: bool, syn: bool, fin: bool, redundant: bool) {
    function Bits(): (b: byte)
      ensures b % 16 == 0
    {
      (if fecParity then 16 else 0) + (if syn then 32 else 0) + (if fin then 64 else 0) + (if redundant then 128 else 0)
    }

    static function FromBits(b: byte): Flags {
      Flags(b / 16 % 2 == 1, b / 32 % 2 == 1, b / 64 % 2 == 1, b / 128 == 1)
    }
  }

  const NO_FLAGS := Flags(false, false, false, false)
  const SYN_FLAG := Flags(false, true, false, false)

  datatype Header = Header(version: byte, flags: Flags, connectionId: u32, sequence: u64) {

    method Encode(out: array<byte>)
      requires out.Length == HEADER_LEN
      modifies out
      ensures out[..] == HeaderBytes(this)
    {
      out[0] := version % 16 + flags.Bits();
      CopyFromSlice(out, 1, BE32(connectionId));
      CopyFromSlice(out, 5, BE64(sequence));
      assert out[..] == HeaderBytes(this);
    }

    static function Decode(buf: bytes): Result<Header, ProtocolError> {
      if |buf| < HEADER_LEN then Err(Truncated(|buf|, HEADER_LEN))
      else if buf[0] % 16 != PROTO_VERSION then Err(UnknownVersion(buf[0] % 16))
      else Ok(Header(buf[0] % 16, Flags.FromBits(buf[0]), Read32(buf[1..5]), Read64(buf[5..13])))
    }
  }

  /** The header's 13 octets: version and flags share the first one. */
  function HeaderBytes(h: Header): (s: bytes)
    ensures |s| == HEADER_LEN
  {
    [h.version % 16 + h.flags.Bits()] + BE32(h.connectionId) + BE64(h.sequence)
  }

  lemma HeaderSlices(h: Header, tail: bytes)
    ensures (HeaderBytes(h) + tail)[0] == h.version % 16 + h.flags.Bits()
    ensures (HeaderBytes(h) + tail)[1..5] == BE32(h.connectionId)
    ensures (HeaderBytes(h) + tail)[5..13] == BE64(h.sequence)
    ensures (HeaderBytes(h) + tail)[..HEADER_LEN] == HeaderBytes(h)
    ensures (HeaderBytes(h) + tail)[HEADER_LEN..] == tail
  {
  }

  lemma FlagsRoundTrip(f: Flags, v: byte)
    requires v < 16
    ensures v + f.Bits() < 0x100
    ensures (v + f.Bits()) % 16 == v
    ensures Flags.FromBits(v + f.Bits()) == f
  {
  }

  /** Only the low four bits of the version reach the wire; of those only 1 is accepted back. */
  lemma HeaderDecodesItsEncoding(h: Header, tail: bytes)
    ensures Header.Decode(HeaderBytes(h) + tail) ==
            if h.version % 16 == PROTO_VERSION then Ok(h.(version := PROTO_VERSION))
            else Err(UnknownVersion(h.version % 16))
  {
    var v := h.version % 16;
    FlagsRoundTrip(h.flags, v);
    HeaderSlices(h, tail);
    var buf := HeaderBytes(h) + tail;
    assert buf[0] % 16 == v && Flags.FromBits(buf[0]) == h.flags;
    assert Read32(buf[1..5]) == h.connectionId by { Word32(h.connectionId, BE32(h.connectionId)); }
    assert Read64(buf[5..13]) == h.sequence by { Word64(h.sequence, BE64(h.sequence)); }
  }

  /** A buffer decodes exactly when it is long enough and of version 1, and it then starts with
      the encoding of what was decoded. */
  lemma HeaderReencodes(buf: bytes)
    ensures Header.Decode(buf).Ok? <==> |buf| >= HEADER_LEN && buf[0] % 16 == PROTO_VERSION
    ensures Header.Decode(buf).Ok? ==> HeaderBytes(Header.Decode(buf).value) == buf[..HEADER_LEN]
  {
    if Header.Decode(buf).Ok? {
      Word32(0, buf[1..5]);
      Word64(0, buf[5..13]);
      assert Flags.FromBits(buf[0]).Bits() + buf[0] % 16 == buf[0];
      assert buf[..HEADER_LEN] == [buf[0]] + buf[1..5] + buf[5..13];
    }
  }

  /** The header's layout: version and flag bits share the first octet, then connection id and sequence. */
  lemma HeaderLayout(h: Header)
    ensures var b := HeaderBytes(h);
            && b[0] % 16 == h.version % 16
            && (b[0] / 16 % 2 == 1 <==> h.flags.fecParity) && (b[0] / 32 % 2 == 1 <==> h.flags.syn)
            && (b[0] / 64 % 2 == 1 <==> h.flags.fin) && (b[0] >= 128 <==> h.flags.redundant)
            && FromBE(b[1..5]) == h.connectionId && FromBE(b[5..13]) == h.sequence
  {
    HeaderSlices(h, []);
    assert HeaderBytes(h) + [] == HeaderBytes(h);
    Word32(h.connectionId, BE32(h.connectionId));
    Word64(h.sequence, BE64(h.sequence));
  }

  /** How a buffer that is no header is refused. */
  lemma HeaderRefusals(buf: bytes)
    ensures |buf| < 13 <==> Header.Decode(buf) == Err(Truncated(|buf|, 13))
    ensures |buf| >= 13 && buf[0] % 16 != 1 <==> |buf| > 0 && Header.Decode(buf) == Err(UnknownVersion(buf[0] % 16))
  {
  }

  function NonceBytes(connectionId: u32, sequence: u64): (n: bytes)
    ensures |n| == NONCE_LEN
  {
    BE32(connectionId) + BE64(sequence)
  }

  method DeriveNonce(connectionId: u32, sequence: u64) returns (n: bytes)
    ensures n == NonceBytes(connectionId, sequence)
  {
    var buf := new byte[NONCE_LEN](_ => 0);
    CopyFromSlice(buf, 0, BE32(connectionId));
    CopyFromSlice(buf, 4, BE64(sequence));
    n := buf[..];
  }

  /** Two frames share a nonce only if they share connection id and sequence. */
  lemma NonceInjective(c1: u32, s1: u64, c2: u32, s2: u64)
    ensures NonceBytes(c1, s1) == NonceBytes(c2, s2) <==> c1 == c2 && s1 == s2
  {
    assert NonceBytes(c1, s1)[..4] == BE32(c1) && NonceBytes(c1, s1)[4..] == BE64(s1);
    assert NonceBytes(c2, s2)[..4] == BE32(c2) && NonceBytes(c2, s2)[4..] == BE64(s2);
    Word32(c1, BE32(c1));
    Word32(c2, BE32(c2));
    Word64(s1, BE64(s1));
    Word64(s2, BE64(s2));
  }

  /** The nonce of a frame is in its header: the twelve octets after the first. */
  lemma NonceIsInHeader(h: Header)
    ensures NonceBytes(h.connectionId, h.sequence) == HeaderBytes(h)[1..13]
  {
  }

  /** The nonce a receiver derives from a frame's plaintext header. */
  function NonceOf(wire: bytes): Option<bytes> {
    match Header.Decode(wire)
    case Ok(h) => Some(NonceBytes(h.connectionId, h.sequence))
    case Err(_) => None
  }

  /** It is read off the wire. */
  lemma NonceOnTheWire(wire: bytes)
    ensures NonceOf(wire) == if |wire| >= 13 && wire[0] % 16 == 1 then Some(wire[1..13]) else None
  {
    HeaderReencodes(wire);
    if |wire| >= 13 && wire[0] % 16 == 1 {
      var h := Header.Decode(wire).value;
      NonceIsInHeader(h);
      assert HeaderBytes(h)[1..13] == wire[..13][1..13] == wire[1..13];
    }
  }

  // ---------- data frames ----------

  function FrameWire(c: Suite, key: Key, h: Header, payload: bytes): Result<bytes, ProtocolError> {
    if |payload| > MAX_PAYLOAD_LEN then Err(PayloadTooLarge(|payload|))
    else Ok(HeaderBytes(h) + c.seal(key, NonceBytes(h.connectionId, h.sequence), HeaderBytes(h), payload))
  }

  method EncryptFrame(c: Suite, key: Key, h: Header, payload: bytes) returns (r: Result<bytes, ProtocolError>)
    ensures r == FrameWire(c, key, h, payload)
  {
    if |payload| > MAX_PAYLOAD_LEN {
      return Err(PayloadTooLarge(|payload|));
    }
    var nonce := DeriveNonce(h.connectionId, h.sequence);
    var headerBytes := new byte[HEADER_LEN](_ => 0);
    h.Encode(headerBytes);
    var ct := c.seal(key, nonce, headerBytes[..], payload);
    var out: bytes := [];
    out := out + headerBytes[..];
    out := out + ct;
    assert out == HeaderBytes(h) + ct;
    r := Ok(out);
  }

  function DecryptFrame(c: Suite, key: Key, wire: bytes): Result<(Header, bytes), ProtocolError> {
    if |wire| < MIN_FRAME_LEN then Err(Truncated(|wire|, MIN_FRAME_LEN))
    else
      match Header.Decode(wire[..HEADER_LEN])
      case Err(e) => Err(e)
      case Ok(h) =>
        match c.open(key, NonceBytes(h.connectionId, h.sequence), wire[..HEADER_LEN], wire[HEADER_LEN..])
        case None => Err(AeadFailed)
        case Some(pt) => Ok((h, pt))
  }

  /** What one end encrypts the other end reads back, header and payload. */
  lemma FrameRoundTrip(c: Suite, key: Key, h: Header, payload: bytes)
    requires h.version == PROTO_VERSION
    ensures FrameWire(c, key, h, payload).Ok? <==> |payload| <= MAX_PAYLOAD_LEN
    ensures FrameWire(c, key, h, payload).Ok? ==>
              var wire := FrameWire(c, key, h, payload).value;
              |wire| == HEADER_LEN + |payload| + TAG_LEN && DecryptFrame(c, key, wire) == Ok((h, payload))
  {
    if |payload| <= MAX_PAYLOAD_LEN {
      var nonce := NonceBytes(h.connectionId, h.sequence);
      HeaderSlices(h, c.seal(key, nonce, HeaderBytes(h), payload));
      HeaderDecodesItsEncoding(h, []);
      assert HeaderBytes(h) + [] == HeaderBytes(h);
    }
  }

  /** A frame is its header and the payload sealed with the header as associated data, under the nonce
      in it; a payload of more than 1200 octets is refused. */
  lemma FrameLayout(c: Suite, key: Key, h: Header, payload: bytes)
    ensures FrameWire(c, key, h, payload) ==
            if |payload| > 1200 then Err(PayloadTooLarge(|payload|))
            else Ok(HeaderBytes(h) + c.seal(key, HeaderBytes(h)[1..13], HeaderBytes(h), payload))
  {
    NonceIsInHeader(h);
  }

  /** What decrypts, and to what: the octets after the header must open under the nonce in it, with the
      header as associated data. */
  lemma FrameOpensExactlyWhen(c: Suite, key: Key, wire: bytes, h: Header, payload: bytes)
    ensures DecryptFrame(c, key, wire) == Ok((h, payload)) <==>
            && |wire| >= 29 && h.version == 1 && wire[..13] == HeaderBytes(h)
            && c.open(key, wire[1..13], wire[..13], wire[13..]) == Some(payload)
  {
    if |wire| >= 29 {
      OpensAt(wire, h);
    }
  }

  /** The header of a frame that opens is in plain sight. */
  lemma OpenedHeader(c: Suite, key: Key, wire: bytes, h: Header, payload: bytes)
    requires DecryptFrame(c, key, wire) == Ok((h, payload))
    ensures Header.Decode(wire) == Ok(h)
  {
    FrameOpensExactlyWhen(c, key, wire, h, payload);
    HeaderDecodesItsEncoding(h, wire[13..]);
    assert wire == wire[..13] + wire[13..];
  }

  /** How anything else is refused. */
  lemma FrameRefusals(c: Suite, key: Key, wire: bytes)
    ensures DecryptFrame(c, key, wire) == Err(Truncated(|wire|, 29)) <==> |wire| < 29
    ensures |wire| >= 29 ==>
              && (DecryptFrame(c, key, wire) == Err(UnknownVersion(wire[0] % 16)) <==> wire[0] % 16 != 1)
              && (DecryptFrame(c, key, wire) == Err(AeadFailed) <==>
                  wire[0] % 16 == 1 && c.open(key, wire[1..13], wire[..13], wire[13..]) == None)
  {
    if |wire| >= 29 && wire[0] % 16 == 1 {
      OpensAt(wire, Header.Decode(wire[..13]).value);
    }
  }

  /** The header read off a wire is the one whose encoding it starts with; the nonce is part of it. */
  lemma OpensAt(wire: bytes, h: Header)
    requires |wire| >= 13
    ensures Header.Decode(wire[..13]) == Ok(h) <==> h.version == 1 && wire[..13] == HeaderBytes(h)
    ensures Header.Decode(wire[..13]).Ok? <==> wire[0] % 16 == 1
    ensures Header.Decode(wire[..13]) == Ok(h) ==> NonceBytes(h.connectionId, h.sequence) == wire[1..13]
  {
    HeaderReencodes(wire[..13]);
    HeaderDecodesItsEncoding(h, []);
    assert HeaderBytes(h) + [] == HeaderBytes(h);
    NonceIsInHeader(h);
    assert wire[..13][1..13] == wire[1..13] && wire[..13][..13] == wire[..13];
  }

  // ---------- SYN frames ----------

  function SynWire(c: Suite, key: Key, h: Header, clientPublic: PublicKey,
                   payload: bytes): Result<bytes, ProtocolError>
  {
    if |payload| > MAX_PAYLOAD_LEN then Err(PayloadTooLarge(|payload|))
    else
      var aad := HeaderBytes(h) + clientPublic;
      Ok(aad + c.seal(key, NonceBytes(h.connectionId, h.sequence), aad, payload))
  }

  method EncryptSynFrame(c: Suite, key: Key, h: Header, clientPublic: PublicKey, payload: bytes)
    returns (r: Result<bytes, ProtocolError>)
    ensures r == SynWire(c, key, h, clientPublic, payload)
  {
    if |payload| > MAX_PAYLOAD_LEN {
      return Err(PayloadTooLarge(|payload|));
    }
    var headerBytes := new byte[HEADER_LEN](_ => 0);
    h.Encode(headerBytes);
    var aad: bytes := [];
    aad := aad + headerBytes[..];
    aad := aad + clientPublic;
    assert aad == HeaderBytes(h) + clientPublic;
    var nonce := DeriveNonce(h.connectionId, h.sequence);
    var ct := c.seal(key, nonce, aad, payload);
    r := Ok(aad + ct);
  }

  function ParseSynFront(wire: bytes): Result<(Header, PublicKey), ProtocolError> {
    if |wire| < MIN_SYN_FRAME_LEN then Err(Truncated(|wire|, MIN_SYN_FRAME_LEN))
    else
      match Header.Decode(wire[..HEADER_LEN])
      case Err(e) => Err(e)
      case Ok(h) => Ok((h, wire[HEADER_LEN..SYN_HEADER_LEN]))
  }

  function DecryptSynPayload(c: Suite, key: Key, wire: bytes): Result<bytes, ProtocolError> {
    if |wire| < MIN_SYN_FRAME_LEN then Err(Truncated(|wire|, MIN_SYN_FRAME_LEN))
    else
      match Header.Decode(wire[..HEADER_LEN])
      case Err(e) => Err(e)
      case Ok(h) =>
        match c.open(key, NonceBytes(h.connectionId, h.sequence), wire[..SYN_HEADER_LEN], wire[SYN_HEADER_LEN..])
        case None => Err(AeadFailed)
        case Some(pt) => Ok(pt)
  }

  /** The bridge reads the plaintext front of a SYN and, with the same key, its payload. */
  lemma SynRoundTrip(c: Suite, key: Key, h: Header, clientPublic: PublicKey, payload: bytes)
    requires h.version == PROTO_VERSION && |payload| <= MAX_PAYLOAD_LEN
    ensures var r := SynWire(c, key, h, clientPublic, payload);
            && r.Ok?
            && |r.value| == SYN_HEADER_LEN + |payload| + TAG_LEN
            && ParseSynFront(r.value) == Ok((h, clientPublic))
            && DecryptSynPayload(c, key, r.value) == Ok(payload)
  {
    var aad := HeaderBytes(h) + clientPublic;
    var ct := c.seal(key, NonceBytes(h.connectionId, h.sequence), aad, payload);
    var wire := aad + ct;
    assert wire == HeaderBytes(h) + (clientPublic + ct);
    HeaderSlices(h, clientPublic + ct);
    HeaderDecodesItsEncoding(h, []);
    assert HeaderBytes(h) + [] == HeaderBytes(h);
    assert wire[..SYN_HEADER_LEN] == aad && wire[SYN_HEADER_LEN..] == ct;
    assert wire[HEADER_LEN..SYN_HEADER_LEN] == clientPublic;
  }

  /** A SYN is its header, the client's public key, and the payload sealed with both as associated data. */
  lemma SynLayout(c: Suite, key: Key, h: Header, clientPublic: PublicKey, payload: bytes)
    ensures SynWire(c, key, h, clientPublic, payload) ==
            if |payload| > 1200 then Err(PayloadTooLarge(|payload|))
            else
              var front := HeaderBytes(h) + clientPublic;
              Ok(front + c.seal(key, HeaderBytes(h)[1..13], front, payload))
  {
    NonceIsInHeader(h);
  }

  /** What the bridge reads of a SYN, and when. */
  lemma SynOpensExactlyWhen(c: Suite, key: Key, wire: bytes, h: Header, clientPublic: PublicKey, payload: bytes)
    ensures ParseSynFront(wire) == Ok((h, clientPublic)) <==>
            |wire| >= 61 && h.version == 1 && wire[..13] == HeaderBytes(h) && wire[13..45] == clientPublic
    ensures DecryptSynPayload(c, key, wire) == Ok(payload) <==>
            |wire| >= 61 && wire[0] % 16 == 1 && c.open(key, wire[1..13], wire[..45], wire[45..]) == Some(payload)
  {
    if |wire| >= 61 {
      OpensAt(wire, h);
      if wire[0] % 16 == 1 {
        OpensAt(wire, Header.Decode(wire[..13]).value);
      }
    }
  }

  /** How anything else is refused. */
  lemma SynRefusals(c: Suite, key: Key, wire: bytes)
    ensures ParseSynFront(wire) == Err(Truncated(|wire|, 61)) <==> |wire| < 61
    ensures DecryptSynPayload(c, key, wire) == Err(Truncated(|wire|, 61)) <==> |wire| < 61
    ensures |wire| >= 61 ==>
              && (ParseSynFront(wire) == Err(UnknownVersion(wire[0] % 16)) <==> wire[0] % 16 != 1)
              && (DecryptSynPayload(c, key, wire) == Err(AeadFailed) <==>
                  wire[0] % 16 == 1 && c.open(key, wire[1..13], wire[..45], wire[45..]) == None)
  {
    if |wire| >= 61 && wire[0] % 16 == 1 {
      OpensAt(wire, Header.Decode(wire[..13]).value);
    }
  }

  // ---------- CONNECT ----------

  datatype TransportProtocol = Tcp | Udp {
    function AsByte(): byte { if Tcp? then 1 else 2 }

    static function FromByte(b: byte): Option<TransportProtocol> {
      if b == 1 then Some(Tcp) else if b == 2 then Some(Udp) else None
    }
  }

  datatype ConnectRequest = ConnectRequest(protocol: TransportProtocol, dest: SocketAddr) {

    method Encode() returns (out: bytes)
      ensures out == ConnectBytes(this)
    {
      var addr, addrLen;
      match dest.ip {
        case V4(v4) => addr, addrLen := BE32(v4), 4;
        case V6(v6) => addr, addrLen := BE128(v6), 16;
      }
      out := [];
      out := out + [protocol.AsByte()];
      out := out + [addrLen];
      out := out + addr;
      out := out + BE16(dest.port);
      assert out == ConnectBytes(this);
    }

    static function Decode(buf: bytes): Result<ConnectRequest, ProtocolError> {
      if |buf| < 4 then Err(Truncated(|buf|, 4))
      else
        match TransportProtocol.FromByte(buf[0])
        case None => Err(Truncated(|buf|, 4))
        case Some(protocol) =>
          var addrLen: nat := buf[1];
          if addrLen != 4 && addrLen != 16 then Err(Truncated(|buf|, 4 + addrLen))
          else if |buf| < 2 + addrLen + 2 then Err(Truncated(|buf|, 2 + addrLen + 2))
          else
            var ip := if addrLen == 4 then V4(Read32(buf[2..6])) else V6(Read128(buf[2..18]));
            Ok(ConnectRequest(protocol, SocketAddr(ip, Read16(buf[2 + addrLen..2 + addrLen + 2]))))
    }
  }

  function AddressBytes(ip: IpAddr): (s: bytes)
    ensures |s| == if ip.V4? then 4 else 16
  {
    match ip
    case V4(v4) => BE32(v4)
    case V6(v6) => BE128(v6)
  }

  function ConnectBytes(r: ConnectRequest): (s: bytes)
    ensures |s| == if r.dest.ip.V4? then 8 else 20
  {
    [r.protocol.AsByte(), |AddressBytes(r.dest.ip)|] + AddressBytes(r.dest.ip) + BE16(r.dest.port)
  }

  /** A request is read back from its encoding whatever follows it in the buffer. */
  lemma ConnectDecodesItsEncoding(r: ConnectRequest, tail: bytes)
    ensures ConnectRequest.Decode(ConnectBytes(r) + tail) == Ok(r)
  {
    var buf := ConnectBytes(r) + tail;
    var n := |AddressBytes(r.dest.ip)|;
    assert buf[0] == r.protocol.AsByte() && buf[1] == n;
    assert buf[2..2 + n] == AddressBytes(r.dest.ip);
    assert buf[2 + n..2 + n + 2] == BE16(r.dest.port);
    Word16(r.dest.port, BE16(r.dest.port));
    match r.dest.ip {
      case V4(v4) => Word32(v4, BE32(v4));
      case V6(v6) => Word128(v6, BE128(v6));
    }
  }

  /** The request's layout: protocol, address length, address, port. */
  lemma ConnectLayout(r: ConnectRequest)
    ensures var b := ConnectBytes(r);
            && b[0] == (if r.protocol.Tcp? then 1 else 2)
            && (r.dest.ip.V4? ==> |b| == 8 && b[1] == 4 && FromBE(b[2..6]) == r.dest.ip.v4)
            && (r.dest.ip.V6? ==> |b| == 20 && b[1] == 16 && FromBE(b[2..18]) == r.dest.ip.v6)
            && FromBE(b[|b| - 2..]) == r.dest.port
  {
    var b, n := ConnectBytes(r), |AddressBytes(r.dest.ip)|;
    assert b[2..2 + n] == AddressBytes(r.dest.ip) && b[2 + n..] == BE16(r.dest.port);
    Word16(r.dest.port, BE16(r.dest.port));
    match r.dest.ip {
      case V4(v4) => Word32(v4, BE32(v4));
      case V6(v6) => Word128(v6, BE128(v6));
    }
  }

  /** How a buffer that holds no request is refused: short of a request, of an unknown protocol, or of an
      address length there is none of. */
  lemma ConnectRefusals(buf: bytes)
    ensures var r := ConnectRequest.Decode(buf);
            && (|buf| < 4 ==> r == Err(Truncated(|buf|, 4)))
            && (|buf| >= 4 && buf[0] != 1 && buf[0] != 2 ==> r == Err(Truncated(|buf|, 4)))
            && (|buf| >= 4 && (buf[0] == 1 || buf[0] == 2) ==>
                var addrLen: nat := buf[1];
                && (r.Ok? <==> (addrLen == 4 || addrLen == 16) && |buf| >= 4 + addrLen)
                && (r.Err? ==> r == Err(Truncated(|buf|, 4 + addrLen))))
  {
  }

  lemma DecodedParts(buf: bytes)
    requires ConnectRequest.Decode(buf).Ok?
    ensures var r, n := ConnectRequest.Decode(buf).value, buf[1];
            && r.protocol.AsByte() == buf[0] && |AddressBytes(r.dest.ip)| == n && 4 + n <= |buf|
            && AddressBytes(r.dest.ip) == buf[2..2 + n] && BE16(r.dest.port) == buf[2 + n..4 + n]
  {
    var n := buf[1];
    Word16(0, buf[2 + n..4 + n]);
    if n == 4 {
      Word32(0, buf[2..6]);
    } else {
      Word128(0, buf[2..18]);
    }
  }

  /** Whatever decodes starts with the encoding of what was decoded. */
  lemma ConnectReencodes(buf: bytes)
    requires ConnectRequest.Decode(buf).Ok?
    ensures ConnectBytes(ConnectRequest.Decode(buf).value) <= buf
  {
    DecodedParts(buf);
    var n := buf[1];
    assert [buf[0], buf[1]] + buf[2..2 + n] + buf[2 + n..4 + n] == buf[..4 + n];
  }

  /** A buffer decodes exactly when it starts with some request's encoding. */
  lemma ConnectDecodable(buf: bytes)
    ensures ConnectRequest.Decode(buf).Ok? <==> exists r :: ConnectBytes(r) <= buf
  {
    if ConnectRequest.Decode(buf).Ok? {
      ConnectReencodes(buf);
    }
    forall r | ConnectBytes(r) <= buf
      ensures ConnectRequest.Decode(buf).Ok?
    {
      ConnectDecodesItsEncoding(r, buf[|ConnectBytes(r)|..]);
      assert buf == ConnectBytes(r) + buf[|ConnectBytes(r)|..];
    }
  }
}
