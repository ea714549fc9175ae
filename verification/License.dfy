/** License tokens: a 24-octet payload signed by the backend, 88 octets in all. */
module License {
  import opened Wire
  import opened Crypto

  const PAYLOAD_LEN := 24
  const TOKEN_LEN := PAYLOAD_LEN + SIG_LEN

  datatype LicenseError =
    | WrongLength(got: nat)
    | BadSignature
    | Expired(expiresAt: i64, now: i64)
    | NotYetValid(issuedAt: i64, now: i64)

  datatype LicensePayload = LicensePayload(userId: u32, issuedAt: i64, expiresAt: i64, scope: u32) {

    method Encode() returns (s: bytes)
      ensures s == PayloadBytes(this)
    {
      var out := new byte[PAYLOAD_LEN](_ => 0);
      CopyFromSlice(out, 0, BE32(userId));
      CopyFromSlice(out, 4, BE64(AsUnsigned(issuedAt)));
      CopyFromSlice(out, 12, BE64(AsUnsigned(expiresAt)));
      CopyFromSlice(out, 20, BE32(scope));
      s := out[..];
      assert s == PayloadBytes(this);
    }

    static function Decode(buf: bytes): LicensePayload
      requires |buf| >= PAYLOAD_LEN
    {
      LicensePayload(Read32(buf[0..4]), AsSigned(Read64(buf[4..12])),
                     AsSigned(Read64(buf[12..20])), Read32(buf[20..24]))
    }
  }

  function PayloadBytes(p: LicensePayload): (s: bytes)
    ensures |s| == PAYLOAD_LEN
  {
    BE32(p.userId) + BE64(AsUnsigned(p.issuedAt)) + BE64(AsUnsigned(p.expiresAt)) + BE32(p.scope)
  }

  /** Payloads and 24-octet strings are the same thing, negative times included. */
  lemma PayloadRoundTrip(p: LicensePayload, buf: bytes)
    requires |buf| == PAYLOAD_LEN
    ensures LicensePayload.Decode(PayloadBytes(p)) == p
    ensures PayloadBytes(LicensePayload.Decode(buf)) == buf
  {
    var s := PayloadBytes(p);
    var a, b, c, d := BE32(p.userId), BE64(AsUnsigned(p.issuedAt)), BE64(AsUnsigned(p.expiresAt)), BE32(p.scope);
    assert s == a + b + c + d;
    assert s[0..4] == a && s[4..12] == b;
    assert s[12..20] == c && s[20..24] == d;
    Word32(p.userId, buf[0..4]);
    Word64(AsUnsigned(p.issuedAt), buf[4..12]);
    Word64(AsUnsigned(p.expiresAt), buf[12..20]);
    Word32(p.scope, buf[20..24]);
    assert buf == buf[0..4] + buf[4..12] + buf[12..20] + buf[20..24];
  }

  /** The payload's layout. */
  lemma PayloadLayout(p: LicensePayload)
    ensures var b := PayloadBytes(p);
            && FromBE(b[0..4]) == p.userId && FromBE(b[20..24]) == p.scope
            && WholeTurns(FromBE(b[4..12]) - p.issuedAt) && WholeTurns(FromBE(b[12..20]) - p.expiresAt)
  {
    PayloadRoundTrip(p, PayloadBytes(p));
    var b := PayloadBytes(p);
    Word64(AsUnsigned(p.issuedAt), b[4..12]);
    Word64(AsUnsigned(p.expiresAt), b[12..20]);
    assert b[4..12] == BE64(AsUnsigned(p.issuedAt)) && b[12..20] == BE64(AsUnsigned(p.expiresAt));
    TwosComplement(0, p.issuedAt);
    TwosComplement(0, p.expiresAt);
  }

  datatype LicenseToken = LicenseToken(payload: LicensePayload, signature: Signature) {

    static function Sign(c: Suite, payload: LicensePayload, signingKey: Secret): LicenseToken {
      LicenseToken(payload, c.sign(signingKey, PayloadBytes(payload)))
    }

    /** None when the token is good at time `now`, else the first check that fails. */
    function Verify(c: Suite, backendKey: bytes, now: i64): Option<LicenseError> {
      if !c.verify(backendKey, PayloadBytes(payload), signature) then Some(BadSignature)
      else if now < payload.issuedAt then Some(NotYetValid(payload.issuedAt, now))
      else if now >= payload.expiresAt then Some(Expired(payload.expiresAt, now))
      else None
    }

    method ToBytes() returns (s: bytes)
      ensures s == TokenBytes(this)
    {
      var out := new byte[TOKEN_LEN](_ => 0);
      var p := payload.Encode();
      CopyFromSlice(out, 0, p);
      CopyFromSlice(out, PAYLOAD_LEN, signature);
      s := out[..];
      assert s == TokenBytes(this);
    }

    static function FromBytes(s: bytes): Result<LicenseToken, LicenseError> {
      if |s| != TOKEN_LEN then Err(WrongLength(|s|))
      else Ok(LicenseToken(LicensePayload.Decode(s[..PAYLOAD_LEN]), s[PAYLOAD_LEN..]))
    }
  }

  function TokenBytes(t: LicenseToken): (s: bytes)
    ensures |s| == TOKEN_LEN
  {
    PayloadBytes(t.payload) + t.signature
  }

  /** Tokens and 88-octet strings are the same thing; every other length is refused. */
  lemma TokenRoundTrip(t: LicenseToken, s: bytes)
    ensures LicenseToken.FromBytes(TokenBytes(t)) == Ok(t)
    ensures LicenseToken.FromBytes(s).Ok? <==> |s| == TOKEN_LEN
    ensures LicenseToken.FromBytes(s).Ok? ==> TokenBytes(LicenseToken.FromBytes(s).value) == s
  {
    assert TokenBytes(t)[..PAYLOAD_LEN] == PayloadBytes(t.payload);
    assert TokenBytes(t)[PAYLOAD_LEN..] == t.signature;
    PayloadRoundTrip(t.payload, PayloadBytes(t.payload));
    if |s| == TOKEN_LEN {
      PayloadRoundTrip(t.payload, s[..PAYLOAD_LEN]);
    }
  }

  /** A token is its payload followed by its signature. */
  lemma TokenLayout(t: LicenseToken)
    ensures TokenBytes(t)[..24] == PayloadBytes(t.payload) && TokenBytes(t)[24..] == t.signature
  {
  }

  /** What any token is refused for: a signature the key rejects, else a time before it was issued, else
      one not before it expires; it is good if and only if none of these holds. */
  lemma VerifyExactly(c: Suite, t: LicenseToken, backendKey: bytes, now: i64)
    ensures var r := t.Verify(c, backendKey, now);
            var signed := c.verify(backendKey, TokenBytes(t)[..24], TokenBytes(t)[24..]);
            && (r == Some(BadSignature) <==> !signed)
            && (r == Some(NotYetValid(t.payload.issuedAt, now)) <==> signed && now < t.payload.issuedAt)
            && (r == Some(Expired(t.payload.expiresAt, now)) <==>
                signed && now >= t.payload.issuedAt && now >= t.payload.expiresAt)
            && (r == None <==> signed && t.payload.issuedAt <= now < t.payload.expiresAt)
  {
    TokenLayout(t);
  }

  /** A token the backend signed is good exactly in its half-open validity window. */
  lemma IssuedTokenWindow(c: Suite, payload: LicensePayload, signingKey: Secret, now: i64)
    ensures LicenseToken.Sign(c, payload, signingKey).Verify(c, c.verifyingKey(signingKey), now).None?
       <==> payload.issuedAt <= now < payload.expiresAt
  {
  }
}
