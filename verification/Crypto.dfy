/**
 The cryptographic primitives the tunnel is built on, as function values that obey the functional
 laws the code relies on: opening inverts sealing under the same key, nonce and associated data
 (section 2.8 of RFC 8439), Diffie-Hellman commutes, and a signature made with a key verifies under
 its public half.  Nothing is said about secrecy or forgery.
 */
module Crypto {
  import opened Wire

  const TAG_LEN := 16
  const PUBKEY_LEN := 32
  const SIG_LEN := 64

  type Key = bytes
  type Secret = bytes
  type PublicKey = s: bytes | |s| == PUBKEY_LEN witness seq(PUBKEY_LEN, _ => 0)
  type Signature = s: bytes | |s| == SIG_LEN witness seq(SIG_LEN, _ => 0)

  datatype Primitives = Primitives(
    seal: (Key, bytes, bytes, bytes) -> bytes,          // key, nonce, associated data, plaintext
    open: (Key, bytes, bytes, bytes) -> Option<bytes>,  // key, nonce, associated data, ciphertext
    publicOf: Secret -> PublicKey,
    shared: (Secret, PublicKey) -> bytes,
    derive: bytes -> Key,
    sign: (Secret, bytes) -> Signature,
    verifyingKey: Secret -> bytes,
    verify: (bytes, bytes, Signature) -> bool)
  {
    ghost predicate Lawful() {
      && (forall k, n, a, m :: |seal(k, n, a, m)| == |m| + TAG_LEN)
      && (forall k, n, a, m :: open(k, n, a, seal(k, n, a, m)) == Some(m))
      && (forall a, b :: shared(a, publicOf(b)) == shared(b, publicOf(a)))
      && (forall sk, m :: verify(verifyingKey(sk), m, sign(sk, m)))
    }
  }

  /** A toy instance: it shows that the laws can be met together. */
  ghost function Toy(): (p: Primitives)
    ensures p.Lawful()
  {
    var tag: bytes := seq(TAG_LEN, _ => 0);
    var p := Primitives(
      (k, n, a, m) => m + tag,
      (k, n, a, c: bytes) => if |c| >= TAG_LEN then Some(c[..|c| - TAG_LEN]) else None,
      s => seq(PUBKEY_LEN, _ => 0),
      (s, pk) => [],
      s => s,
      (sk, m) => seq(SIG_LEN, _ => 0),
      sk => sk,
      (vk, m, sig) => true);
    assert forall k, n, a, m: bytes :: p.open(k, n, a, p.seal(k, n, a, m)) == Some(m) by {
      assert forall m: bytes :: (m + tag)[..|m + tag| - TAG_LEN] == m;
    }
    p
  }

  type Suite = p: Primitives | p.Lawful() ghost witness Toy()

  /** Both ends hash the Diffie-Hellman secret into the session key. */
  function ClientSessionKey(c: Suite, clientSecret: Secret, bridgePublic: PublicKey): Key {
    c.derive(c.shared(clientSecret, bridgePublic))
  }

  function BridgeSessionKey(c: Suite, bridgeSecret: Secret, clientPublic: PublicKey): Key {
    c.derive(c.shared(bridgeSecret, clientPublic))
  }

  lemma BothEndsDeriveTheSameKey(c: Suite, clientSecret: Secret, bridgeSecret: Secret)
    ensures ClientSessionKey(c, clientSecret, c.publicOf(bridgeSecret))
         == BridgeSessionKey(c, bridgeSecret, c.publicOf(clientSecret))
  {
  }
}
