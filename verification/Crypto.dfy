/**
 * SHA-256, HMAC-SHA-256 and AES-256-GCM as functions about which only lengths and exactness are known. Nothing here
 * says that a key is secret: what an adversary cannot do is a hypothesis of the theorems about runs.
 */
module Crypto {
  import opened Bytes

  const HASH_BYTES := 32
  const TAG_BYTES := 16
  const NONCE_BYTES := 12

  datatype Primitives = Primitives(
    sha256: str -> str,
    hmac: (str, str) -> str,             // key, message
    seal: (str, str, str, str) -> str,   // key, nonce, plaintext, additional data
    open: (str, str, str, str) -> Option<str>)

  /** Opening yields a plaintext exactly when the ciphertext is the sealing of that plaintext. */
  ghost predicate Lawful(c: Primitives) {
    && (forall m :: |c.sha256(m)| == HASH_BYTES)
    && (forall k, m :: |c.hmac(k, m)| == HASH_BYTES)
    && (forall k, n, p, a :: |c.seal(k, n, p, a)| == |p| + TAG_BYTES)
    && (forall k, n, p, a :: c.open(k, n, c.seal(k, n, p, a), a) == Some(p))
    && (forall k, n, t, a :: c.open(k, n, t, a).Some? ==> t == c.seal(k, n, c.open(k, n, t, a).value, a))
  }

  type Suite = c: Primitives | Lawful(c) ghost witness PlainSuite(m => Zeros(HASH_BYTES), (k, m) => Zeros(HASH_BYTES))

  function Zeros(n: nat): (z: str)
    ensures |z| == n
  {
    seq(n, _ => Byte(0))
  }

  /** The laws have a model: plaintext followed by a constant tag. */
  function PlainSuite(sha256: str -> str, hmac: (str, str) -> str): (c: Primitives)
    ensures (forall m :: |sha256(m)| == HASH_BYTES) && (forall k, m :: |hmac(k, m)| == HASH_BYTES) ==> Lawful(c)
    ensures c.sha256 == sha256 && c.hmac == hmac
  {
    var seal := (k: str, n: str, p: str, a: str) => p + Zeros(TAG_BYTES);
    var open := (k: str, n: str, t: str, a: str) =>
                  if |t| >= TAG_BYTES && t[|t| - TAG_BYTES..] == Zeros(TAG_BYTES)
                    then Some(t[..|t| - TAG_BYTES]) else None;
    assert forall k, n, p, a :: open(k, n, seal(k, n, p, a), a) == Some(p) by {
      forall k, n, p, a ensures open(k, n, seal(k, n, p, a), a) == Some(p) {
        var t := p + Zeros(TAG_BYTES);
        assert t[|t| - TAG_BYTES..] == Zeros(TAG_BYTES) && t[..|t| - TAG_BYTES] == p;
      }
    }
    Primitives(sha256, hmac, seal, open)
  }
}
