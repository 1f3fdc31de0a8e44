/** The three secrets of a login attempt, and the fixed envelopes in which two of them are stored. */
module LoginProtection {
  import opened Bytes
  import opened Crypto
  import Base64Url

  const SECRET_BYTES := 32
  const SECRET_TEXT := 43
  const ENVELOPE_BYTES := 72
  const VERSION: byte := Byte(1)
  const LABEL_ROOT: str := "gotth-oidc/"
  const LABEL_ATTEMPT: str := "oidc-login-attempt/"
  const LABEL_CIPHER: str := "/aes-256-gcm/v1"
  const LABEL_NONCE: str := "nonce"
  const LABEL_VERIFIER: str := "pkce-verifier"
  const NONCE_KEY_LABEL: str := LABEL_ROOT + LABEL_ATTEMPT + LABEL_NONCE + LABEL_CIPHER
  const VERIFIER_KEY_LABEL: str := LABEL_ROOT + LABEL_ATTEMPT + LABEL_VERIFIER + LABEL_CIPHER

  datatype Material = Material(state: str, nonce: str, verifier: str)

  datatype Protected = Protected(stateHash: str, nonceEnvelope: str, verifierEnvelope: str)

  function Min(a: int, b: int): int {
    if a < b then a else b
  }

  /** An entropy source: the bytes it will still yield before it fails. */
  class Entropy {
    var stream: str

    constructor (stream: str)
      ensures this.stream == stream
    {
      this.stream := stream;
    }

    /** io.ReadFull: a short stream is used up and reported. */
    method ReadFull(buffer: array<byte>) returns (ok: bool)
      modifies this, buffer
      ensures ok <==> buffer.Length <= |old(stream)|
      ensures stream == old(stream)[Min(buffer.Length, |old(stream)|)..]
      ensures ok ==> buffer[..] == old(stream)[..buffer.Length]
    {
      var n := 0;
      while n < buffer.Length && stream != []
        invariant n <= buffer.Length && n <= |old(stream)|
        invariant stream == old(stream)[n..]
        invariant buffer[..n] == old(stream)[..n]
      {
        buffer[n] := stream[0];
        stream := stream[1..];
        n := n + 1;
      }
      ok := n == buffer.Length;
      assert ok ==> buffer[..] == buffer[..n];
    }
  }

  /** Strict decoding of one 32-byte secret. */
  function DecodeSecret(text: str): Option<str> {
    match Base64Url.Decode(text)
    case None => None
    case Some(raw) => if |raw| == SECRET_BYTES then Some(raw) else None
  }

  lemma SecretText(text: str, raw: str)
    requires DecodeSecret(text) == Some(raw)
    ensures |raw| == SECRET_BYTES && |text| >= SECRET_TEXT
    ensures |text| == SECRET_TEXT <==> text == Base64Url.Encode(raw)
  {
    Base64Url.Canonical(text, raw);
    assert Base64Url.EncodedLen(SECRET_BYTES) == SECRET_TEXT;
  }

  lemma SecretRoundTrip(raw: str)
    requires |raw| == SECRET_BYTES
    ensures DecodeSecret(Base64Url.Encode(raw)) == Some(raw) && |Base64Url.Encode(raw)| == SECRET_TEXT
  {
    Base64Url.DecodeEncode(raw);
    Base64Url.EncodeShape(raw);
  }

  predicate Distinct(a: str, b: str, c: str) {
    a != b && a != c && b != c
  }

  /** Material whose three values decode to different secrets. */
  predicate Admissible(m: Material) {
    && DecodeSecret(m.state).Some? && DecodeSecret(m.nonce).Some? && DecodeSecret(m.verifier).Some?
    && Distinct(DecodeSecret(m.state).value, DecodeSecret(m.nonce).value, DecodeSecret(m.verifier).value)
  }

  // ---- Generation ----

  /** The material spelled by 96 bytes of entropy. */
  function MaterialOf(raw: str): Option<Material>
    requires |raw| == 3 * SECRET_BYTES
  {
    if Distinct(raw[..32], raw[32..64], raw[64..]) then
      Some(Material(Base64Url.Encode(raw[..32]), Base64Url.Encode(raw[32..64]), Base64Url.Encode(raw[64..])))
    else None
  }

  method GenerateLoginMaterial(entropy: Entropy?) returns (r: Option<Material>)
    modifies entropy
    ensures entropy == null ==> r == None
    ensures entropy != null ==>
              && entropy.stream == old(entropy.stream)[Min(96, |old(entropy.stream)|)..]
              && r == if |old(entropy.stream)| >= 96 then MaterialOf(old(entropy.stream)[..96]) else None
  {
    if entropy == null {
      return None;
    }
    var raw := new byte[3 * SECRET_BYTES];
    var ok := entropy.ReadFull(raw);
    if !ok {
      return None;
    }
    var state, nonce, verifier := raw[..32], raw[32..64], raw[64..];
    assert raw[..][..32] == state && raw[..][32..64] == nonce && raw[..][64..] == verifier;
    if state == nonce || state == verifier || nonce == verifier {
      return None;
    }
    r := Some(Material(Base64Url.Encode(state), Base64Url.Encode(nonce), Base64Url.Encode(verifier)));
  }

  lemma GeneratedIsAdmissible(raw: str)
    requires |raw| == 96 && MaterialOf(raw).Some?
    ensures var m := MaterialOf(raw).value;
            && Admissible(m) && |m.state| == |m.nonce| == |m.verifier| == SECRET_TEXT
            && DecodeSecret(m.state) == Some(raw[..32]) && DecodeSecret(m.nonce) == Some(raw[32..64])
            && DecodeSecret(m.verifier) == Some(raw[64..])
  {
    SecretRoundTrip(raw[..32]);
    SecretRoundTrip(raw[32..64]);
    SecretRoundTrip(raw[64..]);
  }

  // ---- Protection ----

  /** Version byte, GCM nonce, ciphertext with tag, under a key derived from the state for this field alone. */
  function Envelope(c: Suite, state: str, purpose: str, plaintext: str, nonce: str, stateHash: str): str {
    [VERSION] + nonce + c.seal(c.hmac(state, purpose), nonce, plaintext, stateHash)
  }

  function Protect(c: Suite, m: Material, randomNonces: str): Option<Protected>
    requires |randomNonces| == 2 * NONCE_BYTES
  {
    if !Admissible(m) then None
    else
      var state := DecodeSecret(m.state).value;
      var hash := c.sha256(m.state);
      var nonceEnvelope := Envelope(c, state, NONCE_KEY_LABEL, m.nonce, randomNonces[..NONCE_BYTES], hash);
      var verifierEnvelope := Envelope(c, state, VERIFIER_KEY_LABEL, m.verifier, randomNonces[NONCE_BYTES..], hash);
      if |nonceEnvelope| == ENVELOPE_BYTES && |verifierEnvelope| == ENVELOPE_BYTES
      then Some(Protected(hash, nonceEnvelope, verifierEnvelope)) else None
  }

  /** The closure that seals one secret into a fixed array; a sealing that does not fit is an error. */
  method SealSecret(c: Suite, state: str, purpose: str, plaintext: str, randomNonce: str, stateHash: str)
    returns (envelope: array<byte>, ok: bool)
    requires |randomNonce| == NONCE_BYTES
    ensures fresh(envelope)
    ensures ok <==> |Envelope(c, state, purpose, plaintext, randomNonce, stateHash)| == ENVELOPE_BYTES
    ensures ok ==> envelope[..] == Envelope(c, state, purpose, plaintext, randomNonce, stateHash)
  {
    var key := c.hmac(state, purpose);
    envelope := new byte[ENVELOPE_BYTES];
    envelope[0] := VERSION;
    for i := 0 to NONCE_BYTES
      invariant envelope[0] == VERSION && envelope[1..1 + i] == randomNonce[..i]
    {
      envelope[1 + i] := randomNonce[i];
    }
    ghost var header := envelope[..1 + NONCE_BYTES];
    assert header == [VERSION] + randomNonce;
    var sealed := c.seal(key, randomNonce, plaintext, stateHash);
    if 1 + NONCE_BYTES + |sealed| != ENVELOPE_BYTES {
      return envelope, false;
    }
    for i := 0 to |sealed|
      invariant envelope[..1 + NONCE_BYTES] == header
      invariant envelope[1 + NONCE_BYTES..1 + NONCE_BYTES + i] == sealed[..i]
    {
      envelope[1 + NONCE_BYTES + i] := sealed[i];
    }
    ok := true;
    assert envelope[..] == envelope[..1 + NONCE_BYTES] + envelope[1 + NONCE_BYTES..1 + NONCE_BYTES + |sealed|];
  }

  method ProtectLoginMaterial(c: Suite, material: Material, entropy: Entropy?) returns (r: Option<Protected>)
    modifies entropy
    ensures entropy == null ==> r == None
    ensures entropy != null ==>
              if !Admissible(material) then r == None && entropy.stream == old(entropy.stream)
              else
                && entropy.stream == old(entropy.stream)[Min(24, |old(entropy.stream)|)..]
                && r == if |old(entropy.stream)| >= 24 then Protect(c, material, old(entropy.stream)[..24]) else None
  {
    var state := DecodeSecret(material.state);
    if state.None? {
      return None;
    }
    var nonce := DecodeSecret(material.nonce);
    if nonce.None? {
      return None;
    }
    var verifier := DecodeSecret(material.verifier);
    if verifier.None? {
      return None;
    }
    if state == nonce || state == verifier || nonce == verifier {
      return None;
    }
    if entropy == null {
      return None;
    }
    var randomNonces := new byte[2 * NONCE_BYTES];
    var ok := entropy.ReadFull(randomNonces);
    if !ok {
      return None;
    }
    assert randomNonces[..][..NONCE_BYTES] == randomNonces[..NONCE_BYTES];
    assert randomNonces[..][NONCE_BYTES..] == randomNonces[NONCE_BYTES..];
    var stateHash := c.sha256(material.state);
    var nonceEnvelope, nonceOk := SealSecret(c, state.value, NONCE_KEY_LABEL, material.nonce,
                                             randomNonces[..NONCE_BYTES], stateHash);
    if !nonceOk {
      return None;
    }
    var verifierEnvelope, verifierOk :=
      SealSecret(c, state.value, VERIFIER_KEY_LABEL, material.verifier, randomNonces[NONCE_BYTES..], stateHash);
    if !verifierOk {
      return None;
    }
    r := Some(Protected(stateHash, nonceEnvelope[..], verifierEnvelope[..]));
  }

  // ---- Recovery ----

  datatype OpenedSecret = OpenedSecret(encoded: str, decoded: str)

  function OpenSecret(c: Suite, state: str, purpose: str, envelope: str, stateHash: str): Option<OpenedSecret> {
    if |envelope| != ENVELOPE_BYTES || envelope[0] != VERSION then None
    else
      match c.open(c.hmac(state, purpose), envelope[1..1 + NONCE_BYTES], envelope[1 + NONCE_BYTES..], stateHash)
      case None => None
      case Some(plaintext) =>
        match DecodeSecret(plaintext)
        case None => None
        case Some(decoded) => Some(OpenedSecret(plaintext, decoded))
  }

  function Recover(c: Suite, state: str, p: Protected): Option<Material> {
    if |state| != SECRET_TEXT || DecodeSecret(state).None? || c.sha256(state) != p.stateHash then None
    else
      var raw := DecodeSecret(state).value;
      match (OpenSecret(c, raw, NONCE_KEY_LABEL, p.nonceEnvelope, p.stateHash),
             OpenSecret(c, raw, VERIFIER_KEY_LABEL, p.verifierEnvelope, p.stateHash))
      case (Some(nonce), Some(verifier)) =>
        if Distinct(raw, nonce.decoded, verifier.decoded)
        then Some(Material(state, nonce.encoded, verifier.encoded)) else None
      case _ => None
  }

  /** Decoding into a fixed array: on success the first n bytes of it are the decoded ones. */
  method DecodeInto(destination: array<byte>, source: str) returns (n: nat, ok: bool)
    requires 3 * |source| / 4 <= destination.Length
    modifies destination
    ensures ok <==> Base64Url.Decode(source).Some?
    ensures ok ==> n <= destination.Length && destination[..n] == Base64Url.Decode(source).value
  {
    match Base64Url.Decode(source) {
      case None => return 0, false;
      case Some(decoded) =>
        DecodedFits(source, decoded);
        n := 0;
        while n < |decoded|
          invariant n <= |decoded| && destination[..n] == decoded[..n]
        {
          destination[n] := decoded[n];
          n := n + 1;
        }
        ok := true;
    }
  }

  lemma DecodedFits(source: str, decoded: str)
    requires Base64Url.Decode(source) == Some(decoded)
    ensures |decoded| <= 3 * |source| / 4
  {
    Base64Url.Canonical(source, decoded);
    var n := |decoded|;
    assert 4 * n <= 3 * Base64Url.EncodedLen(n) by {
      assert n == n / 3 * 3 + n % 3;
    }
  }

  method OpenInto(c: Suite, state: str, purpose: str, envelope: str, stateHash: str, decoded: array<byte>)
    returns (plaintext: str, ok: bool)
    requires decoded.Length == SECRET_BYTES
    modifies decoded
    ensures ok <==> OpenSecret(c, state, purpose, envelope, stateHash).Some?
    ensures ok ==> OpenSecret(c, state, purpose, envelope, stateHash) == Some(OpenedSecret(plaintext, decoded[..]))
  {
    plaintext := [];
    if |envelope| != ENVELOPE_BYTES || envelope[0] != VERSION {
      return plaintext, false;
    }
    var key := c.hmac(state, purpose);
    var unsealed := c.open(key, envelope[1..1 + NONCE_BYTES], envelope[1 + NONCE_BYTES..], stateHash);
    if unsealed.None? {
      return plaintext, false;
    }
    plaintext := unsealed.value;
    assert |plaintext| == SECRET_TEXT;
    var n, decodedOk := DecodeInto(decoded, plaintext);
    if !decodedOk || n != SECRET_BYTES {
      return plaintext, false;
    }
    ok := true;
    assert decoded[..n] == decoded[..];
  }

  method RecoverLoginMaterial(c: Suite, stateValue: str, stateHash: str, nonceEnvelope: str, verifierEnvelope: str)
    returns (r: Option<Material>)
    ensures r == Recover(c, stateValue, Protected(stateHash, nonceEnvelope, verifierEnvelope))
  {
    if |stateValue| != SECRET_TEXT {
      return None;
    }
    var state := new byte[SECRET_BYTES];
    var decodedLength, ok := DecodeInto(state, stateValue);
    if !ok || decodedLength != SECRET_BYTES {
      return None;
    }
    assert state[..decodedLength] == state[..];
    var computedHash := c.sha256(stateValue);
    if |stateHash| != HASH_BYTES || computedHash != stateHash {
      return None;
    }
    var nonce := new byte[SECRET_BYTES];
    var nonceText, nonceOk := OpenInto(c, state[..], NONCE_KEY_LABEL, nonceEnvelope, computedHash, nonce);
    if !nonceOk {
      return None;
    }
    var verifier := new byte[SECRET_BYTES];
    var verifierText, verifierOk := OpenInto(c, state[..], VERIFIER_KEY_LABEL, verifierEnvelope, computedHash,
                                             verifier);
    if !verifierOk {
      return None;
    }
    if state[..] == nonce[..] || state[..] == verifier[..] || nonce[..] == verifier[..] {
      return None;
    }
    r := Some(Material(stateValue, nonceText, verifierText));
  }

  // ---- Protection and recovery are inverse ----

  lemma EnvelopeParts(c: Suite, state: str, purpose: str, plaintext: str, nonce: str, hash: str)
    requires |nonce| == NONCE_BYTES
    ensures var e := Envelope(c, state, purpose, plaintext, nonce, hash);
            && |e| == 1 + NONCE_BYTES + |plaintext| + TAG_BYTES && e[0] == VERSION
            && e[1..1 + NONCE_BYTES] == nonce
            && e[1 + NONCE_BYTES..] == c.seal(c.hmac(state, purpose), nonce, plaintext, hash)
  {
  }

  lemma EnvelopeOpens(c: Suite, state: str, purpose: str, plaintext: str, nonce: str, hash: str)
    requires |nonce| == NONCE_BYTES && |plaintext| == SECRET_TEXT && DecodeSecret(plaintext).Some?
    ensures OpenSecret(c, state, purpose, Envelope(c, state, purpose, plaintext, nonce, hash), hash)
            == Some(OpenedSecret(plaintext, DecodeSecret(plaintext).value))
  {
    EnvelopeParts(c, state, purpose, plaintext, nonce, hash);
  }

  lemma OpenedIsEnvelope(c: Suite, state: str, purpose: str, envelope: str, hash: str)
    requires OpenSecret(c, state, purpose, envelope, hash).Some?
    ensures var o := OpenSecret(c, state, purpose, envelope, hash).value;
            && |o.encoded| == SECRET_TEXT && DecodeSecret(o.encoded) == Some(o.decoded)
            && envelope == Envelope(c, state, purpose, o.encoded, envelope[1..1 + NONCE_BYTES], hash)
  {
    assert envelope == [envelope[0]] + envelope[1..1 + NONCE_BYTES] + envelope[1 + NONCE_BYTES..];
  }

  /** Recovering what protection produced returns the material exactly when its state is 43 characters long. */
  lemma RecoverProtected(c: Suite, m: Material, randomNonces: str, p: Protected)
    requires |randomNonces| == 2 * NONCE_BYTES && Protect(c, m, randomNonces) == Some(p)
    ensures Recover(c, m.state, p) == if |m.state| == SECRET_TEXT then Some(m) else None
  {
    var state := DecodeSecret(m.state).value;
    EnvelopeParts(c, state, NONCE_KEY_LABEL, m.nonce, randomNonces[..NONCE_BYTES], p.stateHash);
    EnvelopeParts(c, state, VERIFIER_KEY_LABEL, m.verifier, randomNonces[NONCE_BYTES..], p.stateHash);
    EnvelopeOpens(c, state, NONCE_KEY_LABEL, m.nonce, randomNonces[..NONCE_BYTES], p.stateHash);
    EnvelopeOpens(c, state, VERIFIER_KEY_LABEL, m.verifier, randomNonces[NONCE_BYTES..], p.stateHash);
  }

  /** The entropy that protection must have read to produce these envelopes. */
  function EmbeddedNonces(p: Protected): (n: str)
    requires |p.nonceEnvelope| == |p.verifierEnvelope| == ENVELOPE_BYTES
    ensures |n| == 2 * NONCE_BYTES
  {
    p.nonceEnvelope[1..1 + NONCE_BYTES] + p.verifierEnvelope[1..1 + NONCE_BYTES]
  }

  /** Whatever recovery accepts, protection would have written, byte for byte. */
  lemma ProtectRecovered(c: Suite, state: str, p: Protected, m: Material)
    requires Recover(c, state, p) == Some(m)
    ensures |p.nonceEnvelope| == |p.verifierEnvelope| == ENVELOPE_BYTES
    ensures m.state == state && Protect(c, m, EmbeddedNonces(p)) == Some(p)
    ensures forall text | text in {m.state, m.nonce, m.verifier} ::
              DecodeSecret(text).Some? && text == Base64Url.Encode(DecodeSecret(text).value)
  {
    var raw := DecodeSecret(state).value;
    OpenedIsEnvelope(c, raw, NONCE_KEY_LABEL, p.nonceEnvelope, p.stateHash);
    OpenedIsEnvelope(c, raw, VERIFIER_KEY_LABEL, p.verifierEnvelope, p.stateHash);
    var n := EmbeddedNonces(p);
    assert n[..NONCE_BYTES] == p.nonceEnvelope[1..1 + NONCE_BYTES];
    assert n[NONCE_BYTES..] == p.verifierEnvelope[1..1 + NONCE_BYTES];
    SecretText(m.state, raw);
    SecretText(m.nonce, DecodeSecret(m.nonce).value);
    SecretText(m.verifier, DecodeSecret(m.verifier).value);
  }

  /** Recovery accepts exactly the image of protection. */
  lemma RecoveryIsImageOfProtection(c: Suite, state: str, p: Protected, m: Material)
    ensures Recover(c, state, p) == Some(m) <==>
            && m.state == state && |state| == SECRET_TEXT
            && exists n: str | |n| == 2 * NONCE_BYTES :: Protect(c, m, n) == Some(p)
  {
    if Recover(c, state, p) == Some(m) {
      ProtectRecovered(c, state, p, m);
      assert |EmbeddedNonces(p)| == 2 * NONCE_BYTES;
    }
    if && m.state == state && |state| == SECRET_TEXT
       && exists n: str | |n| == 2 * NONCE_BYTES :: Protect(c, m, n) == Some(p)
    {
      var n: str :| |n| == 2 * NONCE_BYTES && Protect(c, m, n) == Some(p);
      RecoverProtected(c, m, n, p);
    }
  }

  /** What one draw of entropy generates is always protected and always recovered. */
  lemma GeneratedRoundTrip(c: Suite, raw: str, randomNonces: str)
    requires |raw| == 96 && |randomNonces| == 2 * NONCE_BYTES && MaterialOf(raw).Some?
    ensures var m := MaterialOf(raw).value;
            && Protect(c, m, randomNonces).Some?
            && Recover(c, m.state, Protect(c, m, randomNonces).value) == Some(m)
  {
    GeneratedIsAdmissible(raw);
    var m := MaterialOf(raw).value;
    var state := DecodeSecret(m.state).value;
    EnvelopeParts(c, state, NONCE_KEY_LABEL, m.nonce, randomNonces[..NONCE_BYTES], c.sha256(m.state));
    EnvelopeParts(c, state, VERIFIER_KEY_LABEL, m.verifier, randomNonces[NONCE_BYTES..], c.sha256(m.state));
    RecoverProtected(c, m, randomNonces, Protect(c, m, randomNonces).value);
  }

  /** A state with a line feed in front is protected but never recovered. */
  lemma NewlineStateIsLost(c: Suite, raw: str, randomNonces: str)
    requires |raw| == 96 && |randomNonces| == 2 * NONCE_BYTES && MaterialOf(raw).Some?
    ensures var m := MaterialOf(raw).value;
            var spoiled := m.(state := "\n" + m.state);
            && Protect(c, spoiled, randomNonces).Some?
            && Recover(c, spoiled.state, Protect(c, spoiled, randomNonces).value) == None
  {
    hide Base64Url.Encode, Base64Url.Decode;
    GeneratedIsAdmissible(raw);
    var m := MaterialOf(raw).value;
    var spoiled := m.(state := "\n" + m.state);
    SpoiledStateDecodes(raw[..32]);
    var state, hash := DecodeSecret(spoiled.state).value, c.sha256(spoiled.state);
    EnvelopeParts(c, state, NONCE_KEY_LABEL, m.nonce, randomNonces[..NONCE_BYTES], hash);
    EnvelopeParts(c, state, VERIFIER_KEY_LABEL, m.verifier, randomNonces[NONCE_BYTES..], hash);
  }

  lemma SpoiledStateDecodes(raw: str)
    requires |raw| == SECRET_BYTES
    ensures DecodeSecret("\n" + Base64Url.Encode(raw)) == Some(raw)
  {
    var text := "\n" + Base64Url.Encode(raw);
    assert text[1..] == Base64Url.Encode(raw);
    Base64Url.EncodeShape(raw);
    Base64Url.DecodeExact(text, raw);
  }

  // ---- When the operations succeed ----

  /** Ninety-six bytes make material exactly when their thirds differ. */
  lemma GeneratedExactly(raw: str)
    requires |raw| == 96
    ensures MaterialOf(raw).Some? <==> raw[..32] != raw[32..64] && raw[..32] != raw[64..] && raw[32..64] != raw[64..]
  {
  }

  /** Protection succeeds exactly for different secrets of which the sealed two are spelled with 43 characters. */
  lemma ProtectedExactly(c: Suite, m: Material, randomNonces: str)
    requires |randomNonces| == 24
    ensures Protect(c, m, randomNonces).Some? <==>
            && DecodeSecret(m.state).Some? && DecodeSecret(m.nonce).Some? && DecodeSecret(m.verifier).Some?
            && DecodeSecret(m.state) != DecodeSecret(m.nonce) && DecodeSecret(m.state) != DecodeSecret(m.verifier)
            && DecodeSecret(m.nonce) != DecodeSecret(m.verifier)
            && |m.nonce| == 43 && |m.verifier| == 43
  {
    hide DecodeSecret;
    if Admissible(m) {
      var state, hash := DecodeSecret(m.state).value, c.sha256(m.state);
      EnvelopeParts(c, state, NONCE_KEY_LABEL, m.nonce, randomNonces[..NONCE_BYTES], hash);
      EnvelopeParts(c, state, VERIFIER_KEY_LABEL, m.verifier, randomNonces[NONCE_BYTES..], hash);
    }
  }

  /** A secret is a text whose strict decoding has 32 bytes. */
  lemma SecretExactly(text: str, raw: str)
    ensures DecodeSecret(text) == Some(raw) <==> |raw| == 32 && Base64Url.StripNewlines(text) == Base64Url.Encode(raw)
  {
    hide Base64Url.Decode, Base64Url.Encode, Base64Url.StripNewlines;
    Base64Url.DecodeExact(text, raw);
  }
}
