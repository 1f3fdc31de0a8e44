/**
 * Runs: any number of clients beginning and completing attempts over one shared store, in any order, with arbitrary
 * callbacks and with stored envelopes mixed or altered at will.
 */
module Runs {
  import opened Bytes
  import Names
  import opened Crypto
  import opened GoTime
  import opened LoginProtection
  import opened Protocol
  import AttemptContext
  import Base64Url
  import Callback
  import Claims
  import IdToken
  import Options
  import AR = AuthorizationRequest
  import Json
  import Utf8
  import EndpointClient
  import TokenRequest

  // ---- What is sealed ----

  datatype Purpose = ForNonce | ForVerifier | ForContext

  function LabelOf(purpose: Purpose): str {
    match purpose
    case ForNonce => NONCE_KEY_LABEL
    case ForVerifier => VERIFIER_KEY_LABEL
    case ForContext => AttemptContext.CONTEXT_KEY_LABEL
  }

  function PlaintextOf(b: Begun, purpose: Purpose): str {
    match purpose
    case ForNonce => b.material.nonce
    case ForVerifier => b.material.verifier
    case ForContext => AttemptContext.Payload(b.context)
  }

  /** One use of a key: which plaintext was sealed with which additional data. */
  datatype Sealing = Sealing(key: str, plaintext: str, additional: str)

  function SealingOf(c: Suite, b: Begun, purpose: Purpose): Sealing
    requires DecodeSecret(b.material.state).Some?
  {
    Sealing(c.hmac(DecodeSecret(b.material.state).value, LabelOf(purpose)), PlaintextOf(b, purpose),
            c.sha256(b.material.state))
  }

  // ---- Hypotheses about the primitives ----

  /** No two states, and no two verifiers, hash alike: only texts of 32-byte secrets are spoken of. */
  ghost predicate CollisionFree(c: Suite) {
    forall x: str, y: str
      | |x| == SECRET_BYTES && |y| == SECRET_BYTES && c.sha256(Base64Url.Encode(x)) == c.sha256(Base64Url.Encode(y)) ::
      x == y
  }

  /** Under one state the three purposes have three keys. */
  ghost predicate KeysSeparate(c: Suite) {
    forall state: str, p: Purpose, q: Purpose
      | |state| == SECRET_BYTES && c.hmac(state, LabelOf(p)) == c.hmac(state, LabelOf(q)) ::
      p == q
  }

  /** What opens under a key was sealed under it by an attempt that was begun. */
  predicate Unforged(c: Suite, sealings: set<Sealing>, key: str, nonce: str, ciphertext: str, additional: str) {
    var opening := c.open(key, nonce, ciphertext, additional);
    opening.Some? ==> Sealing(key, opening.value, additional) in sealings
  }

  predicate EnvelopeUnforged(c: Suite, sealings: set<Sealing>, key: str, envelope: str, stateHash: str) {
    |envelope| == ENVELOPE_BYTES ==>
      Unforged(c, sealings, key, envelope[1..1 + NONCE_BYTES], envelope[1 + NONCE_BYTES..], stateHash)
  }

  predicate ContextUnforged(c: Suite, sealings: set<Sealing>, raw: str, attempt: Attempt) {
    match Base64Url.Decode(attempt.contextText)
    case None => true
    case Some(envelope) =>
      envelope != [] ==>
        Unforged(c, sealings, AttemptContext.ContextKey(c, raw), AttemptContext.ContextNonce(c, raw), envelope[1..],
                 attempt.secrets.stateHash)
  }

  /** The three openings that completing under this state would try. */
  predicate NoForgery(c: Suite, sealings: set<Sealing>, state: str, attempt: Attempt) {
    match DecodeSecret(state)
    case None => true
    case Some(raw) =>
      var s := attempt.secrets;
      && EnvelopeUnforged(c, sealings, c.hmac(raw, NONCE_KEY_LABEL), s.nonceEnvelope, s.stateHash)
      && EnvelopeUnforged(c, sealings, c.hmac(raw, VERIFIER_KEY_LABEL), s.verifierEnvelope, s.stateHash)
      && ContextUnforged(c, sealings, raw, attempt)
  }

  // ---- States and steps ----

  datatype Started = Started(client: nat, options: Options.AuthorizationOptions, at: Time, begun: Begun)

  /** An exchange, with the resolved response that led to it. */
  datatype Exchanged = Exchanged(client: nat, stateHash: str, response: Callback.Response, exchange: Exchange)

  /** A stored row without its primary key, which is the state hash. */
  datatype Row = Row(nonceEnvelope: str, verifierEnvelope: str, contextText: str)

  datatype State = State(
    entropy: map<nat, str>, started: seq<Started>, sealings: set<Sealing>, store: map<str, Row>, consumed: set<str>,
    exchanged: seq<Exchanged>)

  datatype World = World(c: Suite, clients: seq<Rp>)

  datatype Event =
    | BeginEvent(client: nat, options: Options.AuthorizationOptions, now: Time)
    | FailedBegin(client: nat, left: nat)
    | Write(stateHash: str, row: Row)
    | CompleteEvent(client: nat, stateHash: str, received: Callback.Response, verified: Option<Claims.ClaimMap>,
                    now: Time)

  function AttemptAt(stateHash: str, row: Row): Attempt {
    Attempt(Protected(stateHash, row.nonceEnvelope, row.verifierEnvelope), row.contextText)
  }

  /** Beginning takes the next 120 bytes of the client's own entropy and adds three sealings. */
  predicate BeginStep(w: World, s: State, t: State, e: Event)
    requires e.BeginEvent?
  {
    && e.client < |w.clients| && e.client in s.entropy
    && var stream := s.entropy[e.client];
       var r := NextBegun(w.c, w.clients[e.client], e.options, stream, e.now);
       && r.Some? && DecodeSecret(r.value.material.state).Some?
       && t == s.(entropy := s.entropy[e.client := stream[120..]],
                  started := s.started + [Started(e.client, e.options, e.now, r.value)],
                  sealings := s.sealings + set p: Purpose :: SealingOf(w.c, r.value, p))
  }

  /** A failed beginning only uses up entropy. */
  predicate FailedBeginStep(w: World, s: State, t: State, e: Event)
    requires e.FailedBegin?
  {
    && e.client in s.entropy && e.left <= |s.entropy[e.client]|
    && t == s.(entropy := s.entropy[e.client := s.entropy[e.client][e.left..]])
  }

  /** Any row may be written or overwritten as long as its key has not been consumed. */
  predicate WriteStep(w: World, s: State, t: State, e: Event)
    requires e.Write?
  {
    e.stateHash !in s.consumed && t == s.(store := s.store[e.stateHash := e.row])
  }

  /** Consuming a row is one atomic step of the store; completing with it may then lead to an exchange. */
  predicate CompleteStep(w: World, s: State, t: State, e: Event)
    requires e.CompleteEvent?
  {
    && e.client < |w.clients| && e.stateHash in s.store
    && var rp := w.clients[e.client];
       var attempt := AttemptAt(e.stateHash, s.store[e.stateHash]);
       var u := s.(store := s.store - {e.stateHash}, consumed := s.consumed + {e.stateHash});
       match ResolveResponse(rp, e.received, e.verified, e.now)
       case None => t == u
       case Some(response) =>
         && NoForgery(w.c, s.sealings, response.state, attempt)
         && t == match ExchangeFor(w.c, rp, response, attempt)
                 case None => u
                 case Some(x) => u.(exchanged := u.exchanged + [Exchanged(e.client, e.stateHash, response, x)])
  }

  predicate Next(w: World, s: State, t: State, e: Event) {
    match e
    case BeginEvent(_, _, _) => BeginStep(w, s, t, e)
    case FailedBegin(_, _) => FailedBeginStep(w, s, t, e)
    case Write(_, _) => WriteStep(w, s, t, e)
    case CompleteEvent(_, _, _, _, _) => CompleteStep(w, s, t, e)
  }

  predicate Init(s: State) {
    s.started == [] && s.sealings == {} && s.store == map[] && s.consumed == {} && s.exchanged == []
  }

  predicate IsRun(w: World, states: seq<State>, events: seq<Event>) {
    && |states| == |events| + 1 && Init(states[0])
    && forall i | 0 <= i < |events| :: Next(w, states[i], states[i + 1], events[i])
  }

  /** The entropy never repeats a state. */
  predicate FreshStates(started: seq<Started>) {
    forall i, j | 0 <= i < j < |started| :: started[i].begun.material.state != started[j].begun.material.state
  }

  // ---- What an exchange must be ----

  function CoercedBinding(b: AttemptContext.Binding): AttemptContext.Binding {
    AttemptContext.Binding(Utf8.Coerce(b.issuer), Utf8.Coerce(b.clientId), Utf8.Coerce(b.redirectUrl))
  }

  predicate ValidBinding(b: AttemptContext.Binding) {
    Utf8.Valid(b.issuer) && Utf8.Valid(b.clientId) && Utf8.Valid(b.redirectUrl)
  }

  /** A response names the beginning client's issuer or none, and none only if that client does not insist on it. */
  predicate IssuerAllowed(rp: Rp, r: Callback.Response) {
    && (r.issuer != [] ==> r.issuer == Utf8.Coerce(rp.provider.issuer))
    && (rp.requireIssuer ==> r.issuer != [])
  }

  /** One to 4096 bytes of valid UTF-8 without white space and control characters. */
  predicate CodeFits(code: str) {
    && 1 <= |code| <= 4096 && Utf8.Valid(code)
    && forall r | r in Utf8.Runes(code) :: !Utf8.IsSpace(r) && !Utf8.IsControl(r)
  }

  /** The exchange is the one that this attempt was begun for. */
  predicate Serves(w: World, a: Started, x: Exchanged) {
    var b, e := a.begun, x.exchange;
    && a.client < |w.clients| && x.client < |w.clients|
    && x.stateHash == b.attempt.secrets.stateHash && e.state == b.material.state
    // the response carries this state and the code, came in the form that was asked for, and from the right issuer
    && x.response.state == e.state && x.response.code == e.code && x.response.error.None? && CodeFits(e.code)
    && Callback.ModeFits(a.options.responseMode, x.response) && IssuerAllowed(w.clients[a.client], x.response)
    // the completing client has the binding of the beginning one, as JSON carries it
    && BindingFor(w.clients[x.client]) == CoercedBinding(BindingFor(w.clients[a.client]))
    && Names.REDIRECT_URI in b.base && b.base[Names.REDIRECT_URI] == [w.clients[a.client].provider.redirectUrl]
    && e.redirectUrl == w.clients[x.client].provider.redirectUrl
    // the code verifier is the one whose challenge went out with this state
    && Names.STATE in b.base && b.base[Names.STATE] == [e.state]
    && AR.CODE_CHALLENGE in b.base && b.base[AR.CODE_CHALLENGE] == [AR.Challenge(w.c, e.verifier)]
    // the ID token will be checked against the nonce that went out
    && AR.NONCE in b.base && b.base[AR.NONCE] == [e.demands.nonce]
    && ScopeCarried(a.options, b.base) && PolicyCarried(w.clients[a.client], a.options, b, e)
  }

  /** The scope that went out reads as the normal form of the scopes in the options, with openid among them. */
  predicate ScopeCarried(o: Options.AuthorizationOptions, base: Values) {
    && Names.SCOPE in base && |base[Names.SCOPE]| == 1
    && Options.Fields(base[Names.SCOPE][0]) == Options.NormalizeScopes(o.scopes, o.offlineAccess)
    && Options.OPENID in Options.Fields(base[Names.SCOPE][0])
  }

  /** max_age and ACR are the same in options, parameters and demands; the rest is the union of the two policies. */
  predicate PolicyCarried(rp: Rp, o: Options.AuthorizationOptions, b: Begun, e: Exchange) {
    && (o.maxAge.Some? <==> e.demands.maxAge.Some?)
    && (o.maxAge.Some? ==> e.demands.maxAge.value * NANOS == o.maxAge.value)
    && (if e.demands.maxAge.Some? then
          AR.MAX_AGE in b.base && b.base[AR.MAX_AGE] == [Json.PrintInt(e.demands.maxAge.value)]
        else AR.MAX_AGE !in b.base)
    && e.demands.acrValues == o.acrValues
    && (if o.acrValues != [] then AR.ACR_VALUES in b.base && |b.base[AR.ACR_VALUES]| == 1
                                  && Options.Fields(b.base[AR.ACR_VALUES][0]) == e.demands.acrValues
        else AR.ACR_VALUES !in b.base)
    && e.demands.useUserInfo == (o.useUserInfo || rp.policy.useUserInfo)
    && e.demands.requireName == (o.requireName || rp.policy.requireName)
    && e.demands.requireEmail == (o.requireEmail || rp.policy.requireEmail)
    && e.responseMode == b.validated.responseMode
  }

  /** The attempt came out of Begin for its client. */
  ghost predicate FromBegin(w: World, a: Started) {
    && a.client < |w.clients|
    && exists raw: str, nonces: str | |raw| == 96 && |nonces| == 24 ::
         Begin(w.c, w.clients[a.client], a.options, raw, nonces, a.at) == Some(a.begun)
  }

  ghost predicate AllBegun(w: World, started: seq<Started>) {
    forall i | 0 <= i < |started| :: FromBegin(w, started[i]) && DecodeSecret(started[i].begun.material.state).Some?
  }

  /** The log holds the sealings of the begun attempts and no others. */
  ghost predicate Logged(w: World, started: seq<Started>, sealings: set<Sealing>)
    requires AllBegun(w, started)
  {
    && (forall x | x in sealings :: exists i, p | 0 <= i < |started| :: x == SealingOf(w.c, started[i].begun, p))
    && (forall i, p | 0 <= i < |started| :: SealingOf(w.c, started[i].begun, p) in sealings)
  }

  predicate Served(w: World, started: seq<Started>, x: Exchanged) {
    exists i | 0 <= i < |started| :: Serves(w, started[i], x)
  }

  predicate AllServed(w: World, started: seq<Started>, exchanged: seq<Exchanged>) {
    forall k | 0 <= k < |exchanged| :: Served(w, started, exchanged[k])
  }

  predicate ConsumedOnce(s: State) {
    && s.store.Keys !! s.consumed
    && (forall k | 0 <= k < |s.exchanged| :: s.exchanged[k].stateHash in s.consumed)
    && (forall k, l | 0 <= k < l < |s.exchanged| :: s.exchanged[k].stateHash != s.exchanged[l].stateHash)
  }

  ghost predicate Invariant(w: World, s: State) {
    AllBegun(w, s.started) && Logged(w, s.started, s.sealings) && AllServed(w, s.started, s.exchanged) &&
      ConsumedOnce(s)
  }

  // ---- An attempt and its parts ----

  lemma BegunFacts(w: World, a: Started) returns (now: Time, nonces: str, envelope: str)
    requires FromBegin(w, a)
    ensures var b, rp := a.begun, w.clients[a.client];
            && now == a.at && Options.Validate(a.options, rp.policy) == Some(b.validated)
            && DecodeSecret(b.material.state).Some?
            && |b.material.state| == |b.material.nonce| == |b.material.verifier| == SECRET_TEXT
            && |nonces| == 24 && Protect(w.c, b.material, nonces) == Some(b.attempt.secrets)
            && b.attempt.secrets.stateHash == w.c.sha256(b.material.state)
            && AR.BaseParameters(rp.provider, b.material, b.validated, w.c) == Some(b.base)
            && b.context == NewContext(rp, b.validated, now)
            && AttemptContext.Seal(w.c, b.material.state, b.attempt.secrets.stateHash, b.context) == Some(envelope)
            && b.attempt.contextText == Base64Url.Encode(envelope)
  {
    hide Options.Validate, AttemptContext.Seal, AR.BaseParameters, NewContext, MaterialOf, DecodeSecret,
      Base64Url.Encode;
    var raw: str, nonceBytes: str :| |raw| == 96 && |nonceBytes| == 24
      && Begin(w.c, w.clients[a.client], a.options, raw, nonceBytes, a.at) == Some(a.begun);
    GeneratedIsAdmissible(raw);
    now, nonces := a.at, nonceBytes;
    envelope := AttemptContext.Seal(w.c, a.begun.material.state, a.begun.attempt.secrets.stateHash,
                                    a.begun.context).value;
  }

  /** A sealing found under a state was made by the attempt with that state, for that purpose. */
  lemma SealedBy(w: World, s: State, state: str, purpose: Purpose, plaintext: str) returns (i: nat)
    requires Invariant(w, s) && CollisionFree(w.c) && KeysSeparate(w.c)
    requires |state| == SECRET_TEXT && DecodeSecret(state).Some?
    requires Sealing(w.c.hmac(DecodeSecret(state).value, LabelOf(purpose)), plaintext, w.c.sha256(state)) in s.sealings
    ensures i < |s.started| && s.started[i].begun.material.state == state
    ensures plaintext == PlaintextOf(s.started[i].begun, purpose)
  {
    hide DecodeSecret, LabelOf, Base64Url.Encode, FromBegin, Serves, AttemptContext.Payload;
    var raw := DecodeSecret(state).value;
    var x := Sealing(w.c.hmac(raw, LabelOf(purpose)), plaintext, w.c.sha256(state));
    var j, p :| 0 <= j < |s.started| && x == SealingOf(w.c, s.started[j].begun, p);
    i := j;
    var b := s.started[i].begun;
    var now, nonces, envelope := BegunFacts(w, s.started[i]);
    var own := DecodeSecret(b.material.state).value;
    SecretText(state, raw);
    SecretText(b.material.state, own);
    assert own == raw;
    assert p == purpose;
  }

  /** Recovery finds, for both secrets, a sealing under this state. */
  lemma RecoveredSealings(c: Suite, sealings: set<Sealing>, state: str, attempt: Attempt, m: Material)
    requires Recover(c, state, attempt.secrets) == Some(m) && NoForgery(c, sealings, state, attempt)
    ensures |state| == SECRET_TEXT && DecodeSecret(state).Some? && m.state == state
    ensures var raw := DecodeSecret(state).value;
            && Sealing(c.hmac(raw, LabelOf(ForNonce)), m.nonce, c.sha256(state)) in sealings
            && Sealing(c.hmac(raw, LabelOf(ForVerifier)), m.verifier, c.sha256(state)) in sealings
  {
    hide DecodeSecret;
  }

  /** Opening the stored context finds a sealing under this state. */
  lemma OpenedSealing(c: Suite, sealings: set<Sealing>, state: str, attempt: Attempt, x: Context) returns (payload: str)
    requires OpenStored(c, state, attempt) == Some(x) && NoForgery(c, sealings, state, attempt)
    ensures DecodeSecret(state).Some? && AttemptContext.ParsePayload(payload) == Some(x)
    ensures Sealing(c.hmac(DecodeSecret(state).value, LabelOf(ForContext)), payload, c.sha256(state)) in sealings
  {
    hide DecodeSecret, Base64Url.Decode, AttemptContext.ParsePayload;
    var envelope := Base64Url.Decode(attempt.contextText).value;
    var raw := DecodeSecret(state).value;
    payload := c.open(AttemptContext.ContextKey(c, raw), AttemptContext.ContextNonce(c, raw), envelope[1..],
                      attempt.secrets.stateHash).value;
  }

  /** Whatever is accepted, however the stored envelopes were mixed, is one attempt that was begun. */
  lemma AcceptedIsBegun(w: World, s: State, rp: Rp, r: Callback.Response, attempt: Attempt, a: Accepted)
    returns (i: nat)
    requires Invariant(w, s) && FreshStates(s.started) && CollisionFree(w.c) && KeysSeparate(w.c)
    requires NoForgery(w.c, s.sealings, r.state, attempt) && Accept(w.c, rp, r, attempt) == Some(a)
    ensures i < |s.started| && s.started[i].begun.material == a.material && a.material.state == r.state
    ensures a.context == AttemptContext.Coerced(s.started[i].begun.context)
    ensures attempt.secrets.stateHash == w.c.sha256(r.state)
    ensures AttemptContext.ValidateFor(a.context, Some(BindingFor(rp)))
  {
    hide Recover, OpenStored, NoForgery, DecodeSecret, LabelOf, CollisionFree, KeysSeparate, FromBegin, Serves,
      AttemptContext.ParsePayload, AttemptContext.Payload, AttemptContext.Coerced, AttemptContext.ValidateFor,
      Callback.ModeMatches;
    RecoveredSealings(w.c, s.sealings, r.state, attempt, a.material);
    var payload := OpenedSealing(w.c, s.sealings, r.state, attempt, a.context);
    i := SealedBy(w, s, r.state, ForNonce, a.material.nonce);
    var j := SealedBy(w, s, r.state, ForVerifier, a.material.verifier);
    var k := SealedBy(w, s, r.state, ForContext, payload);
    assert i == j == k;
    AttemptContext.PayloadRoundTrip(s.started[i].begun.context);
    RecoveredHash(w.c, r.state, attempt);
  }

  lemma RecoveredHash(c: Suite, state: str, attempt: Attempt)
    requires Recover(c, state, attempt.secrets).Some?
    ensures attempt.secrets.stateHash == c.sha256(state)
  {
  }

  /** What the stored record says, after its passage through JSON, about the options it was begun with. */
  lemma RecordCarriesPolicy(rp: Rp, o: Options.AuthorizationOptions, v: Options.Validated, now: Time)
    requires Options.Validate(o, rp.policy) == Some(v)
    ensures var y := AttemptContext.Coerced(NewContext(rp, v, now));
            && y.maxAge == v.maxAgeSeconds && y.acrValues == v.acrValues == o.acrValues &&
               y.responseMode == v.responseMode
            && (o.maxAge.Some? <==> y.maxAge.Some?) && (o.maxAge.Some? ==> y.maxAge.value * NANOS == o.maxAge.value)
            && y.useUserInfo == (o.useUserInfo || rp.policy.useUserInfo)
            && y.requireName == (o.requireName || rp.policy.requireName)
            && y.requireEmail == (o.requireEmail || rp.policy.requireEmail)
            && y.requireResponseIssuer == rp.requireIssuer && y.startedAt == UnixSeconds(now)
            && y.offlineAccess == o.offlineAccess
            && AttemptContext.BindingOf(y) == CoercedBinding(BindingFor(rp))
  {
    hide Utf8.Coerce, Utf8.Valid, Options.AcceptedTokens, Options.ValidHint, Options.NormalizeScopes;
    Options.ScopeParameter(o, rp.policy, v);
    forall k | 0 <= k < |v.acrValues| ensures Json.CoerceAll(v.acrValues)[k] == v.acrValues[k] {
      Utf8.CoerceIsIdentity(v.acrValues[k]);
    }
    assert Json.CoerceAll(v.acrValues) == v.acrValues;
    ModeIsPlain(v.responseMode);
  }

  lemma ModeIsPlain(mode: str)
    requires AttemptContext.SupportedMode(mode)
    ensures Utf8.Coerce(mode) == mode
  {
    hide Utf8.Coerce, Utf8.Valid;
    assert forall k | 0 <= k < |mode| :: mode[k] as int < 0x80;
    AttemptContext.AsciiIsValid(mode);
  }

  lemma BegunScope(w: World, a: Started)
    requires FromBegin(w, a)
    ensures ScopeCarried(a.options, a.begun.base)
  {
    var rp, b := w.clients[a.client], a.begun;
    hide FromBegin, DecodeSecret, AR.BaseParameters, Options.Validate, AttemptContext.Seal, NewContext,
      Base64Url.Encode, Protect, AR.Challenge, Join, Json.PrintInt, AR.IsBase, Options.Fields, Options.NormalizeScopes;
    var now, nonces, envelope := BegunFacts(w, a);
    AR.BaseParametersSay(rp.provider, b.material, b.validated, w.c, b.base);
    AR.OptionsBehind(a.options, rp.policy, b.validated);
    Options.ScopeParameter(a.options, rp.policy, b.validated);
    Options.OpenidIsAsked(a.options.scopes, a.options.offlineAccess);
  }

  /** The request that went out says, under every name, exactly what the options, the secrets and the client ask for. */
  lemma BegunAsks(w: World, a: Started, name: str)
    requires FromBegin(w, a)
    ensures AR.Holds(a.begun.base, name,
                     AR.Asked(w.clients[a.client].provider, a.begun.material, a.options, w.c, name))
  {
    var rp, b := w.clients[a.client], a.begun;
    hide FromBegin, DecodeSecret, AR.BaseParameters, Options.Validate, AttemptContext.Seal, NewContext,
      Base64Url.Encode, Protect, AR.Holds, AR.Asked;
    var now, nonces, envelope := BegunFacts(w, a);
    AR.RequestExactly(rp.provider, b.material, a.options, rp.policy, b.validated, w.c, b.base, name);
  }

  /** The request that went out names the state, the nonce, the challenge and the redirect URI of its attempt. */
  lemma BegunRequest(w: World, a: Started)
    requires FromBegin(w, a)
    ensures var b, rp := a.begun, w.clients[a.client];
            && Names.STATE in b.base && b.base[Names.STATE] == [b.material.state]
            && AR.NONCE in b.base && b.base[AR.NONCE] == [b.material.nonce]
            && AR.CODE_CHALLENGE in b.base && b.base[AR.CODE_CHALLENGE] == [AR.Challenge(w.c, b.material.verifier)]
            && Names.REDIRECT_URI in b.base && b.base[Names.REDIRECT_URI] == [rp.provider.redirectUrl]
  {
    var rp, b := w.clients[a.client], a.begun;
    hide FromBegin, DecodeSecret, AR.BaseParameters, Options.Validate, AttemptContext.Seal, NewContext,
      Base64Url.Encode, Protect, AR.Challenge, Join, Json.PrintInt, AR.IsBase;
    var now, nonces, envelope := BegunFacts(w, a);
    AR.BaseParametersSay(rp.provider, b.material, b.validated, w.c, b.base);
  }

  /** The binding and the policy in the stored record are those of the client and the options it was begun with. */
  lemma BegunPolicy(w: World, a: Started, e: Exchange)
    requires FromBegin(w, a)
    requires var y := AttemptContext.Coerced(a.begun.context);
             && e.demands == IdToken.Demands(e.demands.nonce, y.maxAge, y.acrValues, y.useUserInfo, y.requireName,
                                             y.requireEmail)
             && e.responseMode == y.responseMode
    ensures PolicyCarried(w.clients[a.client], a.options, a.begun, e)
    ensures AttemptContext.BindingOf(AttemptContext.Coerced(a.begun.context)) ==
            CoercedBinding(BindingFor(w.clients[a.client]))
  {
    var rp, b := w.clients[a.client], a.begun;
    hide FromBegin, DecodeSecret, AR.BaseParameters, Options.Validate, AttemptContext.Seal, AttemptContext.Coerced,
      NewContext, Base64Url.Encode, Options.Fields, Join, Protect, Json.PrintInt, AR.IsBase, AR.Challenge,
      CoercedBinding;
    var now, nonces, envelope := BegunFacts(w, a);
    RecordCarriesPolicy(rp, a.options, b.validated, now);
    AR.BaseParametersSay(rp.provider, b.material, b.validated, w.c, b.base);
    Options.ScopeParameter(a.options, rp.policy, b.validated);
  }

  /** Once an accepted attempt is known to be one that was begun, its exchange serves that attempt. */
  lemma AcceptedServes(w: World, a: Started, client: nat, stateHash: str, row: Row, r: Callback.Response,
                       accepted: Accepted, x: Exchange)
    requires FromBegin(w, a) && client < |w.clients|
    requires var rp, attempt := w.clients[client], AttemptAt(stateHash, row);
             && Accept(w.c, rp, r, attempt) == Some(accepted) && ExchangeFor(w.c, rp, r, attempt) == Some(x)
             && AttemptContext.ValidateFor(accepted.context, Some(BindingFor(rp)))
    requires a.begun.material == accepted.material && accepted.material.state == r.state
    requires accepted.context == AttemptContext.Coerced(a.begun.context) && stateHash == w.c.sha256(r.state)
    ensures Serves(w, a, Exchanged(client, stateHash, r, x))
  {
    hide Accept, FromBegin, DecodeSecret, AttemptContext.Coerced, CoercedBinding, PolicyCarried, ValidCode, CodeFits,
      Callback.ModeMatches, Callback.ModeFits, IssuerAllowed, IssuerFits, ScopeCarried;
    AcceptedFits(w.c, w.clients[client], r, AttemptAt(stateHash, row), accepted);
    RecordFits(w, a, r);
    CodeIsFit(x.code);
    BegunRequest(w, a);
    BegunScope(w, a);
    BegunPolicy(w, a, x);
    BegunHash(w, a);
  }

  lemma CodeIsFit(code: str)
    ensures ValidCode(code) <==> CodeFits(code)
  {
  }

  lemma BegunHash(w: World, a: Started)
    requires FromBegin(w, a)
    ensures a.client < |w.clients| && a.begun.attempt.secrets.stateHash == w.c.sha256(a.begun.material.state)
  {
    assert a.client < |w.clients|;
    hide FromBegin, DecodeSecret, AR.BaseParameters, Options.Validate, AttemptContext.Seal, NewContext,
      Base64Url.Encode, Protect;
    var now, nonces, envelope := BegunFacts(w, a);
  }

  // ---- Every step keeps the invariant ----

  lemma BeginKeeps(w: World, s: State, t: State, e: Event)
    requires Invariant(w, s) && e.BeginEvent? && BeginStep(w, s, t, e)
    ensures Invariant(w, t)
  {
    hide Begin, DecodeSecret, Serves, SealingOf;
    var a := t.started[|s.started|];
    var stream := s.entropy[e.client];
    assert FromBegin(w, a) by {
      assert |stream[..96]| == 96 && |stream[96..120]| == 24;
    }
    assert forall i | 0 <= i < |s.started| :: t.started[i] == s.started[i];
    assert AllBegun(w, t.started);
    assert Logged(w, t.started, t.sealings) by {
      forall x | x in t.sealings
        ensures exists i, p | 0 <= i < |t.started| :: x == SealingOf(w.c, t.started[i].begun, p)
      {
        if x in s.sealings {
          var i, p :| 0 <= i < |s.started| && x == SealingOf(w.c, s.started[i].begun, p);
          assert x == SealingOf(w.c, t.started[i].begun, p);
        } else {
          var p :| x == SealingOf(w.c, a.begun, p);
        }
      }
    }
    forall k | 0 <= k < |t.exchanged| ensures Served(w, t.started, t.exchanged[k]) {
      StillServed(w, s.started, t.started, s.exchanged[k]);
    }
  }

  lemma StillServed(w: World, before: seq<Started>, after: seq<Started>, x: Exchanged)
    requires before <= after && Served(w, before, x)
    ensures Served(w, after, x)
  {
    var i :| 0 <= i < |before| && Serves(w, before[i], x);
    assert after[i] == before[i];
  }

  /** Whatever leads to an exchange, that exchange serves an attempt that was begun. */
  lemma ExchangeServes(w: World, s: State, client: nat, stateHash: str, row: Row, r: Callback.Response, x: Exchange)
    returns (i: nat)
    requires Invariant(w, s) && FreshStates(s.started) && CollisionFree(w.c) && KeysSeparate(w.c) &&
             client < |w.clients|
    requires NoForgery(w.c, s.sealings, r.state, AttemptAt(stateHash, row))
    requires ExchangeFor(w.c, w.clients[client], r, AttemptAt(stateHash, row)) == Some(x)
    ensures i < |s.started| && Serves(w, s.started[i], Exchanged(client, stateHash, r, x))
  {
    hide NoForgery, Accept, Serves, Invariant, CollisionFree, KeysSeparate, FreshStates, FromBegin, DecodeSecret,
      ValidCode, DemandsOf, AttemptContext.Coerced, AttemptContext.ValidateFor;
    var attempt := AttemptAt(stateHash, row);
    var accepted := Accept(w.c, w.clients[client], r, attempt).value;
    i := AcceptedIsBegun(w, s, w.clients[client], r, attempt, accepted);
    BegunAt(w, s, i);
    AcceptedServes(w, s.started[i], client, stateHash, row, r, accepted, x);
  }

  lemma CompleteKeeps(w: World, s: State, t: State, e: Event)
    requires Invariant(w, s) && e.CompleteEvent? && CompleteStep(w, s, t, e)
    requires FreshStates(s.started) && CollisionFree(w.c) && KeysSeparate(w.c)
    ensures Invariant(w, t)
  {
    hide NoForgery, ExchangeFor, Serves, ResolveResponse, AllBegun, Logged, CollisionFree, KeysSeparate, FreshStates;
    var rp, row := w.clients[e.client], s.store[e.stateHash];
    var resolved := ResolveResponse(rp, e.received, e.verified, e.now);
    if resolved.Some? && ExchangeFor(w.c, rp, resolved.value, AttemptAt(e.stateHash, row)).Some? {
      var x := ExchangeFor(w.c, rp, resolved.value, AttemptAt(e.stateHash, row)).value;
      var i := ExchangeServes(w, s, e.client, e.stateHash, row, resolved.value, x);
      assert t.exchanged == s.exchanged + [Exchanged(e.client, e.stateHash, resolved.value, x)];
    }
  }

  lemma BegunAt(w: World, s: State, i: nat)
    requires Invariant(w, s) && i < |s.started|
    ensures FromBegin(w, s.started[i]) && DecodeSecret(s.started[i].begun.material.state).Some?
    ensures forall p :: SealingOf(w.c, s.started[i].begun, p) in s.sealings
  {
  }

  lemma StepKeeps(w: World, s: State, t: State, e: Event)
    requires Invariant(w, s) && Next(w, s, t, e)
    requires FreshStates(s.started) && CollisionFree(w.c) && KeysSeparate(w.c)
    ensures Invariant(w, t)
  {
    hide AllBegun, Logged, AllServed, BeginStep, CompleteStep, FreshStates, CollisionFree, KeysSeparate;
    match e
    case BeginEvent(_, _, _) => BeginKeeps(w, s, t, e);
    case FailedBegin(_, _) =>
    case Write(_, _) =>
    case CompleteEvent(_, _, _, _, _) => CompleteKeeps(w, s, t, e);
  }

  /** The list of attempts only grows. */
  lemma {:induction false} StartedGrows(w: World, states: seq<State>, events: seq<Event>, k: nat)
    requires IsRun(w, states, events) && k <= |events|
    ensures states[k].started <= states[|events|].started
    decreases |events| - k
  {
    if k < |events| {
      StartedGrows(w, states, events, k + 1);
      assert Next(w, states[k], states[k + 1], events[k]);
      StepGrows(w, states[k], states[k + 1], events[k]);
    }
  }

  lemma StepGrows(w: World, s: State, t: State, e: Event)
    requires Next(w, s, t, e)
    ensures s.started <= t.started
  {
    hide Begin, SealingOf, ResolveResponse, ExchangeFor, NoForgery;
  }

  // ---- Runs ----

  /** What is supposed of a run: ideal primitives, and entropy that never repeats a state. */
  ghost predicate Ideal(w: World, s: State) {
    CollisionFree(w.c) && KeysSeparate(w.c) && FreshStates(s.started)
  }

  lemma {:induction false} InvariantHolds(w: World, states: seq<State>, events: seq<Event>, k: nat)
    requires IsRun(w, states, events) && k <= |events| && Ideal(w, states[|events|])
    ensures Invariant(w, states[k])
  {
    hide Next, CollisionFree, KeysSeparate, Invariant, FreshStates;
    if k == 0 {
      InitialInvariant(w, states[0]);
    } else {
      InvariantHolds(w, states, events, k - 1);
      StartedGrows(w, states, events, k - 1);
      PrefixIsFresh(states[k - 1].started, states[|events|].started);
      assert Next(w, states[k - 1], states[k], events[k - 1]);
      StepKeeps(w, states[k - 1], states[k], events[k - 1]);
    }
  }

  lemma InitialInvariant(w: World, s: State)
    requires Init(s)
    ensures Invariant(w, s)
  {
  }

  lemma PrefixIsFresh(before: seq<Started>, after: seq<Started>)
    requires before <= after && FreshStates(after)
    ensures FreshStates(before)
  {
    forall i, j | 0 <= i < j < |before| ensures before[i].begun.material.state != before[j].begun.material.state {
      assert before[i] == after[i] && before[j] == after[j];
    }
  }

  /** Every exchange of every run serves an attempt that was begun, and no other one. */
  lemma RunIsSound(w: World, states: seq<State>, events: seq<Event>, k: nat)
    requires IsRun(w, states, events) && Ideal(w, states[|events|]) && k < |states[|events|].exchanged|
    ensures var s := states[|events|];
            exists i | 0 <= i < |s.started| ::
              && Serves(w, s.started[i], s.exchanged[k])
              && forall j | 0 <= j < |s.started| && Serves(w, s.started[j], s.exchanged[k]) :: j == i
  {
    var s := states[|events|];
    hide AllBegun, Logged, IsRun, PolicyCarried, CollisionFree, KeysSeparate;
    InvariantHolds(w, states, events, |events|);
    assert Served(w, s.started, s.exchanged[k]);
    var i :| 0 <= i < |s.started| && Serves(w, s.started[i], s.exchanged[k]);
    forall j | 0 <= j < |s.started| && Serves(w, s.started[j], s.exchanged[k]) ensures j == i {
      assert s.started[j].begun.material.state == s.started[i].begun.material.state;
    }
  }

  /** No attempt is exchanged twice, by whichever clients. */
  lemma ExchangedAtMostOnce(w: World, states: seq<State>, events: seq<Event>, a: Started, k: nat, l: nat)
    requires IsRun(w, states, events) && Ideal(w, states[|events|])
    requires k < |states[|events|].exchanged| && l < |states[|events|].exchanged|
    requires Serves(w, a, states[|events|].exchanged[k]) && Serves(w, a, states[|events|].exchanged[l])
    ensures k == l
  {
    var s := states[|events|];
    hide AllBegun, Logged, IsRun, PolicyCarried, Ideal;
    InvariantHolds(w, states, events, |events|);
    assert ConsumedOnce(s);
  }

  lemma BindingExactly(b: AttemptContext.Binding)
    ensures CoercedBinding(b) == b <==> ValidBinding(b)
  {
    hide Utf8.Coerce, Utf8.Valid;
    Utf8.CoerceIsIdentity(b.issuer);
    Utf8.CoerceIsIdentity(b.clientId);
    Utf8.CoerceIsIdentity(b.redirectUrl);
  }

  /** The completing client is bound like the beginning one exactly for valid texts, and then sends its redirect URI. */
  lemma ServedByTheSameBinding(w: World, a: Started, x: Exchanged)
    requires Serves(w, a, x)
    ensures BindingFor(w.clients[x.client]) == BindingFor(w.clients[a.client]) <==>
              ValidBinding(BindingFor(w.clients[a.client]))
    ensures ValidBinding(BindingFor(w.clients[a.client])) ==>
              a.begun.base[Names.REDIRECT_URI] == [x.exchange.redirectUrl]
  {
    hide Utf8.Coerce, Utf8.Valid, PolicyCarried;
    BindingExactly(BindingFor(w.clients[a.client]));
  }

  /** What client x.client puts on the wire for an exchange. */
  function ConversationOf(w: World, x: Exchanged, now: Time, identifiers: seq<str>, answers: seq<EndpointClient.Answer>)
    : EndpointClient.Conversation
    requires x.client < |w.clients|
  {
    var p, e := w.clients[x.client].provider, x.exchange;
    var form := TokenRequest.ExchangeForm(e.code, e.redirectUrl, e.verifier);
    EndpointClient.Converse(p.client, TokenRequest.TokenUrl(p.discovered), form, now, identifiers, answers)
  }

  /** The request proves possession of the verifier, and names the redirect URI, of the attempt. */
  predicate Redeems(w: World, a: Started, request: EndpointClient.HttpRequest) {
    && a.client < |w.clients|
    && TokenRequest.CODE_VERIFIER in request.form && |request.form[TokenRequest.CODE_VERIFIER]| == 1
    && AR.CODE_CHALLENGE in a.begun.base
    && a.begun.base[AR.CODE_CHALLENGE] == [AR.Challenge(w.c, request.form[TokenRequest.CODE_VERIFIER][0])]
    && Names.REDIRECT_URI in request.form
    && request.form[Names.REDIRECT_URI] == [Utf8.Coerce(w.clients[a.client].provider.redirectUrl)]
    && Names.REDIRECT_URI in a.begun.base
    && (ValidBinding(BindingFor(w.clients[a.client])) ==>
          request.form[Names.REDIRECT_URI] == a.begun.base[Names.REDIRECT_URI])
  }

  lemma ServedOnTheWire(w: World, a: Started, x: Exchanged, now: Time, identifiers: seq<str>,
                        answers: seq<EndpointClient.Answer>)
    requires Serves(w, a, x)
    ensures forall request | request in ConversationOf(w, x, now, identifiers, answers).sent :: Redeems(w, a, request)
  {
    hide Utf8.Coerce, Utf8.Valid, PolicyCarried, EndpointClient.Converse, AR.Challenge;
    var p, e := w.clients[x.client].provider, x.exchange;
    BindingExactly(BindingFor(w.clients[a.client]));
    TokenRequest.ExchangeRequestCarries(p.client, TokenRequest.TokenUrl(p.discovered), e.code, e.redirectUrl,
                                        e.verifier, now, identifiers, answers);
  }

  /** In every run, whatever the network answers, every token request of an exchange redeems one begun attempt. */
  lemma RunIsSoundOnTheWire(w: World, states: seq<State>, events: seq<Event>, k: nat, now: Time, identifiers: seq<str>,
                            answers: seq<EndpointClient.Answer>)
    returns (i: nat)
    requires IsRun(w, states, events) && Ideal(w, states[|events|]) && k < |states[|events|].exchanged|
    ensures var s := states[|events|];
            var x := s.exchanged[k];
            && i < |s.started| && Serves(w, s.started[i], x)
            && s.started[i].begun.base[Names.STATE] == [x.exchange.state]
            && forall request | request in ConversationOf(w, x, now, identifiers, answers).sent ::
                 Redeems(w, s.started[i], request)
  {
    var s := states[|events|];
    hide IsRun, Ideal, PolicyCarried, Redeems, ConversationOf, Utf8.Coerce;
    RunIsSound(w, states, events, k);
    i :| i < |s.started| && Serves(w, s.started[i], s.exchanged[k]);
    ServedOnTheWire(w, s.started[i], s.exchanged[k], now, identifiers, answers);
  }

  // ---- What the provider reads ----

  /** The names that carry policy. */
  const POLICY_NAMES: set<str> := {AR.MAX_AGE, AR.ACR_VALUES, AR.RESPONSE_MODE}

  /** A provider that reads these parameters is asked for exactly what the ID token will be held to. */
  predicate PolicyRead(read: Option<Values>, e: Exchange) {
    && read.Some?
    && (if e.demands.maxAge.Some? then
          AR.MAX_AGE in read.value && read.value[AR.MAX_AGE] == [Json.PrintInt(e.demands.maxAge.value)]
        else AR.MAX_AGE !in read.value)
    && (if e.demands.acrValues != [] then
          && AR.ACR_VALUES in read.value && read.value[AR.ACR_VALUES] == [Join(e.demands.acrValues, Options.SPACE)]
          && Options.Fields(read.value[AR.ACR_VALUES][0]) == e.demands.acrValues
        else AR.ACR_VALUES !in read.value)
    && (if e.responseMode != AttemptContext.MODE_QUERY then
          AR.RESPONSE_MODE in read.value && read.value[AR.RESPONSE_MODE] == [e.responseMode]
        else AR.RESPONSE_MODE !in read.value)
  }

  /** The endpoint's own query and the way of delivery leave these three parameters alone. */
  predicate PolicyDeliverable(rp: Rp, v: Options.Validated) {
    var p := rp.provider;
    && (AR.UsesPar(p, v) || !v.useRequestObject ==> AR.REQUEST !in p.endpointQuery)
    && (!AR.UsesPar(p, v) ==> AR.REQUEST_URI !in p.endpointQuery)
    && (!AR.UsesPar(p, v) && !v.useRequestObject ==>
          && (v.maxAgeSeconds.None? ==> AR.MAX_AGE !in p.endpointQuery)
          && (v.acrValues == [] ==> AR.ACR_VALUES !in p.endpointQuery)
          && (v.responseMode == AttemptContext.MODE_QUERY ==> AR.RESPONSE_MODE !in p.endpointQuery))
    && (v.useRequestObject ==> Utf8.Valid(p.client.clientId))
  }

  lemma BegunPolicyParameters(w: World, a: Started)
    requires FromBegin(w, a)
    ensures var b := a.begun;
            var v := b.validated;
            && (if v.maxAgeSeconds.Some? then
                  AR.MAX_AGE in b.base && b.base[AR.MAX_AGE] == [Json.PrintInt(v.maxAgeSeconds.value)]
                else AR.MAX_AGE !in b.base)
            && (if v.acrValues != [] then
                  AR.ACR_VALUES in b.base && b.base[AR.ACR_VALUES] == [Join(v.acrValues, Options.SPACE)]
                else AR.ACR_VALUES !in b.base)
            && (if v.responseMode != AttemptContext.MODE_QUERY then
                  AR.RESPONSE_MODE in b.base && b.base[AR.RESPONSE_MODE] == [v.responseMode]
                else AR.RESPONSE_MODE !in b.base)
    ensures a.begun.validated.acrValues == a.options.acrValues && AttemptContext.AllValid(a.begun.validated.acrValues)
    ensures Options.Fields(Join(a.begun.validated.acrValues, Options.SPACE)) == a.begun.validated.acrValues
    ensures AttemptContext.SupportedMode(a.begun.validated.responseMode)
  {
    var rp, b := w.clients[a.client], a.begun;
    hide FromBegin, AR.BaseParameters, Options.Validate, AttemptContext.Seal, NewContext, Base64Url.Encode, Protect,
      DecodeSecret, AR.IsBase, Json.PrintInt, Join, Options.Fields, AR.MAX_AGE, AR.ACR_VALUES, AR.RESPONSE_MODE,
      AR.Challenge, AttemptContext.SupportedMode, AttemptContext.AllValid;
    var now, nonces, envelope := BegunFacts(w, a);
    AR.BaseParametersSay(rp.provider, b.material, b.validated, w.c, b.base);
    Options.ScopeParameter(a.options, rp.policy, b.validated);
    MaxAgeIsValid(a.options, rp.policy, b.validated);
  }

  predicate SameAt(read: Values, base: Values, name: str) {
    (name in read <==> name in base) && (name in base ==> read[name] == base[name])
  }

  lemma MeaningOfThree(server: AR.Server, query: Values, base: Values)
    ensures AR.Means(server, query, base, POLICY_NAMES) <==>
              && AR.Resolve(server, query).Some?
              && SameAt(AR.Resolve(server, query).value, base, AR.MAX_AGE)
              && SameAt(AR.Resolve(server, query).value, base, AR.ACR_VALUES)
              && SameAt(AR.Resolve(server, query).value, base, AR.RESPONSE_MODE)
  {
    hide AR.Resolve, AR.MAX_AGE, AR.ACR_VALUES, AR.RESPONSE_MODE;
    assert AR.MAX_AGE in POLICY_NAMES && AR.ACR_VALUES in POLICY_NAMES && AR.RESPONSE_MODE in POLICY_NAMES;
  }

  /** Reading the three parameters as they were built is reading the policy of the attempt. */
  lemma MeaningIsPolicy(w: World, a: Started, e: Exchange, server: AR.Server, query: Values)
    requires FromBegin(w, a) && PolicyCarried(w.clients[a.client], a.options, a.begun, e)
    ensures AR.Means(server, query, a.begun.base, POLICY_NAMES) <==> PolicyRead(AR.Resolve(server, query), e)
  {
    hide FromBegin, AR.Resolve, AR.Means, POLICY_NAMES, Json.PrintInt, Join, Options.Fields, AR.MAX_AGE, AR.ACR_VALUES,
      AR.RESPONSE_MODE, AttemptContext.SupportedMode, AttemptContext.AllValid, AttemptContext.MODE_QUERY,
      Options.SPACE;
    BegunPolicyParameters(w, a);
    MeaningOfThree(server, query, a.begun.base);
  }

  /** The policy parameters are plain text, whatever the options. */
  lemma PolicyIsValidText(w: World, a: Started)
    requires FromBegin(w, a)
    ensures forall name | name in POLICY_NAMES && name in a.begun.base :: Utf8.Valid(AR.FirstOf(a.begun.base[name]))
    ensures forall name | name in POLICY_NAMES ::
              name in a.begun.base <==>
              || (name == AR.MAX_AGE && a.begun.validated.maxAgeSeconds.Some?)
              || (name == AR.ACR_VALUES && a.begun.validated.acrValues != [])
              || (name == AR.RESPONSE_MODE && a.begun.validated.responseMode != AttemptContext.MODE_QUERY)
  {
    var v := a.begun.validated;
    hide FromBegin, Json.PrintInt, Join, Options.Fields, Utf8.Valid, AR.MAX_AGE, AR.ACR_VALUES, AR.RESPONSE_MODE,
      AttemptContext.SupportedMode, AttemptContext.AllValid, AttemptContext.MODE_QUERY;
    BegunPolicyParameters(w, a);
    PolicyNamesDiffer();
    if v.maxAgeSeconds.Some? {
      PrintedIsValid(v.maxAgeSeconds.value);
    }
    JoinedIsValid(v.acrValues);
    ModeIsPlain(v.responseMode);
    Utf8.CoerceIsIdentity(v.responseMode);
  }

  lemma PolicyNamesDiffer()
    ensures AR.MAX_AGE != AR.ACR_VALUES && AR.MAX_AGE != AR.RESPONSE_MODE && AR.ACR_VALUES != AR.RESPONSE_MODE
  {
  }

  lemma PrintedIsValid(n: int64)
    ensures Utf8.Valid(Json.PrintInt(n))
  {
    hide Utf8.Valid;
    Json.PrintedDigits(n);
    AttemptContext.AsciiIsValid(Json.PrintInt(n));
  }

  lemma {:induction false} JoinedIsValid(tokens: seq<str>)
    requires AttemptContext.AllValid(tokens)
    ensures Utf8.Valid(Join(tokens, Options.SPACE))
  {
    hide Utf8.Valid;
    if |tokens| == 0 {
      AttemptContext.AsciiIsValid([]);
    } else if |tokens| > 1 {
      JoinedIsValid(tokens[1..]);
      AttemptContext.AsciiIsValid(Options.SPACE);
      Utf8.ValidConcat(tokens[0], Options.SPACE);
      Utf8.ValidConcat(tokens[0] + Options.SPACE, Join(tokens[1..], Options.SPACE));
    }
  }

  /**
   * Max_age, ACR values and response mode in the URL that is built for the attempt, as every honest provider reads
   * them, are those that the exchange will be held to, exactly when the endpoint's own query leaves them alone.
   */
  ghost predicate PolicyReaches(w: World, a: Started, x: Exchanged, now: Time, identifiers: seq<str>,
                                answers: seq<EndpointClient.Answer>)
  {
    && a.client < |w.clients|
    && var p, b := w.clients[a.client].provider, a.begun;
       match AR.Wrapped(p, b.base, b.material, b.validated, w.c, now)
       case None => true
       case Some(wrapped) =>
         var built := AR.Deliver(p, b.validated, Some(wrapped), now, identifiers, answers);
         built.query.Some? ==>
           ((forall server: AR.Server
               | AR.HonestAbout(p, b.material, b.validated, w.c, now, b.base, wrapped, built, server) ::
               PolicyRead(AR.Resolve(server, built.query.value), x.exchange)) <==>
            PolicyDeliverable(w.clients[a.client], b.validated))
  }

  lemma ServedPolicyReaches(w: World, a: Started, x: Exchanged, now: Time, identifiers: seq<str>,
                            answers: seq<EndpointClient.Answer>)
    requires FromBegin(w, a) && Serves(w, a, x)
    ensures PolicyReaches(w, a, x, now, identifiers, answers)
  {
    var rp, b := w.clients[a.client], a.begun;
    var p := rp.provider;
    hide FromBegin, AR.BaseParameters, Options.Validate, AttemptContext.Seal, NewContext, Base64Url.Encode, Protect,
      DecodeSecret, AR.Wrapped, AR.Deliver, AR.HonestAbout, AR.Means, AR.Resolve, PolicyRead, PolicyCarried,
      PolicyDeliverable, AR.DeliverableBy, AR.BASE_NAMES, POLICY_NAMES;
    var begunAt, nonces, envelope := BegunFacts(w, a);
    var wrapped := AR.Wrapped(p, b.base, b.material, b.validated, w.c, now);
    if wrapped.Some? && AR.Deliver(p, b.validated, wrapped, now, identifiers, answers).query.Some? {
      var built := AR.Deliver(p, b.validated, wrapped, now, identifiers, answers);
      PolicyNamesAreBase();
      AR.BuiltMeaningExact(p, b.material, b.validated, w.c, now, b.base, wrapped.value, identifiers, answers,
                           POLICY_NAMES);
      PolicyDeliverableAgrees(w, a);
      forall server: AR.Server
        | AR.HonestAbout(p, b.material, b.validated, w.c, now, b.base, wrapped.value, built, server)
        ensures AR.Means(server, built.query.value, b.base, POLICY_NAMES) <==>
                  PolicyRead(AR.Resolve(server, built.query.value), x.exchange)
      {
        MeaningIsPolicy(w, a, x.exchange, server, built.query.value);
      }
    }
  }

  lemma PolicyNamesAreBase()
    ensures POLICY_NAMES <= AR.BASE_NAMES
  {
  }

  lemma PolicyDeliverableAgrees(w: World, a: Started)
    requires FromBegin(w, a)
    ensures AR.DeliverableBy(w.clients[a.client].provider, a.begun.validated, a.begun.base, POLICY_NAMES) <==>
              PolicyDeliverable(w.clients[a.client], a.begun.validated)
  {
    hide FromBegin, Utf8.Valid, AR.UsesPar, AR.FirstOf, AR.MAX_AGE, AR.ACR_VALUES, AR.RESPONSE_MODE, AR.REQUEST,
      AR.REQUEST_URI;
    PolicyNamesDiffer();
    PolicyIsValidText(w, a);
    assert AR.MAX_AGE in POLICY_NAMES && AR.ACR_VALUES in POLICY_NAMES && AR.RESPONSE_MODE in POLICY_NAMES;
  }

  /** In every run, the policy of an exchange is the one read in the URL that is built for its attempt. */
  lemma RunCarriesPolicy(w: World, states: seq<State>, events: seq<Event>, k: nat, now: Time, identifiers: seq<str>,
                         answers: seq<EndpointClient.Answer>)
    returns (i: nat)
    requires IsRun(w, states, events) && Ideal(w, states[|events|]) && k < |states[|events|].exchanged|
    ensures var s := states[|events|];
            && i < |s.started| && Serves(w, s.started[i], s.exchanged[k])
            && PolicyReaches(w, s.started[i], s.exchanged[k], now, identifiers, answers)
  {
    var s := states[|events|];
    hide IsRun, Ideal, Serves, Invariant, FromBegin, PolicyReaches;
    i := ServedBy(w, states, events, k);
    ServedPolicyReaches(w, s.started[i], s.exchanged[k], now, identifiers, answers);
  }

  /** The attempt behind an exchange of a run. */
  lemma ServedBy(w: World, states: seq<State>, events: seq<Event>, k: nat) returns (i: nat)
    requires IsRun(w, states, events) && Ideal(w, states[|events|]) && k < |states[|events|].exchanged|
    ensures var s := states[|events|];
            i < |s.started| && FromBegin(w, s.started[i]) && Serves(w, s.started[i], s.exchanged[k])
  {
    var s := states[|events|];
    hide IsRun, Ideal, Serves, Invariant, FromBegin;
    RunIsSound(w, states, events, k);
    i :| i < |s.started| && Serves(w, s.started[i], s.exchanged[k]);
    InvariantHolds(w, states, events, |events|);
    BegunAt(w, s, i);
  }

  // ---- The identity at the end ----

  /** What the token behind an identity had to be, in terms of the attempt's own options and request. */
  predicate HeldTo(w: World, a: Started, x: Exchanged, t: IdToken.Token, now: Time, id: IdToken.Identity)
    requires a.client < |w.clients| && x.client < |w.clients|
  {
    var o, policy := a.options, w.clients[a.client].policy;
    && AR.NONCE in a.begun.base && a.begun.base[AR.NONCE] == [Base64Url.StripNewlines(t.nonce)]
    && w.clients[x.client].provider.client.clientId in t.audience
    && id.issuer == t.issuer && id.subject == t.subject
    && (o.maxAge.Some? ==>
          && Claims.ReadUnixTime(t.claims, IdToken.AUTH_TIME).Some?
          && (ClockInRange(now) ==>
                MeetsMaxAge(Claims.ReadUnixTime(t.claims, IdToken.AUTH_TIME).value, now, o.maxAge.value / NANOS)))
    && (o.acrValues != [] ==>
          && Claims.ReadString(t.claims, IdToken.ACR).Present?
          && Claims.ReadString(t.claims, IdToken.ACR).s in o.acrValues)
    && (o.requireEmail || policy.requireEmail ==> id.email.Some?)
    && (o.requireName || policy.requireName ==> id.displayName != [])
  }

  lemma ServedIdentity(w: World, a: Started, x: Exchanged, tokens: Option<TokenRequest.TokenResponse>, world: Answers,
                       now: Time, id: IdToken.Identity)
    returns (t: IdToken.Token)
    requires FromBegin(w, a) && Serves(w, a, x)
    requires Finish(w.clients[x.client], x.exchange, tokens, world, now) == Completed(id)
    ensures tokens.Some? && world.verify(tokens.value.idToken) == Some(t)
    ensures HeldTo(w, a, x, t, now, id)
  {
    hide FromBegin, IdToken.Conclude, DecodeSecret, Base64Url.Encode, Base64Url.StripNewlines, IdToken.BindingValid,
      MeetsMaxAge, ClockInRange, Claims.ReadUnixTime, Claims.ReadString, ScopeCarried, CodeFits,
      Callback.ModeFits, IssuerAllowed, CoercedBinding;
    var rp, e := w.clients[x.client], x.exchange;
    t := world.verify(tokens.value.idToken).value;
    var fits, info := world.fits(t, tokens.value.accessToken), world.userInfo(t);
    assert IdToken.Conclude(PartyOf(rp), e.demands, t, fits, info, now) == Some(id);
    IdToken.ConcludedMeans(PartyOf(rp), e.demands, t, fits, info, now);
    BegunNonce(w, a);
    var raw := DecodeSecret(e.demands.nonce).value;
    IdToken.NonceLanguage(raw, t.nonce);
    SecondsBack(a.options, e);
    BegunMaxAge(w, a);
    if e.demands.maxAge.Some? && ClockInRange(now) {
      IdToken.AcceptedMeetsMaxAge(t, rp.provider.client.clientId, rp.trusted, e.demands.maxAge.value,
                                  e.demands.acrValues, now);
    }
  }

  lemma SecondsBack(o: Options.AuthorizationOptions, e: Exchange)
    ensures o.maxAge.Some? && e.demands.maxAge.Some? && e.demands.maxAge.value * NANOS == o.maxAge.value ==>
              o.maxAge.value / NANOS == e.demands.maxAge.value
  {
  }

  lemma BegunMaxAge(w: World, a: Started)
    requires FromBegin(w, a)
    ensures a.options.maxAge.Some? ==> 0 <= a.options.maxAge.value <= YEAR_SECONDS * NANOS
  {
    var rp := w.clients[a.client];
    hide FromBegin, AR.BaseParameters, AttemptContext.Seal, NewContext, Base64Url.Encode, Protect, DecodeSecret,
      Options.AcceptedTokens, Options.ValidHint, Options.Normal, AttemptContext.SupportedMode;
    var now, nonces, envelope := BegunFacts(w, a);
  }

  lemma BegunNonce(w: World, a: Started)
    requires FromBegin(w, a)
    ensures DecodeSecret(a.begun.material.nonce).Some?
    ensures |DecodeSecret(a.begun.material.nonce).value| == SECRET_BYTES
    ensures a.begun.material.nonce == Base64Url.Encode(DecodeSecret(a.begun.material.nonce).value)
    ensures AR.NONCE in a.begun.base && a.begun.base[AR.NONCE] == [a.begun.material.nonce]
  {
    hide FromBegin, AR.BaseParameters, Options.Validate, AttemptContext.Seal, NewContext, Base64Url.Encode, Protect,
      DecodeSecret;
    var now, nonces, envelope := BegunFacts(w, a);
    BegunSecrets(w, a);
    BegunRequest(w, a);
    SecretText(a.begun.material.nonce, DecodeSecret(a.begun.material.nonce).value);
  }

  /** In every run, an identity comes from a token that answers the attempt's own request and meets its own demands. */
  lemma RunCompletes(w: World, states: seq<State>, events: seq<Event>, k: nat,
                     tokens: Option<TokenRequest.TokenResponse>, world: Answers, now: Time, id: IdToken.Identity)
    returns (i: nat, t: IdToken.Token)
    requires IsRun(w, states, events) && Ideal(w, states[|events|]) && k < |states[|events|].exchanged|
    requires states[|events|].exchanged[k].client < |w.clients|
    requires var x := states[|events|].exchanged[k];
             Finish(w.clients[x.client], x.exchange, tokens, world, now) == Completed(id)
    ensures var s := states[|events|];
            var x := s.exchanged[k];
            && i < |s.started| && s.started[i].client < |w.clients| && Serves(w, s.started[i], x)
            && tokens.Some? && world.verify(tokens.value.idToken) == Some(t)
            && HeldTo(w, s.started[i], x, t, now, id)
  {
    var s := states[|events|];
    hide IsRun, Ideal, Serves, FromBegin, Finish, HeldTo;
    i := ServedBy(w, states, events, k);
    assert s.started[i].client < |w.clients| by { ServesAClient(w, s.started[i], s.exchanged[k]); }
    t := ServedIdentity(w, s.started[i], s.exchanged[k], tokens, world, now, id);
  }

  lemma ServesAClient(w: World, a: Started, x: Exchanged)
    requires Serves(w, a, x)
    ensures a.client < |w.clients| && x.client < |w.clients|
  {
  }

  // ---- Completing what was stored unaltered ----

  /** Everything about a response and a client that completing an unaltered attempt depends on. */
  predicate Completable(w: World, a: Started, client: nat, r: Callback.Response)
    requires a.client < |w.clients| && client < |w.clients|
  {
    && r.state == a.begun.material.state
    && BindingFor(w.clients[client]) == CoercedBinding(BindingFor(w.clients[a.client]))
    && UnixSeconds(a.at) > 0
    && Callback.ModeFits(a.options.responseMode, r)
    && IssuerAllowed(w.clients[a.client], r)
  }

  /** What was begun and stored unaltered is accepted exactly when the response and the client fit it. */
  lemma CompletionExact(w: World, a: Started, client: nat, r: Callback.Response)
    requires FromBegin(w, a) && client < |w.clients| && CollisionFree(w.c)
    ensures Accept(w.c, w.clients[client], r, a.begun.attempt) ==
            if Completable(w, a, client, r) then
              Some(Accepted(a.begun.material, AttemptContext.Coerced(a.begun.context)))
            else None
  {
    var rp, b := w.clients[a.client], a.begun;
    hide FromBegin, AttemptContext.Coerced, AttemptContext.ValidateFor, Recover, OpenStored, Callback.ModeMatches,
      CollisionFree, CoercedBinding, DecodeSecret, Callback.ModeFits, IssuerAllowed, IssuerFits, UnixSeconds;
    if r.state == b.material.state {
      StoredSecretsRecovered(w, a);
      StoredContextOpens(w, a);
      StoredContextFits(w, a, client);
      RecordFits(w, a, r);
    } else {
      OtherStateIsRefused(w, a, r.state);
    }
  }

  /** What the record says of mode, issuer and clock is what the beginning client was asked and configured for. */
  lemma RecordFits(w: World, a: Started, r: Callback.Response)
    requires FromBegin(w, a)
    ensures var x := AttemptContext.Coerced(a.begun.context);
            && (Callback.ModeMatches(x.responseMode, r) <==> Callback.ModeFits(a.options.responseMode, r))
            && (IssuerFits(x, r) <==> IssuerAllowed(w.clients[a.client], r))
            && a.begun.context.startedAt == UnixSeconds(a.at)
  {
    var rp, b := w.clients[a.client], a.begun;
    hide FromBegin, Protect, DecodeSecret, Options.Validate, AR.BaseParameters, AttemptContext.Seal, UnixSeconds,
      AttemptContext.Coerced, NewContext, Base64Url.Encode, CoercedBinding, AttemptContext.SupportedMode, BindingFor,
      Callback.ModeMatches, Callback.ModeFits, Utf8.Coerce;
    var now, nonces, envelope := BegunFacts(w, a);
    RecordCarriesPolicy(rp, a.options, b.validated, now);
    MaxAgeIsValid(a.options, rp.policy, b.validated);
    Callback.ModesExactly(b.validated.responseMode, r);
    AskedMode(a.options, rp.policy, b.validated, r);
    CoercedIssuer(rp, b.validated, now);
  }

  lemma AskedMode(o: Options.AuthorizationOptions, policy: Options.IdentityPolicy, v: Options.Validated,
                  r: Callback.Response)
    requires Options.Validate(o, policy) == Some(v)
    ensures Callback.ModeFits(v.responseMode, r) <==> Callback.ModeFits(o.responseMode, r)
  {
    hide Options.AcceptedTokens, Options.ValidHint, Options.NormalizeScopes, Options.ValidMaxAge, Options.ValidClaims;
    Callback.ModesDiffer();
  }

  lemma CoercedIssuer(rp: Rp, v: Options.Validated, now: Time)
    ensures AttemptContext.Coerced(NewContext(rp, v, now)).issuer == Utf8.Coerce(rp.provider.issuer)
    ensures NewContext(rp, v, now).startedAt == UnixSeconds(now)
  {
    hide Utf8.Coerce, UnixSeconds;
  }

  lemma StoredSecretsRecovered(w: World, a: Started)
    requires FromBegin(w, a)
    ensures Recover(w.c, a.begun.material.state, a.begun.attempt.secrets) == Some(a.begun.material)
  {
    hide FromBegin, Protect, Recover, DecodeSecret, Options.Validate, NewContext, AttemptContext.Seal,
      AR.BaseParameters, Base64Url.Encode;
    var now, nonces, envelope := BegunFacts(w, a);
    var b := a.begun;
    RecoverProtected(w.c, b.material, nonces, b.attempt.secrets);
  }

  lemma StoredContextOpens(w: World, a: Started)
    requires FromBegin(w, a)
    ensures OpenStored(w.c, a.begun.material.state, a.begun.attempt) ==
            if a.begun.context.startedAt > 0 then Some(AttemptContext.Coerced(a.begun.context)) else None
  {
    var c, b, rp := w.c, a.begun, w.clients[a.client];
    var hash := b.attempt.secrets.stateHash;
    hide FromBegin, Protect, DecodeSecret, Options.Validate, AR.BaseParameters, AttemptContext.Seal,
      AttemptContext.Open, AttemptContext.Coerced, Base64Url.Encode, Base64Url.Decode;
    var now, nonces, envelope := BegunFacts(w, a);
    AttemptContext.SealedSizes(c, b.material.state, hash, b.context, envelope);
    AttemptContext.OpenSealed(c, b.material.state, b.context, envelope);
  }

  lemma StoredContextFits(w: World, a: Started, client: nat)
    requires FromBegin(w, a) && client < |w.clients|
    ensures var x := AttemptContext.Coerced(a.begun.context);
            && x.responseMode == a.begun.validated.responseMode
            && (AttemptContext.ValidateFor(x, Some(BindingFor(w.clients[client]))) <==>
                BindingFor(w.clients[client]) == CoercedBinding(BindingFor(w.clients[a.client])))
  {
    var rp, b := w.clients[a.client], a.begun;
    hide FromBegin, Protect, DecodeSecret, Options.Validate, AR.BaseParameters, AttemptContext.Seal,
      AttemptContext.Coerced, NewContext, Base64Url.Encode, CoercedBinding, AttemptContext.SupportedMode, BindingFor,
      AttemptContext.ValidateFor;
    var now, nonces, envelope := BegunFacts(w, a);
    RecordCarriesPolicy(rp, a.options, b.validated, now);
    MaxAgeIsValid(a.options, rp.policy, b.validated);
    BindingDecides(AttemptContext.Coerced(b.context), BindingFor(w.clients[client]));
  }

  lemma BindingDecides(x: Context, binding: AttemptContext.Binding)
    requires AttemptContext.SupportedMode(x.responseMode) && (x.maxAge.Some? ==> 0 <= x.maxAge.value <= YEAR_SECONDS)
    ensures AttemptContext.ValidateFor(x, Some(binding)) <==> AttemptContext.BindingOf(x) == binding
  {
  }

  lemma MaxAgeIsValid(o: Options.AuthorizationOptions, policy: Options.IdentityPolicy, v: Options.Validated)
    requires Options.Validate(o, policy) == Some(v)
    ensures (v.maxAgeSeconds.Some? ==> 0 <= v.maxAgeSeconds.value <= YEAR_SECONDS) &&
            AttemptContext.SupportedMode(v.responseMode)
  {
    hide Options.AcceptedTokens, Options.ValidHint, Options.NormalizeScopes;
  }

  lemma OtherStateIsRefused(w: World, a: Started, state: str)
    requires FromBegin(w, a) && CollisionFree(w.c) && state != a.begun.material.state
    ensures Recover(w.c, state, a.begun.attempt.secrets) == None
  {
    hide FromBegin, Protect, DecodeSecret, Options.Validate, AR.BaseParameters, AttemptContext.Seal, NewContext,
      Base64Url.Encode;
    var now, nonces, envelope := BegunFacts(w, a);
    var own := a.begun.material.state;
    SecretText(own, DecodeSecret(own).value);
    if |state| == SECRET_TEXT && DecodeSecret(state).Some? {
      SecretText(state, DecodeSecret(state).value);
    }
  }

  lemma SealedIsUnforged(c: Suite, sealings: set<Sealing>, x: Sealing, nonce: str)
    requires x in sealings
    ensures Unforged(c, sealings, x.key, nonce, c.seal(x.key, nonce, x.plaintext, x.additional), x.additional)
  {
  }

  /** Honest completion is no forgery. */
  lemma HonestIsUnforged(w: World, s: State, i: nat)
    requires Invariant(w, s) && i < |s.started|
    ensures NoForgery(w.c, s.sealings, s.started[i].begun.material.state, s.started[i].begun.attempt)
  {
    hide Invariant, FromBegin, DecodeSecret, EnvelopeUnforged, ContextUnforged, SealingOf;
    BegunAt(w, s, i);
    EnvelopesUnforged(w, s.started[i], s.sealings);
    StoredContextUnforged(w, s.started[i], s.sealings);
  }

  lemma EnvelopesUnforged(w: World, a: Started, sealings: set<Sealing>)
    requires FromBegin(w, a) && DecodeSecret(a.begun.material.state).Some?
    requires SealingOf(w.c, a.begun, ForNonce) in sealings && SealingOf(w.c, a.begun, ForVerifier) in sealings
    ensures var raw, p := DecodeSecret(a.begun.material.state).value, a.begun.attempt.secrets;
            && EnvelopeUnforged(w.c, sealings, w.c.hmac(raw, NONCE_KEY_LABEL), p.nonceEnvelope, p.stateHash)
            && EnvelopeUnforged(w.c, sealings, w.c.hmac(raw, VERIFIER_KEY_LABEL), p.verifierEnvelope, p.stateHash)
  {
    hide FromBegin, DecodeSecret, AR.BaseParameters, Options.Validate, NewContext, Base64Url.Encode,
      AttemptContext.Seal, Unforged, Protect;
    var now, nonces, envelope := BegunFacts(w, a);
    var c, b := w.c, a.begun;
    ProtectedParts(c, b.material, nonces, b.attempt.secrets);
    SealedIsUnforged(c, sealings, SealingOf(c, b, ForNonce), nonces[..NONCE_BYTES]);
    SealedIsUnforged(c, sealings, SealingOf(c, b, ForVerifier), nonces[NONCE_BYTES..]);
  }

  lemma StoredContextUnforged(w: World, a: Started, sealings: set<Sealing>)
    requires FromBegin(w, a) && DecodeSecret(a.begun.material.state).Some? &&
             SealingOf(w.c, a.begun, ForContext) in sealings
    ensures ContextUnforged(w.c, sealings, DecodeSecret(a.begun.material.state).value, a.begun.attempt)
  {
    var c, b := w.c, a.begun;
    var hash, raw := b.attempt.secrets.stateHash, DecodeSecret(b.material.state).value;
    hide FromBegin, DecodeSecret, AR.BaseParameters, Options.Validate, NewContext, Base64Url.Encode, Base64Url.Decode,
      AttemptContext.Payload, AttemptContext.Seal, AttemptContext.ContextNonce, Unforged, Protect, SealingOf,
      AttemptContext.ContextKey, ContextUnforged, AttemptContext.EnvelopeFormat, Base64Url.EncodedLen;
    var now, nonces, envelope := BegunFacts(w, a);
    var x := Sealing(AttemptContext.ContextKey(c, raw), AttemptContext.Payload(b.context), hash);
    ContextSealing(c, b);
    AttemptContext.SealedSizes(c, b.material.state, hash, b.context, envelope);
    SealedContextUnforged(c, sealings, raw, b.attempt, envelope, AttemptContext.Payload(b.context));
  }

  lemma ContextSealing(c: Suite, b: Begun)
    requires DecodeSecret(b.material.state).Some?
    ensures SealingOf(c, b, ForContext) ==
            Sealing(AttemptContext.ContextKey(c, DecodeSecret(b.material.state).value),
                    AttemptContext.Payload(b.context), c.sha256(b.material.state))
  {
    hide DecodeSecret, AttemptContext.Payload;
  }

  lemma SealedContextUnforged(c: Suite, sealings: set<Sealing>, raw: str, attempt: Attempt, envelope: str, payload: str)
    requires Sealing(AttemptContext.ContextKey(c, raw), payload, attempt.secrets.stateHash) in sealings
    requires Base64Url.Decode(attempt.contextText) == Some(envelope) && envelope != []
    requires envelope[1..] == c.seal(AttemptContext.ContextKey(c, raw), AttemptContext.ContextNonce(c, raw), payload,
                                     attempt.secrets.stateHash)
    ensures ContextUnforged(c, sealings, raw, attempt)
  {
    hide Base64Url.Decode, AttemptContext.ContextKey, AttemptContext.ContextNonce;
  }

  lemma ProtectedParts(c: Suite, m: Material, nonces: str, p: Protected)
    requires |nonces| == 24 && Protect(c, m, nonces) == Some(p)
    ensures DecodeSecret(m.state).Some? && |p.nonceEnvelope| == |p.verifierEnvelope| == ENVELOPE_BYTES &&
            p.stateHash == c.sha256(m.state)
    ensures var raw := DecodeSecret(m.state).value;
            && p.nonceEnvelope[1..1 + NONCE_BYTES] == nonces[..NONCE_BYTES]
            && p.nonceEnvelope[1 + NONCE_BYTES..] == c.seal(c.hmac(raw, NONCE_KEY_LABEL), nonces[..NONCE_BYTES],
                                                            m.nonce, p.stateHash)
            && p.verifierEnvelope[1..1 + NONCE_BYTES] == nonces[NONCE_BYTES..]
            && p.verifierEnvelope[1 + NONCE_BYTES..] == c.seal(c.hmac(raw, VERIFIER_KEY_LABEL), nonces[NONCE_BYTES..],
                                                               m.verifier, p.stateHash)
  {
    hide DecodeSecret;
    var raw := DecodeSecret(m.state).value;
    EnvelopeParts(c, raw, NONCE_KEY_LABEL, m.nonce, nonces[..NONCE_BYTES], p.stateHash);
    EnvelopeParts(c, raw, VERIFIER_KEY_LABEL, m.verifier, nonces[NONCE_BYTES..], p.stateHash);
  }

  lemma BegunSecrets(w: World, a: Started)
    requires FromBegin(w, a)
    ensures DecodeSecret(a.begun.material.nonce).Some? && DecodeSecret(a.begun.material.verifier).Some?
  {
    hide DecodeSecret, Options.Validate, AttemptContext.Seal, MaterialOf, Base64Url.Encode;
  }

  lemma AcceptedFits(c: Suite, rp: Rp, r: Callback.Response, attempt: Attempt, a: Accepted)
    requires Accept(c, rp, r, attempt) == Some(a)
    ensures AttemptContext.ValidateFor(a.context, Some(BindingFor(rp)))
    ensures a.material.state == r.state && attempt.secrets.stateHash == c.sha256(r.state)
    ensures Callback.ModeMatches(a.context.responseMode, r) && IssuerFits(a.context, r)
  {
    hide DecodeSecret, OpenStored, Callback.ModeMatches, IssuerFits;
  }

  /** An unaltered attempt is exchanged exactly for a fitting response with a code, at a client that is ready. */
  lemma ExchangeExactly(w: World, a: Started, client: nat, r: Callback.Response)
    requires FromBegin(w, a) && client < |w.clients| && CollisionFree(w.c)
    ensures ExchangeFor(w.c, w.clients[client], r, a.begun.attempt).Some? <==>
            && Completable(w, a, client, r) && r.error.None? && CodeFits(r.code)
            && w.clients[client].provider.initialized
  {
    hide FromBegin, Accept, Completable, ValidCode, CodeFits, DecodeSecret, CollisionFree, DemandsOf,
      AttemptContext.Coerced;
    CompletionExact(w, a, client, r);
    BegunSecrets(w, a);
    CodeIsFit(r.code);
  }

  /** An error answering an unaltered attempt surfaces exactly when it fits the attempt and may be shown. */
  lemma ErrorIsForTheAttempt(w: World, a: Started, client: nat, r: Callback.Response,
                             error: Callback.AuthorizationError)
    requires FromBegin(w, a) && client < |w.clients| && CollisionFree(w.c)
    ensures ErrorOutcome(w.c, w.clients[client], r, a.begun.attempt) == ProviderError(error) <==>
            && Completable(w, a, client, r) && r.error == Some(error) && error.code != []
            && Callback.ValidErrorFields(error.code, error.description, error.uri)
  {
    hide FromBegin, Accept, Completable, ErrorOutcome, CollisionFree, AttemptContext.Coerced, Callback.ValidErrorFields;
    CompletionExact(w, a, client, r);
    ErrorExactly(w.c, w.clients[client], r, a.begun.attempt, error);
  }

  /** In every state, a surfacing error answers an attempt that was begun, in its form and from its issuer. */
  lemma ErrorIsBegun(w: World, s: State, client: nat, r: Callback.Response, attempt: Attempt,
                     error: Callback.AuthorizationError)
    returns (i: nat)
    requires Invariant(w, s) && FreshStates(s.started) && CollisionFree(w.c) && KeysSeparate(w.c) &&
             client < |w.clients|
    requires NoForgery(w.c, s.sealings, r.state, attempt)
    requires ErrorOutcome(w.c, w.clients[client], r, attempt) == ProviderError(error)
    ensures i < |s.started| && s.started[i].client < |w.clients| && Completable(w, s.started[i], client, r)
    ensures attempt.secrets.stateHash == s.started[i].begun.attempt.secrets.stateHash
  {
    hide Accept, CollisionFree, KeysSeparate, FreshStates, Invariant, NoForgery, FromBegin, AttemptContext.Coerced,
      AttemptContext.ValidateFor, DecodeSecret, Callback.ModeMatches, Callback.ModeFits, IssuerFits, IssuerAllowed,
      CoercedBinding, BindingFor, Callback.ValidErrorFields, UnixSeconds;
    var rp := w.clients[client];
    var accepted := Accept(w.c, rp, r, attempt).value;
    i := AcceptedIsBegun(w, s, rp, r, attempt, accepted);
    var a := s.started[i];
    BegunAt(w, s, i);
    AcceptedFits(w.c, rp, r, attempt, accepted);
    RecordFits(w, a, r);
    StoredContextFits(w, a, client);
    BegunHash(w, a);
    AcceptedClock(w.c, rp, r, attempt, accepted);
    CoercedClock(a.begun.context);
  }

  lemma AcceptedClock(c: Suite, rp: Rp, r: Callback.Response, attempt: Attempt, a: Accepted)
    requires Accept(c, rp, r, attempt) == Some(a)
    ensures a.context.startedAt > 0
  {
    hide DecodeSecret, Recover, Base64Url.Decode, AttemptContext.ParsePayload, AttemptContext.ValidateFor,
      Callback.ModeMatches, IssuerFits;
  }

  lemma CoercedClock(x: Context)
    ensures AttemptContext.Coerced(x).startedAt == x.startedAt
  {
  }

  /**
   * In any run, an attempt stored as it was begun can be completed, in its own response mode, at any client that has
   * its binding, by a direct or signed response that fits.
   */
  lemma HonestCompletion(w: World, states: seq<State>, events: seq<Event>, i: nat, client: nat,
                         received: Callback.Response, verified: Option<Claims.ClaimMap>,
                         r: Callback.Response, now: Time)
    returns (t: State)
    requires IsRun(w, states, events) && Ideal(w, states[|events|]) && i < |states[|events|].started|
    requires client < |w.clients| && w.clients[client].provider.initialized
    requires ResolveResponse(w.clients[client], received, verified, now) == Some(r)
    requires var s := states[|events|];
             var a := s.started[i];
             var hash := a.begun.attempt.secrets.stateHash;
             && hash in s.store && AttemptAt(hash, s.store[hash]) == a.begun.attempt
             && a.client < |w.clients| && Completable(w, a, client, r)
             && r.error.None? && ValidCode(r.code)
    ensures var s := states[|events|];
            var a := s.started[i];
            && Next(w, s, t, CompleteEvent(client, a.begun.attempt.secrets.stateHash, received, verified, now))
            && |t.exchanged| == |s.exchanged| + 1
            && t.exchanged[|s.exchanged|].client == client && t.exchanged[|s.exchanged|].exchange.code == r.code
            && Serves(w, a, t.exchanged[|s.exchanged|])
  {
    var s := states[|events|];
    var a := s.started[i];
    var hash := a.begun.attempt.secrets.stateHash;
    hide IsRun, CollisionFree, KeysSeparate, NoForgery, FromBegin, DecodeSecret, Completable, Invariant, ValidCode,
      Serves, ExchangeFor, ResolveResponse, FreshStates;
    InvariantHolds(w, states, events, |events|);
    HonestIsUnforged(w, s, i);
    CompletableState(w, a, client, r);
    var x := HonestExchange(w, s, i, client, r, s.store[hash]);
    t := s.(store := s.store - {hash}, consumed := s.consumed + {hash},
            exchanged := s.exchanged + [Exchanged(client, hash, r, x)]);
    CompletingLeadsTo(w, s, t, CompleteEvent(client, hash, received, verified, now), r, x);
  }

  lemma CompletableState(w: World, a: Started, client: nat, r: Callback.Response)
    requires a.client < |w.clients| && client < |w.clients| && Completable(w, a, client, r)
    ensures r.state == a.begun.material.state
  {
  }

  lemma CompletingLeadsTo(w: World, s: State, t: State, e: Event, r: Callback.Response, x: Exchange)
    requires e.CompleteEvent? && e.client < |w.clients| && e.stateHash in s.store
    requires ResolveResponse(w.clients[e.client], e.received, e.verified, e.now) == Some(r)
    requires NoForgery(w.c, s.sealings, r.state, AttemptAt(e.stateHash, s.store[e.stateHash]))
    requires ExchangeFor(w.c, w.clients[e.client], r, AttemptAt(e.stateHash, s.store[e.stateHash])) == Some(x)
    requires t == s.(store := s.store - {e.stateHash}, consumed := s.consumed + {e.stateHash},
                     exchanged := s.exchanged + [Exchanged(e.client, e.stateHash, r, x)])
    ensures Next(w, s, t, e)
  {
    hide ResolveResponse, NoForgery, ExchangeFor;
  }

  lemma HonestExchange(w: World, s: State, i: nat, client: nat, r: Callback.Response, row: Row) returns (x: Exchange)
    requires Invariant(w, s) && CollisionFree(w.c) && i < |s.started| && s.started[i].client < |w.clients|
    requires client < |w.clients| && w.clients[client].provider.initialized
    requires AttemptAt(s.started[i].begun.attempt.secrets.stateHash, row) == s.started[i].begun.attempt
    requires Completable(w, s.started[i], client, r) && r.error.None? && ValidCode(r.code)
    ensures ExchangeFor(w.c, w.clients[client], r, s.started[i].begun.attempt) == Some(x) && x.code == r.code
    ensures Serves(w, s.started[i], Exchanged(client, s.started[i].begun.attempt.secrets.stateHash, r, x))
  {
    var a := s.started[i];
    var rp, hash := w.clients[client], a.begun.attempt.secrets.stateHash;
    hide CollisionFree, Accept, FromBegin, DecodeSecret, Completable, Invariant, ValidCode, Serves,
      AttemptContext.Coerced, AttemptContext.ValidateFor, DemandsOf;
    BegunAt(w, s, i);
    CompletionExact(w, a, client, r);
    BegunSecrets(w, a);
    var accepted := Accepted(a.begun.material, AttemptContext.Coerced(a.begun.context));
    x := ExchangeFor(w.c, rp, r, a.begun.attempt).value;
    AcceptedFits(w.c, rp, r, a.begun.attempt, accepted);
    AcceptedServes(w, a, client, hash, row, r, accepted, x);
  }

  // ---- The hypotheses can be met ----

  function IdealHash(message: str): (h: str)
    ensures |h| == HASH_BYTES
  {
    if DecodeSecret(message).Some? then DecodeSecret(message).value else Zeros(HASH_BYTES)
  }

  function IdealHmac(key: str, message: str): (h: str)
    ensures |h| == HASH_BYTES
  {
    [if message == NONCE_KEY_LABEL then Byte(1) else if message == VERIFIER_KEY_LABEL then Byte(2) else Byte(3)] +
      Zeros(HASH_BYTES - 1)
  }

  lemma LabelsDiffer(p: Purpose, q: Purpose)
    ensures LabelOf(p) == LabelOf(q) ==> p == q
  {
    var n := |LABEL_ROOT + LABEL_ATTEMPT|;
    assert NONCE_KEY_LABEL[n] == 'n' && VERIFIER_KEY_LABEL[n] == 'p' && AttemptContext.CONTEXT_KEY_LABEL[n] == 'c';
  }

  /** Some primitives obey their laws and are ideal as well. */
  lemma IdealSuiteExists() returns (c: Suite)
    ensures CollisionFree(c) && KeysSeparate(c)
  {
    hide DecodeSecret, LabelOf, Base64Url.Encode;
    c := PlainSuite(IdealHash, IdealHmac);
    forall x: str, y: str
      | |x| == SECRET_BYTES && |y| == SECRET_BYTES && c.sha256(Base64Url.Encode(x)) == c.sha256(Base64Url.Encode(y))
      ensures x == y
    {
      SecretRoundTrip(x);
      SecretRoundTrip(y);
    }
    forall state: str, p: Purpose, q: Purpose
      | |state| == SECRET_BYTES && c.hmac(state, LabelOf(p)) == c.hmac(state, LabelOf(q))
      ensures p == q
    {
      IdealKeysDiffer(state, p, q);
    }
  }

  lemma IdealKeysDiffer(state: str, p: Purpose, q: Purpose)
    requires IdealHmac(state, LabelOf(p)) == IdealHmac(state, LabelOf(q))
    ensures p == q
  {
    LabelsDiffer(p, q);
    LabelsDiffer(ForNonce, ForVerifier);
    LabelsDiffer(ForNonce, ForContext);
    LabelsDiffer(ForVerifier, ForContext);
    assert IdealHmac(state, LabelOf(p))[0] == IdealHmac(state, LabelOf(q))[0];
  }
}
