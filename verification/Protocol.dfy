/** One login: beginning an attempt and completing it, as the client's two operations. */
module Protocol {
  import opened Bytes
  import opened Crypto
  import opened GoTime
  import opened LoginProtection
  import opened Callback
  import opened Claims
  import AttemptContext
  import Discovery
  import Options
  import Jarm
  import Utf8
  import Base64Url
  import EndpointClient
  import TokenRequest
  import IdToken
  import AR = AuthorizationRequest

  type Context = AttemptContext.Context
  type Values = EndpointClient.Values

  /** What is persisted between the two operations. */
  datatype Attempt = Attempt(secrets: Protected, contextText: str)

  datatype Rp = Rp(
    provider: AR.Provider, policy: Options.IdentityPolicy, requireIssuer: bool, enableJarm: bool, trusted: seq<str>,
    safeUrl: str -> bool)

  function BindingFor(rp: Rp): AttemptContext.Binding {
    AttemptContext.Binding(rp.provider.issuer, rp.provider.client.clientId, rp.provider.redirectUrl)
  }

  // ---- Begin ----

  /** Everything an attempt is made of; only its parameters and its Attempt leave the client. */
  datatype Begun = Begun(validated: Options.Validated, material: Material, context: Context, base: Values,
                         attempt: Attempt)

  function NewContext(rp: Rp, v: Options.Validated, now: Time): Context {
    AttemptContext.Context(
      AttemptContext.CONTEXT_VERSION, rp.provider.issuer, rp.provider.client.clientId, rp.provider.redirectUrl,
      v.responseMode,
      rp.requireIssuer, UnixSeconds(now), v.maxAgeSeconds, v.acrValues, v.useUserInfo, v.requireName, v.requireEmail,
      v.offlineAccess)
  }

  /** The attempt made from 96 bytes of material and 24 bytes of nonces. */
  function Begin(c: Suite, rp: Rp, o: Options.AuthorizationOptions, raw: str, nonces: str, now: Time): Option<Begun>
    requires |raw| == 96 && |nonces| == 24
  {
    match Options.Validate(o, rp.policy)
    case None => None
    case Some(v) =>
      match MaterialOf(raw)
      case None => None
      case Some(m) =>
        match Protect(c, m, nonces)
        case None => None
        case Some(p) =>
          match AttemptContext.Seal(c, m.state, p.stateHash, NewContext(rp, v, now))
          case None => None
          case Some(envelope) =>
            match AR.BaseParameters(rp.provider, m, v, c)
            case None => None
            case Some(base) => Some(Begun(v, m, NewContext(rp, v, now), base, Attempt(p, Base64Url.Encode(envelope))))
  }

  /** The attempt that the next 120 bytes of entropy make, if there are so many. */
  function NextBegun(c: Suite, rp: Rp, o: Options.AuthorizationOptions, stream: str, now: Time): Option<Begun> {
    if |stream| < 120 then None else Begin(c, rp, o, stream[..96], stream[96..120], now)
  }

  /** What beginning leaves of the entropy: refused options cost nothing, equal secrets cost their own 96 bytes. */
  function EntropyLeft(stream: str, valid: bool): str {
    if !valid then stream
    else if |stream| < 96 then []
    else if MaterialOf(stream[..96]).None? then stream[96..]
    else stream[Min(120, |stream|)..]
  }

  // ---- Complete ----

  /** The response after a signed one has been opened; verified is what signature verification made of it. */
  function ResolveResponse(rp: Rp, r: Response, verified: Option<ClaimMap>, now: Time): Option<Response> {
    if r.responseJwt != [] && (r.code != [] || r.state != [] || r.issuer != [] || r.error.Some?) then None
    else if r.error.Some? && r.code != [] then None
    else if r.responseJwt == [] then Some(r)
    else if !rp.enableJarm || verified.None? then None
    else
      match Jarm.Verify(verified.value, rp.provider.issuer, rp.provider.client.clientId, now)
      case None => None
      case Some(resolved) => Some(resolved.(responseJwt := r.responseJwt, mode := r.mode))
  }

  datatype Accepted = Accepted(material: Material, context: Context)

  function OpenStored(c: Suite, state: str, attempt: Attempt): Option<Context> {
    if |attempt.contextText| > Base64Url.EncodedLen(1 + AttemptContext.MAX_PAYLOAD + TAG_BYTES) then None
    else
      match Base64Url.Decode(attempt.contextText)
      case None => None
      case Some(envelope) => AttemptContext.Open(c, state, attempt.secrets.stateHash, envelope)
  }

  predicate IssuerFits(x: Context, r: Response) {
    if x.requireResponseIssuer then r.issuer != [] && r.issuer == x.issuer else r.issuer != [] ==> r.issuer == x.issuer
  }

  /** The attempt behind a resolved response, when everything about the two agrees. */
  function Accept(c: Suite, rp: Rp, r: Response, attempt: Attempt): Option<Accepted> {
    match Recover(c, r.state, attempt.secrets)
    case None => None
    case Some(m) =>
      match OpenStored(c, r.state, attempt)
      case None => None
      case Some(x) =>
        if AttemptContext.ValidateFor(x, Some(BindingFor(rp))) && ModeMatches(x.responseMode, r) && IssuerFits(x, r)
        then Some(Accepted(m, x)) else None
  }

  predicate ValidCode(code: str) {
    code != [] && |code| <= 4096 && Utf8.Valid(code) && !Utf8.HasControl(code) && !Utf8.HasSpace(code)
  }

  /** A token request about to be sent, and what its answer will be held to. */
  datatype Exchange = Exchange(state: str, code: str, verifier: str, redirectUrl: str, demands: IdToken.Demands,
                               responseMode: str)

  function DemandsOf(a: Accepted): IdToken.Demands {
    IdToken.Demands(a.material.nonce, a.context.maxAge, a.context.acrValues, a.context.useUserInfo,
                    a.context.requireName, a.context.requireEmail)
  }

  /** The exchange that a resolved response leads to, if any. */
  function ExchangeFor(c: Suite, rp: Rp, r: Response, attempt: Attempt): Option<Exchange> {
    match Accept(c, rp, r, attempt)
    case None => None
    case Some(a) =>
      if r.error.Some? || !rp.provider.initialized || !ValidCode(r.code)
         || DecodeSecret(a.material.nonce).None? || DecodeSecret(a.material.verifier).None? then None
      else Some(Exchange(r.state, r.code, a.material.verifier, rp.provider.redirectUrl, DemandsOf(a),
                         a.context.responseMode))
  }

  /** What the rest of the world answers after the token request. */
  datatype Answers = Answers(
    verify: str -> Option<IdToken.Token>, fits: (IdToken.Token, str) -> bool,
    userInfo: IdToken.Token -> Option<IdToken.UserInfo>)

  datatype Completion = Rejected | ProviderError(error: AuthorizationError) | Completed(identity: IdToken.Identity)

  function PartyOf(rp: Rp): IdToken.Party {
    IdToken.Party(rp.provider.issuer, rp.provider.client.clientId, rp.trusted, rp.safeUrl)
  }

  function Finish(rp: Rp, e: Exchange, tokens: Option<TokenRequest.TokenResponse>, world: Answers,
                  now: Time): Completion
  {
    if tokens.None? || tokens.value.idToken == [] || world.verify(tokens.value.idToken).None? then Rejected
    else
      var t := world.verify(tokens.value.idToken).value;
      match IdToken.Conclude(PartyOf(rp), e.demands, t, world.fits(t, tokens.value.accessToken), world.userInfo(t), now)
      case None => Rejected
      case Some(id) => Completed(id)
  }

  /** An error response surfaces only for an attempt it belongs to, and only when its fields are valid. */
  function ErrorOutcome(c: Suite, rp: Rp, r: Response, attempt: Attempt): Completion {
    if Accept(c, rp, r, attempt).Some? && r.error.Some? && r.error.value.code != []
       && ValidErrorFields(r.error.value.code, r.error.value.description, r.error.value.uri)
    then ProviderError(r.error.value) else Rejected
  }

  /** Whatever a token, pushed or other authenticated request is sent to lies inside the allowlist of discovery. */
  lemma RequestsStayInside(env: Discovery.Environment, config: Discovery.Config, issuer: Discovery.Url,
                           m: Discovery.Metadata, p: AR.Provider, operation: Discovery.Operation, form: Values,
                           now: Time, identifiers: seq<str>, answers: seq<EndpointClient.Answer>, i: nat)
    requires Discovery.Discover(env, config, issuer, m) == Some(p.discovered)
    requires var url := Discovery.EndpointFor(p.discovered, operation);
             && url != [] && i < |EndpointClient.Converse(p.client, url, form, now, identifiers, answers).sent|
    ensures var url := Discovery.EndpointFor(p.discovered, operation);
            var target := EndpointClient.Converse(p.client, url, form, now, identifiers, answers).sent[i].endpoint;
            && target == url && env.parse(target).Some? && Discovery.Admits(p.discovered, env.parse(target).value)
  {
    hide EndpointClient.Converse, Discovery.EndpointFor, Discovery.Discover;
    Discovery.ChosenEndpointStaysInside(env, config, issuer, m, p.discovered, operation);
    var url := Discovery.EndpointFor(p.discovered, operation);
    EndpointClient.EveryRequestCarries(p.client, url, form, now, identifiers, answers, i);
  }

  // ---- The exact conditions of the two operations ----

  /** A direct response is taken as it came; a signed one comes alone, is verified, and keeps the channel it came by. */
  lemma ResolvedExactly(rp: Rp, r: Response, verified: Option<ClaimMap>, now: Time, resolved: Response)
    ensures ResolveResponse(rp, r, verified, now) == Some(resolved) <==>
            if r.responseJwt == [] then resolved == r && (r.error.Some? ==> r.code == [])
            else
              && r.code == [] && r.state == [] && r.issuer == [] && r.error.None?
              && rp.enableJarm && verified.Some?
              && exists inner ::
                   && Jarm.Verify(verified.value, rp.provider.issuer, rp.provider.client.clientId, now) == Some(inner)
                   && resolved.code == inner.code && resolved.state == inner.state && resolved.issuer == inner.issuer
                   && resolved.error == inner.error
                   && resolved.responseJwt == r.responseJwt && resolved.mode == r.mode
  {
    hide Jarm.Verify;
  }

  /** A stored text is opened up to 43714 characters, with the size test before the decoding. */
  lemma StoredExactly(c: Suite, state: str, attempt: Attempt, x: Context)
    ensures OpenStored(c, state, attempt) == Some(x) <==>
            && |attempt.contextText| <= 43714
            && exists envelope ::
                 && Base64Url.Decode(attempt.contextText) == Some(envelope)
                 && AttemptContext.Open(c, state, attempt.secrets.stateHash, envelope) == Some(x)
  {
    hide Base64Url.Decode, AttemptContext.Open;
  }

  /** The next 120 bytes are spent in order: state, nonce, verifier, and the nonces of the two envelopes. */
  lemma EntropySpent(c: Suite, rp: Rp, o: Options.AuthorizationOptions, stream: str, now: Time, b: Begun)
    requires NextBegun(c, rp, o, stream, now) == Some(b)
    ensures |stream| >= 120 && b.material.state == Base64Url.Encode(stream[..32])
    ensures b.material.nonce == Base64Url.Encode(stream[32..64])
    ensures b.material.verifier == Base64Url.Encode(stream[64..96])
    ensures var p := b.attempt.secrets;
            && |p.nonceEnvelope| == |p.verifierEnvelope| == ENVELOPE_BYTES
            && p.nonceEnvelope[1..13] == stream[96..108] && p.verifierEnvelope[1..13] == stream[108..120]
    ensures EntropyLeft(stream, Options.Validate(o, rp.policy).Some?) == stream[120..]
  {
    hide Options.Validate, AttemptContext.Seal, AR.BaseParameters, DecodeSecret, Base64Url.Encode, NewContext;
    var raw, nonces := stream[..96], stream[96..120];
    assert raw[..32] == stream[..32] && raw[32..64] == stream[32..64] && raw[64..] == stream[64..96];
    assert nonces[..12] == stream[96..108] && nonces[12..] == stream[108..120];
    var state, hash := DecodeSecret(b.material.state).value, c.sha256(b.material.state);
    EnvelopeParts(c, state, NONCE_KEY_LABEL, b.material.nonce, nonces[..12], hash);
    EnvelopeParts(c, state, VERIFIER_KEY_LABEL, b.material.verifier, nonces[12..], hash);
  }

  /** Refused options cost nothing, equal secrets cost their own 96 bytes, and everything else costs 120. */
  lemma EntropyExactly(stream: str, valid: bool)
    ensures EntropyLeft(stream, valid) ==
            if !valid then stream
            else if |stream| < 96 then []
            else if stream[..32] == stream[32..64] || stream[..32] == stream[64..96] || stream[32..64] == stream[64..96]
              then stream[96..]
            else if |stream| < 120 then [] else stream[120..]
  {
    if |stream| >= 96 {
      var raw := stream[..96];
      assert raw[..32] == stream[..32] && raw[32..64] == stream[32..64] && raw[64..] == stream[64..96];
      GeneratedExactly(raw);
    }
  }

  /** Beginning succeeds for acceptable options, enough good entropy, a record that fits, and a supported request. */
  lemma BegunExactly(c: Suite, rp: Rp, o: Options.AuthorizationOptions, stream: str, now: Time)
    ensures NextBegun(c, rp, o, stream, now).Some? <==>
            && |stream| >= 120
            && stream[..32] != stream[32..64] && stream[..32] != stream[64..96] && stream[32..64] != stream[64..96]
            && exists v ::
                 && Options.Validate(o, rp.policy) == Some(v)
                 && |AttemptContext.Payload(NewContext(rp, v, now))| <= AttemptContext.MAX_PAYLOAD
                 && AR.Supported(rp.provider, v)
  {
    hide Options.Validate, AttemptContext.Payload, AR.BaseParameters, DecodeSecret, Base64Url.Encode, NewContext,
      AR.Supported;
    if |stream| >= 120 {
      var raw, nonces := stream[..96], stream[96..120];
      assert raw[..32] == stream[..32] && raw[32..64] == stream[32..64] && raw[64..] == stream[64..96];
      GeneratedExactly(raw);
      if MaterialOf(raw).Some? && Options.Validate(o, rp.policy).Some? {
        var m, v := MaterialOf(raw).value, Options.Validate(o, rp.policy).value;
        GeneratedIsAdmissible(raw);
        GeneratedRoundTrip(c, raw, nonces);
        AR.RequestBuiltExactly(rp.provider, m, v, c);
      }
    }
  }

  /** Whatever the answers to a code exchange, when it ends in an identity, and in which one. */
  lemma FinishExactly(rp: Rp, e: Exchange, tokens: Option<TokenRequest.TokenResponse>, world: Answers, now: Time,
                      id: IdToken.Identity)
    ensures Finish(rp, e, tokens, world, now) == Completed(id) <==>
            && tokens.Some? && tokens.value.idToken != []
            && exists t ::
                 && world.verify(tokens.value.idToken) == Some(t)
                 && IdToken.NonceMatches(e.demands.nonce, t.nonce)
                 && (t.accessTokenHash != [] ==> world.fits(t, tokens.value.accessToken))
                 && IdToken.BindingValid(t, rp.provider.client.clientId, rp.trusted, e.demands.maxAge,
                                         e.demands.acrValues, now)
                 && (e.demands.useUserInfo ==>
                       && world.userInfo(t).Some?
                       && IdToken.UserInfoAccepted(world.userInfo(t).value, rp.provider.issuer,
                                                   rp.provider.client.clientId, t.subject))
                 && IdToken.AcceptIdentity(
                      t.issuer, t.subject,
                      if e.demands.useUserInfo then IdToken.Overlaid(t.claims, world.userInfo(t).value.claims)
                      else t.claims,
                      e.demands.requireName, e.demands.requireEmail, rp.safeUrl) == Some(id)
    ensures !Finish(rp, e, tokens, world, now).ProviderError?
  {
    hide IdToken.NonceMatches, IdToken.BindingValid, IdToken.UserInfoAccepted, IdToken.AcceptIdentity, IdToken.Overlaid,
      IdToken.Conclude;
    if tokens.Some? && world.verify(tokens.value.idToken).Some? {
      var t := world.verify(tokens.value.idToken).value;
      IdToken.ConcludedExactly(PartyOf(rp), e.demands, t, world.fits(t, tokens.value.accessToken), world.userInfo(t),
                               now, id);
    }
  }

  /** An error surfaces, as it came, exactly for a response that is accepted and whose fields may be shown. */
  lemma ErrorExactly(c: Suite, rp: Rp, r: Response, attempt: Attempt, error: AuthorizationError)
    ensures ErrorOutcome(c, rp, r, attempt) == ProviderError(error) <==>
            && Accept(c, rp, r, attempt).Some? && r.error == Some(error)
            && error.code != [] && ValidErrorFields(error.code, error.description, error.uri)
    ensures !ErrorOutcome(c, rp, r, attempt).Completed?
  {
    hide Accept, ValidErrorFields;
  }

  // ---- The client ----

  class Client {
    const c: Suite
    const rp: Rp
    const entropy: Entropy

    constructor (c: Suite, rp: Rp, entropy: Entropy)
      ensures this.c == c && this.rp == rp && this.entropy == entropy
    {
      this.c := c;
      this.rp := rp;
      this.entropy := entropy;
    }

    /** The query of the authorization URL and the attempt to persist, from the next 120 bytes of entropy. */
    method BeginContext(o: Options.AuthorizationOptions, now: Time, net: EndpointClient.Network)
      returns (query: Option<Values>, attempt: Option<Attempt>)
      modifies entropy, net
      ensures entropy.stream == EntropyLeft(old(entropy.stream), Options.Validate(o, rp.policy).Some?)
      ensures NextBegun(c, rp, o, old(entropy.stream), now).None? ==>
                query == None && attempt == None && net.sent == old(net.sent)
      ensures NextBegun(c, rp, o, old(entropy.stream), now).Some? ==>
                (var b := NextBegun(c, rp, o, old(entropy.stream), now).value;
                 var wrapped := AR.Wrapped(rp.provider, b.base, b.material, b.validated, c, now);
                 var built := AR.Deliver(rp.provider, b.validated, wrapped, now, old(net.identifiers),
                                         old(net.answers));
                 && query == built.query && net.sent == old(net.sent) + built.sent
                 && attempt == if query.Some? then Some(b.attempt) else None)
    {
      hide Options.Validate, MaterialOf, Protect, AttemptContext.Seal, AR.BaseParameters, AR.Wrapped, AR.UsesPar,
        NewContext, Admissible, AR.Deliver;
      ghost var stream := entropy.stream;
      query, attempt := None, None;
      var validated := Options.ValidateAuthorizationOptions(o, rp.policy);
      if validated.None? {
        return;
      }
      var material := GenerateLoginMaterial(entropy);
      if material.None? {
        return;
      }
      GeneratedIsAdmissible(stream[..96]);
      var protected := ProtectLoginMaterial(c, material.value, entropy);
      assert |stream| >= 120 ==> stream[96..][..24] == stream[96..120] && stream[96..][24..] == stream[120..];
      if protected.None? {
        return;
      }
      var sealed := AttemptContext.SealAttemptContext(c, material.value.state, protected.value.stateHash,
                                                      NewContext(rp, validated.value, now));
      if sealed.None? {
        return;
      }
      query := AR.InitialAuthorizationUrl(rp.provider, material.value, validated.value, c, now, net);
      if query.None? {
        return;
      }
      attempt := Some(Attempt(protected.value, Base64Url.Encode(sealed.value)));
    }

    /** Recovers the attempt behind a resolved response. */
    method AcceptResponse(r: Response, attempt: Attempt) returns (a: Option<Accepted>)
      ensures a == Accept(c, rp, r, attempt)
    {
      hide Recover, AttemptContext.Open, AttemptContext.ValidateFor, ModeMatches, Base64Url.Decode;
      var s := attempt.secrets;
      var material := RecoverLoginMaterial(c, r.state, s.stateHash, s.nonceEnvelope, s.verifierEnvelope);
      assert Protected(s.stateHash, s.nonceEnvelope, s.verifierEnvelope) == s;
      if material.None? {
        return None;
      }
      if |attempt.contextText| > Base64Url.EncodedLen(1 + AttemptContext.MAX_PAYLOAD + TAG_BYTES) {
        return None;
      }
      var envelope := Base64Url.Decode(attempt.contextText);
      if envelope.None? {
        return None;
      }
      var context := AttemptContext.OpenAttemptContext(c, r.state, s.stateHash, envelope.value);
      if context.None? || !AttemptContext.ValidateFor(context.value, Some(BindingFor(rp))) {
        return None;
      }
      if !ModeMatches(context.value.responseMode, r) {
        return None;
      }
      if context.value.requireResponseIssuer {
        if r.issuer == [] || r.issuer != context.value.issuer {
          return None;
        }
      } else if r.issuer != [] && r.issuer != context.value.issuer {
        return None;
      }
      a := Some(Accepted(material.value, context.value));
    }

    /** No token request without an exchange to make; with one, exactly its code, redirect URI and verifier go out. */
    method Complete(received: Response, verified: Option<ClaimMap>, attempt: Attempt, arrived: Time, now: Time,
                    world: Answers, net: EndpointClient.Network)
      returns (r: Completion)
      modifies net
      ensures ResolveResponse(rp, received, verified, arrived).None? ==> r == Rejected && net.sent == old(net.sent)
      ensures ResolveResponse(rp, received, verified, arrived).Some? ==>
                var response := ResolveResponse(rp, received, verified, arrived).value;
                match ExchangeFor(c, rp, response, attempt)
                case None => net.sent == old(net.sent) && r == ErrorOutcome(c, rp, response, attempt)
                case Some(e) =>
                  var url := TokenRequest.TokenUrl(rp.provider.discovered);
                  var form := TokenRequest.ExchangeForm(e.code, e.redirectUrl, e.verifier);
                  var talk := EndpointClient.Converse(rp.provider.client, url, form, now, old(net.identifiers),
                                                      old(net.answers));
                  && net.sent == old(net.sent) + talk.sent
                  && r == Finish(rp, e, TokenRequest.TokensOf(rp.provider.client, talk.outcome), world, now)
    {
      hide EndpointClient.Converse, TokenRequest.TokensOf, Accept, IdToken.Conclude, Jarm.Verify, ValidErrorFields,
        ValidCode;
      if received.responseJwt != [] && (received.code != [] || received.state != [] || received.issuer != [] ||
                                        received.error.Some?) {
        return Rejected;
      }
      if received.error.Some? && received.code != [] {
        return Rejected;
      }
      var response := received;
      if received.responseJwt != [] {
        var outerMode := received.mode;
        if !rp.enableJarm || verified.None? {
          return Rejected;
        }
        var resolved := Jarm.VerifyAuthorizationResponse(verified.value, rp.provider.issuer,
                                                         rp.provider.client.clientId, arrived);
        if resolved.None? {
          return Rejected;
        }
        response := resolved.value.(responseJwt := received.responseJwt);
        response := response.(mode := outerMode);
      }
      assert ResolveResponse(rp, received, verified, arrived) == Some(response);
      var accepted := AcceptResponse(response, attempt);
      if accepted.None? {
        return Rejected;
      }
      if response.error.Some? {
        var error := response.error.value;
        if error.code == [] || !ValidErrorFields(error.code, error.description, error.uri) {
          return Rejected;
        }
        return ProviderError(error);
      }
      if !rp.provider.initialized || !ValidCode(response.code) {
        return Rejected;
      }
      var m := accepted.value.material;
      if DecodeSecret(m.nonce).None? || DecodeSecret(m.verifier).None? {
        return Rejected;
      }
      var e := Exchange(response.state, response.code, m.verifier, rp.provider.redirectUrl, DemandsOf(accepted.value),
                        accepted.value.context.responseMode);
      assert ExchangeFor(c, rp, response, attempt) == Some(e);
      var tokens := TokenRequest.ExchangeCode(rp.provider.client, rp.provider.discovered, e.redirectUrl, e.code,
                                              e.verifier, now, net);
      if tokens.None? || tokens.value.idToken == [] {
        return Rejected;
      }
      var token := world.verify(tokens.value.idToken);
      if token.None? {
        return Rejected;
      }
      var identity := IdToken.ConcludeExchange(PartyOf(rp), e.demands, token.value,
                                               world.fits(token.value, tokens.value.accessToken),
                                               world.userInfo(token.value), now);
      if identity.None? {
        return Rejected;
      }
      r := Completed(identity.value);
    }
  }
}
