/**
 * The authorization request: its parameters, and the ways of delivering them (in the URL, in a signed request object,
 * by a pushed request, or both).
 */
module AuthorizationRequest {
  import opened Bytes
  import opened Names
  import opened Utf8
  import opened GoTime
  import opened Crypto
  import opened Claims
  import opened EndpointClient
  import opened LoginProtection
  import opened Options
  import AttemptContext
  import Discovery
  import Base64Url
  import Json
  import TokenRequest

  const RESPONSE_TYPE: str := "response_type"
  const NONCE: str := "nonce"
  const CODE_CHALLENGE: str := "code_challenge"
  const CODE_CHALLENGE_METHOD: str := "code_challenge_method"
  const S256: str := "S256"
  const DPOP_JKT: str := "dpop_jkt"
  const PROMPT: str := "prompt"
  const ACR_VALUES: str := "acr_values"
  const UI_LOCALES: str := "ui_locales"
  const CLAIMS_LOCALES: str := "claims_locales"
  const MAX_AGE: str := "max_age"
  const LOGIN_HINT: str := "login_hint"
  const ID_TOKEN_HINT: str := "id_token_hint"
  const CLAIMS: str := "claims"
  const RESPONSE_MODE: str := "response_mode"
  const CONSENT: str := "consent"
  const REQUEST: str := "request"
  const REQUEST_URI: str := "request_uri"
  const FRAGMENT: str := "fragment"
  const JTI: str := "jti"

  /** The names a request may carry by itself. */
  const BASE_NAMES: set<str> :=
    {RESPONSE_TYPE, CLIENT_ID, REDIRECT_URI, SCOPE, STATE, NONCE, CODE_CHALLENGE, CODE_CHALLENGE_METHOD, DPOP_JKT,
     PROMPT,
     ACR_VALUES, UI_LOCALES, CLAIMS_LOCALES, MAX_AGE, LOGIN_HINT, ID_TOKEN_HINT, CLAIMS, RESPONSE_MODE}

  datatype ClaimValue = TextValue(s: str) | NumberValue(n: int64)

  type ObjectClaims = map<str, ClaimValue>

  /**
   * thumbprint: none without a DPoP signer, otherwise what asking it yields. sign: the request object signer, which is
   * given the claims as JSON delivers them. uriFits: the URL checks on a pushed request's reference.
   */
  datatype Provider = Provider(
    client: Client, issuer: str, redirectUrl: str, initialized: bool, thumbprint: Option<Option<str>>,
    claimsSupported: bool,
    acrSupported: seq<str>, modesSupported: seq<str>, sign: Option<ObjectClaims -> Option<str>>, requirePar: bool,
    enablePar: bool, discovered: Discovery.Discovered, uriFits: str -> bool, endpointQuery: Values)

  // ---- The parameters ----

  function Challenge(c: Suite, verifier: str): str {
    Base64Url.Encode(c.sha256(verifier))
  }

  function SetIf(present: bool, values: Values, name: str, value: str): Values {
    if present then values[name := [value]] else values
  }

  predicate ValidThumbprint(t: str) {
    t != [] && |t| <= 128 && '\r' !in t && '\n' !in t && '\t' !in t && ' ' !in t
  }

  /** endpointSupports with its defaults. */
  predicate Supports(advertised: seq<str>, value: str) {
    value in (if advertised == [] then [AttemptContext.MODE_QUERY, FRAGMENT] else advertised)
  }

  predicate Refused(p: Provider, m: Material, o: Validated) {
    || !p.initialized || !Admissible(m)
    || (p.thumbprint.Some? && (p.thumbprint.value.None? || !ValidThumbprint(p.thumbprint.value.value)))
    || ScalarsRefused(p, o)
  }

  function CoreParameters(p: Provider, m: Material, o: Validated, c: Suite): Values {
    map[RESPONSE_TYPE := [CODE], CLIENT_ID := [p.client.clientId], REDIRECT_URI := [p.redirectUrl],
        SCOPE := [Join(o.scopes, SPACE)], STATE := [m.state], NONCE := [m.nonce],
        CODE_CHALLENGE := [Challenge(c, m.verifier)], CODE_CHALLENGE_METHOD := [S256]]
  }

  function ListParameters(p: Provider, o: Validated, core: Values): Values {
    var v1 := if p.thumbprint.Some? && p.thumbprint.value.Some? then core[DPOP_JKT := [p.thumbprint.value.value]]
      else core;
    var v2 := SetIf(o.prompt != [], v1, PROMPT, Join(o.prompt, SPACE));
    var v3 := SetIf(o.acrValues != [], v2, ACR_VALUES, Join(o.acrValues, SPACE));
    var v4 := SetIf(o.uiLocales != [], v3, UI_LOCALES, Join(o.uiLocales, SPACE));
    SetIf(o.claimsLocales != [], v4, CLAIMS_LOCALES, Join(o.claimsLocales, SPACE))
  }

  function ScalarParameters(o: Validated, lists: Values): Values {
    var v6 := if o.maxAgeSeconds.Some? then lists[MAX_AGE := [Json.PrintInt(o.maxAgeSeconds.value)]] else lists;
    var v7 := SetIf(o.loginHint != [], v6, LOGIN_HINT, o.loginHint);
    var v8 := SetIf(o.idTokenHint != [], v7, ID_TOKEN_HINT, o.idTokenHint);
    var v9 := SetIf(o.claims != [], v8, CLAIMS, o.claims);
    SetIf(o.responseMode != AttemptContext.MODE_QUERY, v9, RESPONSE_MODE, o.responseMode)
  }

  function BaseParameters(p: Provider, m: Material, o: Validated, c: Suite): Option<Values> {
    if Refused(p, m, o) then None else Some(ScalarParameters(o, ListParameters(p, o, CoreParameters(p, m, o, c))))
  }

  // ---- Request object and pushed request ----

  function FirstOf(entries: seq<str>): str {
    if entries == [] then [] else entries[0]
  }

  /** The claims of a request object: the parameters, and five of its own. */
  function RequestClaims(p: Provider, base: Values, m: Material, c: Suite, now: Time): ObjectClaims {
    (map name | name in base :: TextValue(FirstOf(base[name])))
    [ISS := TextValue(p.client.clientId)][AUD := TextValue(p.issuer)][IAT := NumberValue(UnixSeconds(now))]
    [EXP := NumberValue(UnixSeconds(Add(now, 5 * MINUTE)))][JTI := TextValue(Base64Url.Encode(c.sha256(m.state)))]
  }

  /** What the JSON text of the claims says: invalid UTF-8 does not survive. */
  function Delivered(claims: ObjectClaims): ObjectClaims {
    map name | name in claims ::
      match claims[name] case TextValue(s) => TextValue(Coerce(s)) case NumberValue(n) => NumberValue(n)
  }

  function ObjectParameters(p: Provider, jar: str): Values {
    map[CLIENT_ID := [p.client.clientId], REQUEST := [jar]]
  }

  function PushedParameters(p: Provider, uri: str): Values {
    map[CLIENT_ID := [p.client.clientId], REQUEST_URI := [uri]]
  }

  predicate UsesPar(p: Provider, o: Validated) {
    o.usePar || p.requirePar || p.enablePar
  }

  /** The parameters after the optional wrapping into a signed object. */
  function Wrapped(p: Provider, base: Values, m: Material, o: Validated, c: Suite, now: Time): Option<Values> {
    if !o.useRequestObject then Some(base)
    else if p.sign.None? then None
    else
      match p.sign.value(Delivered(RequestClaims(p, base, m, c, now)))
      case None => None
      case Some(jar) => if jar == [] then None else Some(ObjectParameters(p, jar))
  }

  /** The reference a pushed request is answered with. */
  function ReferenceOf(p: Provider, r: Outcome): Option<str> {
    match r
    case Failed(_) => None
    case Body(claims) =>
      match (TokenRequest.TextField(claims, REQUEST_URI), TokenRequest.NumberField(claims, TokenRequest.EXPIRES_IN))
      case (Some(uri), Some(expires)) =>
        if uri == [] || |uri| > 4096 || !p.uriFits(uri) || '\r' in uri || '\n' in uri || '\t' in uri || ' ' in uri ||
          expires <= 0
        then None else Some(uri)
      case _ => None
  }

  /** Where requests are pushed to: the endpoint, or its alias under mutual TLS; empty when there is none. */
  function ParUrl(p: Provider): str {
    Discovery.EndpointFor(p.discovered, Discovery.ParOperation)
  }

  method PushAuthorizationRequest(p: Provider, parameters: FormValues, now: Time, net: Network)
    returns (uri: Option<str>)
    modifies net
    ensures ParUrl(p) == [] ==> uri == None && net.sent == old(net.sent)
    ensures ParUrl(p) != [] ==>
              (var c := Converse(p.client, ParUrl(p), parameters.entries, now, old(net.identifiers), old(net.answers));
               net.sent == old(net.sent) + c.sent && uri == ReferenceOf(p, c.outcome))
  {
    hide Converse, ReferenceOf;
    var endpoint := p.discovered.metadata.par;
    if p.discovered.mutualTls && p.discovered.metadata.aliases.par != [] {
      endpoint := p.discovered.metadata.aliases.par;
    }
    if endpoint == [] {
      return None;
    }
    var form := CloneValues(parameters);
    var r := DoAuthenticatedJson(p.client, endpoint, form, now, net);
    uri := ReferenceOf(p, r);
  }

  /** The closure that joins a list into a parameter unless it is empty. */
  method SetJoined(before: Values, name: str, values: seq<str>) returns (parameters: Values)
    ensures parameters == SetIf(values != [], before, name, Join(values, SPACE))
  {
    parameters := before;
    if |values| != 0 {
      parameters := parameters[name := [Join(values, SPACE)]];
    }
  }

  /** The parameters up to the locale lists; a signer without a usable thumbprint is refused. */
  method BuildLists(p: Provider, o: Validated, core: Values) returns (parameters: Values, ok: bool)
    ensures ok <==> (p.thumbprint.Some? ==> p.thumbprint.value.Some? && ValidThumbprint(p.thumbprint.value.value))
    ensures ok ==> parameters == ListParameters(p, o, core)
  {
    hide ValidThumbprint, Join, SetIf;
    parameters := core;
    if p.thumbprint.Some? {
      if p.thumbprint.value.None? || !ValidThumbprint(p.thumbprint.value.value) {
        return parameters, false;
      }
      parameters := parameters[DPOP_JKT := [p.thumbprint.value.value]];
    }
    parameters := SetJoined(parameters, PROMPT, o.prompt);
    parameters := SetJoined(parameters, ACR_VALUES, o.acrValues);
    parameters := SetJoined(parameters, UI_LOCALES, o.uiLocales);
    parameters := SetJoined(parameters, CLAIMS_LOCALES, o.claimsLocales);
    ok := true;
  }

  predicate ScalarsRefused(p: Provider, o: Validated) {
    || (o.claims != [] && !p.claimsSupported)
    || (p.acrSupported != [] && exists a | a in o.acrValues :: a !in p.acrSupported)
    || (o.responseMode != AttemptContext.MODE_QUERY && !Supports(p.modesSupported, o.responseMode))
    || (o.offlineAccess && CONSENT !in o.prompt)
  }

  method BuildScalars(p: Provider, o: Validated, lists: Values) returns (parameters: Values, ok: bool)
    ensures ok <==> !ScalarsRefused(p, o)
    ensures ok ==> parameters == ScalarParameters(o, lists)
  {
    hide Supports;
    parameters := lists;
    if o.maxAgeSeconds.Some? {
      parameters := parameters[MAX_AGE := [Json.PrintInt(o.maxAgeSeconds.value)]];
    }
    if o.loginHint != [] {
      parameters := parameters[LOGIN_HINT := [o.loginHint]];
    }
    if o.idTokenHint != [] {
      parameters := parameters[ID_TOKEN_HINT := [o.idTokenHint]];
    }
    if |o.claims| != 0 {
      if !p.claimsSupported {
        return parameters, false;
      }
      parameters := parameters[CLAIMS := [o.claims]];
    }
    if |p.acrSupported| != 0 {
      for i := 0 to |o.acrValues|
        invariant forall k | 0 <= k < i :: o.acrValues[k] in p.acrSupported
      {
        if o.acrValues[i] !in p.acrSupported {
          assert o.acrValues[i] in o.acrValues;
          return parameters, false;
        }
      }
    }
    if o.responseMode != AttemptContext.MODE_QUERY {
      if !Supports(p.modesSupported, o.responseMode) {
        return parameters, false;
      }
      parameters := parameters[RESPONSE_MODE := [o.responseMode]];
    }
    if o.offlineAccess && CONSENT !in o.prompt {
      return parameters, false;
    }
    ok := true;
  }

  /** Building the parameter map step by step. */
  method BuildParameters(p: Provider, m: Material, o: Validated, c: Suite) returns (r: Option<Values>)
    ensures r == BaseParameters(p, m, o, c)
  {
    hide Admissible, ValidThumbprint, ScalarsRefused, CoreParameters, ListParameters, ScalarParameters;
    if !p.initialized || !Admissible(m) {
      return None;
    }
    var lists, listed := BuildLists(p, o, CoreParameters(p, m, o, c));
    if !listed {
      return None;
    }
    var parameters, ok := BuildScalars(p, o, lists);
    if !ok {
      return None;
    }
    r := Some(parameters);
  }

  /** The loop that writes the parameters over the endpoint's own query. */
  method MergeQuery(endpointQuery: Values, parameters: Values) returns (merged: Values)
    ensures merged == endpointQuery + parameters
  {
    merged := endpointQuery;
    var remaining := parameters.Keys;
    while remaining != {}
      invariant remaining <= parameters.Keys
      invariant merged.Keys == endpointQuery.Keys + (parameters.Keys - remaining)
      invariant forall name | name in merged ::
                  merged[name] == if name in parameters && name !in remaining
                    then parameters[name] else endpointQuery[name]
      decreases |remaining|
    {
      var name :| name in remaining;
      merged := merged[name := parameters[name]];
      remaining := remaining - {name};
    }
  }

  /** The optional wrapping into a signed object. */
  method WrapParameters(p: Provider, base: Values, m: Material, o: Validated, c: Suite, now: Time)
    returns (r: Option<Values>)
    ensures r == Wrapped(p, base, m, o, c, now)
  {
    hide RequestClaims, Delivered, ObjectParameters;
    if !o.useRequestObject {
      return Some(base);
    }
    if p.sign.None? {
      return None;
    }
    var jar := p.sign.value(Delivered(RequestClaims(p, base, m, c, now)));
    if jar.None? || jar.value == [] {
      return None;
    }
    r := Some(ObjectParameters(p, jar.value));
  }

  /** The query of the final URL, and the requests sent on the way to it. */
  datatype Built = Built(query: Option<Values>, sent: seq<HttpRequest>)

  /** The endpoint's own query, overwritten by what stands for the wrapped parameters. */
  function Deliver(p: Provider, o: Validated, wrapped: Option<Values>, now: Time, identifiers: seq<str>,
                   answers: seq<Answer>): Built
  {
    if wrapped.None? then Built(None, [])
    else if !UsesPar(p, o) then Built(Some(p.endpointQuery + wrapped.value), [])
    else if ParUrl(p) == [] then Built(None, [])
    else
      var c := Converse(p.client, ParUrl(p), wrapped.value, now, identifiers, answers);
      match ReferenceOf(p, c.outcome)
      case None => Built(None, c.sent)
      case Some(uri) => Built(Some(p.endpointQuery + PushedParameters(p, uri)), c.sent)
  }

  method InitialAuthorizationUrl(p: Provider, m: Material, o: Validated, c: Suite, now: Time, net: Network)
    returns (query: Option<Values>)
    modifies net
    ensures BaseParameters(p, m, o, c).None? ==> query == None && net.sent == old(net.sent)
    ensures BaseParameters(p, m, o, c).Some? ==>
              (var built := Deliver(p, o, Wrapped(p, BaseParameters(p, m, o, c).value, m, o, c, now), now,
                                    old(net.identifiers), old(net.answers));
               query == built.query && net.sent == old(net.sent) + built.sent)
  {
    hide Converse, ReferenceOf, BaseParameters, Wrapped, PushedParameters;
    var base := BuildParameters(p, m, o, c);
    if base.None? {
      return None;
    }
    var wrapped := WrapParameters(p, base.value, m, o, c, now);
    if wrapped.None? {
      return None;
    }
    var parameters := wrapped.value;
    if o.usePar || p.requirePar || p.enablePar {
      var form := new FormValues(parameters);
      var uri := PushAuthorizationRequest(p, form, now, net);
      if uri.None? {
        return None;
      }
      parameters := PushedParameters(p, uri.value);
    }
    var merged := MergeQuery(p.endpointQuery, parameters);
    query := Some(merged);
  }

  // ---- What the provider makes of it ----

  /** The provider's side: how it opens request objects and what has been pushed to it. */
  datatype Server = Server(unseal: str -> Option<ObjectClaims>, pushed: map<str, Values>)

  function TextParameters(claims: ObjectClaims): Values {
    map name | name in claims && claims[name].TextValue? :: [claims[name].s]
  }

  /** A request object speaks for itself, if it names the client it was sent for (section 6.3 of RFC 9101). */
  function FromObject(server: Server, sent: Values): Option<Values>
    requires REQUEST in sent
  {
    match server.unseal(FirstOf(sent[REQUEST]))
    case None => None
    case Some(claims) =>
      var parameters := TextParameters(claims);
      if CLIENT_ID in sent && CLIENT_ID in parameters && sent[CLIENT_ID] == parameters[CLIENT_ID]
        then Some(parameters) else None
  }

  /** The parameters in force (section 5 of RFC 9101: not both references; section 4 of RFC 9126: same client). */
  function Resolve(server: Server, query: Values): Option<Values> {
    if REQUEST in query && REQUEST_URI in query then None
    else if REQUEST_URI in query then
      var uri := FirstOf(query[REQUEST_URI]);
      if uri !in server.pushed then None
      else
        var form := server.pushed[uri];
        if CLIENT_ID !in query || CLIENT_ID !in form || query[CLIENT_ID] != form[CLIENT_ID] then None
        else if REQUEST in form then FromObject(server, form)
        else Some(form)
    else if REQUEST in query then FromObject(server, query)
    else Some(query)
  }

  /** How a request was delivered: the text of its object, and its reference with the assertion it was pushed under. */
  datatype Delivery =
    Delivery(base: Values, claims: ObjectClaims, jar: Option<str>, reference: Option<str>, assertion: str)

  function Sent(p: Provider, d: Delivery): Values {
    if d.jar.Some? then ObjectParameters(p, d.jar.value) else d.base
  }

  /** What is written over the endpoint's own query. */
  function Written(p: Provider, d: Delivery): Values {
    if d.reference.Some? then PushedParameters(p, d.reference.value) else Sent(p, d)
  }

  function FinalQuery(p: Provider, d: Delivery): Values {
    p.endpointQuery + Written(p, d)
  }

  /** The server opens the object it was sent, and holds the form that was pushed to it. */
  predicate Honest(p: Provider, d: Delivery, server: Server) {
    && (d.jar.Some? ==> server.unseal(d.jar.value) == Some(Delivered(d.claims)))
    && (d.reference.Some? ==>
          && d.reference.value in server.pushed
          && server.pushed[d.reference.value] == AuthenticatedForm(p.client, Sent(p, d), d.assertion))
  }

  /** Of these names the provider reads exactly the parameters of the request, with their own values. */
  predicate Means(server: Server, query: Values, base: Values, names: set<str>) {
    && Resolve(server, query).Some?
    && forall name | name in names ::
         && (name in Resolve(server, query).value <==> name in base)
         && (name in base ==> Resolve(server, query).value[name] == base[name])
  }

  /** Base parameters as the library builds them: single values under known names, with the client's identifier. */
  predicate IsBase(p: Provider, base: Values) {
    && base.Keys <= BASE_NAMES && (forall name | name in base :: |base[name]| == 1)
    && CLIENT_ID in base && base[CLIENT_ID] == [p.client.clientId]
  }

  ghost predicate IsDelivery(p: Provider, d: Delivery) {
    && IsBase(p, d.base)
    && (exists m: Material, c: Suite, now: Time :: d.claims == RequestClaims(p, d.base, m, c, now))
  }

  /** What the endpoint's own query must not contain, and what a request object can carry. */
  predicate Deliverable(p: Provider, d: Delivery, names: set<str>)
    requires IsBase(p, d.base)
  {
    && (d.reference.Some? || d.jar.None? ==> REQUEST !in p.endpointQuery)
    && (d.reference.None? ==> REQUEST_URI !in p.endpointQuery)
    && (d.reference.None? && d.jar.None? ==> forall name | name in names && name in p.endpointQuery :: name in d.base)
    && (d.jar.Some? ==>
          Valid(p.client.clientId) && forall name | name in names && name in d.base :: Valid(d.base[name][0]))
  }

  lemma NamesApart()
    ensures forall name | name in {REQUEST, REQUEST_URI, ISS, AUD, IAT, EXP, JTI, CLIENT_SECRET, ASSERTION,
                                   ASSERTION_TYPE} :: name !in BASE_NAMES
    ensures CLIENT_ID in BASE_NAMES && CLIENT_ID != REQUEST && CLIENT_ID != REQUEST_URI && REQUEST != REQUEST_URI
    ensures CLIENT_ID !in {CLIENT_SECRET, ASSERTION, ASSERTION_TYPE} &&
            REQUEST !in {CLIENT_ID, CLIENT_SECRET, ASSERTION, ASSERTION_TYPE}
  {
  }

  /** The added claims collide with no parameter, and authentication only with client_id, which it leaves as it is. */
  lemma NoCollisions(p: Provider, base: Values, m: Material, c: Suite, now: Time, assertion: str)
    requires IsBase(p, base)
    ensures var claims := RequestClaims(p, base, m, c, now);
            forall name | name in base :: name in claims && claims[name] == TextValue(base[name][0])
    ensures var form := AuthenticatedForm(p.client, base, assertion);
            forall name | name in base :: name in form && form[name] == base[name]
  {
    hide UnixSeconds, Add, BASE_NAMES;
    assert forall name | name in base :: name !in {ISS, AUD, IAT, EXP, JTI, CLIENT_SECRET, ASSERTION,
                                                   ASSERTION_TYPE} by {
      BaseNamesApart(p, base);
    }
  }

  lemma BaseNamesApart(p: Provider, base: Values)
    requires IsBase(p, base)
    ensures forall name | name in base :: name !in {REQUEST, REQUEST_URI, ISS, AUD, IAT, EXP, JTI, CLIENT_SECRET,
                                                    ASSERTION, ASSERTION_TYPE}
  {
    NamesApart();
  }

  const CORE_NAMES: set<str> :=
    {RESPONSE_TYPE, CLIENT_ID, REDIRECT_URI, SCOPE, STATE, NONCE, CODE_CHALLENGE, CODE_CHALLENGE_METHOD}

  const LIST_NAMES: set<str> := {DPOP_JKT, PROMPT, ACR_VALUES, UI_LOCALES, CLAIMS_LOCALES}

  const SCALAR_NAMES: set<str> := {MAX_AGE, LOGIN_HINT, ID_TOKEN_HINT, CLAIMS, RESPONSE_MODE}

  lemma BaseNamesSplit()
    ensures BASE_NAMES == CORE_NAMES + LIST_NAMES + SCALAR_NAMES
    ensures {CLIENT_ID, STATE, NONCE, CODE_CHALLENGE, REDIRECT_URI} <= CORE_NAMES
    ensures ACR_VALUES in LIST_NAMES && MAX_AGE in SCALAR_NAMES && RESPONSE_MODE in SCALAR_NAMES
  {
  }

  lemma CoreNamesDiffer()
    ensures RESPONSE_TYPE !in {CLIENT_ID, REDIRECT_URI, SCOPE, STATE, NONCE, CODE_CHALLENGE, CODE_CHALLENGE_METHOD}
    ensures SCOPE !in {STATE, NONCE, CODE_CHALLENGE, CODE_CHALLENGE_METHOD}
    ensures CLIENT_ID !in {REDIRECT_URI, SCOPE, STATE, NONCE, CODE_CHALLENGE, CODE_CHALLENGE_METHOD}
    ensures REDIRECT_URI !in {SCOPE, STATE, NONCE, CODE_CHALLENGE, CODE_CHALLENGE_METHOD}
    ensures STATE !in {NONCE, CODE_CHALLENGE, CODE_CHALLENGE_METHOD}
    ensures NONCE !in {CODE_CHALLENGE, CODE_CHALLENGE_METHOD} && CODE_CHALLENGE != CODE_CHALLENGE_METHOD
  {
  }

  lemma CoreNamesApart()
    ensures CORE_NAMES !! LIST_NAMES && CORE_NAMES !! SCALAR_NAMES
  {
  }

  lemma OptionalNamesApart()
    ensures LIST_NAMES !! SCALAR_NAMES
    ensures ACR_VALUES !in {DPOP_JKT, PROMPT, UI_LOCALES, CLAIMS_LOCALES}
    ensures MAX_AGE !in {LOGIN_HINT, ID_TOKEN_HINT, CLAIMS, RESPONSE_MODE}
    ensures RESPONSE_MODE !in {LOGIN_HINT, ID_TOKEN_HINT, CLAIMS}
  {
  }

  lemma CoreIsBase(p: Provider, m: Material, o: Validated, c: Suite)
    ensures IsBase(p, CoreParameters(p, m, o, c)) && CoreParameters(p, m, o, c).Keys == CORE_NAMES
    ensures var core := CoreParameters(p, m, o, c);
            && STATE in core && core[STATE] == [m.state] && NONCE in core && core[NONCE] == [m.nonce]
            && CODE_CHALLENGE in core && core[CODE_CHALLENGE] == [Challenge(c, m.verifier)]
            && REDIRECT_URI in core && core[REDIRECT_URI] == [p.redirectUrl]
            && CLIENT_ID in core && core[CLIENT_ID] == [p.client.clientId]
            && SCOPE in core && core[SCOPE] == [Join(o.scopes, SPACE)]
            && RESPONSE_TYPE in core && core[RESPONSE_TYPE] == [CODE]
            && CODE_CHALLENGE_METHOD in core && core[CODE_CHALLENGE_METHOD] == [S256]
  {
    hide RESPONSE_TYPE, CLIENT_ID, REDIRECT_URI, SCOPE, STATE, NONCE, CODE_CHALLENGE, CODE_CHALLENGE_METHOD,
      BASE_NAMES, LIST_NAMES, SCALAR_NAMES, Challenge, Join, CODE, S256;
    CoreNamesDiffer();
    BaseNamesSplit();
  }

  /** What the library builds is a base request, and says exactly what the options and the material say. */
  lemma BaseParametersSay(p: Provider, m: Material, o: Validated, c: Suite, base: Values)
    requires BaseParameters(p, m, o, c) == Some(base)
    ensures IsBase(p, base)
    ensures STATE in base && base[STATE] == [m.state] && NONCE in base && base[NONCE] == [m.nonce]
    ensures CODE_CHALLENGE in base && base[CODE_CHALLENGE] == [Challenge(c, m.verifier)]
    ensures REDIRECT_URI in base && base[REDIRECT_URI] == [p.redirectUrl]
    ensures CLIENT_ID in base && base[CLIENT_ID] == [p.client.clientId]
    ensures SCOPE in base && base[SCOPE] == [Join(o.scopes, SPACE)]
    ensures RESPONSE_TYPE in base && base[RESPONSE_TYPE] == [CODE]
    ensures CODE_CHALLENGE_METHOD in base && base[CODE_CHALLENGE_METHOD] == [S256]
    ensures if o.maxAgeSeconds.Some? then MAX_AGE in base && base[MAX_AGE] == [Json.PrintInt(o.maxAgeSeconds.value)]
            else MAX_AGE !in base
    ensures if o.acrValues != [] then ACR_VALUES in base && base[ACR_VALUES] == [Join(o.acrValues, SPACE)]
            else ACR_VALUES !in base
    ensures if o.responseMode != AttemptContext.MODE_QUERY then
              RESPONSE_MODE in base && base[RESPONSE_MODE] == [o.responseMode]
            else RESPONSE_MODE !in base
  {
    hide Refused, CoreParameters, ListParameters, ScalarParameters, Join, Challenge, Json.PrintInt, BASE_NAMES,
      CORE_NAMES, LIST_NAMES, SCALAR_NAMES;
    BaseNamesSplit();
    CoreNamesApart();
    OptionalNamesApart();
    var core := CoreParameters(p, m, o, c);
    CoreIsBase(p, m, o, c);
    var lists := ListParameters(p, o, core);
    ListsSay(p, o, core);
    ScalarsSay(p, o, lists);
    assert base == ScalarParameters(o, lists);
  }

  /** A step that writes optional names leaves the rest alone. */
  predicate Extends(p: Provider, before: Values, after: Values, names: set<str>) {
    && before.Keys <= after.Keys <= before.Keys + names
    && (forall name | name in after && name !in names :: after[name] == before[name])
    && (forall name | name in after && name in names && name !in before :: |after[name]| == 1)
  }

  lemma SetIfExtends(p: Provider, before: Values, present: bool, values: Values, name: str, value: str, names: set<str>)
    requires Extends(p, before, values, names) && name in names && name !in before
    ensures Extends(p, before, SetIf(present, values, name, value), names)
    ensures forall other | other != name ::
              && (other in SetIf(present, values, name, value) <==> other in values)
              && (other in values ==> SetIf(present, values, name, value)[other] == values[other])
  {
  }

  lemma ListsSay(p: Provider, o: Validated, core: Values)
    requires core.Keys !! LIST_NAMES
    ensures Extends(p, core, ListParameters(p, o, core), LIST_NAMES)
    ensures var after := ListParameters(p, o, core);
            if o.acrValues != [] then ACR_VALUES in after && after[ACR_VALUES] == [Join(o.acrValues, SPACE)]
            else ACR_VALUES !in after
  {
    hide Join, SPACE, DPOP_JKT, PROMPT, ACR_VALUES, UI_LOCALES, CLAIMS_LOCALES, SCALAR_NAMES;
    OptionalNamesApart();
    var v1 := if p.thumbprint.Some? && p.thumbprint.value.Some? then core[DPOP_JKT := [p.thumbprint.value.value]]
      else core;
    var v2 := SetIf(o.prompt != [], v1, PROMPT, Join(o.prompt, SPACE));
    var v3 := SetIf(o.acrValues != [], v2, ACR_VALUES, Join(o.acrValues, SPACE));
    var v4 := SetIf(o.uiLocales != [], v3, UI_LOCALES, Join(o.uiLocales, SPACE));
    assert Extends(p, core, v1, LIST_NAMES) && ACR_VALUES !in v1;
    assert o.acrValues != [] ==> ACR_VALUES in v3 && v3[ACR_VALUES] == [Join(o.acrValues, SPACE)];
    hide SetIf, Extends;
    SetIfExtends(p, core, o.prompt != [], v1, PROMPT, Join(o.prompt, SPACE), LIST_NAMES);
    SetIfExtends(p, core, o.acrValues != [], v2, ACR_VALUES, Join(o.acrValues, SPACE), LIST_NAMES);
    SetIfExtends(p, core, o.uiLocales != [], v3, UI_LOCALES, Join(o.uiLocales, SPACE), LIST_NAMES);
    SetIfExtends(p, core, o.claimsLocales != [], v4, CLAIMS_LOCALES, Join(o.claimsLocales, SPACE), LIST_NAMES);
    assert o.acrValues == [] ==> v3 == v2 by { SetNothing(v2, ACR_VALUES, Join(o.acrValues, SPACE)); }
  }

  lemma SetNothing(values: Values, name: str, value: str)
    ensures SetIf(false, values, name, value) == values
  {
  }

  lemma ScalarsSay(p: Provider, o: Validated, lists: Values)
    requires lists.Keys !! SCALAR_NAMES
    ensures Extends(p, lists, ScalarParameters(o, lists), SCALAR_NAMES)
    ensures var after := ScalarParameters(o, lists);
            if o.maxAgeSeconds.Some? then MAX_AGE in after && after[MAX_AGE] == [Json.PrintInt(o.maxAgeSeconds.value)]
            else MAX_AGE !in after
    ensures var after := ScalarParameters(o, lists);
            if o.responseMode != AttemptContext.MODE_QUERY then
              RESPONSE_MODE in after && after[RESPONSE_MODE] == [o.responseMode]
            else RESPONSE_MODE !in after
  {
    hide Json.PrintInt, MAX_AGE, LOGIN_HINT, ID_TOKEN_HINT, CLAIMS, RESPONSE_MODE, LIST_NAMES,
      AttemptContext.MODE_QUERY;
    OptionalNamesApart();
  }

  lemma AssertedForm(p: Provider, d: Delivery, name: str)
    requires IsBase(p, d.base)
    requires name in Sent(p, d)
    ensures var form := AuthenticatedForm(p.client, Sent(p, d), d.assertion);
            && name in form
            && (name == REQUEST || d.jar.None? || name == CLIENT_ID ==> form[name] == Sent(p, d)[name])
  {
    hide BASE_NAMES;
    NamesApart();
    BaseNamesApart(p, d.base);
  }

  /** Opening the object gives every base parameter its coerced value, and no other base name. */
  lemma ObjectMeans(p: Provider, d: Delivery, server: Server, sent: Values)
    requires IsDelivery(p, d) && d.jar.Some? && Honest(p, d, server)
    requires CLIENT_ID in sent && sent[CLIENT_ID] == [p.client.clientId] && REQUEST in sent &&
             sent[REQUEST] == [d.jar.value]
    ensures var parameters := TextParameters(Delivered(d.claims));
            && (forall name | name in d.base :: name in parameters && parameters[name] == [Coerce(d.base[name][0])])
            && (forall name | name in BASE_NAMES && name !in d.base :: name !in parameters)
            && FromObject(server, sent) ==
               if Coerce(p.client.clientId) == p.client.clientId then Some(parameters) else None
  {
    hide Coerce, BASE_NAMES;
    var m: Material, c: Suite, now: Time :| d.claims == RequestClaims(p, d.base, m, c, now);
    NoCollisions(p, d.base, m, c, now, d.assertion);
    NamesApart();
    ClaimNames(p, d.base, m, c, now);
    hide RequestClaims;
    var parameters := TextParameters(Delivered(d.claims));
    forall name | name in d.base ensures name in parameters && parameters[name] == [Coerce(d.base[name][0])] {
      assert d.claims[name] == TextValue(d.base[name][0]);
      assert Delivered(d.claims)[name] == TextValue(Coerce(d.base[name][0]));
    }
  }

  lemma ClaimNames(p: Provider, base: Values, m: Material, c: Suite, now: Time)
    ensures RequestClaims(p, base, m, c, now).Keys == base.Keys + {ISS, AUD, IAT, EXP, JTI}
  {
    hide UnixSeconds, Add;
  }

  /** The parameters the final URL refers to, before the object among them is opened. */
  predicate RefersTo(p: Provider, d: Delivery, server: Server, sent: Values) {
    var q := FinalQuery(p, d);
    && CLIENT_ID in sent && sent[CLIENT_ID] == [p.client.clientId]
    && (if d.jar.Some? then
          REQUEST in sent && sent[REQUEST] == [d.jar.value] && Resolve(server, q) == FromObject(server, sent)
        else
          && Resolve(server, q) == Some(sent)
          && (forall name | name in d.base :: name in sent && sent[name] == d.base[name])
          && (forall name | name in BASE_NAMES && name !in d.base ::
                name in sent <==> d.reference.None? && name in p.endpointQuery))
  }

  /** Without a reference in the way, the URL refers to what was sent. */
  lemma Referred(p: Provider, d: Delivery, server: Server) returns (sent: Values)
    requires IsBase(p, d.base) && Honest(p, d, server)
    requires d.reference.Some? || d.jar.None? ==> REQUEST !in p.endpointQuery
    requires d.reference.None? ==> REQUEST_URI !in p.endpointQuery
    ensures RefersTo(p, d, server, sent)
  {
    hide BASE_NAMES, Valid, FromObject;
    NamesApart();
    BaseNamesApart(p, d.base);
    var q := FinalQuery(p, d);
    var form := AuthenticatedForm(p.client, Sent(p, d), d.assertion);
    if d.reference.Some? {
      sent := form;
      assert q[REQUEST_URI] == [d.reference.value] && q[CLIENT_ID] == [p.client.clientId] && REQUEST !in q;
      if d.jar.Some? {
        AssertedForm(p, d, REQUEST);
        AssertedForm(p, d, CLIENT_ID);
      } else {
        forall name | name in d.base ensures name in form && form[name] == d.base[name] {
          AssertedForm(p, d, name);
        }
      }
    } else {
      sent := q;
    }
  }

  /** Delivered in any of the four ways, the request means what its parameters say. */
  lemma DeliveryMeans(p: Provider, d: Delivery, server: Server, names: set<str>)
    requires IsDelivery(p, d) && Honest(p, d, server) && names <= BASE_NAMES && Deliverable(p, d, names)
    ensures Means(server, FinalQuery(p, d), d.base, names)
  {
    hide Coerce, Valid, BASE_NAMES, FromObject, Resolve, Honest, TextParameters, Delivered, FinalQuery;
    var sent := Referred(p, d, server);
    if d.jar.Some? {
      ObjectMeans(p, d, server, sent);
      CoerceIsIdentity(p.client.clientId);
      forall name | name in names && name in d.base ensures Coerce(d.base[name][0]) == d.base[name][0] {
        CoerceIsIdentity(d.base[name][0]);
      }
    }
  }

  /** Otherwise some honest provider reads something else. */
  lemma DeliveryLost(p: Provider, d: Delivery, names: set<str>) returns (server: Server)
    requires IsDelivery(p, d) && names <= BASE_NAMES && !Deliverable(p, d, names)
    ensures Honest(p, d, server) && !Means(server, FinalQuery(p, d), d.base, names)
  {
    hide Coerce, Valid, BASE_NAMES, AuthenticatedForm, Delivered, TextParameters;
    NamesApart();
    BaseNamesApart(p, d.base);
    var unseal := (t: str) => if d.jar.Some? && t == d.jar.value then Some(Delivered(d.claims)) else None;
    var pushed := if d.reference.Some?
      then map[d.reference.value := AuthenticatedForm(p.client, Sent(p, d), d.assertion)] else map[];
    server := Server(unseal, pushed);
    var q := FinalQuery(p, d);
    if d.reference.Some? && REQUEST in p.endpointQuery {
      assert Resolve(server, q) == None;
    } else if d.reference.None? && REQUEST_URI in p.endpointQuery {
      assert REQUEST_URI in q && Resolve(server, q) == None;
    } else if d.reference.None? && d.jar.None? && REQUEST in p.endpointQuery {
      assert REQUEST in q && Resolve(server, q) == None;
    } else {
      hide FinalQuery, Resolve, Honest, FromObject;
      var sent := Referred(p, d, server);
      LostInReading(p, d, server, sent, names);
    }
  }

  lemma LostInReading(p: Provider, d: Delivery, server: Server, sent: Values, names: set<str>)
    requires IsDelivery(p, d) && Honest(p, d, server) && names <= BASE_NAMES && !Deliverable(p, d, names)
    requires d.reference.Some? || d.jar.None? ==> REQUEST !in p.endpointQuery
    requires d.reference.None? ==> REQUEST_URI !in p.endpointQuery
    requires RefersTo(p, d, server, sent)
    ensures !Means(server, FinalQuery(p, d), d.base, names)
  {
    hide Coerce, Valid, BASE_NAMES, FromObject, TextParameters, Delivered, Resolve, FinalQuery, Honest;
    if d.jar.Some? {
      ObjectMeans(p, d, server, sent);
      CoerceIsIdentity(p.client.clientId);
      if Valid(p.client.clientId) {
        var name :| name in names && name in d.base && !Valid(d.base[name][0]);
        CoerceIsIdentity(d.base[name][0]);
      }
    }
  }

  /** Every honest provider reads of the given names exactly the request's parameters, if and only if deliverable. */
  lemma DeliveryMeaningExact(p: Provider, d: Delivery, names: set<str>)
    requires IsDelivery(p, d) && names <= BASE_NAMES
    ensures (forall server: Server | Honest(p, d, server) :: Means(server, FinalQuery(p, d), d.base, names)) <==>
              Deliverable(p, d, names)
  {
    hide Means, Honest, FinalQuery, Deliverable, BASE_NAMES;
    if Deliverable(p, d, names) {
      forall server: Server | Honest(p, d, server) ensures Means(server, FinalQuery(p, d), d.base, names) {
        DeliveryMeans(p, d, server, names);
      }
    } else {
      var server := DeliveryLost(p, d, names);
    }
  }

  /** Parameters of the endpoint's own survive in the URL unless this delivery writes over them. */
  lemma UnrelatedParametersSurvive(p: Provider, d: Delivery, name: str)
    requires IsBase(p, d.base) && name in p.endpointQuery && name !in Written(p, d)
    ensures name in FinalQuery(p, d) && FinalQuery(p, d)[name] == p.endpointQuery[name]
  {
  }

  lemma WrittenNames(p: Provider, d: Delivery)
    requires IsBase(p, d.base)
    ensures Written(p, d).Keys ==
            if d.reference.Some? then {CLIENT_ID, REQUEST_URI}
            else if d.jar.Some? then {CLIENT_ID, REQUEST}
            else d.base.Keys
  {
  }

  // ---- The URL that is built is a delivery ----

  /** Wrapping yields what a delivery with or without an object sends. */
  lemma WrappedIsSent(p: Provider, m: Material, o: Validated, c: Suite, now: Time, base: Values, wrapped: Values,
                      reference: Option<str>, assertion: str)
    requires BaseParameters(p, m, o, c) == Some(base) && Wrapped(p, base, m, o, c, now) == Some(wrapped)
    ensures var d := Delivery(base, RequestClaims(p, base, m, c, now),
                              if o.useRequestObject then Some(wrapped[REQUEST][0]) else None, reference, assertion);
            IsDelivery(p, d) && Sent(p, d) == wrapped && FinalQuery(p, d) ==
              p.endpointQuery + (if reference.Some? then PushedParameters(p, reference.value) else wrapped)
  {
    hide BaseParameters, RequestClaims, BASE_NAMES;
    BaseParametersSay(p, m, o, c, base);
    assert o.useRequestObject ==> REQUEST in wrapped && |wrapped[REQUEST]| == 1;
  }

  /** After a push, the reference stands for a form that really went out to the pushing endpoint. */
  lemma PushedWasSent(p: Provider, o: Validated, wrapped: Values, now: Time, identifiers: seq<str>,
                      answers: seq<Answer>)
    requires UsesPar(p, o) && Deliver(p, o, Some(wrapped), now, identifiers, answers).query.Some?
    ensures var built := Deliver(p, o, Some(wrapped), now, identifiers, answers);
            && (exists uri :: built.query == Some(p.endpointQuery + PushedParameters(p, uri)))
            && built.sent != [] && forall i | 0 <= i < |built.sent| ::
                 && built.sent[i].endpoint == ParUrl(p)
                 && exists assertion: str :: built.sent[i].form == AuthenticatedForm(p.client, wrapped, assertion)
  {
    hide AuthenticatedForm, ReferenceOf, PushedParameters, Converse;
    var c := Converse(p.client, ParUrl(p), wrapped, now, identifiers, answers);
    assert c.outcome.Body? by { ReferenceNeedsBody(p, c.outcome); }
    ConversationBounds(p.client, ParUrl(p), wrapped, now, identifiers, answers);
    forall i | 0 <= i < |c.sent|
      ensures c.sent[i].endpoint == ParUrl(p) && exists assertion: str ::
                c.sent[i].form == AuthenticatedForm(p.client, wrapped, assertion)
    {
      EveryRequestCarries(p.client, ParUrl(p), wrapped, now, identifiers, answers, i);
    }
  }

  lemma ReferenceNeedsBody(p: Provider, r: Outcome)
    ensures ReferenceOf(p, r).Some? ==> r.Body?
  {
  }

  /** The delivery that a built URL is: its object, and its reference under one of the assertions that were sent. */
  function DeliveryOf(p: Provider, m: Material, o: Validated, c: Suite, now: Time, base: Values, wrapped: Values,
                      query: Values, assertion: str): Delivery
  {
    Delivery(base, RequestClaims(p, base, m, c, now),
             if o.useRequestObject && REQUEST in wrapped then Some(FirstOf(wrapped[REQUEST])) else None,
             if UsesPar(p, o) && REQUEST_URI in query then Some(FirstOf(query[REQUEST_URI])) else None, assertion)
  }

  /** The server opens the object as it was signed, and holds under the reference one of the forms that were sent. */
  predicate HonestAbout(p: Provider, m: Material, o: Validated, c: Suite, now: Time, base: Values, wrapped: Values,
                        built: Built, server: Server)
    requires built.query.Some?
  {
    && (o.useRequestObject && REQUEST in wrapped ==>
          server.unseal(FirstOf(wrapped[REQUEST])) == Some(Delivered(RequestClaims(p, base, m, c, now))))
    && (UsesPar(p, o) && REQUEST_URI in built.query.value ==>
          && FirstOf(built.query.value[REQUEST_URI]) in server.pushed
          && exists request | request in built.sent ::
               server.pushed[FirstOf(built.query.value[REQUEST_URI])] == request.form)
  }

  /** Deliverability in terms of the options: it does not depend on what the signer and the provider answer. */
  predicate DeliverableBy(p: Provider, o: Validated, base: Values, names: set<str>) {
    && (UsesPar(p, o) || !o.useRequestObject ==> REQUEST !in p.endpointQuery)
    && (!UsesPar(p, o) ==> REQUEST_URI !in p.endpointQuery)
    && (!UsesPar(p, o) && !o.useRequestObject ==>
          forall name | name in names && name in p.endpointQuery :: name in base)
    && (o.useRequestObject ==>
          Valid(p.client.clientId) && forall name | name in names && name in base :: Valid(FirstOf(base[name])))
  }

  lemma BuiltIsDelivery(p: Provider, m: Material, o: Validated, c: Suite, now: Time, base: Values, wrapped: Values,
                        identifiers: seq<str>, answers: seq<Answer>, assertion: str)
    requires BaseParameters(p, m, o, c) == Some(base) && Wrapped(p, base, m, o, c, now) == Some(wrapped)
    requires Deliver(p, o, Some(wrapped), now, identifiers, answers).query.Some?
    ensures var q := Deliver(p, o, Some(wrapped), now, identifiers, answers).query.value;
            var d := DeliveryOf(p, m, o, c, now, base, wrapped, q, assertion);
            && IsDelivery(p, d) && Sent(p, d) == wrapped && FinalQuery(p, d) == q
            && (d.jar.Some? <==> o.useRequestObject) && (d.reference.Some? <==> UsesPar(p, o))
  {
    hide BaseParameters, RequestClaims, BASE_NAMES, Converse, ReferenceOf, UsesPar;
    var q := Deliver(p, o, Some(wrapped), now, identifiers, answers).query.value;
    var reference := if UsesPar(p, o) && REQUEST_URI in q then Some(FirstOf(q[REQUEST_URI])) else None;
    WrappedIsSent(p, m, o, c, now, base, wrapped, reference, assertion);
    assert o.useRequestObject ==> REQUEST in wrapped && |wrapped[REQUEST]| == 1;
  }

  /** Everything between the options and the provider, for the URL that is really built. */
  lemma BuiltMeaningExact(p: Provider, m: Material, o: Validated, c: Suite, now: Time, base: Values, wrapped: Values,
                          identifiers: seq<str>, answers: seq<Answer>, names: set<str>)
    requires BaseParameters(p, m, o, c) == Some(base) && Wrapped(p, base, m, o, c, now) == Some(wrapped)
    requires Deliver(p, o, Some(wrapped), now, identifiers, answers).query.Some? && names <= BASE_NAMES
    ensures var built := Deliver(p, o, Some(wrapped), now, identifiers, answers);
            (forall server: Server | HonestAbout(p, m, o, c, now, base, wrapped, built, server) ::
               Means(server, built.query.value, base, names)) <==>
            DeliverableBy(p, o, base, names)
  {
    hide BaseParameters, Wrapped, Deliver, RequestClaims, BASE_NAMES, Means, Deliverable, DeliverableBy, FinalQuery,
      IsDelivery, Delivered;
    var built := Deliver(p, o, Some(wrapped), now, identifiers, answers);
    var q := built.query.value;
    if DeliverableBy(p, o, base, names) {
      forall server: Server | HonestAbout(p, m, o, c, now, base, wrapped, built, server) ensures Means(server, q, base,
          names) {
        var assertion := HonestDelivery(p, m, o, c, now, base, wrapped, identifiers, answers, server);
        BuiltIsDelivery(p, m, o, c, now, base, wrapped, identifiers, answers, assertion);
        var d := DeliveryOf(p, m, o, c, now, base, wrapped, q, assertion);
        DeliverableAgrees(p, o, d, names);
        DeliveryMeans(p, d, server, names);
      }
    } else {
      var assertion := SomeAssertion(p, o, wrapped, now, identifiers, answers);
      BuiltIsDelivery(p, m, o, c, now, base, wrapped, identifiers, answers, assertion);
      var d := DeliveryOf(p, m, o, c, now, base, wrapped, q, assertion);
      DeliverableAgrees(p, o, d, names);
      var server := DeliveryLost(p, d, names);
    }
  }

  lemma DeliverableAgrees(p: Provider, o: Validated, d: Delivery, names: set<str>)
    requires IsDelivery(p, d) && (d.jar.Some? <==> o.useRequestObject) && (d.reference.Some? <==> UsesPar(p, o))
    ensures Deliverable(p, d, names) <==> DeliverableBy(p, o, d.base, names)
  {
    hide Valid, BASE_NAMES, UsesPar;
  }

  /** The assertion under which the form that an honest server holds was sent. */
  lemma HonestDelivery(p: Provider, m: Material, o: Validated, c: Suite, now: Time, base: Values, wrapped: Values,
                       identifiers: seq<str>, answers: seq<Answer>, server: Server)
    returns (assertion: str)
    requires BaseParameters(p, m, o, c) == Some(base) && Wrapped(p, base, m, o, c, now) == Some(wrapped)
    requires Deliver(p, o, Some(wrapped), now, identifiers, answers).query.Some?
    requires HonestAbout(p, m, o, c, now, base, wrapped, Deliver(p, o, Some(wrapped), now, identifiers, answers),
                         server)
    ensures var q := Deliver(p, o, Some(wrapped), now, identifiers, answers).query.value;
            Honest(p, DeliveryOf(p, m, o, c, now, base, wrapped, q, assertion), server)
  {
    hide BaseParameters, Wrapped, Deliver, RequestClaims, Delivered, AuthenticatedForm, UsesPar;
    var built := Deliver(p, o, Some(wrapped), now, identifiers, answers);
    BuiltIsDelivery(p, m, o, c, now, base, wrapped, identifiers, answers, []);
    assertion := [];
    if UsesPar(p, o) {
      PushedWasSent(p, o, wrapped, now, identifiers, answers);
      var request :| request in built.sent && server.pushed[FirstOf(built.query.value[REQUEST_URI])] == request.form;
      var i :| 0 <= i < |built.sent| && built.sent[i] == request;
      var a: str :| built.sent[i].form == AuthenticatedForm(p.client, wrapped, a);
      assertion := a;
    }
    BuiltIsDelivery(p, m, o, c, now, base, wrapped, identifiers, answers, assertion);
  }

  /** Some assertion under which the form was sent, if it was pushed at all. */
  lemma SomeAssertion(p: Provider, o: Validated, wrapped: Values, now: Time, identifiers: seq<str>,
                      answers: seq<Answer>)
    returns (assertion: str)
    requires Deliver(p, o, Some(wrapped), now, identifiers, answers).query.Some?
    ensures UsesPar(p, o) ==>
              exists request | request in Deliver(p, o, Some(wrapped), now, identifiers, answers).sent ::
                request.form == AuthenticatedForm(p.client, wrapped, assertion)
  {
    hide Deliver, AuthenticatedForm, UsesPar;
    assertion := [];
    if UsesPar(p, o) {
      var built := Deliver(p, o, Some(wrapped), now, identifiers, answers);
      PushedWasSent(p, o, wrapped, now, identifiers, answers);
      assert built.sent[0] in built.sent;
      var a: str :| built.sent[0].form == AuthenticatedForm(p.client, wrapped, a);
      assertion := a;
    }
  }

  // ---- The request, parameter by parameter ----

  function Listed(values: seq<str>): Option<str> {
    if values == [] then None else Some(Join(values, " "))
  }

  function Given(value: str): Option<str> {
    if value == [] then None else Some(value)
  }

  /** What every request says. */
  function CoreAsked(p: Provider, m: Material, o: AuthorizationOptions, c: Suite, name: str): Option<str> {
    if name == RESPONSE_TYPE then Some("code")
    else if name == CLIENT_ID then Some(p.client.clientId)
    else if name == REDIRECT_URI then Some(p.redirectUrl)
    else if name == SCOPE then Some(Join(NormalizeScopes(o.scopes, o.offlineAccess), " "))
    else if name == STATE then Some(m.state)
    else if name == NONCE then Some(m.nonce)
    else if name == CODE_CHALLENGE then Some(Base64Url.Encode(c.sha256(m.verifier)))
    else if name == CODE_CHALLENGE_METHOD then Some("S256")
    else None
  }

  function ListAsked(p: Provider, o: AuthorizationOptions, name: str): Option<str> {
    if name == DPOP_JKT then match p.thumbprint case Some(t) => t case None => None
    else if name == PROMPT then Listed(o.prompt)
    else if name == ACR_VALUES then Listed(o.acrValues)
    else if name == UI_LOCALES then Listed(o.uiLocales)
    else if name == CLAIMS_LOCALES then Listed(o.claimsLocales)
    else None
  }

  function ScalarAsked(o: AuthorizationOptions, name: str): Option<str> {
    if name == MAX_AGE then match o.maxAge case Some(d) => Some(Json.PrintInt(d / NANOS)) case None => None
    else if name == LOGIN_HINT then Given(o.loginHint)
    else if name == ID_TOKEN_HINT then Given(o.idTokenHint)
    else if name == CLAIMS then Given(o.claims.text)
    else if name == RESPONSE_MODE then if o.responseMode == "query" then None else Given(o.responseMode)
    else None
  }

  /** What the options, the material and the client ask for under a name, if anything. */
  function Asked(p: Provider, m: Material, o: AuthorizationOptions, c: Suite, name: str): Option<str> {
    if name in CORE_NAMES then CoreAsked(p, m, o, c, name)
    else if name in LIST_NAMES then ListAsked(p, o, name)
    else ScalarAsked(o, name)
  }

  /** Under this name the map holds this value, or nothing. */
  predicate Holds(values: Values, name: str, value: Option<str>) {
    (name in values <==> value.Some?) && (name in values ==> values[name] == [value.value])
  }

  lemma CoreHolds(p: Provider, m: Material, o: AuthorizationOptions, policy: IdentityPolicy, v: Validated, c: Suite,
                  name: str)
    requires Validate(o, policy) == Some(v) && name in CORE_NAMES
    ensures Holds(CoreParameters(p, m, v, c), name, CoreAsked(p, m, o, c, name))
  {
    hide Validate, CoreParameters, Join, Base64Url.Encode, NormalizeScopes, RESPONSE_TYPE, CLIENT_ID, REDIRECT_URI,
      SCOPE, STATE, NONCE, CODE_CHALLENGE, CODE_CHALLENGE_METHOD, BASE_NAMES;
    OptionsBehind(o, policy, v);
    CoreNamesDiffer();
    CoreIsBase(p, m, v, c);
  }

  lemma ListNamesDiffer()
    ensures DPOP_JKT !in {PROMPT, ACR_VALUES, UI_LOCALES, CLAIMS_LOCALES}
    ensures PROMPT !in {ACR_VALUES, UI_LOCALES, CLAIMS_LOCALES}
    ensures ACR_VALUES !in {UI_LOCALES, CLAIMS_LOCALES} && UI_LOCALES != CLAIMS_LOCALES
  {
  }

  lemma ScalarNamesDiffer()
    ensures MAX_AGE !in {LOGIN_HINT, ID_TOKEN_HINT, CLAIMS, RESPONSE_MODE}
    ensures LOGIN_HINT !in {ID_TOKEN_HINT, CLAIMS, RESPONSE_MODE}
    ensures ID_TOKEN_HINT !in {CLAIMS, RESPONSE_MODE} && CLAIMS != RESPONSE_MODE
  {
  }

  lemma ListHolds(p: Provider, o: AuthorizationOptions, policy: IdentityPolicy, v: Validated, core: Values, name: str)
    requires Validate(o, policy) == Some(v) && core.Keys !! LIST_NAMES && name in LIST_NAMES
    ensures Holds(ListParameters(p, v, core), name, ListAsked(p, o, name))
  {
    hide Validate, Join, DPOP_JKT, PROMPT, ACR_VALUES, UI_LOCALES, CLAIMS_LOCALES;
    OptionsBehind(o, policy, v);
    ListNamesDiffer();
  }

  lemma ScalarHolds(o: AuthorizationOptions, policy: IdentityPolicy, v: Validated, lists: Values, name: str)
    requires Validate(o, policy) == Some(v) && lists.Keys !! SCALAR_NAMES && name in SCALAR_NAMES
    ensures Holds(ScalarParameters(v, lists), name, ScalarAsked(o, name))
  {
    hide Validate, Json.PrintInt, MAX_AGE, LOGIN_HINT, ID_TOKEN_HINT, CLAIMS, RESPONSE_MODE;
    OptionsBehind(o, policy, v);
    ScalarNamesDiffer();
  }

  /** The request says, under every name, exactly what the options, the material and the client ask for. */
  lemma RequestExactly(p: Provider, m: Material, o: AuthorizationOptions, policy: IdentityPolicy, v: Validated,
                       c: Suite, base: Values, name: str)
    requires Validate(o, policy) == Some(v) && BaseParameters(p, m, v, c) == Some(base)
    ensures Holds(base, name, Asked(p, m, o, c, name))
  {
    hide Refused, Validate, CoreParameters, ListParameters, ScalarParameters, BASE_NAMES, CORE_NAMES, LIST_NAMES,
      SCALAR_NAMES, CoreAsked, ListAsked, ScalarAsked;
    BaseNamesSplit();
    CoreNamesApart();
    OptionalNamesApart();
    var core := CoreParameters(p, m, v, c);
    CoreIsBase(p, m, v, c);
    var lists := ListParameters(p, v, core);
    ListsSay(p, v, core);
    ScalarsSay(p, v, lists);
    assert base == ScalarParameters(v, lists);
    if name in CORE_NAMES {
      CoreHolds(p, m, o, policy, v, c, name);
    } else if name in LIST_NAMES {
      ListHolds(p, o, policy, v, core, name);
    } else if name in SCALAR_NAMES {
      ScalarHolds(o, policy, v, lists, name);
    } else {
      NothingElseAsked(o, name);
    }
  }

  lemma NothingElseAsked(o: AuthorizationOptions, name: str)
    ensures name !in SCALAR_NAMES ==> ScalarAsked(o, name) == None
  {
    hide MAX_AGE, LOGIN_HINT, ID_TOKEN_HINT, CLAIMS, RESPONSE_MODE, Json.PrintInt;
  }

  /** What validation makes of the options, field by field. */
  lemma OptionsBehind(o: AuthorizationOptions, policy: IdentityPolicy, v: Validated)
    requires Validate(o, policy) == Some(v)
    ensures v.scopes == NormalizeScopes(o.scopes, o.offlineAccess) && v.scopes != []
    ensures v.prompt == o.prompt && v.acrValues == o.acrValues && v.uiLocales == o.uiLocales
    ensures v.claimsLocales == o.claimsLocales && v.loginHint == o.loginHint && v.idTokenHint == o.idTokenHint
    ensures v.claims == o.claims.text
    ensures v.maxAgeSeconds == match o.maxAge case Some(d) => Some(d / NANOS) case None => None
    ensures v.responseMode == if o.responseMode == [] then AttemptContext.MODE_QUERY else o.responseMode
  {
    hide AcceptedTokens, ValidHint, ValidClaims;
  }

  // ---- The exact conditions of building and delivering ----

  /** A signer's thumbprint that may go into a URL. */
  predicate Thumbprint(t: str) {
    1 <= |t| <= 128 && forall c | c in t :: c !in {'\r', '\n', '\t', ' '}
  }

  /** The client is ready, has a thumbprint if it has a signer, and the provider supports what the options ask for. */
  predicate Supported(p: Provider, o: Validated) {
    && p.initialized && (p.thumbprint.Some? ==> p.thumbprint.value.Some? && Thumbprint(p.thumbprint.value.value))
    && (o.claims != [] ==> p.claimsSupported)
    && (forall a | a in o.acrValues :: p.acrSupported == [] || a in p.acrSupported)
    && (o.responseMode != "query" ==>
          if p.modesSupported == [] then o.responseMode == "fragment" else o.responseMode in p.modesSupported)
    && (o.offlineAccess ==> "consent" in o.prompt)
  }

  /** A request is built exactly for usable material, and as far as it is supported. */
  lemma RequestBuiltExactly(p: Provider, m: Material, o: Validated, c: Suite)
    ensures BaseParameters(p, m, o, c).Some? <==> Admissible(m) && Supported(p, o)
  {
    hide Admissible, CoreParameters, ListParameters, ScalarParameters;
  }

  /** The claims of a request object: the parameters, and who signs for whom from now for five minutes. */
  lemma ObjectClaimsExactly(p: Provider, base: Values, m: Material, c: Suite, now: Time)
    requires IsBase(p, base)
    ensures var claims := RequestClaims(p, base, m, c, now);
            && claims.Keys == base.Keys + {"iss", "aud", "iat", "exp", "jti"}
            && claims["iss"] == TextValue(p.client.clientId) && claims["aud"] == TextValue(p.issuer)
            && claims["iat"] == NumberValue(UnixSeconds(now))
            && claims["exp"] == NumberValue(UnixSeconds(Add(now, 300 * NANOS)))
            && claims["jti"] == TextValue(Base64Url.Encode(c.sha256(m.state)))
            && forall name | name in base :: claims[name] == TextValue(base[name][0])
  {
    hide UnixSeconds, Add, BASE_NAMES, Base64Url.Encode;
    OwnClaimsDiffer();
    BaseNamesApart(p, base);
  }

  lemma OwnClaimsDiffer()
    ensures NoDuplicates([ISS, AUD, IAT, EXP, JTI])
    ensures ISS !in {AUD, IAT, EXP, JTI} && AUD !in {IAT, EXP, JTI} && IAT !in {EXP, JTI} && EXP != JTI
  {
  }

  /** Wrapping is asked for by the options alone; without a signature it fails. */
  lemma WrappedExactly(p: Provider, base: Values, m: Material, o: Validated, c: Suite, now: Time, wrapped: Values)
    ensures Wrapped(p, base, m, o, c, now) == Some(wrapped) <==>
            if !o.useRequestObject then wrapped == base
            else
              && p.sign.Some?
              && exists jar: str ::
                   && jar != [] && p.sign.value(Delivered(RequestClaims(p, base, m, c, now))) == Some(jar)
                   && wrapped == map["client_id" := [p.client.clientId], "request" := [jar]]
  {
    hide Delivered, RequestClaims;
  }

  /** Requests are pushed to the endpoint of the metadata, or to its alias under mutual TLS, if there is one. */
  lemma ParUrlExactly(env: Discovery.Environment, config: Discovery.Config, issuer: Discovery.Url,
                      m: Discovery.Metadata, p: Provider)
    requires Discovery.Discover(env, config, issuer, m) == Some(p.discovered)
    ensures ParUrl(p) == if config.mutualTls && m.aliases.par != [] then m.aliases.par else m.par
  {
    hide Discovery.AllVetted, Discovery.OriginsOf;
  }

  /** A reference is a text of at most 4096 bytes without white space that passes the URL checks and has not expired. */
  lemma ReferenceExactly(p: Provider, r: Outcome, uri: str)
    ensures ReferenceOf(p, r) == Some(uri) <==>
            && r.Body? && "request_uri" in r.claims && r.claims["request_uri"] == JString(uri)
            && 1 <= |uri| <= 4096 && p.uriFits(uri) && (forall c | c in uri :: c !in {'\r', '\n', '\t', ' '})
            && "expires_in" in r.claims && r.claims["expires_in"].JInteger? && 0 < r.claims["expires_in"].n < TWO63
  {
  }

  /** Who asks for a pushed request: the options, the provider or the configuration. */
  lemma DeliveredExactly(p: Provider, o: Validated, wrapped: Values, now: Time, identifiers: seq<str>,
                         answers: seq<Answer>)
    ensures var built := Deliver(p, o, Some(wrapped), now, identifiers, answers);
            var c := Converse(p.client, ParUrl(p), wrapped, now, identifiers, answers);
            if !o.usePar && !p.requirePar && !p.enablePar then
              built.sent == [] && built.query == Some(p.endpointQuery + wrapped)
            else if ParUrl(p) == [] then built.sent == [] && built.query == None
            else
              && built.sent == c.sent && (built.query.Some? <==> ReferenceOf(p, c.outcome).Some?)
              && (built.query.Some? ==>
                    built.query.value ==
                    p.endpointQuery
                    + map["client_id" := [p.client.clientId], "request_uri" := [ReferenceOf(p, c.outcome).value]])
  {
    hide Converse, ReferenceOf;
  }
}
