/** The two token requests, the checks on their answers, and what a chain of refreshes hands on. */
module TokenRequest {
  import opened Bytes
  import opened Names
  import opened GoTime
  import opened Claims
  import opened EndpointClient
  import Discovery
  import IdToken
  import Options

  const GRANT_TYPE: str := "grant_type"
  const AUTHORIZATION_CODE: str := "authorization_code"
  const CODE_VERIFIER: str := "code_verifier"
  const REFRESH_TOKEN: str := "refresh_token"
  const ACCESS_TOKEN: str := "access_token"
  const TOKEN_TYPE: str := "token_type"
  const EXPIRES_IN: str := "expires_in"
  const ID_TOKEN: str := "id_token"
  const BEARER: str := "bearer"
  const DPOP: str := "dpop"

  datatype TokenResponse =
    TokenResponse(accessToken: str, tokenType: str, expiresIn: int64, refreshToken: str, idToken: str, scope: str)

  /** A string field of a decoded struct: absent and null leave it empty. */
  function TextField(claims: ClaimMap, name: str): Option<str> {
    if name !in claims || claims[name].JNull? then Some([])
    else if claims[name].JString? then Some(claims[name].s)
    else None
  }

  function NumberField(claims: ClaimMap, name: str): Option<int64> {
    if name !in claims || claims[name].JNull? then Some(0)
    else if claims[name].JInteger? && Fits64(claims[name].n) then Some(claims[name].n)
    else None
  }

  function DecodeTokens(claims: ClaimMap): Option<TokenResponse> {
    match (TextField(claims, ACCESS_TOKEN), TextField(claims, TOKEN_TYPE), NumberField(claims, EXPIRES_IN),
           TextField(claims, REFRESH_TOKEN), TextField(claims, ID_TOKEN), TextField(claims, SCOPE))
    case (Some(a), Some(t), Some(e), Some(r), Some(i), Some(s)) => Some(TokenResponse(a, t, e, r, i, s))
    case _ => None
  }

  /** The checks every token response must pass; the token type follows the sender constraint. */
  predicate AcceptableTokens(p: Client, t: TokenResponse) {
    && t.accessToken != [] && |t.accessToken| <= MAX_TOKEN && t.tokenType != []
    && LowerCase(t.tokenType) == (if p.dpop.Some? then DPOP else BEARER)
    && |t.refreshToken| <= MAX_TOKEN && |t.idToken| <= MAX_TOKEN && t.expiresIn >= 0
  }

  function TokensOf(p: Client, r: Outcome): Option<TokenResponse> {
    match r
    case Failed(_) => None
    case Body(claims) =>
      match DecodeTokens(claims)
      case None => None
      case Some(t) => if AcceptableTokens(p, t) then Some(t) else None
  }

  function ExchangeForm(code: str, redirectUri: str, verifier: str): Values {
    map[GRANT_TYPE := [AUTHORIZATION_CODE], CODE := [code], REDIRECT_URI := [redirectUri], CODE_VERIFIER := [verifier]]
  }

  function RefreshForm(refreshToken: str, scopes: seq<str>): Values {
    var form := map[GRANT_TYPE := [REFRESH_TOKEN], REFRESH_TOKEN := [refreshToken]];
    if scopes != [] then form[SCOPE := [Join(scopes, Options.SPACE)]] else form
  }

  /** Where token requests go: the token endpoint, or its alias under mutual TLS. */
  function TokenUrl(d: Discovery.Discovered): str {
    Discovery.EndpointFor(d, Discovery.TokenOperation)
  }

  method PerformTokenRequest(p: Client, d: Discovery.Discovered, form: FormValues, now: Time, net: Network)
    returns (t: Option<TokenResponse>)
    modifies net
    ensures var c := Converse(p, TokenUrl(d), form.entries, now, old(net.identifiers), old(net.answers));
            net.sent == old(net.sent) + c.sent && t == TokensOf(p, c.outcome)
  {
    hide Converse, TokensOf;
    var r := DoAuthenticatedJson(p, d.metadata.token, form, now, net);
    t := TokensOf(p, r);
  }

  method ExchangeCode(p: Client, d: Discovery.Discovered, redirectUri: str, code: str, verifier: str, now: Time,
                      net: Network)
    returns (t: Option<TokenResponse>)
    modifies net
    ensures var form := ExchangeForm(code, redirectUri, verifier);
            var c := Converse(p, TokenUrl(d), form, now, old(net.identifiers), old(net.answers));
            net.sent == old(net.sent) + c.sent && t == TokensOf(p, c.outcome)
  {
    hide Converse, TokensOf;
    var form := new FormValues(ExchangeForm(code, redirectUri, verifier));
    t := PerformTokenRequest(p, d, form, now, net);
  }

  method SendRefresh(p: Client, d: Discovery.Discovered, refreshToken: str, scopes: seq<str>, now: Time, net: Network)
    returns (t: Option<TokenResponse>)
    modifies net
    ensures refreshToken == [] || |refreshToken| > MAX_TOKEN ==> t == None && net.sent == old(net.sent)
    ensures refreshToken != [] && |refreshToken| <= MAX_TOKEN ==>
              (var form := RefreshForm(refreshToken, scopes);
               var c := Converse(p, TokenUrl(d), form, now, old(net.identifiers), old(net.answers));
               net.sent == old(net.sent) + c.sent && t == TokensOf(p, c.outcome))
  {
    hide Converse, TokensOf;
    if refreshToken == [] || |refreshToken| > MAX_TOKEN {
      return None;
    }
    var form := new FormValues(map[GRANT_TYPE := [REFRESH_TOKEN], REFRESH_TOKEN := [refreshToken]]);
    if |scopes| != 0 {
      form.Set(SCOPE, Join(scopes, Options.SPACE));
    }
    t := PerformTokenRequest(p, d, form, now, net);
  }

  /** Every code exchange on the wire carries exactly this code, redirect URI and verifier. */
  lemma ExchangeRequestCarries(p: Client, url: str, code: str, redirectUri: str, verifier: str, now: Time,
                               identifiers: seq<str>, answers: seq<Answer>)
    ensures var sent := Converse(p, url, ExchangeForm(code, redirectUri, verifier), now, identifiers, answers).sent;
            |sent| <= 2 && forall i | 0 <= i < |sent| ::
              && sent[i].endpoint == url
              && GRANT_TYPE in sent[i].form && sent[i].form[GRANT_TYPE] == ["authorization_code"]
              && CODE in sent[i].form && sent[i].form[CODE] == [code]
              && REDIRECT_URI in sent[i].form && sent[i].form[REDIRECT_URI] == [redirectUri]
              && CODE_VERIFIER in sent[i].form && sent[i].form[CODE_VERIFIER] == [verifier]
  {
    hide AuthenticatedForm, Converse;
    var form := ExchangeForm(code, redirectUri, verifier);
    var sent := Converse(p, url, form, now, identifiers, answers).sent;
    FormNames();
    ConversationBounds(p, url, form, now, identifiers, answers);
    forall i | 0 <= i < |sent|
      ensures sent[i].endpoint == url
      ensures forall name | name in {GRANT_TYPE, CODE, REDIRECT_URI, CODE_VERIFIER} ::
                name in sent[i].form && sent[i].form[name] == form[name]
    {
      EveryRequestCarries(p, url, form, now, identifiers, answers, i);
      var assertion: str :| sent[i].form == AuthenticatedForm(p, form, assertion);
      forall name | name in {GRANT_TYPE, CODE, REDIRECT_URI, CODE_VERIFIER}
        ensures name in sent[i].form && sent[i].form[name] == form[name]
      {
        AuthenticationKeepsForm(p, form, assertion, name);
      }
    }
    var names := {GRANT_TYPE, CODE, REDIRECT_URI, CODE_VERIFIER};
    assert GRANT_TYPE in names && CODE in names && REDIRECT_URI in names && CODE_VERIFIER in names;
  }

  lemma FormNames()
    ensures CODE !in {CLIENT_ID, CLIENT_SECRET, ASSERTION, ASSERTION_TYPE, REDIRECT_URI, CODE_VERIFIER, GRANT_TYPE}
    ensures REDIRECT_URI !in {CLIENT_ID, CLIENT_SECRET, ASSERTION, ASSERTION_TYPE, CODE_VERIFIER, GRANT_TYPE}
    ensures CODE_VERIFIER !in {CLIENT_ID, CLIENT_SECRET, ASSERTION, ASSERTION_TYPE, GRANT_TYPE}
    ensures GRANT_TYPE !in {CLIENT_ID, CLIENT_SECRET, ASSERTION, ASSERTION_TYPE, REFRESH_TOKEN, SCOPE}
    ensures REFRESH_TOKEN !in {CLIENT_ID, CLIENT_SECRET, ASSERTION, ASSERTION_TYPE, SCOPE}
    ensures SCOPE !in {CLIENT_ID, CLIENT_SECRET, ASSERTION, ASSERTION_TYPE}
  {
    assert CODE_VERIFIER[1] == 'o' && CLIENT_SECRET[1] == 'l';
  }

  // ---- Refresh ----

  datatype RefreshRequest = RefreshRequest(refreshToken: str, expectedSubject: str, scopes: seq<str>)

  datatype TokenSet = TokenSet(accessToken: str, refreshToken: str, idToken: str)

  /** A request that is sent at all: a subject, scopes and a token within bounds. */
  predicate Sendable(request: RefreshRequest) {
    && request.expectedSubject != [] && |request.expectedSubject| <= 512 &&
       Options.AcceptedTokens(request.scopes, 32, 128)
    && request.refreshToken != [] && |request.refreshToken| <= MAX_TOKEN
  }

  /** What Refresh returns for one decoded and checked token response; verify opens an ID token. */
  function Refreshed(clientId: str, trusted: seq<str>, verify: str -> Option<IdToken.Token>, request: RefreshRequest,
                     answer: Option<TokenResponse>, now: Time): Option<TokenSet>
  {
    if !Sendable(request) || answer.None? then None
    else
      var t := answer.value;
      var held := if t.refreshToken == [] then request.refreshToken else t.refreshToken;
      if t.idToken != []
         && (verify(t.idToken).None? || verify(t.idToken).value.subject != request.expectedSubject
             || !IdToken.BindingValid(verify(t.idToken).value, clientId, trusted, None, [], now)) then None
      else Some(TokenSet(t.accessToken, held, t.idToken))
  }

  method Refresh(p: Client, d: Discovery.Discovered, trusted: seq<str>, verify: str -> Option<IdToken.Token>,
                 request: RefreshRequest, now: Time, net: Network)
    returns (r: Option<TokenSet>)
    modifies net
    ensures !Sendable(request) ==> r == None && net.sent == old(net.sent)
    ensures Sendable(request) ==>
              (var form := RefreshForm(request.refreshToken, Options.NormalizeScopes(request.scopes, false));
               var c := Converse(p, TokenUrl(d), form, now, old(net.identifiers), old(net.answers));
               && net.sent == old(net.sent) + c.sent
               && r == Refreshed(p.clientId, trusted, verify, request, TokensOf(p, c.outcome), now))
  {
    hide Converse, TokensOf, IdToken.BindingValid, Options.AcceptedTokens, Options.NormalizeScopes;
    if request.expectedSubject == [] || |request.expectedSubject| > 512 {
      return None;
    }
    var copied := Options.CopyTokens(request.scopes, 32, 128);
    if copied.None? {
      return None;
    }
    var scopes := Options.CompleteScopes(copied.value, false);
    var answer := SendRefresh(p, d, request.refreshToken, scopes, now, net);
    if answer.None? {
      return None;
    }
    var tokens := answer.value;
    if tokens.refreshToken == [] {
      tokens := tokens.(refreshToken := request.refreshToken);
    }
    if tokens.idToken != [] {
      var idToken := verify(tokens.idToken);
      if idToken.None? || idToken.value.subject != request.expectedSubject {
        return None;
      }
      var bound := IdToken.ValidateIdTokenBinding(idToken.value, p.clientId, trusted, None, [], now);
      if !bound {
        return None;
      }
    }
    r := Some(TokenSet(tokens.accessToken, tokens.refreshToken, tokens.idToken));
  }

  /** One refresh of a chain: what the provider answered, and when. */
  datatype Round = Round(answer: TokenResponse, scopes: seq<str>, now: Time)

  datatype Rp = Rp(clientId: str, trusted: seq<str>, verify: str -> Option<IdToken.Token>, subject: str)

  /** Each refresh is fed the token set of the one before it. */
  function Chain(rp: Rp, original: TokenSet, rounds: seq<Round>): Option<TokenSet> {
    if rounds == [] then Some(original)
    else
      var last := rounds[|rounds| - 1];
      match Chain(rp, original, rounds[..|rounds| - 1])
      case None => None
      case Some(held) =>
        Refreshed(rp.clientId, rp.trusted, rp.verify, RefreshRequest(held.refreshToken, rp.subject, last.scopes),
                  Some(last.answer), last.now)
  }

  /** The last non-empty refresh token, counting from the original. */
  function LastRefreshToken(original: str, rounds: seq<Round>): str {
    if rounds == [] then original
    else
      var token := rounds[|rounds| - 1].answer.refreshToken;
      if token != [] then token else LastRefreshToken(original, rounds[..|rounds| - 1])
  }

  /** Section 6 of RFC 6749 over any number of refreshes. */
  lemma {:induction false} ChainHoldsLastToken(rp: Rp, original: TokenSet, rounds: seq<Round>)
    requires Chain(rp, original, rounds).Some?
    ensures var held := Chain(rp, original, rounds).value;
            && held.refreshToken == LastRefreshToken(original.refreshToken, rounds)
            && (rounds != [] ==> held.refreshToken != [])
            && (rounds != [] ==>
                  && held.accessToken == rounds[|rounds| - 1].answer.accessToken
                  && held.idToken == rounds[|rounds| - 1].answer.idToken)
    ensures forall i | 0 <= i < |rounds| && rounds[i].answer.idToken != [] ::
              && rp.verify(rounds[i].answer.idToken).Some?
              && rp.verify(rounds[i].answer.idToken).value.subject == rp.subject
              && rp.clientId in rp.verify(rounds[i].answer.idToken).value.audience
  {
    hide Options.AcceptedTokens;
    if rounds != [] {
      var front := rounds[..|rounds| - 1];
      ChainHoldsLastToken(rp, original, front);
      forall i | 0 <= i < |rounds| && rounds[i].answer.idToken != []
        ensures rp.verify(rounds[i].answer.idToken).Some?
        ensures rp.verify(rounds[i].answer.idToken).value.subject == rp.subject
        ensures rp.clientId in rp.verify(rounds[i].answer.idToken).value.audience
      {
        if i < |front| {
          assert rounds[i] == front[i];
        }
      }
    }
  }

  // ---- The answers that are accepted ----

  /** A member that is this text; the empty text stands for an absent or null member as well. */
  predicate TextIs(claims: ClaimMap, name: str, s: str) {
    (name in claims && claims[name] == JString(s)) || (s == [] && (name in claims ==> claims[name] == JNull))
  }

  predicate NumberIs(claims: ClaimMap, name: str, n: int) {
    (name in claims && claims[name] == JInteger(n)) || (n == 0 && (name in claims ==> claims[name] == JNull))
  }

  /** The tokens of an answer, member by member, and the bounds they are held to. */
  lemma TokensExactly(p: Client, r: Outcome, t: TokenResponse)
    ensures TokensOf(p, r) == Some(t) <==>
            && r.Body?
            && TextIs(r.claims, "access_token", t.accessToken) && TextIs(r.claims, "token_type", t.tokenType)
            && TextIs(r.claims, "refresh_token", t.refreshToken) && TextIs(r.claims, "id_token", t.idToken)
            && TextIs(r.claims, "scope", t.scope) && NumberIs(r.claims, "expires_in", t.expiresIn)
            && 1 <= |t.accessToken| <= 65536 && |t.refreshToken| <= 65536 && |t.idToken| <= 65536 && t.expiresIn >= 0
            && LowerCase(t.tokenType) == (if p.dpop.Some? then "dpop" else "bearer")
  {
    if r.Body? {
      TextIsField(r.claims, ACCESS_TOKEN, t.accessToken);
      TextIsField(r.claims, TOKEN_TYPE, t.tokenType);
      TextIsField(r.claims, REFRESH_TOKEN, t.refreshToken);
      TextIsField(r.claims, ID_TOKEN, t.idToken);
      TextIsField(r.claims, SCOPE, t.scope);
      NumberIsField(r.claims, EXPIRES_IN, t.expiresIn);
      hide TextField, NumberField, TextIs, NumberIs, LowerCase;
    }
  }

  lemma TextIsField(claims: ClaimMap, name: str, s: str)
    ensures TextIs(claims, name, s) <==> TextField(claims, name) == Some(s)
  {
  }

  lemma NumberIsField(claims: ClaimMap, name: str, n: int64)
    ensures NumberIs(claims, name, n) <==> NumberField(claims, name) == Some(n)
  {
  }

  /** Token requests go to the token endpoint of the metadata, or to its alias under mutual TLS. */
  lemma TokenUrlExactly(env: Discovery.Environment, config: Discovery.Config, issuer: Discovery.Url,
                        m: Discovery.Metadata, d: Discovery.Discovered)
    requires Discovery.Discover(env, config, issuer, m) == Some(d)
    ensures TokenUrl(d) == if config.mutualTls then m.aliases.token else m.token
  {
    hide Discovery.AllVetted, Discovery.OriginsOf;
  }

  /** Every refresh on the wire carries exactly this token and this scope list. */
  lemma RefreshRequestCarries(p: Client, url: str, refreshToken: str, scopes: seq<str>, now: Time,
                              identifiers: seq<str>, answers: seq<Answer>)
    ensures var sent := Converse(p, url, RefreshForm(refreshToken, scopes), now, identifiers, answers).sent;
            |sent| <= 2 && forall i | 0 <= i < |sent| ::
              && sent[i].endpoint == url
              && GRANT_TYPE in sent[i].form && sent[i].form[GRANT_TYPE] == ["refresh_token"]
              && REFRESH_TOKEN in sent[i].form && sent[i].form[REFRESH_TOKEN] == [refreshToken]
              && (scopes != [] ==> SCOPE in sent[i].form && sent[i].form[SCOPE] == [Join(scopes, " ")])
  {
    hide AuthenticatedForm, Converse, Join;
    var form := RefreshForm(refreshToken, scopes);
    var sent := Converse(p, url, form, now, identifiers, answers).sent;
    FormNames();
    ConversationBounds(p, url, form, now, identifiers, answers);
    forall i | 0 <= i < |sent|
      ensures sent[i].endpoint == url
      ensures forall name | name in form && name in {GRANT_TYPE, REFRESH_TOKEN, SCOPE} ::
                name in sent[i].form && sent[i].form[name] == form[name]
    {
      EveryRequestCarries(p, url, form, now, identifiers, answers, i);
      var assertion: str :| sent[i].form == AuthenticatedForm(p, form, assertion);
      forall name | name in form && name in {GRANT_TYPE, REFRESH_TOKEN, SCOPE}
        ensures name in sent[i].form && sent[i].form[name] == form[name]
      {
        AuthenticationKeepsForm(p, form, assertion, name);
      }
    }
    var names := {GRANT_TYPE, REFRESH_TOKEN, SCOPE};
    assert GRANT_TYPE in names && REFRESH_TOKEN in names && SCOPE in names;
  }

  /** When a refresh succeeds, and what the set that it returns holds. */
  lemma RefreshExactly(clientId: str, trusted: seq<str>, verify: str -> Option<IdToken.Token>, request: RefreshRequest,
                       answer: Option<TokenResponse>, now: Time, held: TokenSet)
    ensures Refreshed(clientId, trusted, verify, request, answer, now) == Some(held) <==>
            && 1 <= |request.expectedSubject| <= 512 && Options.AcceptedTokens(request.scopes, 32, 128)
            && 1 <= |request.refreshToken| <= 65536
            && answer.Some?
            && (answer.value.idToken == []
                || (&& verify(answer.value.idToken).Some?
                    && verify(answer.value.idToken).value.subject == request.expectedSubject
                    && IdToken.BindingValid(verify(answer.value.idToken).value, clientId, trusted, None, [], now)))
            && held.accessToken == answer.value.accessToken && held.idToken == answer.value.idToken
            && held.refreshToken ==
               (if answer.value.refreshToken == [] then request.refreshToken else answer.value.refreshToken)
  {
    hide Options.AcceptedTokens, IdToken.BindingValid;
  }
}
