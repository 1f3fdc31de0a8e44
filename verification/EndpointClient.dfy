/** Authenticated requests to the provider's endpoints: form building, the DPoP nonce retry and token responses. */
module EndpointClient {
  import opened Bytes
  import opened Claims
  import opened GoTime
  import FormCodec

  type Values = FormCodec.Values

  const CLIENT_ID: str := "client_id"
  const CLIENT_SECRET: str := "client_secret"
  const ASSERTION: str := "client_assertion"
  const ASSERTION_TYPE: str := "client_assertion_type"
  const JWT_BEARER_ROOT: str := "urn:ietf:params:oauth:"
  const JWT_BEARER_TYPE: str := "client-assertion-type:"
  const JWT_BEARER: str := JWT_BEARER_ROOT + JWT_BEARER_TYPE + "jwt-bearer"
  const USE_DPOP_NONCE: str := "use_dpop_nonce"
  const POST: str := "POST"

  const MAX_NONCE := 4096
  const MAX_TOKEN := 65536

  /** What a DPoP proof claims; an empty nonce or access token is left out of it. */
  datatype ProofClaims =
    ProofClaims(jti: str, htm: str, htu: str, iat: int64, nonce: str, accessToken: str)

  datatype SignedProof = SignedProof(claims: ProofClaims, token: str)

  datatype AssertionClaims = AssertionClaims(iss: str, sub: str, aud: str, iat: int64, exp: int64, jti: str)

  datatype AuthMethod =
    | NoSecret            // none, tls_client_auth and self_signed_tls_client_auth
    | SecretBasic
    | SecretPost
    | Assertion(sign: Option<AssertionClaims -> Option<str>>)

  datatype Client = Client(clientId: str, secret: str, auth: AuthMethod, dpop: Option<ProofClaims -> Option<str>>)

  datatype HttpRequest =
    HttpRequest(endpoint: str, form: Values, basic: Option<(str, str)>, proof: Option<SignedProof>)

  // ---- url.Values, which Go passes by reference ----

  class FormValues {
    var entries: Values

    constructor (entries: Values)
      ensures this.entries == entries
    {
      this.entries := entries;
    }

    method Set(name: str, value: str)
      modifies this
      ensures entries == old(entries)[name := [value]]
    {
      entries := entries[name := [value]];
    }
  }

  /** cloneValues: entry by entry, in whatever order Go visits the map. */
  method CloneValues(values: FormValues) returns (clone: FormValues)
    ensures fresh(clone) && clone.entries == values.entries
  {
    clone := new FormValues(map[]);
    var remaining := values.entries.Keys;
    while remaining != {}
      invariant remaining <= values.entries.Keys
      invariant clone.entries.Keys == values.entries.Keys - remaining
      invariant forall name | name in clone.entries :: clone.entries[name] == values.entries[name]
      decreases |remaining|
    {
      var name :| name in remaining;
      clone.entries := clone.entries[name := values.entries[name]];
      remaining := remaining - {name};
    }
  }

  // ---- The network, and the random identifiers of the process ----

  datatype Answer =
    | TransportError
    | Unreadable                          // reading failed or exceeded the limit
    | Reply(isJson: bool, status: int, errorCode: str, dpopNonce: str, body: Option<ClaimMap>)

  class Network {
    var answers: seq<Answer>
    var identifiers: seq<str>
    var sent: seq<HttpRequest>

    method RandomIdentifier() returns (id: Option<str>)
      modifies this`identifiers
      ensures id == if old(identifiers) == [] then None else Some(old(identifiers)[0])
      ensures identifiers == if old(identifiers) == [] then [] else old(identifiers)[1..]
    {
      if identifiers == [] {
        return None;
      }
      id := Some(identifiers[0]);
      identifiers := identifiers[1..];
    }

    method Do(request: HttpRequest) returns (answer: Answer)
      modifies this`answers, this`sent
      ensures sent == old(sent) + [request]
      ensures answer == FirstAnswer(old(answers))
      ensures answers == if old(answers) == [] then [] else old(answers)[1..]
    {
      sent := sent + [request];
      if answers == [] {
        return TransportError;
      }
      answer := answers[0];
      answers := answers[1..];
    }
  }

  function FirstAnswer(answers: seq<Answer>): Answer {
    if answers == [] then TransportError else answers[0]
  }

  // ---- One request ----

  /** The form that goes out: the caller's fields under the client's authentication. */
  function AuthenticatedForm(p: Client, form: Values, assertion: str): Values {
    match p.auth
    case NoSecret => form[CLIENT_ID := [p.clientId]]
    case SecretBasic => form
    case SecretPost => form[CLIENT_ID := [p.clientId]][CLIENT_SECRET := [p.secret]]
    case Assertion(_) => form[CLIENT_ID := [p.clientId]][ASSERTION_TYPE := [JWT_BEARER]][ASSERTION := [assertion]]
  }

  /** A canonical URL without its query; a question mark with nothing after it is no query and stays. */
  function TargetOf(endpoint: str): str {
    var i := IndexOf(endpoint, '?');
    if i + 1 == |endpoint| then endpoint else endpoint[..i]
  }

  function BasicOf(p: Client): Option<(str, str)> {
    if p.auth.SecretBasic? then Some((FormCodec.Escape(p.clientId), FormCodec.Escape(p.secret))) else None
  }

  /** The request is the caller's form, authenticated, with a proof over exactly this endpoint, time and nonce. */
  ghost predicate IsRequestFor(p: Client, endpoint: str, form: Values, now: Time, nonce: str, request: HttpRequest) {
    && request.endpoint == endpoint
    && (exists assertion: str :: request.form == AuthenticatedForm(p, form, assertion))
    && request.basic == BasicOf(p)
    && (request.proof.Some? <==> p.dpop.Some?)
    && (p.dpop.Some? ==>
          && var claims := request.proof.value.claims;
          && claims == ProofClaims(claims.jti, POST, TargetOf(endpoint), UnixSeconds(now), nonce, [])
          && p.dpop.value(claims) == Some(request.proof.value.token)
          && request.proof.value.token != [])
  }

  function Rest(identifiers: seq<str>): seq<str> {
    if identifiers == [] then [] else identifiers[1..]
  }

  /** A proof takes the next identifier, when there is one, and must come out signed. */
  function ProofFor(sign: ProofClaims -> Option<str>, verb: str, endpoint: str, accessToken: str, nonce: str, now: Time,
                    identifiers: seq<str>): Option<SignedProof>
  {
    if identifiers == [] then None
    else
      var claims :=
        ProofClaims(identifiers[0], UpperCase(verb), TargetOf(endpoint), UnixSeconds(now), nonce, accessToken);
      match sign(claims)
      case None => None
      case Some(token) => if token == [] then None else Some(SignedProof(claims, token))
  }

  function AssertionFor(sign: Option<AssertionClaims -> Option<str>>, clientId: str, audience: str, now: Time,
                        identifiers: seq<str>): Option<str>
  {
    if sign.None? || identifiers == [] then None
    else
      var expiry := UnixSeconds(Add(now, 5 * MINUTE));
      match sign.value(AssertionClaims(clientId, clientId, audience, UnixSeconds(now), expiry, identifiers[0]))
      case None => None
      case Some(t) => if t == [] then None else Some(t)
  }

  /** The assertion, where one is needed, and the identifiers it leaves. */
  function Asserted(p: Client, endpoint: str, now: Time, identifiers: seq<str>): (Option<str>, seq<str>) {
    match p.auth
    case Assertion(sign) =>
      (AssertionFor(sign, p.clientId, endpoint, now, identifiers),
       if sign.None? then identifiers else Rest(identifiers))
    case _ => (Some([]), identifiers)
  }

  /** The request that the next identifiers make, and the identifiers it leaves. */
  function RequestFor(p: Client, endpoint: str, form: Values, now: Time, nonce: str, identifiers: seq<str>)
    : (Option<HttpRequest>, seq<str>)
  {
    var (assertion, rest) := Asserted(p, endpoint, now, identifiers);
    match assertion
    case None => (None, rest)
    case Some(a) =>
      var sent := AuthenticatedForm(p, form, a);
      if p.dpop.None? then (Some(HttpRequest(endpoint, sent, BasicOf(p), None)), rest)
      else
        match ProofFor(p.dpop.value, POST, endpoint, [], nonce, now, rest)
        case None => (None, Rest(rest))
        case Some(proof) => (Some(HttpRequest(endpoint, sent, BasicOf(p), Some(proof))), Rest(rest))
  }

  /** dpopProof: a fresh identifier, then the signature. */
  method DpopProof(sign: ProofClaims -> Option<str>, verb: str, endpoint: str, accessToken: str, nonce: str, now: Time,
                   net: Network)
    returns (proof: Option<SignedProof>)
    modifies net`identifiers
    ensures proof == ProofFor(sign, verb, endpoint, accessToken, nonce, now, old(net.identifiers))
    ensures net.identifiers == Rest(old(net.identifiers))
  {
    var jti := net.RandomIdentifier();
    if jti.None? {
      return None;
    }
    var claims := ProofClaims(jti.value, UpperCase(verb), TargetOf(endpoint), UnixSeconds(now), nonce, accessToken);
    var token := sign(claims);
    if token.None? || token.value == [] {
      return None;
    }
    proof := Some(SignedProof(claims, token.value));
  }

  method ClientAssertion(sign: Option<AssertionClaims -> Option<str>>, clientId: str, audience: str, now: Time,
                         net: Network)
    returns (assertion: Option<str>)
    modifies net`identifiers
    ensures assertion == AssertionFor(sign, clientId, audience, now, old(net.identifiers))
    ensures net.identifiers == if sign.None? then old(net.identifiers) else Rest(old(net.identifiers))
  {
    if sign.None? {
      return None;
    }
    var jti := net.RandomIdentifier();
    if jti.None? {
      return None;
    }
    var expiry := UnixSeconds(Add(now, 5 * MINUTE));
    assertion := sign.value(AssertionClaims(clientId, clientId, audience, UnixSeconds(now), expiry, jti.value));
    if assertion.Some? && assertion.value == [] {
      return None;
    }
  }

  lemma PostIsUpperCase()
    ensures UpperCase(POST) == POST
  {
  }

  method NewAuthenticatedFormRequest(p: Client, endpoint: str, callerForm: FormValues, now: Time, nonce: str,
                                     net: Network)
    returns (request: Option<HttpRequest>)
    modifies net`identifiers
    ensures (request, net.identifiers) == RequestFor(p, endpoint, callerForm.entries, now, nonce, old(net.identifiers))
  {
    hide AssertionFor, ProofFor;
    var form := CloneValues(callerForm);
    var basic: Option<(str, str)> := None;
    var signed: str := [];
    match p.auth {
      case NoSecret =>
        form.Set(CLIENT_ID, p.clientId);
      case SecretBasic =>
        basic := Some((FormCodec.Escape(p.clientId), FormCodec.Escape(p.secret)));
      case SecretPost =>
        form.Set(CLIENT_ID, p.clientId);
        form.Set(CLIENT_SECRET, p.secret);
      case Assertion(sign) =>
        var assertion := ClientAssertion(sign, p.clientId, endpoint, now, net);
        if assertion.None? {
          return None;
        }
        signed := assertion.value;
        form.Set(CLIENT_ID, p.clientId);
        form.Set(ASSERTION_TYPE, JWT_BEARER);
        form.Set(ASSERTION, signed);
    }
    assert form.entries == AuthenticatedForm(p, callerForm.entries, signed);
    assert Asserted(p, endpoint, now, old(net.identifiers)) == (Some(signed), net.identifiers);
    var proof: Option<SignedProof> := None;
    if p.dpop.Some? {
      proof := DpopProof(p.dpop.value, POST, endpoint, [], nonce, now, net);
      if proof.None? {
        return None;
      }
    }
    request := Some(HttpRequest(endpoint, form.entries, basic, proof));
  }

  /** What is built is the caller's form under the client's authentication, with a proof for this endpoint and nonce. */
  lemma RequestForIs(p: Client, endpoint: str, form: Values, now: Time, nonce: str, identifiers: seq<str>)
    requires RequestFor(p, endpoint, form, now, nonce, identifiers).0.Some?
    ensures IsRequestFor(p, endpoint, form, now, nonce, RequestFor(p, endpoint, form, now, nonce, identifiers).0.value)
  {
    hide AuthenticatedForm, FormCodec.Escape, UpperCase, TargetOf, UnixSeconds;
    PostIsUpperCase();
    var a := Asserted(p, endpoint, now, identifiers).0.value;
    assert RequestFor(p, endpoint, form, now, nonce, identifiers).0.value.form == AuthenticatedForm(p, form, a);
  }

  // ---- The retry loop ----

  datatype Failure =
    | RequestFailed
    | TransportFailed
    | BadResponse
    | EndpointError(code: str)
    | HttpStatus(status: int)
    | RetryExhausted

  datatype Outcome = Body(claims: ClaimMap) | Failed(failure: Failure)

  predicate ValidNonce(value: str) {
    value != [] && |value| <= MAX_NONCE && '\r' !in value && '\n' !in value && '\t' !in value && ' ' !in value
  }

  /** The one answer that earns a second request. */
  predicate DemandsNonce(p: Client, answer: Answer) {
    && answer.Reply? && answer.isJson && !(200 <= answer.status < 300)
    && p.dpop.Some? && answer.errorCode == USE_DPOP_NONCE && ValidNonce(answer.dpopNonce)
  }

  /** What an answer that is not retried comes to. */
  function Verdict(answer: Answer): Outcome {
    match answer
    case TransportError => Failed(TransportFailed)
    case Unreadable => Failed(BadResponse)
    case Reply(isJson, status, errorCode, _, body) =>
      if !isJson then Failed(BadResponse)
      else if !(200 <= status < 300)
        then Failed(if errorCode != [] then EndpointError(errorCode) else HttpStatus(status))
      else match body case Some(claims) => Body(claims) case None => Failed(BadResponse)
  }

  /** Everything that leaves the loop: the requests it sent and what it came to. */
  datatype Conversation = Conversation(sent: seq<HttpRequest>, outcome: Outcome)

  /** At most one more request, and only after an answer that demands a nonce. */
  function Converse(p: Client, endpoint: str, form: Values, now: Time, identifiers: seq<str>,
                    answers: seq<Answer>): Conversation
  {
    var (first, rest) := RequestFor(p, endpoint, form, now, [], identifiers);
    if first.None? then Conversation([], Failed(RequestFailed))
    else if !DemandsNonce(p, FirstAnswer(answers)) then Conversation([first.value], Verdict(FirstAnswer(answers)))
    else
      var second := RequestFor(p, endpoint, form, now, FirstAnswer(answers).dpopNonce, rest).0;
      if second.None? then Conversation([first.value], Failed(RequestFailed))
      else Conversation([first.value, second.value], Verdict(FirstAnswer(answers[1..])))
  }

  method DoAuthenticatedJson(p: Client, endpoint: str, form: FormValues, now: Time, net: Network)
    returns (r: Outcome)
    modifies net
    ensures var c := Converse(p, endpoint, form.entries, now, old(net.identifiers), old(net.answers));
            net.sent == old(net.sent) + c.sent && r == c.outcome
  {
    hide RequestFor;
    var nonce: str := [];
    ghost var before, answers, identifiers := net.sent, net.answers, net.identifiers;
    ghost var (first, rest) := RequestFor(p, endpoint, form.entries, now, [], identifiers);
    var attempt := 0;
    while attempt < 2
      invariant attempt < 2
      invariant attempt == 0 ==>
                  && nonce == [] && net.sent == before && net.answers == answers && net.identifiers == identifiers
      invariant attempt == 1 ==>
                  && first.Some? && net.sent == before + [first.value] && net.identifiers == rest
                  && answers != [] && DemandsNonce(p, answers[0]) && nonce == answers[0].dpopNonce
                  && net.answers == answers[1..]
    {
      var request := NewAuthenticatedFormRequest(p, endpoint, form, now, nonce, net);
      if request.None? {
        return Failed(RequestFailed);
      }
      var answer := net.Do(request.value);
      assert attempt == 1 ==> net.sent == before + [first.value, request.value];
      if answer.TransportError? {
        return Failed(TransportFailed);
      }
      if answer.Unreadable? || !answer.isJson {
        return Failed(BadResponse);
      }
      if answer.status < 200 || answer.status >= 300 {
        var candidate := answer.dpopNonce;
        if attempt == 0 && p.dpop.Some? && answer.errorCode == USE_DPOP_NONCE && ValidNonce(candidate) {
          nonce := candidate;
          attempt := attempt + 1;
          continue;
        }
        if answer.errorCode != [] {
          return Failed(EndpointError(answer.errorCode));
        }
        return Failed(HttpStatus(answer.status));
      }
      if answer.body.None? {
        return Failed(BadResponse);
      }
      return Body(answer.body.value);
    }
    r := Failed(RetryExhausted);
  }

  /**
   * The loop always returns from inside. At most two requests leave, both from the caller's unmodified form; the second
   * one leaves only after a demand for a nonce, and proves exactly that nonce.
   */
  lemma ConversationBounds(p: Client, endpoint: str, form: Values, now: Time, identifiers: seq<str>,
                           answers: seq<Answer>)
    ensures var c := Converse(p, endpoint, form, now, identifiers, answers);
            && |c.sent| <= 2 && c.outcome != Failed(RetryExhausted)
            && (c.sent != [] ==> IsRequestFor(p, endpoint, form, now, [], c.sent[0]))
            && (|c.sent| == 2 ==>
                  && DemandsNonce(p, FirstAnswer(answers))
                  && IsRequestFor(p, endpoint, form, now, FirstAnswer(answers).dpopNonce, c.sent[1])
                  && c.sent[1].proof.Some? && c.sent[1].proof.value.claims.nonce == FirstAnswer(answers).dpopNonce)
            && (c.outcome.Body? ==>
                  exists i | 0 <= i < |c.sent| && i < |answers| ::
                    answers[i].Reply? && answers[i].body == Some(c.outcome.claims))
  {
    hide RequestFor;
    var c := Converse(p, endpoint, form, now, identifiers, answers);
    var (first, rest) := RequestFor(p, endpoint, form, now, [], identifiers);
    if first.Some? {
      RequestForIs(p, endpoint, form, now, [], identifiers);
      if |c.sent| == 2 {
        RequestForIs(p, endpoint, form, now, FirstAnswer(answers).dpopNonce, rest);
      }
      if c.outcome.Body? {
        if |c.sent| == 1 {
          assert answers[0].body == Some(c.outcome.claims);
        } else {
          assert answers[1..][0] == answers[1];
          assert answers[1].body == Some(c.outcome.claims);
        }
      }
    }
  }

  /** Whatever leaves is the caller's form under some assertion of the client, sent to the endpoint. */
  lemma EveryRequestCarries(p: Client, endpoint: str, form: Values, now: Time, identifiers: seq<str>,
                            answers: seq<Answer>, i: nat)
    requires i < |Converse(p, endpoint, form, now, identifiers, answers).sent|
    ensures var request := Converse(p, endpoint, form, now, identifiers, answers).sent[i];
            && request.endpoint == endpoint
            && exists assertion: str :: request.form == AuthenticatedForm(p, form, assertion)
  {
    hide Converse, AuthenticatedForm;
    ConversationBounds(p, endpoint, form, now, identifiers, answers);
    var request := Converse(p, endpoint, form, now, identifiers, answers).sent[i];
    var nonce :| IsRequestFor(p, endpoint, form, now, nonce, request);
  }

  /** Authentication replaces no field of the caller's form but client_id. */
  lemma AuthenticationKeepsForm(p: Client, form: Values, assertion: str, name: str)
    requires name !in {CLIENT_ID, CLIENT_SECRET, ASSERTION, ASSERTION_TYPE}
    ensures name in AuthenticatedForm(p, form, assertion) <==> name in form
    ensures name in form ==> AuthenticatedForm(p, form, assertion)[name] == form[name]
  {
  }

  // ---- What one request says ----

  /** What authentication writes into the form, method by method. */
  lemma AuthenticationWrites(p: Client, form: Values, assertion: str)
    ensures var sent := AuthenticatedForm(p, form, assertion);
            && (p.auth.SecretBasic? ==> sent == form)
            && (!p.auth.SecretBasic? ==> CLIENT_ID in sent && sent[CLIENT_ID] == [p.clientId])
            && (if p.auth.SecretPost? then CLIENT_SECRET in sent && sent[CLIENT_SECRET] == [p.secret]
                else CLIENT_SECRET in sent <==> CLIENT_SECRET in form)
            && (if p.auth.Assertion? then
                  && ASSERTION in sent && sent[ASSERTION] == [assertion]
                  && ASSERTION_TYPE in sent && sent[ASSERTION_TYPE] == [JWT_BEARER]
                else
                  && (ASSERTION in sent <==> ASSERTION in form)
                  && (ASSERTION_TYPE in sent <==> ASSERTION_TYPE in form))
    ensures BasicOf(p).Some? <==> p.auth.SecretBasic?
    ensures BasicOf(p).Some? ==>
              && FormCodec.Unescape(BasicOf(p).value.0) == Some(p.clientId)
              && FormCodec.Unescape(BasicOf(p).value.1) == Some(p.secret)
  {
    FormCodec.Unescapes(p.clientId);
    FormCodec.Unescapes(p.secret);
    hide FormCodec.Escape, FormCodec.Unescape;
  }

  /** The claims an assertion is signed over: this client, this endpoint, from now for five minutes. */
  function AssertionAt(p: Client, endpoint: str, now: Time, jti: str): AssertionClaims {
    AssertionClaims(p.clientId, p.clientId, endpoint, UnixSeconds(now), UnixSeconds(Add(now, 300 * NANOS)), jti)
  }

  /** The signer signs, with something to show for it. */
  predicate Signs<T>(sign: T -> Option<str>, claims: T, token: str) {
    sign(claims) == Some(token) && token != []
  }

  /** The assertion method takes one identifier and the signer's word; every other method needs neither. */
  predicate AssertionReady(p: Client, endpoint: str, now: Time, identifiers: seq<str>, assertion: str) {
    p.auth.Assertion? ==>
      && p.auth.sign.Some? && identifiers != []
      && Signs(p.auth.sign.value, AssertionAt(p, endpoint, now, identifiers[0]), assertion)
  }

  /** A DPoP signer takes the next identifier; its proof is for a POST to this endpoint. */
  predicate ProofReady(p: Client, endpoint: str, now: Time, nonce: str, identifiers: seq<str>, token: str) {
    p.dpop.Some? ==>
      var used := if p.auth.Assertion? then 1 else 0;
      && |identifiers| > used
      && Signs(p.dpop.value, ProofClaims(identifiers[used], "POST", TargetOf(endpoint), UnixSeconds(now), nonce, []),
               token)
  }

  /** A request is built exactly when every signer it needs signs, and it carries what they signed. */
  lemma RequestBuiltExactly(p: Client, endpoint: str, form: Values, now: Time, nonce: str, identifiers: seq<str>,
                            request: HttpRequest)
    ensures RequestFor(p, endpoint, form, now, nonce, identifiers).0 == Some(request) <==>
            && request.endpoint == endpoint && request.basic == BasicOf(p)
            && (p.dpop.None? ==> request.proof.None?)
            && (p.dpop.Some? ==>
                  && request.proof.Some?
                  && ProofReady(p, endpoint, now, nonce, identifiers, request.proof.value.token)
                  && request.proof.value.claims ==
                     ProofClaims(identifiers[if p.auth.Assertion? then 1 else 0], "POST", TargetOf(endpoint),
                                 UnixSeconds(now), nonce, []))
            && exists assertion: str ::
                 && AssertionReady(p, endpoint, now, identifiers, assertion)
                 && request.form == AuthenticatedForm(p, form, assertion)
  {
    hide AuthenticatedForm, TargetOf, UnixSeconds, Add, BasicOf, UpperCase;
    PostIsUpperCase();
    if RequestFor(p, endpoint, form, now, nonce, identifiers).0 == Some(request) {
      var a := Asserted(p, endpoint, now, identifiers).0.value;
      assert AssertionReady(p, endpoint, now, identifiers, a) && request.form == AuthenticatedForm(p, form, a);
    }
    if a: str :| AssertionReady(p, endpoint, now, identifiers, a) && request.form == AuthenticatedForm(p, form, a) {
      AssertionIsUsed(p, form, a, Asserted(p, endpoint, now, identifiers).0);
    }
  }

  /** Only the assertion method looks at the assertion. */
  lemma AssertionIsUsed(p: Client, form: Values, a: str, b: Option<str>)
    ensures !p.auth.Assertion? && b.Some? ==> AuthenticatedForm(p, form, a) == AuthenticatedForm(p, form, b.value)
  {
  }

  /** The target of a proof is the endpoint up to its query. */
  lemma TargetIsPrefix(endpoint: str)
    ensures TargetOf(endpoint) <= endpoint
    ensures if '?' !in endpoint[..if endpoint == [] then 0 else |endpoint| - 1] then TargetOf(endpoint) == endpoint
            else '?' !in TargetOf(endpoint) && endpoint[|TargetOf(endpoint)|] == '?'
  {
    var i := IndexOf(endpoint, '?');
    if i < |endpoint| - 1 {
      assert endpoint[..|endpoint| - 1][i] == '?';
    }
  }

  // ---- What a conversation comes to ----

  /** What one answer means when it is the last. */
  predicate Decides(answer: Answer, r: Outcome) {
    match answer
    case TransportError => r == Failed(TransportFailed)
    case Unreadable => r == Failed(BadResponse)
    case Reply(isJson, status, errorCode, _, body) =>
      && (!isJson ==> r == Failed(BadResponse))
      && (isJson && 200 <= status <= 299 ==> r == if body.Some? then Body(body.value) else Failed(BadResponse))
      && (isJson && (status <= 199 || status >= 300) ==>
            r == Failed(if errorCode == [] then HttpStatus(status) else EndpointError(errorCode)))
  }

  /** A JSON failure of any status that names the error, from a provider that offers a usable nonce. */
  predicate AsksForNonce(answer: Answer) {
    && answer.Reply? && answer.isJson && (answer.status <= 199 || answer.status >= 300)
    && answer.errorCode == "use_dpop_nonce" && 1 <= |answer.dpopNonce| <= 4096
    && forall c | c in answer.dpopNonce :: c !in {'\r', '\n', '\t', ' '}
  }

  function Nth(answers: seq<Answer>, i: nat): Answer {
    if i < |answers| then answers[i] else TransportError
  }

  /**
   * Which requests leave and which answer decides. The second request leaves whenever a nonce is asked for and it can
   * be built; whatever it is answered with stands.
   */
  lemma ConversationExactly(p: Client, endpoint: str, form: Values, now: Time, identifiers: seq<str>,
                            answers: seq<Answer>)
    ensures var c := Converse(p, endpoint, form, now, identifiers, answers);
            var (first, rest) := RequestFor(p, endpoint, form, now, [], identifiers);
            var a := Nth(answers, 0);
            && (first.None? ==> c.sent == [] && c.outcome == Failed(RequestFailed))
            && (first.Some? && p.dpop.Some? && AsksForNonce(a) ==>
                  var second := RequestFor(p, endpoint, form, now, a.dpopNonce, rest).0;
                  if second.Some? then c.sent == [first.value, second.value] && Decides(Nth(answers, 1), c.outcome)
                  else c.sent == [first.value] && c.outcome == Failed(RequestFailed))
            && (first.Some? && !(p.dpop.Some? && AsksForNonce(a)) ==> c.sent == [first.value] && Decides(a, c.outcome))
  {
    hide RequestFor;
    assert |answers| > 1 ==> answers[1..][0] == answers[1];
  }

  /** A client without signers always gets its request out, and a readable success answer back. */
  lemma PlainConversation(p: Client, endpoint: str, form: Values, now: Time, identifiers: seq<str>,
                          answers: seq<Answer>)
    requires !p.auth.Assertion? && p.dpop.None?
    ensures var c := Converse(p, endpoint, form, now, identifiers, answers);
            && |c.sent| == 1 && c.sent[0].endpoint == endpoint && c.sent[0].proof.None?
            && c.sent[0].form == AuthenticatedForm(p, form, [])
            && Decides(Nth(answers, 0), c.outcome)
  {
    ConversationExactly(p, endpoint, form, now, identifiers, answers);
    hide Converse, AuthenticatedForm, BasicOf;
  }
}
