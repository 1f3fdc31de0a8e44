/** The authorization response as it comes back by redirect: query or form, success, error or signed. */
module Callback {
  import opened Bytes
  import opened Names
  import opened Utf8
  import opened FormCodec
  import opened AttemptContext

  const MAX_RESPONSE := 65536
  const RESPONSE: str := "response"
  const ERROR: str := "error"
  const DESCRIPTION: str := "error_description"
  const URI: str := "error_uri"

  const ALLOWED: set<str> := {CODE, STATE, ISS, RESPONSE, ERROR, DESCRIPTION, URI}

  datatype AuthorizationError = AuthorizationError(code: str, description: str, uri: str)

  datatype Response = Response(
    code: str, state: str, issuer: str, responseJwt: str, error: Option<AuthorizationError>, mode: str)

  datatype Method = GET | POST | OtherMethod

  /** An HTTP request; the body is absent, or what reading it yields (nothing, when reading fails). */
  datatype Request = Request(
    verb: Method, rawQuery: str, body: Option<Option<str>>, contentLength: int, formMediaType: bool)

  predicate ValidResponseValue(value: str, maximum: nat, token: bool) {
    |value| <= maximum && Valid(value) && !HasControl(value) && (token ==> !HasSpace(value))
  }

  predicate ValidErrorFields(code: str, description: str, uri: str) {
    && ValidResponseValue(code, MAX_RESPONSE, true)
    && ValidResponseValue(description, 4096, false)
    && ValidResponseValue(uri, 2048, false)
  }

  lemma EmptyValueIsValid()
    ensures forall maximum: nat, token :: ValidResponseValue([], maximum, token)
  {
  }

  // ---- Parsing ----

  predicate OnlyKnownSingles(values: Values) {
    forall name | name in values :: name in ALLOWED && |values[name]| == 1
  }

  predicate TokensValid(values: Values) {
    forall name | name in {CODE, STATE, ISS, RESPONSE, ERROR} ::
      ValidResponseValue(Get(values, name), MAX_RESPONSE, true)
  }

  /** What the parser makes of decoded values. */
  function ParseValues(values: Values, mode: str): Option<Response> {
    if !OnlyKnownSingles(values) || !TokensValid(values)
       || !ValidErrorFields(Get(values, ERROR), Get(values, DESCRIPTION), Get(values, URI)) then None
    else if (ISS in values && Get(values, ISS) == []) || (DESCRIPTION in values && Get(values, DESCRIPTION) == [])
            || (URI in values && Get(values, URI) == []) then None
    else if RESPONSE in values then
      if CODE in values || STATE in values || ISS in values || ERROR in values || DESCRIPTION in values || URI in values
         || Get(values, RESPONSE) == [] then None
      else Some(Response([], [], [], Get(values, RESPONSE), None, mode))
    else if ERROR !in values && (DESCRIPTION in values || URI in values) then None
    else
      var response := Response(Get(values, CODE), Get(values, STATE), Get(values, ISS), [], None, mode);
      if ERROR in values then
        if Get(values, ERROR) == [] || CODE in values || response.state == [] then None
        else
          Some(response.(error := Some(AuthorizationError(Get(values, ERROR), Get(values, DESCRIPTION),
                                                          Get(values, URI)))))
      else if response.code == [] || response.state == [] then None
      else Some(response)
  }

  function ParseText(text: str, mode: str): Option<Response> {
    if |text| > MAX_RESPONSE then None
    else match Parse(text) case None => None case Some(pairs) => ParseValues(ToValues(pairs), mode)
  }

  function ParseRequest(request: Option<Request>): Option<Response> {
    match request
    case None => None
    case Some(r) =>
      match r.verb
      case GET => ParseText(r.rawQuery, MODE_QUERY)
      case POST =>
        if r.rawQuery != [] || r.body.None? || r.contentLength > MAX_RESPONSE || !r.formMediaType || r.body.value.None?
        then None
        else ParseText(r.body.value.value, MODE_FORM_POST)
      case OtherMethod => None
  }

  /** The loop over the parsed map, which Go visits in any order. */
  method CheckNames(values: Values) returns (ok: bool)
    ensures ok == OnlyKnownSingles(values)
  {
    var remaining := values.Keys;
    while remaining != {}
      invariant remaining <= values.Keys
      invariant forall name | name in values && name !in remaining :: name in ALLOWED && |values[name]| == 1
      decreases |remaining|
    {
      var name :| name in remaining;
      if name !in ALLOWED || |values[name]| != 1 {
        return false;
      }
      remaining := remaining - {name};
    }
    ok := true;
  }

  /** The loop over the five token-shaped values, in any order as well. */
  method CheckTokens(values: Values) returns (ok: bool)
    ensures ok == TokensValid(values)
  {
    hide ValidResponseValue;
    var remaining := {CODE, STATE, ISS, RESPONSE, ERROR};
    while remaining != {}
      invariant remaining <= {CODE, STATE, ISS, RESPONSE, ERROR}
      invariant forall name | name in {CODE, STATE, ISS, RESPONSE, ERROR} && name !in remaining ::
                  ValidResponseValue(Get(values, name), MAX_RESPONSE, true)
      decreases |remaining|
    {
      var name :| name in remaining;
      if !ValidResponseValue(Get(values, name), MAX_RESPONSE, true) {
        return false;
      }
      remaining := remaining - {name};
    }
    ok := true;
  }

  method ParseCallback(request: Option<Request>) returns (r: Option<Response>)
    ensures r == ParseRequest(request)
  {
    hide OnlyKnownSingles, TokensValid, ValidErrorFields, Parse, ToValues, Get;
    if request.None? {
      return None;
    }
    var text: str, mode: str;
    match request.value.verb {
      case GET =>
        text, mode := request.value.rawQuery, MODE_QUERY;
      case POST =>
        if request.value.rawQuery != [] || request.value.body.None? || request.value.contentLength > MAX_RESPONSE {
          return None;
        }
        if !request.value.formMediaType || request.value.body.value.None? {
          return None;
        }
        text, mode := request.value.body.value.value, MODE_FORM_POST;
      case OtherMethod =>
        return None;
    }
    if |text| > MAX_RESPONSE {
      return None;
    }
    var pairs := Parse(text);
    if pairs.None? {
      return None;
    }
    r := ReadValues(ToValues(pairs.value), mode);
  }

  /** The checks on the decoded values, and the response filled step by step. */
  method ReadValues(values: Values, mode: str) returns (r: Option<Response>)
    ensures r == ParseValues(values, mode)
  {
    hide OnlyKnownSingles, TokensValid, ValidErrorFields, Get;
    var ok := CheckNames(values);
    if !ok {
      return None;
    }
    ok := CheckTokens(values);
    if !ok || !ValidErrorFields(Get(values, ERROR), Get(values, DESCRIPTION), Get(values, URI)) {
      return None;
    }
    if ISS in values && Get(values, ISS) == [] {
      return None;
    }
    if DESCRIPTION in values && Get(values, DESCRIPTION) == [] {
      return None;
    }
    if URI in values && Get(values, URI) == [] {
      return None;
    }
    if RESPONSE in values {
      for i := 0 to 6
        invariant forall k | 0 <= k < i :: [CODE, STATE, ISS, ERROR, DESCRIPTION, URI][k] !in values
      {
        if [CODE, STATE, ISS, ERROR, DESCRIPTION, URI][i] in values {
          return None;
        }
      }
      var direct := [CODE, STATE, ISS, ERROR, DESCRIPTION, URI];
      assert direct[0] == CODE && direct[1] == STATE && direct[2] == ISS && direct[3] == ERROR &&
        direct[4] == DESCRIPTION && direct[5] == URI;
      if Get(values, RESPONSE) == [] {
        return None;
      }
      return Some(Response([], [], [], Get(values, RESPONSE), None, mode));
    }
    if ERROR !in values && (DESCRIPTION in values || URI in values) {
      return None;
    }
    var response := Response(Get(values, CODE), Get(values, STATE), Get(values, ISS), [], None, mode);
    if ERROR in values {
      var errorCode := Get(values, ERROR);
      if errorCode == [] || CODE in values {
        return None;
      }
      response := response.(error := Some(AuthorizationError(errorCode, Get(values, DESCRIPTION), Get(values, URI))));
      if response.state == [] {
        return None;
      }
      return Some(response);
    }
    if response.code == [] || response.state == [] {
      return None;
    }
    r := Some(response);
  }

  // ---- The language of the parser ----

  /** Given exactly once and not empty. */
  predicate Given(values: Values, name: str) {
    name in values && |values[name]| == 1 && values[name][0] != []
  }

  predicate Fits(values: Values, name: str, maximum: nat, token: bool) {
    ValidResponseValue(Get(values, name), maximum, token)
  }

  predicate CodeShape(values: Values) {
    && {CODE, STATE} <= values.Keys <= {CODE, STATE, ISS}
    && (forall name | name in values :: Given(values, name) && Fits(values, name, MAX_RESPONSE, true))
  }

  predicate ErrorShape(values: Values) {
    && {ERROR, STATE} <= values.Keys <= {ERROR, STATE, ISS, DESCRIPTION, URI}
    && (forall name | name in values :: Given(values, name))
    && Fits(values, ERROR, MAX_RESPONSE, true) && Fits(values, STATE, MAX_RESPONSE, true)
    && Fits(values, ISS, MAX_RESPONSE, true) && Fits(values, DESCRIPTION, 4096, false) && Fits(values, URI, 2048, false)
  }

  predicate SignedShape(values: Values) {
    values.Keys == {RESPONSE} && Given(values, RESPONSE) && Fits(values, RESPONSE, MAX_RESPONSE, true)
  }

  lemma NamesDiffer()
    ensures NoDuplicates([CODE, STATE, ISS, RESPONSE, ERROR, DESCRIPTION, URI])
    ensures CODE != STATE && CODE != ISS && CODE != RESPONSE && CODE != ERROR && CODE != DESCRIPTION && CODE != URI
    ensures STATE != ISS && STATE != RESPONSE && STATE != ERROR && STATE != DESCRIPTION && STATE != URI
    ensures ISS != RESPONSE && ISS != ERROR && ISS != DESCRIPTION && ISS != URI
    ensures RESPONSE != ERROR && RESPONSE != DESCRIPTION && RESPONSE != URI
    ensures ERROR != DESCRIPTION && ERROR != URI && DESCRIPTION != URI
  {
    assert ERROR[0] == 'e' && STATE[0] == 's';
  }

  lemma ShapesDisjoint(values: Values)
    ensures !(CodeShape(values) && ErrorShape(values))
    ensures !(CodeShape(values) && SignedShape(values))
    ensures !(ErrorShape(values) && SignedShape(values))
  {
    hide Given, Fits;
    NamesDiffer();
    assert CodeShape(values) ==> CODE in values.Keys;
    assert ErrorShape(values) ==> CODE !in values.Keys;
    assert SignedShape(values) ==> STATE !in values.Keys;
    assert CodeShape(values) || ErrorShape(values) ==> STATE in values.Keys;
  }

  /** The parser accepts exactly the three shapes and returns what they carry. */
  lemma ParserLanguage(values: Values, mode: str)
    ensures ParseValues(values, mode).Some? <==> CodeShape(values) || ErrorShape(values) || SignedShape(values)
    ensures CodeShape(values) ==>
              (ParseValues(values, mode) ==
               Some(Response(values[CODE][0], values[STATE][0], Get(values, ISS), [], None, mode)))
    ensures ErrorShape(values) ==>
              (ParseValues(values, mode) ==
               Some(Response([], values[STATE][0], Get(values, ISS), [],
                             Some(AuthorizationError(values[ERROR][0], Get(values, DESCRIPTION), Get(values, URI))),
                             mode)))
    ensures SignedShape(values) ==>
              (ParseValues(values, mode) == Some(Response([], [], [], values[RESPONSE][0], None, mode)))
  {
    hide ValidResponseValue;
    NamesDiffer();
    EmptyValueIsValid();
    if CodeShape(values) {
      CodeShapeParses(values, mode);
    }
    if ErrorShape(values) {
      ErrorShapeParses(values, mode);
    }
    if SignedShape(values) {
      SignedShapeParses(values, mode);
    }
    if ParseValues(values, mode).Some? {
      ParsedShape(values, mode);
    }
  }

  lemma CodeShapeParses(values: Values, mode: str)
    requires CodeShape(values)
    ensures ParseValues(values, mode) ==
            Some(Response(values[CODE][0], values[STATE][0], Get(values, ISS), [], None, mode))
  {
    hide ValidResponseValue;
    NamesDiffer();
    EmptyValueIsValid();
    assert Given(values, CODE) && Given(values, STATE) && Fits(values, CODE, MAX_RESPONSE, true) &&
      Fits(values, STATE, MAX_RESPONSE, true);
    assert ERROR !in values && DESCRIPTION !in values && URI !in values && RESPONSE !in values;
    assert ISS in values ==> Given(values, ISS) && Fits(values, ISS, MAX_RESPONSE, true);
    assert OnlyKnownSingles(values);
  }

  lemma ErrorShapeParses(values: Values, mode: str)
    requires ErrorShape(values)
    ensures ParseValues(values, mode) ==
            Some(Response([], values[STATE][0], Get(values, ISS), [],
                 Some(AuthorizationError(values[ERROR][0], Get(values, DESCRIPTION), Get(values, URI))), mode))
  {
    hide ValidResponseValue;
    NamesDiffer();
    EmptyValueIsValid();
    assert Given(values, ERROR) && Given(values, STATE);
    assert CODE !in values && RESPONSE !in values;
    assert ISS in values ==> Given(values, ISS);
    assert DESCRIPTION in values ==> Given(values, DESCRIPTION);
    assert URI in values ==> Given(values, URI);
    assert OnlyKnownSingles(values);
  }

  lemma SignedShapeParses(values: Values, mode: str)
    requires SignedShape(values)
    ensures ParseValues(values, mode) == Some(Response([], [], [], values[RESPONSE][0], None, mode))
  {
    hide ValidResponseValue;
    NamesDiffer();
    EmptyValueIsValid();
    assert forall name | name in values :: name == RESPONSE;
  }

  lemma ParsedShape(values: Values, mode: str)
    requires ParseValues(values, mode).Some?
    ensures CodeShape(values) || ErrorShape(values) || SignedShape(values)
  {
    hide ValidResponseValue;
    NamesDiffer();
    assert forall name | name in values :: name in ALLOWED && |values[name]| == 1;
    if RESPONSE in values {
      assert values.Keys == {RESPONSE};
    } else if ERROR in values {
      assert values.Keys <= {ERROR, STATE, ISS, DESCRIPTION, URI};
    } else {
      assert values.Keys <= {CODE, STATE, ISS};
    }
  }

  // ---- Round trip ----

  /** A response a provider may send: one of the three shapes, within its limits. */
  predicate WellFormed(r: Response) {
    && ValidResponseValue(r.code, MAX_RESPONSE, true) && ValidResponseValue(r.state, MAX_RESPONSE, true)
    && ValidResponseValue(r.issuer, MAX_RESPONSE, true) && ValidResponseValue(r.responseJwt, MAX_RESPONSE, true)
    && (if r.responseJwt != [] then r.code == r.state == r.issuer == [] && r.error == None
        else if r.error.Some? then
          && r.code == [] && r.state != [] && r.error.value.code != []
          && ValidErrorFields(r.error.value.code, r.error.value.description, r.error.value.uri)
        else r.code != [] && r.state != [])
  }

  function Optional(name: str, value: str): seq<Pair> {
    if value == [] then [] else [Pair(name, value)]
  }

  /** The parameters of a response; empty ones are not sent. */
  function PairsOf(r: Response): seq<Pair> {
    Optional(CODE, r.code) + Optional(STATE, r.state) + Optional(ISS, r.issuer) + Optional(RESPONSE, r.responseJwt)
    + (match r.error
       case None => []
       case Some(e) => Optional(ERROR, e.code) + Optional(DESCRIPTION, e.description) + Optional(URI, e.uri))
  }

  function ValueOf(r: Response, name: str): str {
    if name == CODE then r.code
    else if name == STATE then r.state
    else if name == ISS then r.issuer
    else if name == RESPONSE then r.responseJwt
    else if r.error.None? then []
    else if name == ERROR then r.error.value.code
    else if name == DESCRIPTION then r.error.value.description
    else if name == URI then r.error.value.uri
    else []
  }

  lemma {:induction false} EntriesConcat(a: seq<Pair>, b: seq<Pair>, name: str)
    ensures Entries(a + b, name) == Entries(a, name) + Entries(b, name)
  {
    if a == [] {
      assert a + b == b;
    } else {
      EntriesConcat(a[1..], b, name);
      assert (a + b)[1..] == a[1..] + b;
      var front := if a[0].name == name then [a[0].value] else [];
      EntriesStep(a, name);
      EntriesStep(a + b, name);
      hide Entries;
      Associative(front, Entries(a[1..], name), Entries(b, name));
    }
  }

  lemma EntriesStep(pairs: seq<Pair>, name: str)
    requires pairs != []
    ensures Entries(pairs, name) ==
            (if pairs[0].name == name then [pairs[0].value] else []) + Entries(pairs[1..], name)
  {
  }

  lemma EntriesOptional(key: str, value: str, name: str)
    ensures Entries(Optional(key, value), name) == if name == key && value != [] then [value] else []
  {
    if value != [] {
      assert Optional(key, value)[1..] == [];
    }
  }

  lemma EntriesOf(r: Response, name: str)
    ensures Entries(PairsOf(r), name) == if ValueOf(r, name) != [] then [ValueOf(r, name)] else []
  {
    hide Optional, Entries;
    NamesDiffer();
    var a, b, c, d := Optional(CODE, r.code), Optional(STATE, r.state), Optional(ISS, r.issuer),
      Optional(RESPONSE, r.responseJwt);
    EntriesOptional(CODE, r.code, name);
    EntriesOptional(STATE, r.state, name);
    EntriesOptional(ISS, r.issuer, name);
    EntriesOptional(RESPONSE, r.responseJwt, name);
    EntriesConcat(a, b, name);
    EntriesConcat(a + b, c, name);
    EntriesConcat(a + b + c, d, name);
    if r.error.Some? {
      var e := r.error.value;
      var x, y, z := Optional(ERROR, e.code), Optional(DESCRIPTION, e.description), Optional(URI, e.uri);
      EntriesOptional(ERROR, e.code, name);
      EntriesOptional(DESCRIPTION, e.description, name);
      EntriesOptional(URI, e.uri, name);
      EntriesConcat(x, y, name);
      EntriesConcat(x + y, z, name);
      EntriesConcat(a + b + c + d, x + y + z, name);
    } else {
      assert PairsOf(r) == a + b + c + d;
    }
  }

  lemma ValuesOf(r: Response)
    ensures forall name :: name in ToValues(PairsOf(r)) <==> ValueOf(r, name) != []
    ensures forall name | name in ToValues(PairsOf(r)) :: ToValues(PairsOf(r))[name] == [ValueOf(r, name)]
  {
    hide PairsOf, ValueOf, Entries;
    forall name
      ensures name in ToValues(PairsOf(r)) <==> ValueOf(r, name) != []
      ensures name in ToValues(PairsOf(r)) ==> ToValues(PairsOf(r))[name] == [ValueOf(r, name)]
    {
      EntriesOf(r, name);
      EntriesPresent(PairsOf(r), name);
    }
  }

  lemma WellFormedParses(r: Response, mode: str)
    requires WellFormed(r)
    ensures ParseValues(ToValues(PairsOf(r)), mode) == Some(r.(mode := mode))
  {
    hide ValidResponseValue, ToValues, PairsOf, ParseValues;
    NamesDiffer();
    EmptyValueIsValid();
    var v := ToValues(PairsOf(r));
    ValuesOf(r);
    forall name | name in v ensures Given(v, name) && Get(v, name) == ValueOf(r, name) {
    }
    assert forall name :: Get(v, name) == ValueOf(r, name);
    ParserLanguage(v, mode);
    if r.responseJwt != [] {
      assert SignedShape(v);
    } else if r.error.Some? {
      assert ErrorShape(v);
    } else {
      assert CodeShape(v);
    }
  }

  /** Encoding a well-formed response and parsing it, by GET or by POST, gives it back with only the mode set. */
  lemma CallbackRoundTrip(r: Response)
    requires WellFormed(r) && |Encode(PairsOf(r))| <= MAX_RESPONSE
    ensures ParseRequest(Some(Request(GET, Encode(PairsOf(r)), None, 0, false))) == Some(r.(mode := MODE_QUERY))
    ensures ParseRequest(Some(Request(POST, [], Some(Some(Encode(PairsOf(r)))), |Encode(PairsOf(r))|, true)))
            == Some(r.(mode := MODE_FORM_POST))
  {
    hide WellFormed, PairsOf, ParseValues, Parse, Encode;
    ParseEncoded(PairsOf(r));
    WellFormedParses(r, MODE_QUERY);
    WellFormedParses(r, MODE_FORM_POST);
  }

  lemma ParsedValueOf(values: Values, mode: str, name: str)
    requires ParseValues(values, mode).Some?
    ensures var r := ParseValues(values, mode).value;
            if name in values then values[name] == [ValueOf(r, name)] && ValueOf(r, name) != []
            else ValueOf(r, name) == []
  {
    hide ValidResponseValue, ParseValues;
    NamesDiffer();
    ParserLanguage(values, mode);
    if name in values {
      assert Given(values, name);
      assert values[name] == [values[name][0]];
    }
  }

  /** Whatever is accepted is well formed, and carries nothing but the parameters of the response. */
  lemma ParsedIsWellFormed(values: Values, mode: str)
    requires ParseValues(values, mode).Some?
    ensures var r := ParseValues(values, mode).value; WellFormed(r) && values == ToValues(PairsOf(r)) && r.mode == mode
  {
    hide ValidResponseValue, ToValues, PairsOf, ParseValues, ValueOf;
    EmptyValueIsValid();
    ParserLanguage(values, mode);
    var r := ParseValues(values, mode).value;
    ValuesOf(r);
    forall name ensures name in values <==> name in ToValues(PairsOf(r)) {
      ParsedValueOf(values, mode, name);
    }
    assert values.Keys == ToValues(PairsOf(r)).Keys;
    forall name | name in values ensures values[name] == ToValues(PairsOf(r))[name] {
      ParsedValueOf(values, mode, name);
    }
    assert values == ToValues(PairsOf(r));
    ParsedFits(values, mode);
  }

  lemma ParsedFits(values: Values, mode: str)
    requires ParseValues(values, mode).Some?
    ensures WellFormed(ParseValues(values, mode).value)
  {
    hide ValidResponseValue, ParseValues;
    EmptyValueIsValid();
    ParserLanguage(values, mode);
    assert forall name | name in values :: Given(values, name);
    if CodeShape(values) {
      assert Fits(values, CODE, MAX_RESPONSE, true) && Fits(values, STATE, MAX_RESPONSE, true);
      assert ISS in values ==> Fits(values, ISS, MAX_RESPONSE, true);
    }
  }

  // ---- Order ----

  /** The order of the pairs decides nothing. */
  lemma OrderIsIrrelevant(p: seq<Pair>, q: seq<Pair>, mode: str)
    requires multiset(p) == multiset(q)
    ensures ParseValues(ToValues(p), mode) == ParseValues(ToValues(q), mode)
  {
    hide TokensValid, ValidErrorFields, Entries;
    NamesPermute(p, q);
    var v, w := ToValues(p), ToValues(q);
    forall name | name in v ensures |v[name]| == |w[name]| && (|v[name]| == 1 ==> v[name] == w[name]) {
      EntriesPermute(p, q, name);
    }
    if OnlyKnownSingles(v) {
      assert v == w;
    } else {
      assert !OnlyKnownSingles(w);
    }
  }

  lemma {:induction false} TotalLengthPermutes(a: seq<str>, b: seq<str>)
    requires multiset(a) == multiset(b)
    ensures TotalLength(a) == TotalLength(b) && |a| == |b|
  {
    assert |multiset(a)| == |a| && |multiset(b)| == |b|;
    if a != [] {
      var j := TakeOut(a, b);
      TotalLengthPermutes(a[1..], b[..j] + b[j + 1..]);
      TotalLengthSplit(b, j);
    }
  }

  lemma {:induction false} TotalLengthSplit(b: seq<str>, j: nat)
    requires j < |b|
    ensures TotalLength(b) == |b[j]| + TotalLength(b[..j] + b[j + 1..])
  {
    if j == 0 {
      assert b[..j] + b[j + 1..] == b[1..];
    } else {
      TotalLengthSplit(b[1..], j - 1);
      assert (b[..j] + b[j + 1..])[1..] == b[1..][..j - 1] + b[1..][j..];
    }
  }

  lemma {:induction false} SegmentsPermute(p: seq<Pair>, q: seq<Pair>)
    requires multiset(p) == multiset(q)
    ensures multiset(Segments(p)) == multiset(Segments(q))
  {
    hide Segment;
    assert |multiset(p)| == |p| && |multiset(q)| == |q|;
    if p != [] {
      var j := TakeOut(p, q);
      var rest := q[..j] + q[j + 1..];
      SegmentsPermute(p[1..], rest);
      assert q == q[..j] + [q[j]] + q[j + 1..];
      assert Segments(p) == [Segment(p[0])] + Segments(p[1..]);
      assert Segments(rest) == Segments(q[..j]) + Segments(q[j + 1..]);
      assert Segments(q) == Segments(q[..j]) + [Segment(q[j])] + Segments(q[j + 1..]);
    }
  }

  /** At the level of the request, query or form: permuting its parameters changes neither decision nor response. */
  lemma RequestOrderIsIrrelevant(p: seq<Pair>, q: seq<Pair>, r: Request)
    requires multiset(p) == multiset(q)
    ensures r.verb == GET && r.rawQuery == Encode(p) ==>
              (ParseRequest(Some(r)) == ParseRequest(Some(r.(rawQuery := Encode(q)))))
    ensures r.verb == POST && r.body == Some(Some(Encode(p))) ==>
              (ParseRequest(Some(r)) == ParseRequest(Some(r.(body := Some(Some(Encode(q)))))))
  {
    TextOrderIsIrrelevant(p, q, MODE_QUERY);
    TextOrderIsIrrelevant(p, q, MODE_FORM_POST);
    hide ParseText, Encode;
  }

  lemma TextOrderIsIrrelevant(p: seq<Pair>, q: seq<Pair>, mode: str)
    requires multiset(p) == multiset(q)
    ensures ParseText(Encode(p), mode) == ParseText(Encode(q), mode)
  {
    hide Parse, ParseValues, Segments, TotalLength, Join;
    SegmentsPermute(p, q);
    TotalLengthPermutes(Segments(p), Segments(q));
    JoinLength(Segments(p), AMPERSAND);
    JoinLength(Segments(q), AMPERSAND);
    assert |multiset(p)| == |p| && |multiset(q)| == |q|;
    if p != [] {
      assert |Encode(p)| == |Encode(q)|;
    } else {
      assert p == q;
    }
    ParseEncoded(p);
    ParseEncoded(q);
    OrderIsIrrelevant(p, q, mode);
  }

  // ---- Mode ----

  /** Signed modes come signed, posted modes by POST; an absent mode is the query. */
  predicate ModeFits(mode: str, r: Response) {
    && (r.responseJwt != [] <==> mode in {MODE_JWT, MODE_QUERY_JWT, MODE_FORM_JWT})
    && r.mode in (if mode in {MODE_FORM_POST, MODE_FORM_JWT} then {MODE_FORM_POST} else {[], MODE_QUERY})
  }

  /** The response came by the channel, and in the form, that the attempt asked for. */
  predicate ModeMatches(expected: str, r: Response) {
    var actual := if r.mode == [] then MODE_QUERY else r.mode;
    if expected == MODE_QUERY then actual == MODE_QUERY && r.responseJwt == []
    else if expected == MODE_FORM_POST then actual == MODE_FORM_POST && r.responseJwt == []
    else if expected == MODE_JWT || expected == MODE_QUERY_JWT then actual == MODE_QUERY && r.responseJwt != []
    else if expected == MODE_FORM_JWT then actual == MODE_FORM_POST && r.responseJwt != []
    else false
  }

  /** The case by case test is the table of modes; no other mode is ever matched. */
  lemma ModesExactly(expected: str, r: Response)
    ensures ModeMatches(expected, r) <==> SupportedMode(expected) && ModeFits(expected, r)
  {
    ModesDiffer();
    hide MODE_QUERY, MODE_FORM_POST, MODE_JWT, MODE_QUERY_JWT, MODE_FORM_JWT;
  }

  lemma ModesDiffer()
    ensures NoDuplicates([MODE_QUERY, MODE_FORM_POST, MODE_JWT, MODE_QUERY_JWT, MODE_FORM_JWT])
    ensures MODE_QUERY !in {[], MODE_FORM_POST, MODE_JWT, MODE_QUERY_JWT, MODE_FORM_JWT}
    ensures MODE_FORM_POST !in {[], MODE_JWT, MODE_QUERY_JWT, MODE_FORM_JWT}
    ensures MODE_JWT !in {[], MODE_QUERY_JWT, MODE_FORM_JWT} && MODE_QUERY_JWT !in {[], MODE_FORM_JWT}
    ensures MODE_FORM_JWT != []
  {
  }

  // ---- The exact conditions on a request ----

  /** At most so many bytes of valid UTF-8, without control characters and, in a token, without white space. */
  lemma ResponseValueExactly(value: str, maximum: nat, token: bool)
    ensures ValidResponseValue(value, maximum, token) <==>
            && |value| <= maximum && Valid(value)
            && forall r | r in Runes(value) :: !IsControl(r) && (token ==> !IsSpace(r))
  {
    hide Valid, Runes, IsControl, IsSpace;
  }

  /** The text that a request carries its parameters in: a query, or a form in an otherwise bare POST. */
  predicate Carries(r: Request, text: str, mode: str) {
    && |text| <= 65536
    && ((r.verb == GET && text == r.rawQuery && mode == "query")
        || (&& r.verb == POST && r.rawQuery == [] && r.body == Some(Some(text)) && r.formMediaType
            && r.contentLength <= 65536 && mode == "form_post"))
  }

  /** A request is accepted exactly when it carries a readable text of one of the three shapes. */
  lemma RequestLanguage(request: Option<Request>)
    ensures ParseRequest(request).Some? <==>
            && request.Some?
            && exists text, mode | Carries(request.value, text, mode) ::
                 && Parse(text).Some?
                 && (var values := ToValues(Parse(text).value);
                     CodeShape(values) || ErrorShape(values) || SignedShape(values))
    ensures forall text, mode | request.Some? && Carries(request.value, text, mode) && Parse(text).Some? ::
              ParseRequest(request) == ParseValues(ToValues(Parse(text).value), mode)
  {
    hide ParseValues, CodeShape, ErrorShape, SignedShape, Parse, ToValues;
    if request.Some? {
      var r := request.value;
      var text :=
        if r.verb == GET then r.rawQuery else if r.body.Some? && r.body.value.Some? then r.body.value.value else [];
      var mode := if r.verb == GET then MODE_QUERY else MODE_FORM_POST;
      assert forall other, m | Carries(r, other, m) :: other == text && m == mode;
      if Parse(text).Some? {
        ParserLanguage(ToValues(Parse(text).value), mode);
        assert Carries(r, text, mode) ==> ParseRequest(request) == ParseValues(ToValues(Parse(text).value), mode);
      }
      assert ParseRequest(request).Some? ==> Carries(r, text, mode);
    }
  }

  /** What may be said of an error: its code a token, its description and URI within their own limits. */
  lemma ErrorFieldsExactly(code: str, description: str, uri: str)
    ensures ValidErrorFields(code, description, uri) <==>
            && |code| <= 65536 && |description| <= 4096 && |uri| <= 2048
            && Valid(code) && Valid(description) && Valid(uri)
            && (forall r | r in Runes(code) :: !IsControl(r) && !IsSpace(r))
            && (forall r | r in Runes(description) || r in Runes(uri) :: !IsControl(r))
  {
    hide Valid, Runes, IsControl, IsSpace;
  }
}
