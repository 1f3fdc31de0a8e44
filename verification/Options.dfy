/** Validation of the optional authorization parameters, and the normal form of the scope list. */
module Options {
  import opened Bytes
  import opened Names
  import opened Utf8
  import opened GoTime
  import AttemptContext

  const OPENID: str := "openid"
  const PROFILE: str := "profile"
  const OFFLINE_ACCESS: str := "offline_access"
  const NONE: str := "none"
  const SPACE: str := " "

  /** A claims request: its raw text, and whether that text is one JSON object. */
  datatype ClaimsRequest = ClaimsRequest(text: str, isObject: bool)

  datatype IdentityPolicy = IdentityPolicy(useUserInfo: bool, requireName: bool, requireEmail: bool)

  datatype AuthorizationOptions = AuthorizationOptions(
    scopes: seq<str>, prompt: seq<str>, maxAge: Option<int64>, acrValues: seq<str>, loginHint: str, idTokenHint: str,
    uiLocales: seq<str>, claimsLocales: seq<str>, claims: ClaimsRequest, responseMode: str, useUserInfo: bool,
    requireName: bool, requireEmail: bool, offlineAccess: bool, usePar: bool, useRequestObject: bool)

  datatype Validated = Validated(
    scopes: seq<str>, prompt: seq<str>, maxAgeSeconds: Option<int64>, acrValues: seq<str>, loginHint: str,
    idTokenHint: str, uiLocales: seq<str>, claimsLocales: seq<str>, claims: str, responseMode: str, useUserInfo: bool,
    requireName: bool, requireEmail: bool, offlineAccess: bool, usePar: bool, useRequestObject: bool)

  predicate ValidToken(value: str, maximum: nat) {
    value != [] && |value| <= maximum && Valid(value) && !HasSpace(value) && !HasControl(value)
  }

  predicate AcceptedTokens(values: seq<str>, maximumCount: nat, maximumLength: nat) {
    && |values| <= maximumCount
    && (forall v | v in values :: ValidToken(v, maximumLength))
    && NoDuplicates(values)
  }

  /** Copies a list of tokens value by value; one bad or repeated value spoils the list. */
  method CopyTokens(values: seq<str>, maximumCount: nat, maximumLength: nat) returns (r: Option<seq<str>>)
    ensures r == if AcceptedTokens(values, maximumCount, maximumLength) then Some(values) else None
  {
    hide ValidToken;
    if |values| > maximumCount {
      return None;
    }
    var result: seq<str> := [];
    for i := 0 to |values|
      invariant result == values[..i]
      invariant forall v | v in result :: ValidToken(v, maximumLength)
      invariant NoDuplicates(result)
    {
      if !ValidToken(values[i], maximumLength) {
        assert values[i] in values;
        return None;
      }
      if values[i] in result {
        var j :| 0 <= j < i && values[j] == values[i];
        assert !NoDuplicates(values);
        return None;
      }
      result := result + [values[i]];
      assert values[..i + 1] == values[..i] + [values[i]];
    }
    r := Some(result);
    assert values[..|values|] == values;
  }

  function NormalizeScopes(accepted: seq<str>, offlineAccess: bool): seq<str> {
    var base := if accepted == [] then [OPENID, PROFILE, EMAIL] else accepted;
    var signed := if OPENID in base then base else [OPENID] + base;
    if offlineAccess && OFFLINE_ACCESS !in signed then signed + [OFFLINE_ACCESS] else signed
  }

  predicate ValidHint(value: str) {
    value != [] ==> |value| <= 4096 && Valid(value) && !HasControl(value)
  }

  predicate ValidMaxAge(maxAge: Option<int64>) {
    maxAge.Some? ==> 0 <= maxAge.value <= YEAR_SECONDS * NANOS && maxAge.value % NANOS == 0
  }

  predicate ValidClaims(claims: ClaimsRequest) {
    claims.text != [] ==> |claims.text| <= 16384 && claims.isObject
  }

  function EffectiveMode(mode: str): str {
    if mode == [] then AttemptContext.MODE_QUERY else mode
  }

  predicate Acceptable(o: AuthorizationOptions) {
    && AcceptedTokens(o.scopes, 32, 128)
    && AcceptedTokens(o.prompt, 8, 64) && (NONE in o.prompt ==> |o.prompt| == 1)
    && AcceptedTokens(o.acrValues, 16, 256)
    && AcceptedTokens(o.uiLocales, 16, 64) && AcceptedTokens(o.claimsLocales, 16, 64)
    && ValidHint(o.loginHint) && ValidHint(o.idTokenHint)
    && ValidMaxAge(o.maxAge) && ValidClaims(o.claims)
    && AttemptContext.SupportedMode(EffectiveMode(o.responseMode))
  }

  function SecondsOf(maxAge: Option<int64>): Option<int64>
    requires ValidMaxAge(maxAge)
  {
    match maxAge case None => None case Some(d) => Some(d / NANOS)
  }

  function Normal(o: AuthorizationOptions, defaults: IdentityPolicy): Validated
    requires Acceptable(o)
  {
    Validated(NormalizeScopes(o.scopes, o.offlineAccess), o.prompt, SecondsOf(o.maxAge), o.acrValues, o.loginHint,
              o.idTokenHint, o.uiLocales, o.claimsLocales, o.claims.text, EffectiveMode(o.responseMode),
              o.useUserInfo || defaults.useUserInfo, o.requireName || defaults.requireName,
              o.requireEmail || defaults.requireEmail, o.offlineAccess, o.usePar, o.useRequestObject)
  }

  function Validate(o: AuthorizationOptions, defaults: IdentityPolicy): Option<Validated> {
    if Acceptable(o) then Some(Normal(o, defaults)) else None
  }

  /** Go updates the copied list in place before it looks at the other options. */
  method CompleteScopes(copied: seq<str>, offlineAccess: bool) returns (scopes: seq<str>)
    ensures scopes == NormalizeScopes(copied, offlineAccess)
  {
    scopes := copied;
    if |scopes| == 0 {
      scopes := [OPENID, PROFILE, EMAIL];
    }
    if OPENID !in scopes {
      scopes := [OPENID] + scopes;
    }
    if offlineAccess && OFFLINE_ACCESS !in scopes {
      scopes := scopes + [OFFLINE_ACCESS];
    }
  }

  method ValidateAuthorizationOptions(o: AuthorizationOptions, defaults: IdentityPolicy) returns (r: Option<Validated>)
    ensures r == Validate(o, defaults)
  {
    hide AcceptedTokens, AttemptContext.SupportedMode, ValidHint, NormalizeScopes;
    var copied := CopyTokens(o.scopes, 32, 128);
    if copied.None? {
      return None;
    }
    var scopes := CompleteScopes(copied.value, o.offlineAccess);
    var prompt := CopyTokens(o.prompt, 8, 64);
    if prompt.None? || (NONE in prompt.value && |prompt.value| != 1) {
      return None;
    }
    var acrValues := CopyTokens(o.acrValues, 16, 256);
    if acrValues.None? {
      return None;
    }
    var uiLocales := CopyTokens(o.uiLocales, 16, 64);
    if uiLocales.None? {
      return None;
    }
    var claimsLocales := CopyTokens(o.claimsLocales, 16, 64);
    if claimsLocales.None? {
      return None;
    }
    if !ValidHint(o.loginHint) || !ValidHint(o.idTokenHint) {
      return None;
    }
    var maxAge: Option<int64> := None;
    if o.maxAge.Some? {
      if o.maxAge.value < 0 || o.maxAge.value > YEAR_SECONDS * NANOS || o.maxAge.value % NANOS != 0 {
        return None;
      }
      maxAge := Some(o.maxAge.value / NANOS);
    }
    var claims: str := [];
    if |o.claims.text| != 0 {
      if |o.claims.text| > 16384 || !o.claims.isObject {
        return None;
      }
      claims := o.claims.text;
    }
    var mode := o.responseMode;
    if mode == [] {
      mode := AttemptContext.MODE_QUERY;
    }
    if !AttemptContext.SupportedMode(mode) {
      return None;
    }
    r := Some(Validated(scopes, prompt.value, maxAge, acrValues.value, o.loginHint, o.idTokenHint, uiLocales.value,
                        claimsLocales.value, claims, mode, o.useUserInfo || defaults.useUserInfo,
                        o.requireName || defaults.requireName, o.requireEmail || defaults.requireEmail,
                        o.offlineAccess, o.usePar, o.useRequestObject));
  }

  // ---- The normal form of scopes ----

  /** The caller's scopes keep their order; openid may come before them and offline_access after. */
  lemma ScopesNormalForm(accepted: seq<str>, offlineAccess: bool)
    requires AcceptedTokens(accepted, 32, 128)
    ensures var r := NormalizeScopes(accepted, offlineAccess);
            && NoDuplicates(r) && OPENID in r && (offlineAccess ==> OFFLINE_ACCESS in r)
            && (forall v | v in r :: ValidToken(v, 128))
            && |r| <= 34
            && (accepted != [] ==> exists front: seq<str>, back: seq<str> ::
                  front in {[], [OPENID]} && back in {[], [OFFLINE_ACCESS]} && r == front + accepted + back)
  {
    hide ValidToken;
    KnownScopes();
    var base := if accepted == [] then [OPENID, PROFILE, EMAIL] else accepted;
    var front: seq<str> := if OPENID in base then [] else [OPENID];
    var signed := front + base;
    var back: seq<str> := if offlineAccess && OFFLINE_ACCESS !in signed then [OFFLINE_ACCESS] else [];
    var r := NormalizeScopes(accepted, offlineAccess);
    assert r == front + base + back;
    assert NoDuplicates(signed);
    assert forall v | v in r :: v in base || v == OPENID || v == OFFLINE_ACCESS;
  }

  lemma KnownScopes()
    ensures forall v | v in [OPENID, PROFILE, EMAIL, OFFLINE_ACCESS] :: ValidToken(v, 128)
    ensures NoDuplicates([OPENID, PROFILE, EMAIL])
  {
    hide Valid, HasSpace, HasControl;
    PlainToken(OPENID);
    PlainToken(PROFILE);
    PlainToken(EMAIL);
    PlainToken(OFFLINE_ACCESS);
  }

  lemma {:induction false} PlainToken(s: str)
    requires forall i | 0 <= i < |s| :: 0x21 <= s[i] as int < 0x7F
    ensures Valid(s) && !HasSpace(s) && !HasControl(s)
  {
    if s != [] {
      PlainToken(s[1..]);
      assert Runes(s) == [s[0] as int] + Runes(s[1..]);
    }
  }

  /** Normalizing a normal form changes nothing, and is possible exactly when it has at most 32 entries. */
  lemma NormalizingAgain(o: AuthorizationOptions, defaults: IdentityPolicy, v: Validated)
    requires Validate(o, defaults) == Some(v)
    ensures Validate(o.(scopes := v.scopes), defaults) == if |v.scopes| <= 32 then Some(v) else None
  {
    hide ValidToken, ValidHint, AttemptContext.SupportedMode;
    ScopesNormalForm(o.scopes, o.offlineAccess);
    var r := v.scopes;
    assert NormalizeScopes(r, o.offlineAccess) == r;
  }

  /** Thirty-two accepted scopes without openid have a normal form that is refused. */
  lemma NormalFormCanBeTooLong(defaults: IdentityPolicy) returns (o: AuthorizationOptions, v: Validated)
    ensures Validate(o, defaults) == Some(v) && |v.scopes| > 32
    ensures Validate(o.(scopes := v.scopes), defaults) == None
  {
    hide ValidToken, NormalizeScopes;
    var letters: seq<str> := seq(32, i requires 0 <= i < 32 => Letter(i));
    forall i | 0 <= i < 32 ensures ValidToken(letters[i], 128) && letters[i] == Letter(i) {
      LetterIsToken(i);
    }
    o := AuthorizationOptions(letters, [], None, [], [], [], [], [], ClaimsRequest([], false), [], false, false, false,
                              false, false, false);
    assert NoDuplicates(letters) by {
      assert forall i | 0 <= i < 32 :: letters[i][0] as int == 'A' as int + i;
    }
    v := Normal(o, defaults);
    MissingOpenid(letters);
    NormalizingAgain(o, defaults, v);
  }

  function Letter(i: int): str
    requires 0 <= i < 32
  {
    [Byte('A' as int + i)]
  }

  lemma LetterIsToken(i: int)
    requires 0 <= i < 32
    ensures ValidToken(Letter(i), 128)
  {
    hide Valid, HasSpace, HasControl;
    assert Letter(i)[0] as int == 'A' as int + i;
    PlainToken(Letter(i));
  }

  lemma MissingOpenid(scopes: seq<str>)
    requires |scopes| == 32 && forall s | s in scopes :: |s| == 1
    ensures |NormalizeScopes(scopes, false)| == 33
  {
  }

  // ---- Splitting a joined list ----

  function FrontRune(s: str): int
    requires s != []
  {
    if RuneWidth(s) == 0 then RUNE_ERROR else RuneValue(s)
  }

  /** Go's strings.Fields, with the field under construction. */
  function FieldsFrom(s: str, current: str): seq<str>
    decreases |s|
  {
    var flushed := if current == [] then [] else [current];
    if s == [] then flushed
    else
      var w := FrontWidth(s);
      if IsSpace(FrontRune(s)) then flushed + FieldsFrom(s[w..], []) else FieldsFrom(s[w..], current + s[..w])
  }

  function Fields(s: str): seq<str> {
    FieldsFrom(s, [])
  }

  lemma {:induction false} TokenIsOneField(token: str, rest: str, current: str)
    requires Valid(token) && !HasSpace(token)
    ensures FieldsFrom(token + rest, current) == FieldsFrom(rest, current + token)
    decreases |token|
  {
    hide RuneWidth, RuneValue, IsSpace, IsControl;
    if token == [] {
      assert token + rest == rest && current + token == current;
    } else {
      var w := RuneWidth(token);
      var tail := token[w..];
      RuneAtFront(token, tail + rest);
      assert token + rest == token[..w] + (tail + rest);
      assert Runes(token) == [RuneValue(token)] + Runes(tail);
      assert RuneValue(token) in Runes(token);
      assert !HasSpace(tail) by {
        assert forall r | r in Runes(tail) :: r in Runes(token);
      }
      TokenIsOneField(tail, rest, current + token[..w]);
      assert (current + token[..w]) + tail == current + token;
    }
  }

  /** Splitting the space-joined list on whitespace returns the list. */
  lemma {:induction false} FieldsOfJoin(tokens: seq<str>)
    requires forall t | t in tokens :: t != [] && Valid(t) && !HasSpace(t)
    ensures Fields(Join(tokens, SPACE)) == tokens
  {
    hide Valid, HasSpace;
    if tokens != [] {
      var t, rest := tokens[0], tokens[1..];
      if rest == [] {
        TokenIsOneField(t, [], []);
        assert t + [] == t && [] + t == t;
      } else {
        var more := SPACE + Join(rest, SPACE);
        assert Join(tokens, SPACE) == t + more;
        TokenIsOneField(t, more, []);
        assert [] + t == t;
        assert more[1..] == Join(rest, SPACE);
        assert forall x | x in rest :: x in tokens;
        FieldsOfJoin(rest);
        assert FieldsFrom(more, t) == [t] + Fields(Join(rest, SPACE));
      }
    }
  }

  /** What a provider reads out of the scope parameter is the normalized list. */
  lemma ScopeParameter(o: AuthorizationOptions, defaults: IdentityPolicy, v: Validated)
    requires Validate(o, defaults) == Some(v)
    ensures Fields(Join(v.scopes, SPACE)) == v.scopes
    ensures Fields(Join(v.acrValues, SPACE)) == o.acrValues == v.acrValues
    ensures AttemptContext.BoundedAcr(v.acrValues) && AttemptContext.AllValid(v.acrValues)
  {
    hide ValidHint, AttemptContext.SupportedMode, HasSpace, HasControl, Valid;
    ScopesNormalForm(o.scopes, o.offlineAccess);
    FieldsOfJoin(v.scopes);
    FieldsOfJoin(v.acrValues);
  }

  // ---- The exact conditions, in terms of the options ----

  /** At most so many values, each of at most so many bytes, none twice. */
  predicate TokenList(values: seq<str>, count: nat, length: nat) {
    && |values| <= count && NoDuplicates(values)
    && forall v | v in values ::
         && 1 <= |v| <= length && Valid(v)
         && forall r | r in Runes(v) :: !IsSpace(r) && !IsControl(r)
  }

  predicate Hint(value: str) {
    |value| <= 4096 && Valid(value) && forall r | r in Runes(value) :: !IsControl(r)
  }

  lemma TokenListExactly(values: seq<str>, count: nat, length: nat)
    ensures AcceptedTokens(values, count, length) <==> TokenList(values, count, length)
  {
    hide Valid, Runes, IsSpace, IsControl;
  }

  lemma HintExactly(value: str)
    ensures ValidHint(value) <==> Hint(value)
  {
    EmptyIsHint();
    hide Valid, Runes, IsControl;
  }

  lemma EmptyIsHint()
    ensures Hint([])
  {
  }

  /** Which options are accepted, and what becomes of each of them. */
  lemma ValidationExactly(o: AuthorizationOptions, defaults: IdentityPolicy, v: Validated)
    ensures Validate(o, defaults) == Some(v) <==>
            && TokenList(o.scopes, 32, 128) && v.scopes == NormalizeScopes(o.scopes, o.offlineAccess)
            && TokenList(o.prompt, 8, 64) && v.prompt == o.prompt && ("none" in o.prompt ==> o.prompt == ["none"])
            && TokenList(o.acrValues, 16, 256) && v.acrValues == o.acrValues
            && TokenList(o.uiLocales, 16, 64) && v.uiLocales == o.uiLocales
            && TokenList(o.claimsLocales, 16, 64) && v.claimsLocales == o.claimsLocales
            && Hint(o.loginHint) && v.loginHint == o.loginHint
            && Hint(o.idTokenHint) && v.idTokenHint == o.idTokenHint
            && (o.maxAge.Some? <==> v.maxAgeSeconds.Some?)
            && (o.maxAge.Some? ==>
                  0 <= v.maxAgeSeconds.value <= 31536000 && o.maxAge.value == v.maxAgeSeconds.value * NANOS)
            && (o.claims.text != [] ==> |o.claims.text| <= 16384 && o.claims.isObject) && v.claims == o.claims.text
            && v.responseMode == (if o.responseMode == [] then AttemptContext.MODE_QUERY else o.responseMode)
            && v.responseMode in {AttemptContext.MODE_QUERY, AttemptContext.MODE_FORM_POST, AttemptContext.MODE_JWT,
                                  AttemptContext.MODE_QUERY_JWT, AttemptContext.MODE_FORM_JWT}
            && v.useUserInfo == (o.useUserInfo || defaults.useUserInfo)
            && v.requireName == (o.requireName || defaults.requireName)
            && v.requireEmail == (o.requireEmail || defaults.requireEmail)
            && v.offlineAccess == o.offlineAccess && v.usePar == o.usePar && v.useRequestObject == o.useRequestObject
  {
    hide Acceptable, TokenList, Hint, NormalizeScopes, ValidMaxAge, SecondsOf;
    AcceptableExactly(o);
    SecondsExactly(o.maxAge, v.maxAgeSeconds);
  }

  lemma AcceptableExactly(o: AuthorizationOptions)
    ensures Acceptable(o) <==>
            && TokenList(o.scopes, 32, 128) && TokenList(o.prompt, 8, 64) && TokenList(o.acrValues, 16, 256)
            && TokenList(o.uiLocales, 16, 64) && TokenList(o.claimsLocales, 16, 64)
            && ("none" in o.prompt ==> o.prompt == ["none"]) && Hint(o.loginHint) && Hint(o.idTokenHint)
            && ValidMaxAge(o.maxAge) && (o.claims.text != [] ==> |o.claims.text| <= 16384 && o.claims.isObject)
            && AttemptContext.SupportedMode(EffectiveMode(o.responseMode))
  {
    hide AcceptedTokens, TokenList, ValidHint, Hint, ValidMaxAge, AttemptContext.SupportedMode, EffectiveMode;
    TokenListExactly(o.scopes, 32, 128);
    TokenListExactly(o.prompt, 8, 64);
    TokenListExactly(o.acrValues, 16, 256);
    TokenListExactly(o.uiLocales, 16, 64);
    TokenListExactly(o.claimsLocales, 16, 64);
    HintExactly(o.loginHint);
    HintExactly(o.idTokenHint);
    AloneExactly(o.prompt);
  }

  lemma AloneExactly(prompt: seq<str>)
    ensures (NONE in prompt ==> |prompt| == 1) <==> ("none" in prompt ==> prompt == ["none"])
  {
    if |prompt| == 1 {
      assert prompt == [prompt[0]];
    }
  }

  lemma SecondsExactly(maxAge: Option<int64>, seconds: Option<int64>)
    ensures ValidMaxAge(maxAge) && SecondsOf(maxAge) == seconds <==>
            && (maxAge.Some? <==> seconds.Some?)
            && (maxAge.Some? ==> 0 <= seconds.value <= 31536000 && maxAge.value == seconds.value * NANOS)
  {
  }

  /** The scopes that are asked for: the caller's, or the usual three; openid always, offline_access when wanted. */
  lemma ScopesExactly(scopes: seq<str>, offlineAccess: bool)
    ensures var asked := if scopes == [] then ["openid", "profile", "email"] else scopes;
            var signed := if "openid" in asked then asked else ["openid"] + asked;
            NormalizeScopes(scopes, offlineAccess) ==
            signed + (if offlineAccess && "offline_access" !in signed then ["offline_access"] else [])
  {
  }

  lemma OpenidIsAsked(scopes: seq<str>, offlineAccess: bool)
    ensures OPENID in NormalizeScopes(scopes, offlineAccess)
  {
  }
}
