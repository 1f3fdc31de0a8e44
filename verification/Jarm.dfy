/** The claims of a signed authorization response, once its signature has been verified. */
module Jarm {
  import opened Bytes
  import opened Names
  import opened GoTime
  import opened FormCodec
  import opened Callback
  import opened Claims

  function TextNames(): seq<str> {
    [ISS, CODE, STATE, ERROR, DESCRIPTION, URI]
  }

  /** Absent, or a string. */
  predicate Textual(claims: ClaimMap, name: str) {
    name in claims ==> claims[name].JString?
  }

  predicate Timed(claims: ClaimMap, name: str) {
    name in claims && claims[name].JInteger? && Fits64(claims[name].n)
  }

  function TextOf(claims: ClaimMap, name: str): str {
    if name in claims && claims[name].JString? then claims[name].s else []
  }

  /** The addressee, the issuer and the time window of a response token. */
  predicate ForUs(claims: ClaimMap, issuer: str, clientId: str, now: Time) {
    && TextOf(claims, ISS) == issuer
    && AUD in claims && !claims[AUD].JNull? && AudienceOf(claims[AUD]) == Some([clientId])
    && Timed(claims, IAT) && Timed(claims, EXP)
    && UnixSeconds(now) < claims[EXP].n <= UnixSeconds(Add(now, 10 * MINUTE))
    && 0 < claims[IAT].n <= UnixSeconds(Add(now, MINUTE))
  }

  predicate TextsTyped(claims: ClaimMap) {
    forall name | name in TextNames() :: Textual(claims, name)
  }

  /** What the verifier makes of the claims, in the order of the source. */
  function Verify(claims: ClaimMap, issuer: str, clientId: str, now: Time): Option<Response> {
    if !TextsTyped(claims) || !ForUs(claims, issuer, clientId, now) then None
    else
      var code, state := TextOf(claims, CODE), TextOf(claims, STATE);
      var error, description, uri := TextOf(claims, ERROR), TextOf(claims, DESCRIPTION), TextOf(claims, URI);
      if !ValidResponseValue(code, MAX_RESPONSE, true) || !ValidResponseValue(state, MAX_RESPONSE, true)
         || !ValidErrorFields(error, description, uri) then None
      else if ERROR !in claims && (DESCRIPTION in claims || URI in claims) then None
      else if (DESCRIPTION in claims && description == []) || (URI in claims && uri == []) then None
      else if ERROR in claims then
        if error == [] || CODE in claims || STATE !in claims || state == [] then None
        else Some(Response(code, state, issuer, [], Some(AuthorizationError(error, description, uri)), []))
      else if code == [] || state == [] then None
      else Some(Response(code, state, issuer, [], None, []))
  }

  method VerifyAuthorizationResponse(claims: ClaimMap, issuer: str, clientId: str, now: Time)
    returns (r: Option<Response>)
    ensures r == Verify(claims, issuer, clientId, now)
  {
    hide ValidResponseValue, ValidErrorFields, Add, UnixSeconds, AudienceOf;
    for i := 0 to |TextNames()|
      invariant forall k | 0 <= k < i :: Textual(claims, TextNames()[k])
    {
      var name := TextNames()[i];
      if name in claims && !claims[name].JString? {
        assert !Textual(claims, name);
        return None;
      }
    }
    assert TextsTyped(claims);
    for i := 0 to 2
      invariant forall k | 0 <= k < i :: Timed(claims, [IAT, EXP][k])
    {
      var name := [IAT, EXP][i];
      if name !in claims || !claims[name].JInteger? || !Fits64(claims[name].n) {
        assert !Timed(claims, IAT) || !Timed(claims, EXP);
        return None;
      }
    }
    assert [IAT, EXP][0] == IAT && [IAT, EXP][1] == EXP;
    if AUD !in claims || claims[AUD].JNull? {
      return None;
    }
    var audience, ok := UnmarshalAudience(claims[AUD], []);
    if !ok || TextOf(claims, ISS) != issuer || |audience| != 1 || audience[0] != clientId {
      return None;
    }
    assert audience == [clientId];
    var exp, iat := claims[EXP].n, claims[IAT].n;
    if exp <= UnixSeconds(now) || exp > UnixSeconds(Add(now, 10 * MINUTE)) || iat <= 0 ||
      iat > UnixSeconds(Add(now, MINUTE)) {
      return None;
    }
    r := ReadVerified(claims, issuer);
  }

  /** The shape checks on verified claims, filling the response. */
  method ReadVerified(claims: ClaimMap, issuer: str) returns (r: Option<Response>)
    ensures forall clientId, now :: TextsTyped(claims) && ForUs(claims, issuer, clientId, now) ==>
              r == Verify(claims, issuer, clientId, now)
  {
    hide ValidResponseValue, ValidErrorFields, TextsTyped, ForUs, TextOf;
    var code, state := TextOf(claims, CODE), TextOf(claims, STATE);
    var error, description, uri := TextOf(claims, ERROR), TextOf(claims, DESCRIPTION), TextOf(claims, URI);
    if !ValidResponseValue(code, MAX_RESPONSE, true) || !ValidResponseValue(state, MAX_RESPONSE, true) {
      return None;
    }
    if !ValidErrorFields(error, description, uri) {
      return None;
    }
    if ERROR !in claims && (DESCRIPTION in claims || URI in claims) {
      return None;
    }
    if DESCRIPTION in claims && description == [] {
      return None;
    }
    if URI in claims && uri == [] {
      return None;
    }
    var response := Response(code, state, issuer, [], None, []);
    if ERROR in claims {
      if error == [] || CODE in claims || STATE !in claims || state == [] {
        return None;
      }
      response := response.(error := Some(AuthorizationError(error, description, uri)));
      return Some(response);
    }
    if code == [] || state == [] {
      return None;
    }
    r := Some(response);
  }

  /** The six text claims as the values of an unsigned response. */
  function DirectValues(claims: ClaimMap): Values {
    map name | name in claims.Keys && name in TextNames() :: [TextOf(claims, name)]
  }

  lemma DirectGet(claims: ClaimMap, name: str)
    requires name in TextNames()
    ensures Get(DirectValues(claims), name) == TextOf(claims, name)
    ensures name in DirectValues(claims) <==> name in claims
  {
  }

  /**
   * The signed and the direct parser agree: for an issuer that an unsigned iss could carry, the verifier accepts typed
   * claims addressed to this client exactly when the direct checks accept the same six fields, with the same response.
   */
  lemma SignedAgreesWithDirect(claims: ClaimMap, issuer: str, clientId: str, now: Time)
    requires issuer != [] && ValidResponseValue(issuer, MAX_RESPONSE, true)
    ensures Verify(claims, issuer, clientId, now) ==
            if TextsTyped(claims) && ForUs(claims, issuer, clientId, now) then ParseValues(DirectValues(claims), [])
            else None
  {
    hide ParseValues, DirectValues;
    if TextsTyped(claims) && ForUs(claims, issuer, clientId, now) {
      DirectAgrees(claims, issuer, clientId, now);
    }
  }

  lemma DirectAgrees(claims: ClaimMap, issuer: str, clientId: str, now: Time)
    requires TextsTyped(claims) && ForUs(claims, issuer, clientId, now)
    requires issuer != [] && ValidResponseValue(issuer, MAX_RESPONSE, true)
    ensures Verify(claims, issuer, clientId, now) == ParseValues(DirectValues(claims), [])
  {
    assert TextOf(claims, ISS) == issuer;
    hide ValidResponseValue, ForUs, TextsTyped, TextOf, DirectValues;
    NamesDiffer();
    EmptyValueIsValid();
    DirectGet(claims, ISS);
    DirectGet(claims, CODE);
    DirectGet(claims, STATE);
    DirectGet(claims, ERROR);
    DirectGet(claims, DESCRIPTION);
    DirectGet(claims, URI);
    DirectSingles(claims);
    assert TextOf(claims, CODE) != [] ==> CODE in claims by { AbsentIsEmpty(claims, CODE); }
    assert TextOf(claims, STATE) != [] ==> STATE in claims by { AbsentIsEmpty(claims, STATE); }
    assert ERROR !in claims ==> TextOf(claims, ERROR) == [] by { AbsentIsEmpty(claims, ERROR); }
    assert CODE !in claims ==> TextOf(claims, CODE) == [] by { AbsentIsEmpty(claims, CODE); }
  }

  lemma AbsentIsEmpty(claims: ClaimMap, name: str)
    ensures name !in claims ==> TextOf(claims, name) == []
  {
  }

  lemma DirectSingles(claims: ClaimMap)
    ensures OnlyKnownSingles(DirectValues(claims))
    ensures RESPONSE !in DirectValues(claims) && Get(DirectValues(claims), RESPONSE) == []
  {
    NamesDiffer();
  }

  // ---- The exact conditions on signed claims ----

  /** The claim is there and is this integer. */
  predicate IsTime(claims: ClaimMap, name: str, n: int) {
    name in claims && claims[name] == JInteger(n)
  }

  /**
   * Signed claims for this client: typed texts, its issuer, itself as the only audience, expiring within ten minutes
   * and issued no later than a minute from now.
   */
  lemma AddressedExactly(claims: ClaimMap, issuer: str, clientId: str, now: Time)
    requires OrdinaryClock(now) && issuer != []
    ensures TextsTyped(claims) && ForUs(claims, issuer, clientId, now) <==>
            && (forall name | name in {"iss", "code", "state", "error", "error_description", "error_uri"} ::
                  name in claims ==> claims[name].JString?)
            && "iss" in claims && claims["iss"] == JString(issuer)
            && "aud" in claims && (claims["aud"] == JString(clientId) || OnlyItem(claims["aud"], clientId))
            && exists expiry: int64, issued: int64 | IsTime(claims, "exp", expiry) && IsTime(claims, "iat", issued) ::
                 && UnixSeconds(now) < expiry <= UnixSeconds(now) + 600
                 && 0 < issued <= UnixSeconds(now) + 60
  {
    MinutesLater(now, 10);
    MinutesLater(now, 1);
    TypedExactly(claims);
    IssuerExactly(claims, issuer);
    TimesExactly(claims, UnixSeconds(now), UnixSeconds(now) + 600, UnixSeconds(now) + 60);
    hide UnixSeconds, Add, AudienceOf, TextsTyped, TextOf, OnlyItem, Timed, IsTime;
    if AUD in claims {
      OnlyAudience(claims[AUD], clientId);
    }
  }

  lemma TypedExactly(claims: ClaimMap)
    ensures TextsTyped(claims) <==>
            forall name | name in {"iss", "code", "state", "error", "error_description", "error_uri"} ::
              name in claims ==> claims[name].JString?
  {
    TextNamesExactly();
    var names := {"iss", "code", "state", "error", "error_description", "error_uri"};
    hide TextNames;
    if TextsTyped(claims) {
      forall name | name in names && name in claims ensures claims[name].JString? {
        assert name in TextNames() && Textual(claims, name);
      }
    } else {
      var name :| name in TextNames() && !Textual(claims, name);
      assert name in names;
    }
  }

  lemma IssuerExactly(claims: ClaimMap, issuer: str)
    ensures issuer != [] ==> (TextOf(claims, ISS) == issuer <==> "iss" in claims && claims["iss"] == JString(issuer))
  {
  }

  lemma TimesExactly(claims: ClaimMap, now: int, latest: int, soon: int)
    ensures Timed(claims, IAT) && Timed(claims, EXP) && now < claims[EXP].n <= latest && 0 < claims[IAT].n <= soon <==>
            exists expiry: int64, issued: int64 | IsTime(claims, "exp", expiry) && IsTime(claims, "iat", issued) ::
              now < expiry <= latest && 0 < issued <= soon
  {
    if Timed(claims, IAT) && Timed(claims, EXP) {
      var expiry: int64, issued: int64 := claims[EXP].n, claims[IAT].n;
      assert IsTime(claims, "exp", expiry) && IsTime(claims, "iat", issued);
    }
  }

  /** A list of one item that reads as this text. */
  predicate OnlyItem(j: Json, text: str) {
    j.JArray? && |j.items| == 1 && (j.items[0] == JString(text) || (text == [] && j.items[0] == JNull))
  }

  lemma OnlyAudience(j: Json, clientId: str)
    ensures !j.JNull? && AudienceOf(j) == Some([clientId]) <==> j == JString(clientId) || OnlyItem(j, clientId)
  {
    AudienceLanguage(j, [clientId]);
  }

  lemma TextNamesExactly()
    ensures forall name :: name in TextNames() <==>
              name in {"iss", "code", "state", "error", "error_description", "error_uri"}
  {
  }

  /** The signed parser as a whole: addressed to us, and the six texts pass the direct checks. */
  lemma SignedLanguage(claims: ClaimMap, issuer: str, clientId: str, now: Time)
    requires issuer != [] && ValidResponseValue(issuer, MAX_RESPONSE, true)
    ensures Verify(claims, issuer, clientId, now).Some? <==>
            && TextsTyped(claims) && ForUs(claims, issuer, clientId, now)
            && (CodeShape(DirectValues(claims)) || ErrorShape(DirectValues(claims)))
  {
    hide ValidResponseValue, TextsTyped, ForUs, CodeShape, ErrorShape, SignedShape, ParseValues, Verify, DirectValues;
    SignedAgreesWithDirect(claims, issuer, clientId, now);
    ParserLanguage(DirectValues(claims), []);
    DirectSingles(claims);
    assert !SignedShape(DirectValues(claims)) by { NotSigned(DirectValues(claims)); }
  }

  lemma NotSigned(values: Values)
    ensures RESPONSE !in values ==> !SignedShape(values)
  {
    if SignedShape(values) {
      assert RESPONSE in values.Keys;
    }
  }
}
