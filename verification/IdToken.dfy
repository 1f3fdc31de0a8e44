/** What a verified ID token must say for this attempt, and the identity that is made of it and of UserInfo. */
module IdToken {
  import opened Bytes
  import opened Names
  import opened Utf8
  import opened GoTime
  import opened Claims
  import opened LoginProtection
  import Base64Url

  const AZP: str := "azp"
  const AUTH_TIME: str := "auth_time"
  const ACR: str := "acr"
  const NAME: str := "name"
  const EMAIL_VERIFIED: str := "email_verified"
  const PICTURE: str := "picture"
  const SUB: str := "sub"

  /** A token whose signature, issuer and expiry have been verified. */
  datatype Token = Token(issuer: str, subject: str, audience: seq<str>, nonce: str, accessTokenHash: str,
                         claims: ClaimMap)

  // ---- Binding ----

  /** Sections 2 and 3.1.3.7 of OpenID Connect Core 1.0: audience, authorized party, age and class of authentication. */
  predicate BindingValid(t: Token, clientId: str, trusted: seq<str>, maxAge: Option<int64>, acrValues: seq<str>,
                         now: Time)
  {
    && clientId in t.audience
    && (forall a | a in t.audience && a != clientId :: a in trusted)
    && (match ReadString(t.claims, AZP)
        case Absent => forall a | a in t.audience :: a == clientId
        case Present(azp) => azp == clientId
        case Invalid => false)
    && (maxAge.Some? ==>
          && ReadUnixTime(t.claims, AUTH_TIME).Some?
          && !OlderThanMaxAge(ReadUnixTime(t.claims, AUTH_TIME).value, now, maxAge.value))
    && (acrValues != [] ==> ReadString(t.claims, ACR).Present? && ReadString(t.claims, ACR).s in acrValues)
  }

  method ValidateIdTokenBinding(t: Token, clientId: str, trusted: seq<str>, maxAge: Option<int64>, acrValues: seq<str>,
                                now: Time)
    returns (ok: bool)
    ensures ok == BindingValid(t, clientId, trusted, maxAge, acrValues, now)
  {
    hide ReadString, ReadUnixTime, OlderThanMaxAge;
    if |t.audience| == 0 || clientId !in t.audience {
      return false;
    }
    var additional: seq<str> := [];
    for i := 0 to |t.audience|
      invariant forall a | a in t.audience[..i] && a != clientId :: a in trusted
      invariant forall a :: a in additional <==> a in t.audience[..i] && a != clientId
    {
      var a := t.audience[i];
      assert t.audience[..i + 1] == t.audience[..i] + [a];
      if a != clientId {
        additional := additional + [a];
        if a !in trusted {
          assert a in t.audience;
          return false;
        }
      }
    }
    assert t.audience[..|t.audience|] == t.audience;
    assert |additional| != 0 ==> additional[0] in additional;
    var claim := ReadString(t.claims, AZP);
    if claim.Invalid? {
      return false;
    }
    var azp: str := if claim.Present? then claim.s else [];
    if claim.Present? {
      PresentIsNotEmpty(t.claims, AZP);
    }
    if |additional| != 0 && azp == [] {
      return false;
    }
    if azp != [] && azp != clientId {
      return false;
    }
    if maxAge.Some? {
      var authTime := ReadUnixTime(t.claims, AUTH_TIME);
      if authTime.None? || OlderThanMaxAge(authTime.value, now, maxAge.value) {
        return false;
      }
    }
    if |acrValues| != 0 {
      var acr := ReadString(t.claims, ACR);
      if !acr.Present? || acr.s !in acrValues {
        return false;
      }
    }
    ok := true;
  }

  lemma PresentIsNotEmpty(claims: ClaimMap, name: str)
    requires ReadString(claims, name).Present?
    ensures ReadString(claims, name).s != []
  {
  }

  /** With a clock in range, an accepted token meets max_age in unbounded arithmetic. */
  lemma AcceptedMeetsMaxAge(t: Token, clientId: str, trusted: seq<str>, maxAge: int64, acrValues: seq<str>, now: Time)
    requires ClockInRange(now) && 0 <= maxAge <= YEAR_SECONDS
    ensures BindingValid(t, clientId, trusted, Some(maxAge), acrValues, now) <==>
            && BindingValid(t, clientId, trusted, None, acrValues, now)
            && ReadUnixTime(t.claims, AUTH_TIME).Some?
            && MeetsMaxAge(ReadUnixTime(t.claims, AUTH_TIME).value, now, maxAge)
  {
    hide OlderThanMaxAge, MeetsMaxAge, ReadString, ClockInRange;
    if ReadUnixTime(t.claims, AUTH_TIME).Some? {
      var authTime := ReadUnixTime(t.claims, AUTH_TIME).value;
      assert authTime > 0;
      MaxAgeAgrees(authTime, now, maxAge);
    }
  }

  // ---- Nonce ----

  /** Decoded values are compared, in the text of the token newlines do not count. */
  predicate NonceMatches(attemptNonce: str, tokenNonce: str) {
    && DecodeSecret(attemptNonce).Some?
    && DecodeSecret(tokenNonce) == DecodeSecret(attemptNonce)
  }

  /** The nonce test accepts exactly the strings that are the attempt's nonce once CR and LF are removed. */
  lemma NonceLanguage(raw: str, tokenNonce: str)
    requires |raw| == SECRET_BYTES
    ensures NonceMatches(Base64Url.Encode(raw), tokenNonce) <==>
            Base64Url.StripNewlines(tokenNonce) == Base64Url.Encode(raw)
  {
    SecretRoundTrip(raw);
    Base64Url.DecodeExact(tokenNonce, raw);
  }

  // ---- UserInfo ----

  /** A readable UserInfo answer; a signed one also names its issuer and audience. */
  datatype UserInfo = UserInfo(signed: bool, claims: ClaimMap)

  predicate UserInfoAccepted(info: UserInfo, issuer: str, clientId: str, subject: str) {
    && (info.signed ==>
          && ReadString(info.claims, ISS) == Present(issuer)
          && AUD in info.claims && AudienceOf(info.claims[AUD]).Some? && clientId in AudienceOf(info.claims[AUD]).value)
    && ReadString(info.claims, SUB) == Present(subject)
  }

  function OverlayNames(): seq<str> {
    [NAME, EMAIL, EMAIL_VERIFIED, PICTURE]
  }

  function Overlaid(claims: ClaimMap, info: ClaimMap): ClaimMap {
    map name | name in claims.Keys + (info.Keys * Profile()) ::
      if name in info && name in Profile() then info[name] else claims[name]
  }

  function Profile(): set<str> {
    {NAME, EMAIL, EMAIL_VERIFIED, PICTURE}
  }

  /** The loop that overwrites profile claims with those of UserInfo. */
  method Overlay(claims: ClaimMap, info: ClaimMap) returns (merged: ClaimMap)
    ensures merged == Overlaid(claims, info)
  {
    hide NAME, EMAIL, EMAIL_VERIFIED, PICTURE;
    merged := claims;
    for i := 0 to 4
      invariant forall name :: name in merged <==> name in claims || (name in info && name in OverlayNames()[..i])
      invariant forall name | name in merged ::
                  merged[name] == if name in info && name in OverlayNames()[..i] then info[name] else claims[name]
    {
      var name := OverlayNames()[i];
      assert OverlayNames()[..i + 1] == OverlayNames()[..i] + [name];
      if name in info {
        merged := merged[name := info[name]];
      }
    }
    assert OverlayNames()[..4] == OverlayNames();
    assert forall name :: name in OverlayNames() <==> name in Profile();
  }

  // ---- Identity ----

  datatype Identity = Identity(issuer: str, subject: str, displayName: str, email: Option<str>, picture: Option<str>)

  predicate BoundedText(value: str, minimum: nat, maximum: nat) {
    Valid(value) && minimum <= |Runes(value)| <= maximum && !HasControl(value)
  }

  /** A claim that must be a string when it is there; unlike elsewhere the string may be empty. */
  datatype Text = NoText | Text(s: str) | NotText

  function ReadText(claims: ClaimMap, name: str): Text {
    if name !in claims then NoText
    else match claims[name] case JString(s) => Text(s) case _ => NotText
  }

  /** The literal true or false, absent counting as false. */
  function ReadVerified(claims: ClaimMap): Option<bool> {
    if EMAIL_VERIFIED !in claims then Some(false)
    else match claims[EMAIL_VERIFIED] case JBool(b) => Some(b) case _ => None
  }

  /** safeUrl decides whether a picture is an absolute canonical URL of an acceptable scheme. */
  function AcceptIdentity(issuer: str, subject: str, claims: ClaimMap, requireName: bool, requireEmail: bool,
                          safeUrl: str -> bool)
    : Option<Identity>
  {
    if !BoundedText(issuer, 1, 2048) || !BoundedText(subject, 1, 512) then None
    else
      var name, email, picture := ReadText(claims, NAME), ReadText(claims, EMAIL), ReadText(claims, PICTURE);
      if name.NotText? || (requireName && name.NoText?) || (name.Text? && !BoundedText(name.s, 1, 80)) then None
      else if email.NotText? || ReadVerified(claims).None? || (email.Text? && !BoundedText(email.s, 3, 320)) then None
      else
        var accepted := if email.Text? && ReadVerified(claims).value then Some(email.s) else None;
        if requireEmail && accepted == None then None
        else if picture.NotText? || (picture.Text? && (!BoundedText(picture.s, 1, 2048) || !safeUrl(picture.s)))
          then None
        else
          Some(Identity(issuer, subject, if name.Text? then name.s else [], accepted,
                        if picture.Text? then Some(picture.s) else None))
  }

  // ---- The end of an exchange ----

  /** What the attempt demands of the token it will be completed with. */
  datatype Demands = Demands(nonce: str, maxAge: Option<int64>, acrValues: seq<str>, useUserInfo: bool,
                             requireName: bool, requireEmail: bool)

  /** The relying party as the token checks see it. */
  datatype Party = Party(issuer: str, clientId: str, trusted: seq<str>, safeUrl: str -> bool)

  /** accessTokenFits is the at_hash check; info is None when UserInfo could not be fetched or read. */
  function Conclude(p: Party, d: Demands, t: Token, accessTokenFits: bool, info: Option<UserInfo>,
                    now: Time): Option<Identity>
  {
    if !NonceMatches(d.nonce, t.nonce) then None
    else if t.accessTokenHash != [] && !accessTokenFits then None
    else if !BindingValid(t, p.clientId, p.trusted, d.maxAge, d.acrValues, now) then None
    else if d.useUserInfo then
      if info.None? || !UserInfoAccepted(info.value, p.issuer, p.clientId, t.subject) then None
      else AcceptIdentity(t.issuer, t.subject, Overlaid(t.claims, info.value.claims), d.requireName, d.requireEmail,
                          p.safeUrl)
    else AcceptIdentity(t.issuer, t.subject, t.claims, d.requireName, d.requireEmail, p.safeUrl)
  }

  method ConcludeExchange(p: Party, d: Demands, t: Token, accessTokenFits: bool, info: Option<UserInfo>, now: Time)
    returns (r: Option<Identity>)
    ensures r == Conclude(p, d, t, accessTokenFits, info, now)
  {
    hide BindingValid, AcceptIdentity, UserInfoAccepted, Overlaid;
    var claims := t.claims;
    var expected := DecodeSecret(d.nonce);
    var actual := DecodeSecret(t.nonce);
    if expected.None? || actual.None? || expected != actual {
      return None;
    }
    if t.accessTokenHash != [] && !accessTokenFits {
      return None;
    }
    var bound := ValidateIdTokenBinding(t, p.clientId, p.trusted, d.maxAge, d.acrValues, now);
    if !bound {
      return None;
    }
    if d.useUserInfo {
      if info.None? || !UserInfoAccepted(info.value, p.issuer, p.clientId, t.subject) {
        return None;
      }
      claims := Overlay(claims, info.value.claims);
    }
    r := AcceptIdentity(t.issuer, t.subject, claims, d.requireName, d.requireEmail, p.safeUrl);
  }

  /** The claims of a token that can matter. */
  predicate SameWhereRead(a: ClaimMap, b: ClaimMap) {
    forall name | name in {AZP, AUTH_TIME, ACR, NAME, EMAIL, EMAIL_VERIFIED, PICTURE} ::
      (name in a <==> name in b) && (name in a ==> a[name] == b[name])
  }

  predicate SameProfile(a: ClaimMap, b: ClaimMap) {
    forall name | name in Profile() :: (name in a <==> name in b) && (name in a ==> a[name] == b[name])
  }

  /** The issuer and the subject are those of the token, whatever UserInfo says. */
  lemma CoordinatesComeFromToken(p: Party, d: Demands, t: Token, fits: bool, info: Option<UserInfo>, now: Time)
    requires Conclude(p, d, t, fits, info, now).Some?
    ensures var id := Conclude(p, d, t, fits, info, now).value; id.issuer == t.issuer && id.subject == t.subject
    ensures d.useUserInfo ==> info.Some? && ReadString(info.value.claims, SUB) == Present(t.subject)
  {
    hide BindingValid, BoundedText;
  }

  lemma IdentityReadsProfile(issuer: str, subject: str, a: ClaimMap, b: ClaimMap, requireName: bool,
                             requireEmail: bool, safeUrl: str -> bool)
    requires SameProfile(a, b)
    ensures AcceptIdentity(issuer, subject, a, requireName, requireEmail, safeUrl)
            == AcceptIdentity(issuer, subject, b, requireName, requireEmail, safeUrl)
  {
    hide BoundedText;
    assert forall name | name in Profile() :: ReadText(a, name) == ReadText(b, name);
    assert NAME in Profile() && EMAIL in Profile() && PICTURE in Profile() && EMAIL_VERIFIED in Profile();
  }

  /** Claims outside the seven that are read, and outside the profile of UserInfo, never affect the result. */
  lemma OtherClaimsDoNotInterfere(p: Party, d: Demands, t: Token, claims: ClaimMap, fits: bool, info: UserInfo,
                                  infoClaims: ClaimMap, now: Time)
    requires SameWhereRead(t.claims, claims) && SameProfile(info.claims, infoClaims)
    requires UserInfoAccepted(info, p.issuer, p.clientId, t.subject)
             <==> UserInfoAccepted(info.(claims := infoClaims), p.issuer, p.clientId, t.subject)
    ensures Conclude(p, d, t, fits, Some(info), now)
            == Conclude(p, d, t.(claims := claims), fits, Some(info.(claims := infoClaims)), now)
  {
    hide AcceptIdentity, UserInfoAccepted, NonceMatches, OlderThanMaxAge, BoundedText;
    var u := t.(claims := claims);
    BindingReads(t, claims, p, d, now);
    assert SameProfile(t.claims, claims);
    assert SameProfile(Overlaid(t.claims, info.claims), Overlaid(claims, infoClaims));
    IdentityReadsProfile(t.issuer, t.subject, t.claims, claims, d.requireName, d.requireEmail, p.safeUrl);
    IdentityReadsProfile(t.issuer, t.subject, Overlaid(t.claims, info.claims), Overlaid(claims, infoClaims),
                         d.requireName, d.requireEmail, p.safeUrl);
  }

  lemma BindingReads(t: Token, claims: ClaimMap, p: Party, d: Demands, now: Time)
    requires SameWhereRead(t.claims, claims)
    ensures BindingValid(t, p.clientId, p.trusted, d.maxAge, d.acrValues, now)
            == BindingValid(t.(claims := claims), p.clientId, p.trusted, d.maxAge, d.acrValues, now)
  {
    hide OlderThanMaxAge;
    var names := {AZP, AUTH_TIME, ACR, NAME, EMAIL, EMAIL_VERIFIED, PICTURE};
    assert AZP in names && AUTH_TIME in names && ACR in names;
    assert ReadString(t.claims, AZP) == ReadString(claims, AZP) && ReadString(t.claims, ACR) == ReadString(claims, ACR);
    assert ReadUnixTime(t.claims, AUTH_TIME) == ReadUnixTime(claims, AUTH_TIME);
  }

  /** When an email is required, success means that the merged claims carry one and call it verified. */
  lemma RequiredEmailIsVerified(p: Party, d: Demands, t: Token, fits: bool, info: Option<UserInfo>, now: Time)
    requires d.requireEmail && Conclude(p, d, t, fits, info, now).Some?
    ensures var merged := if d.useUserInfo && info.Some? then Overlaid(t.claims, info.value.claims) else t.claims;
            && EMAIL_VERIFIED in merged && merged[EMAIL_VERIFIED] == JBool(true)
            && EMAIL in merged && merged[EMAIL].JString?
            && Conclude(p, d, t, fits, info, now).value.email == Some(merged[EMAIL].s)
  {
    hide BindingValid, BoundedText, UserInfoAccepted, NonceMatches, Overlaid;
  }

  /** What success says of the token and of the identity made of it. */
  lemma ConcludedMeans(p: Party, d: Demands, t: Token, fits: bool, info: Option<UserInfo>, now: Time)
    requires Conclude(p, d, t, fits, info, now).Some?
    ensures var id := Conclude(p, d, t, fits, info, now).value;
            && NonceMatches(d.nonce, t.nonce)
            && BindingValid(t, p.clientId, p.trusted, d.maxAge, d.acrValues, now)
            && p.clientId in t.audience
            && id.issuer == t.issuer && id.subject == t.subject
            && (d.maxAge.Some? ==> ReadUnixTime(t.claims, AUTH_TIME).Some?)
            && (d.acrValues != [] ==> ReadString(t.claims, ACR).Present? && ReadString(t.claims, ACR).s in d.acrValues)
            && (d.requireEmail ==> id.email.Some?) && (d.requireName ==> id.displayName != [])
  {
    hide NonceMatches, ReadString, ReadUnixTime, OlderThanMaxAge, Overlaid, UserInfoAccepted;
    var claims := if d.useUserInfo then Overlaid(t.claims, info.value.claims) else t.claims;
    AcceptedIdentity(t.issuer, t.subject, claims, d.requireName, d.requireEmail, p.safeUrl);
    hide AcceptIdentity;
  }

  lemma AcceptedIdentity(issuer: str, subject: str, claims: ClaimMap, requireName: bool, requireEmail: bool,
                         safeUrl: str -> bool)
    ensures var r := AcceptIdentity(issuer, subject, claims, requireName, requireEmail, safeUrl);
            r.Some? ==>
              && r.value.issuer == issuer && r.value.subject == subject
              && (requireEmail ==> r.value.email.Some?) && (requireName ==> r.value.displayName != [])
  {
    EmptyIsUnbounded();
    hide BoundedText;
  }

  lemma EmptyIsUnbounded()
    ensures !BoundedText([], 1, 80)
  {
  }

  // ---- The exact conditions, in terms of the claims ----

  /** Audience, authorized party, age and class of a token that is bound to this client. */
  lemma BindingExactly(t: Token, clientId: str, trusted: seq<str>, maxAge: Option<int64>, acrValues: seq<str>,
                       now: Time)
    ensures BindingValid(t, clientId, trusted, maxAge, acrValues, now) <==>
            && clientId in t.audience && (forall a | a in t.audience :: a == clientId || a in trusted)
            && (if AZP in t.claims then clientId != [] && t.claims[AZP] == JString(clientId)
                else forall a | a in t.audience :: a == clientId)
            && (maxAge.Some? ==>
                  && ReadUnixTime(t.claims, AUTH_TIME).Some?
                  && !OlderThanMaxAge(ReadUnixTime(t.claims, AUTH_TIME).value, now, maxAge.value))
            && (acrValues != [] ==>
                  && ACR in t.claims && t.claims[ACR].JString? && t.claims[ACR].s != [] && t.claims[ACR].s in acrValues)
  {
    hide ReadUnixTime, OlderThanMaxAge;
  }

  /** UserInfo counts when it names the same subject and, signed, this issuer and this client. */
  lemma UserInfoExactly(info: UserInfo, issuer: str, clientId: str, subject: str)
    ensures UserInfoAccepted(info, issuer, clientId, subject) <==>
            && subject != [] && SUB in info.claims && info.claims[SUB] == JString(subject)
            && (info.signed ==>
                  && issuer != [] && ISS in info.claims && info.claims[ISS] == JString(issuer)
                  && AUD in info.claims
                  && exists audience :: AudienceOf(info.claims[AUD]) == Some(audience) && clientId in audience)
  {
    hide AudienceOf;
  }

  /** Of the merged claims the four profile claims are those of UserInfo where it has them. */
  lemma OverlaySays(claims: ClaimMap, info: ClaimMap, name: str)
    ensures var merged := Overlaid(claims, info);
            if name in {"name", "email", "email_verified", "picture"} && name in info then
              name in merged && merged[name] == info[name]
            else (name in merged <==> name in claims) && (name in claims ==> merged[name] == claims[name])
  {
  }

  /** Valid UTF-8 of so many runes, none of them a control character. */
  predicate TextWithin(value: str, minimum: nat, maximum: nat) {
    Valid(value) && minimum <= |Runes(value)| <= maximum && forall r | r in Runes(value) :: !IsControl(r)
  }

  /** The identity, field by field: the email only when it is called verified, whether or not one is required. */
  lemma IdentityExactly(issuer: str, subject: str, claims: ClaimMap, requireName: bool, requireEmail: bool,
                        safeUrl: str -> bool, id: Identity)
    ensures AcceptIdentity(issuer, subject, claims, requireName, requireEmail, safeUrl) == Some(id) <==>
            && id.issuer == issuer && TextWithin(issuer, 1, 2048)
            && id.subject == subject && TextWithin(subject, 1, 512)
            && (if NAME in claims then claims[NAME] == JString(id.displayName) && TextWithin(id.displayName, 1, 80)
                else !requireName && id.displayName == [])
            && (EMAIL in claims ==> claims[EMAIL].JString? && TextWithin(claims[EMAIL].s, 3, 320))
            && (EMAIL_VERIFIED in claims ==> claims[EMAIL_VERIFIED].JBool?)
            && (forall e: str ::
                  id.email == Some(e) <==>
                  && EMAIL in claims && claims[EMAIL] == JString(e)
                  && EMAIL_VERIFIED in claims && claims[EMAIL_VERIFIED] == JBool(true))
            && (requireEmail ==> id.email.Some?)
            && (if PICTURE in claims then
                  && claims[PICTURE].JString? && id.picture == Some(claims[PICTURE].s)
                  && TextWithin(claims[PICTURE].s, 1, 2048) && safeUrl(claims[PICTURE].s)
                else id.picture == None)
  {
    forall value, minimum, maximum
      ensures BoundedText(value, minimum, maximum) <==> TextWithin(value, minimum, maximum)
    {
    }
    hide BoundedText, TextWithin;
    if id.email.Some? {
      var e := id.email.value;
    } else if EMAIL in claims && claims[EMAIL].JString? {
      var e := claims[EMAIL].s;
      assert id.email != Some(e);
    }
  }

  /** When an exchange ends in an identity, and in which one. */
  lemma ConcludedExactly(p: Party, d: Demands, t: Token, fits: bool, info: Option<UserInfo>, now: Time, id: Identity)
    ensures Conclude(p, d, t, fits, info, now) == Some(id) <==>
            && NonceMatches(d.nonce, t.nonce) && (fits || t.accessTokenHash == [])
            && BindingValid(t, p.clientId, p.trusted, d.maxAge, d.acrValues, now)
            && (d.useUserInfo ==> info.Some? && UserInfoAccepted(info.value, p.issuer, p.clientId, t.subject))
            && AcceptIdentity(t.issuer, t.subject,
                              if d.useUserInfo then Overlaid(t.claims, info.value.claims) else t.claims,
                              d.requireName, d.requireEmail, p.safeUrl) == Some(id)
  {
    hide NonceMatches, BindingValid, UserInfoAccepted, AcceptIdentity, Overlaid;
  }
}
