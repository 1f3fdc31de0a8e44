/** The sealed record of what an attempt was begun with: its JSON payload, its envelope and its binding check. */
module AttemptContext {
  import opened Bytes
  import opened Crypto
  import opened Utf8
  import opened GoTime
  import opened Json
  import opened LoginProtection
  import Base64Url

  const CONTEXT_VERSION := 1
  const MAX_PAYLOAD := 32768
  const LABEL_CONTEXT: str := "context"
  const CONTEXT_KEY_LABEL: str := LABEL_ROOT + LABEL_ATTEMPT + LABEL_CONTEXT + LABEL_CIPHER
  const LABEL_CONTEXT_NONCE: str := "context/nonce/v1"
  const CONTEXT_NONCE_LABEL: str := LABEL_ROOT + LABEL_ATTEMPT + LABEL_CONTEXT_NONCE

  const MODE_QUERY: str := "query"
  const MODE_FORM_POST: str := "form_post"
  const MODE_JWT: str := "jwt"
  const MODE_QUERY_JWT: str := "query.jwt"
  const MODE_FORM_JWT: str := "form_post.jwt"

  datatype Context = Context(
    version: int64, issuer: str, clientId: str, redirectUrl: str, responseMode: str, requireResponseIssuer: bool,
    startedAt: int64, maxAge: Option<int64>, acrValues: seq<str>, useUserInfo: bool, requireName: bool,
    requireEmail: bool, offlineAccess: bool)

  const EMPTY: Context := Context(0, [], [], [], [], false, 0, None, [], false, false, false, false)

  // ---- The record as JSON ----

  datatype Field =
    | FVersion | FIssuer | FClientId | FRedirectUri | FResponseMode | FRequireResponseIssuer | FStartedAt
    | FMaxAge | FAcrValues | FUseUserInfo | FRequireName | FRequireEmail | FOfflineAccess

  function KeyOf(f: Field): str {
    match f
    case FVersion => "version"
    case FIssuer => "issuer"
    case FClientId => "client_id"
    case FRedirectUri => "redirect_uri"
    case FResponseMode => "response_mode"
    case FRequireResponseIssuer => "require_response_issuer"
    case FStartedAt => "started_at"
    case FMaxAge => "max_age"
    case FAcrValues => "acr_values"
    case FUseUserInfo => "use_userinfo"
    case FRequireName => "require_name"
    case FRequireEmail => "require_email"
    case FOfflineAccess => "offline_access"
  }

  function FieldOf(key: str): Option<Field> {
    if key == KeyOf(FVersion) then Some(FVersion)
    else if key == KeyOf(FIssuer) then Some(FIssuer)
    else if key == KeyOf(FClientId) then Some(FClientId)
    else if key == KeyOf(FRedirectUri) then Some(FRedirectUri)
    else if key == KeyOf(FResponseMode) then Some(FResponseMode)
    else if key == KeyOf(FRequireResponseIssuer) then Some(FRequireResponseIssuer)
    else if key == KeyOf(FStartedAt) then Some(FStartedAt)
    else if key == KeyOf(FMaxAge) then Some(FMaxAge)
    else if key == KeyOf(FAcrValues) then Some(FAcrValues)
    else if key == KeyOf(FUseUserInfo) then Some(FUseUserInfo)
    else if key == KeyOf(FRequireName) then Some(FRequireName)
    else if key == KeyOf(FRequireEmail) then Some(FRequireEmail)
    else if key == KeyOf(FOfflineAccess) then Some(FOfflineAccess)
    else None
  }

  lemma FieldOfKey(f: Field)
    ensures FieldOf(KeyOf(f)) == Some(f)
  {
  }

  function At(f: Field, v: Value): Member {
    Member(KeyOf(f), v)
  }

  /** The members before the optional ones. */
  function FirstMembers(x: Context): seq<Member> {
    [At(FVersion, Number(x.version)), At(FIssuer, Text(x.issuer)), At(FClientId, Text(x.clientId)),
     At(FRedirectUri, Text(x.redirectUrl)), At(FResponseMode, Text(x.responseMode)),
     At(FRequireResponseIssuer, Flag(x.requireResponseIssuer)), At(FStartedAt, Number(x.startedAt))]
  }

  /** max_age is left out when absent, acr_values when empty. */
  function OptionalMembers(x: Context): seq<Member> {
    (if x.maxAge.Some? then [At(FMaxAge, Number(x.maxAge.value))] else [])
    + (if x.acrValues != [] then [At(FAcrValues, Texts(x.acrValues))] else [])
  }

  function LastMembers(x: Context): seq<Member> {
    [At(FUseUserInfo, Flag(x.useUserInfo)), At(FRequireName, Flag(x.requireName)),
     At(FRequireEmail, Flag(x.requireEmail)), At(FOfflineAccess, Flag(x.offlineAccess))]
  }

  function Members(x: Context): seq<Member> {
    FirstMembers(x) + OptionalMembers(x) + LastMembers(x)
  }

  function Payload(x: Context): str {
    PrintObject(Members(x))
  }

  /** One member stored into the record: null leaves a scalar as it was, another type is an error. */
  function Store(x: Context, f: Field, v: Value): Option<Context> {
    match (f, v)
    case (FMaxAge, Null) => Some(x.(maxAge := None))
    case (FAcrValues, Null) => Some(x.(acrValues := []))
    case (_, Null) => Some(x)
    case (FVersion, Number(n)) => if Fits64(n) then Some(x.(version := n)) else None
    case (FIssuer, Text(s)) => Some(x.(issuer := s))
    case (FClientId, Text(s)) => Some(x.(clientId := s))
    case (FRedirectUri, Text(s)) => Some(x.(redirectUrl := s))
    case (FResponseMode, Text(s)) => Some(x.(responseMode := s))
    case (FRequireResponseIssuer, Flag(b)) => Some(x.(requireResponseIssuer := b))
    case (FStartedAt, Number(n)) => if Fits64(n) then Some(x.(startedAt := n)) else None
    case (FMaxAge, Number(n)) => if Fits64(n) then Some(x.(maxAge := Some(n))) else None
    case (FAcrValues, Texts(items)) => Some(x.(acrValues := items))
    case (FUseUserInfo, Flag(b)) => Some(x.(useUserInfo := b))
    case (FRequireName, Flag(b)) => Some(x.(requireName := b))
    case (FRequireEmail, Flag(b)) => Some(x.(requireEmail := b))
    case (FOfflineAccess, Flag(b)) => Some(x.(offlineAccess := b))
    case _ => None
  }

  /** Members are stored in their order, later ones over earlier ones; unknown keys are skipped. */
  function StoreAll(x: Context, ms: seq<Member>): Option<Context>
    decreases |ms|
  {
    if ms == [] then Some(x)
    else
      match FieldOf(ms[0].key)
      case None => StoreAll(x, ms[1..])
      case Some(f) =>
        match Store(x, f, ms[0].value)
        case None => None
        case Some(y) => StoreAll(y, ms[1..])
  }

  function ParsePayload(payload: str): Option<Context> {
    match ReadObject(payload)
    case None => None
    case Some(ms) => StoreAll(EMPTY, ms)
  }

  predicate AllValid(items: seq<str>) {
    forall s | s in items :: Valid(s)
  }

  /** Every text of the record is valid UTF-8. */
  predicate TextsValid(x: Context) {
    Valid(x.issuer) && Valid(x.clientId) && Valid(x.redirectUrl) && Valid(x.responseMode) && AllValid(x.acrValues)
  }

  /** The record as the JSON round trip leaves it. */
  function Coerced(x: Context): Context {
    x.(issuer := Coerce(x.issuer), clientId := Coerce(x.clientId), redirectUrl := Coerce(x.redirectUrl),
       responseMode := Coerce(x.responseMode), acrValues := CoerceAll(x.acrValues))
  }

  lemma CoercedIsIdentity(x: Context)
    ensures Coerced(x) == x <==> TextsValid(x)
  {
    hide Coerce, Valid;
    CoerceIsIdentity(x.issuer);
    CoerceIsIdentity(x.clientId);
    CoerceIsIdentity(x.redirectUrl);
    CoerceIsIdentity(x.responseMode);
    forall i | 0 <= i < |x.acrValues| ensures CoerceAll(x.acrValues)[i] == x.acrValues[i] <==> Valid(x.acrValues[i]) {
      CoerceIsIdentity(x.acrValues[i]);
    }
  }

  lemma {:induction false} AsciiIsValid(s: str)
    requires forall i | 0 <= i < |s| :: s[i] as int < 0x80
    ensures Valid(s) && Coerce(s) == s
  {
    if s != [] {
      AsciiIsValid(s[1..]);
      assert s[..1] + s[1..] == s;
    }
  }

  /** ASCII that JSON prints as it is. */
  predicate Plain(c: byte) {
    0x20 <= c as int < 0x80 && c != '"' && c != '\\' && !NeedsUnicodeEscape(c)
  }

  lemma FrontKeyIsPlain(f: Field)
    requires f in {FVersion, FIssuer, FClientId, FRedirectUri, FResponseMode, FRequireResponseIssuer, FStartedAt}
    ensures forall i | 0 <= i < |KeyOf(f)| :: Plain(KeyOf(f)[i])
  {
  }

  lemma BackKeyIsPlain(f: Field)
    requires f in {FMaxAge, FAcrValues, FUseUserInfo, FRequireName, FRequireEmail, FOfflineAccess}
    ensures forall i | 0 <= i < |KeyOf(f)| :: Plain(KeyOf(f)[i])
  {
  }

  lemma KeyIsPlain(f: Field)
    ensures forall i | 0 <= i < |KeyOf(f)| :: Plain(KeyOf(f)[i])
  {
    hide KeyOf, Plain;
    if f in {FVersion, FIssuer, FClientId, FRedirectUri, FResponseMode, FRequireResponseIssuer, FStartedAt} {
      FrontKeyIsPlain(f);
    } else {
      BackKeyIsPlain(f);
    }
  }

  lemma KeyIsValid(f: Field)
    ensures Coerce(KeyOf(f)) == KeyOf(f)
  {
    hide Coerce, KeyOf;
    KeyIsPlain(f);
    AsciiIsValid(KeyOf(f));
  }

  lemma StoreStep(x: Context, f: Field, v: Value, rest: seq<Member>)
    ensures StoreAll(x, [Member(Coerce(KeyOf(f)), v)] + rest) ==
            match Store(x, f, v) case None => None case Some(y) => StoreAll(y, rest)
  {
    hide Store, Coerce, KeyOf, FieldOf;
    KeyIsValid(f);
    FieldOfKey(f);
    var ms := [Member(Coerce(KeyOf(f)), v)] + rest;
    assert ms[1..] == rest;
  }

  /** Stored after printing and reading: one coerced member. */
  function Read(f: Field, v: Value): seq<Member> {
    [Member(Coerce(KeyOf(f)), CoerceValue(v))]
  }

  lemma CoercedMembers(x: Context)
    ensures CoerceMembers(Members(x)) ==
            Read(FVersion, Number(x.version)) + (Read(FIssuer, Text(x.issuer)) + (Read(FClientId, Text(x.clientId))
            + (Read(FRedirectUri, Text(x.redirectUrl)) + (Read(FResponseMode, Text(x.responseMode))
            + (Read(FRequireResponseIssuer, Flag(x.requireResponseIssuer)) + (Read(FStartedAt, Number(x.startedAt))
            + (CoerceMembers(OptionalMembers(x)) + CoerceMembers(LastMembers(x)))))))))
  {
    hide Coerce, CoerceValue, KeyOf;
  }

  lemma OptionalStored(y: Context, x: Context, rest: seq<Member>)
    requires y.maxAge == None && y.acrValues == []
    ensures StoreAll(y, CoerceMembers(OptionalMembers(x)) + rest) ==
            StoreAll(y.(maxAge := x.maxAge, acrValues := CoerceAll(x.acrValues)), rest)
  {
    hide Coerce, KeyOf, FieldOf, StoreAll;
    var acr := if x.acrValues != [] then Read(FAcrValues, Texts(x.acrValues)) else [];
    var age := if x.maxAge.Some? then Read(FMaxAge, Number(x.maxAge.value)) else [];
    assert CoerceMembers(OptionalMembers(x)) + rest == age + (acr + rest);
    if x.maxAge.Some? {
      StoreStep(y, FMaxAge, Number(x.maxAge.value), acr + rest);
    } else {
      assert age + (acr + rest) == acr + rest;
    }
    if x.acrValues != [] {
      StoreStep(y.(maxAge := x.maxAge), FAcrValues, CoerceValue(Texts(x.acrValues)), rest);
    } else {
      assert acr + rest == rest && CoerceAll(x.acrValues) == [];
    }
  }

  lemma LastStored(y: Context, x: Context)
    ensures StoreAll(y, CoerceMembers(LastMembers(x))) ==
            Some(y.(useUserInfo := x.useUserInfo, requireName := x.requireName, requireEmail := x.requireEmail,
                    offlineAccess := x.offlineAccess))
  {
    hide Coerce, KeyOf, FieldOf, StoreAll;
    var m4 := Read(FOfflineAccess, Flag(x.offlineAccess)) + [];
    var m3 := Read(FRequireEmail, Flag(x.requireEmail)) + m4;
    var m2 := Read(FRequireName, Flag(x.requireName)) + m3;
    assert CoerceMembers(LastMembers(x)) == Read(FUseUserInfo, Flag(x.useUserInfo)) + m2;
    var y1 := y.(useUserInfo := x.useUserInfo);
    var y2 := y1.(requireName := x.requireName);
    var y3 := y2.(requireEmail := x.requireEmail);
    StoreStep(y, FUseUserInfo, Flag(x.useUserInfo), m2);
    StoreStep(y1, FRequireName, Flag(x.requireName), m3);
    StoreStep(y2, FRequireEmail, Flag(x.requireEmail), m4);
    StoreStep(y3, FOfflineAccess, Flag(x.offlineAccess), []);
    NothingStored(y3.(offlineAccess := x.offlineAccess));
  }

  lemma NothingStored(x: Context)
    ensures StoreAll(x, []) == Some(x)
  {
  }

  /** Reading back what was printed. */
  lemma PayloadRoundTrip(x: Context)
    ensures ParsePayload(Payload(x)) == Some(Coerced(x))
  {
    hide Coerce, KeyOf, FieldOf, StoreAll, CoerceMembers, ReadObject, PrintObject;
    ObjectReads(Members(x));
    CoercedMembers(x);
    var m8 := CoerceMembers(OptionalMembers(x)) + CoerceMembers(LastMembers(x));
    var m7 := Read(FStartedAt, Number(x.startedAt)) + m8;
    var m6 := Read(FRequireResponseIssuer, Flag(x.requireResponseIssuer)) + m7;
    var m5 := Read(FResponseMode, Text(x.responseMode)) + m6;
    var m4 := Read(FRedirectUri, Text(x.redirectUrl)) + m5;
    var m3 := Read(FClientId, Text(x.clientId)) + m4;
    var m2 := Read(FIssuer, Text(x.issuer)) + m3;
    var y1 := EMPTY.(version := x.version);
    var y2 := y1.(issuer := Coerce(x.issuer));
    var y3 := y2.(clientId := Coerce(x.clientId));
    var y4 := y3.(redirectUrl := Coerce(x.redirectUrl));
    var y5 := y4.(responseMode := Coerce(x.responseMode));
    var y6 := y5.(requireResponseIssuer := x.requireResponseIssuer);
    var y7 := y6.(startedAt := x.startedAt);
    StoreStep(EMPTY, FVersion, Number(x.version), m2);
    StoreStep(y1, FIssuer, CoerceValue(Text(x.issuer)), m3);
    StoreStep(y2, FClientId, CoerceValue(Text(x.clientId)), m4);
    StoreStep(y3, FRedirectUri, CoerceValue(Text(x.redirectUrl)), m5);
    StoreStep(y4, FResponseMode, CoerceValue(Text(x.responseMode)), m6);
    StoreStep(y5, FRequireResponseIssuer, Flag(x.requireResponseIssuer), m7);
    StoreStep(y6, FStartedAt, Number(x.startedAt), m8);
    OptionalStored(y7, x, CoerceMembers(LastMembers(x)));
    LastStored(y7.(maxAge := x.maxAge, acrValues := CoerceAll(x.acrValues)), x);
  }

  /** A member of a record as it is spelled: its key needs no escaping. */
  function MemberEntry(m: Member): str {
    ['"'] + m.key + ['"', ':'] + PrintValue(m.value)
  }

  function MemberEntries(ms: seq<Member>): (r: seq<str>)
    ensures |r| == |ms|
  {
    seq(|ms|, i requires 0 <= i < |ms| => MemberEntry(ms[i]))
  }

  lemma EntriesStep(ms: seq<Member>)
    requires ms != []
    ensures MemberEntries(ms) == [MemberEntry(ms[0])] + MemberEntries(ms[1..])
  {
    hide MemberEntry;
  }

  lemma EntryText(m: Member, more: str)
    requires forall c | c in m.key :: Plain(c)
    ensures MemberText(m, more) == MemberEntry(m) + more
  {
    hide PrintValue, Plain, Escape;
    PlainEscapes(m.key);
  }

  lemma {:induction false} MembersText(ms: seq<Member>)
    requires ms != [] && forall m | m in ms :: forall c | c in m.key :: Plain(c)
    ensures PrintMembers(ms) == Join(MemberEntries(ms), ",") + ['}']
  {
    hide Plain, MemberEntries, MemberEntry, MemberText;
    EntriesStep(ms);
    if |ms| == 1 {
      assert ms[1..] == [];
      EntryText(ms[0], ['}']);
    } else {
      MembersText(ms[1..]);
      EntryText(ms[0], [','] + PrintMembers(ms[1..]));
    }
  }

  predicate IsKey(key: str) {
    exists f :: key == KeyOf(f)
  }

  lemma MembersHaveKeys(x: Context)
    ensures forall m | m in Members(x) :: IsKey(m.key)
  {
    hide KeyOf, IsKey;
    forall f ensures IsKey(KeyOf(f)) {
      KeyIsAKey(f);
    }
    assert forall m | m in FirstMembers(x) :: IsKey(m.key);
    assert forall m | m in OptionalMembers(x) :: IsKey(m.key);
    assert forall m | m in LastMembers(x) :: IsKey(m.key);
    hide FirstMembers, OptionalMembers, LastMembers;
  }

  lemma KeyIsAKey(f: Field)
    ensures IsKey(KeyOf(f))
  {
    hide KeyOf;
  }

  lemma KeysArePlain(x: Context)
    ensures forall m | m in Members(x) :: forall c | c in m.key :: Plain(c)
  {
    hide Members, Plain, KeyOf;
    MembersHaveKeys(x);
    forall m | m in Members(x) ensures forall c | c in m.key :: Plain(c) {
      assert IsKey(m.key);
      var f :| m.key == KeyOf(f);
      KeyIsPlain(f);
    }
  }

  lemma FirstSpelled(x: Context)
    ensures FirstMembers(x) ==
            [Member("version", Number(x.version)), Member("issuer", Text(x.issuer)),
             Member("client_id", Text(x.clientId)), Member("redirect_uri", Text(x.redirectUrl)),
             Member("response_mode", Text(x.responseMode)),
             Member("require_response_issuer", Flag(x.requireResponseIssuer)),
             Member("started_at", Number(x.startedAt))]
  {
  }

  lemma OptionalSpelled(x: Context)
    ensures OptionalMembers(x) ==
            (if x.maxAge.Some? then [Member("max_age", Number(x.maxAge.value))] else [])
            + (if x.acrValues != [] then [Member("acr_values", Texts(x.acrValues))] else [])
  {
  }

  lemma LastSpelled(x: Context)
    ensures LastMembers(x) ==
            [Member("use_userinfo", Flag(x.useUserInfo)), Member("require_name", Flag(x.requireName)),
             Member("require_email", Flag(x.requireEmail)), Member("offline_access", Flag(x.offlineAccess))]
  {
  }

  /** The text that is sealed, key by key. */
  lemma PayloadText(x: Context)
    ensures var members :=
      [Member("version", Number(x.version)), Member("issuer", Text(x.issuer)), Member("client_id", Text(x.clientId)),
       Member("redirect_uri", Text(x.redirectUrl)), Member("response_mode", Text(x.responseMode)),
       Member("require_response_issuer", Flag(x.requireResponseIssuer)), Member("started_at", Number(x.startedAt))]
      + ((if x.maxAge.Some? then [Member("max_age", Number(x.maxAge.value))] else [])
         + (if x.acrValues != [] then [Member("acr_values", Texts(x.acrValues))] else []))
      + [Member("use_userinfo", Flag(x.useUserInfo)), Member("require_name", Flag(x.requireName)),
         Member("require_email", Flag(x.requireEmail)), Member("offline_access", Flag(x.offlineAccess))];
      Payload(x) == ['{'] + Join(MemberEntries(members), ",") + ['}']
  {
    hide PrintMembers, Join, MemberEntries, Plain, FirstMembers, OptionalMembers, LastMembers;
    FirstSpelled(x);
    OptionalSpelled(x);
    LastSpelled(x);
    KeysArePlain(x);
    MembersNonEmpty(x);
    MembersText(Members(x));
    hide Members;
  }

  // ---- The envelope ----

  function ContextKey(c: Suite, state: str): str {
    c.hmac(state, CONTEXT_KEY_LABEL)
  }

  function ContextNonce(c: Suite, state: str): (n: str)
    ensures |n| == NONCE_BYTES
  {
    c.hmac(state, CONTEXT_NONCE_LABEL)[..NONCE_BYTES]
  }

  /** The nonce is derived under a purpose of its own, which is none of the three that keys are derived under. */
  lemma NonceIsDerivedApart(c: Suite, state: str)
    ensures exists purpose: str ::
              && ContextNonce(c, state) == c.hmac(state, purpose)[..NONCE_BYTES]
              && purpose !in {NONCE_KEY_LABEL, VERIFIER_KEY_LABEL, CONTEXT_KEY_LABEL}
  {
    var n := |LABEL_ROOT + LABEL_ATTEMPT|;
    assert CONTEXT_NONCE_LABEL[n] == 'c' && NONCE_KEY_LABEL[n] == 'n' && VERIFIER_KEY_LABEL[n] == 'p';
    assert CONTEXT_NONCE_LABEL[n + 8] == 'n' && CONTEXT_KEY_LABEL[n + 8] == 'a';
    var own := CONTEXT_NONCE_LABEL;
    assert ContextNonce(c, state) == c.hmac(state, own)[..NONCE_BYTES];
  }

  function ContextEnvelope(c: Suite, state: str, payload: str, stateHash: str): str {
    [Byte(CONTEXT_VERSION)] + c.seal(ContextKey(c, state), ContextNonce(c, state), payload, stateHash)
  }

  function Seal(c: Suite, stateValue: str, stateHash: str, x: Context): Option<str> {
    match DecodeSecret(stateValue)
    case None => None
    case Some(state) =>
      if |Payload(x)| > MAX_PAYLOAD then None else Some(ContextEnvelope(c, state, Payload(x), stateHash))
  }

  predicate EnvelopeFormat(envelope: str) {
    && 1 + TAG_BYTES <= |envelope| <= 1 + MAX_PAYLOAD + TAG_BYTES
    && envelope[0] == Byte(CONTEXT_VERSION)
  }

  function Open(c: Suite, stateValue: str, stateHash: str, envelope: str): Option<Context> {
    if !EnvelopeFormat(envelope) || DecodeSecret(stateValue).None? || c.sha256(stateValue) != stateHash then None
    else
      var state := DecodeSecret(stateValue).value;
      match c.open(ContextKey(c, state), ContextNonce(c, state), envelope[1..], stateHash)
      case None => None
      case Some(payload) =>
        match ParsePayload(payload)
        case None => None
        case Some(x) => if x.version != CONTEXT_VERSION || x.startedAt <= 0 then None else Some(x)
  }

  /** Two keyed hashes of the state; the second is cut to a nonce in a fixed array. */
  method DeriveAttemptContextKey(c: Suite, state: str) returns (key: str, nonce: array<byte>)
    ensures fresh(nonce) && key == ContextKey(c, state) && nonce[..] == ContextNonce(c, state)
  {
    key := c.hmac(state, CONTEXT_KEY_LABEL);
    var sum := c.hmac(state, CONTEXT_NONCE_LABEL);
    nonce := new byte[NONCE_BYTES];
    for i := 0 to NONCE_BYTES
      invariant nonce[..i] == sum[..i]
    {
      nonce[i] := sum[i];
    }
    assert nonce[..] == nonce[..NONCE_BYTES];
  }

  method SealAttemptContext(c: Suite, stateValue: str, stateHash: str, value: Context) returns (r: Option<str>)
    ensures r == Seal(c, stateValue, stateHash, value)
  {
    hide Payload;
    var state := DecodeSecret(stateValue);
    if state.None? {
      return None;
    }
    var payload := Payload(value);
    if |payload| > MAX_PAYLOAD {
      return None;
    }
    var key, nonce := DeriveAttemptContextKey(c, state.value);
    var envelope := [Byte(CONTEXT_VERSION)];
    envelope := envelope + c.seal(key, nonce[..], payload, stateHash);
    r := Some(envelope);
  }

  method OpenAttemptContext(c: Suite, stateValue: str, stateHash: str, envelope: str) returns (r: Option<Context>)
    ensures r == Open(c, stateValue, stateHash, envelope)
  {
    hide ParsePayload;
    if |envelope| < 1 + TAG_BYTES || |envelope| > 1 + MAX_PAYLOAD + TAG_BYTES || envelope[0] != Byte(CONTEXT_VERSION) {
      return None;
    }
    var state := DecodeSecret(stateValue);
    if state.None? {
      return None;
    }
    if c.sha256(stateValue) != stateHash {
      return None;
    }
    var key, nonce := DeriveAttemptContextKey(c, state.value);
    var payload := c.open(key, nonce[..], envelope[1..], stateHash);
    if payload.None? {
      return None;
    }
    r := ParsePayload(payload.value);
    if r.None? || r.value.version != CONTEXT_VERSION || r.value.startedAt <= 0 {
      return None;
    }
  }

  /** Every envelope that sealing emits passes both size checks on its way back, the second one in base64url. */
  lemma SealedSizes(c: Suite, stateValue: str, stateHash: str, x: Context, envelope: str)
    requires Seal(c, stateValue, stateHash, x) == Some(envelope)
    ensures EnvelopeFormat(envelope) && envelope[1..] == c.seal(ContextKey(c, DecodeSecret(stateValue).value),
              ContextNonce(c, DecodeSecret(stateValue).value), Payload(x), stateHash)
    ensures |Base64Url.Encode(envelope)| <= Base64Url.EncodedLen(1 + MAX_PAYLOAD + TAG_BYTES)
    ensures Base64Url.Decode(Base64Url.Encode(envelope)) == Some(envelope)
  {
    hide Payload;
    Base64Url.EncodeShape(envelope);
    Base64Url.DecodeEncode(envelope);
    EncodedLenMonotone(|envelope|, 1 + MAX_PAYLOAD + TAG_BYTES);
  }

  lemma EncodedLenMonotone(m: nat, n: nat)
    requires m <= n
    ensures Base64Url.EncodedLen(m) <= Base64Url.EncodedLen(n)
  {
    assert m == m / 3 * 3 + m % 3 && n == n / 3 * 3 + n % 3;
  }

  /** What opening makes of a sealed record. */
  lemma OpenSealed(c: Suite, stateValue: str, x: Context, envelope: str)
    requires Seal(c, stateValue, c.sha256(stateValue), x) == Some(envelope)
    ensures Open(c, stateValue, c.sha256(stateValue), envelope) ==
            if x.version == CONTEXT_VERSION && x.startedAt > 0 then Some(Coerced(x)) else None
  {
    hide Payload, ParsePayload;
    SealedSizes(c, stateValue, c.sha256(stateValue), x, envelope);
    PayloadRoundTrip(x);
  }

  /** Opening returns the identical record exactly when its texts are valid UTF-8 and its clock is after 1970. */
  lemma RoundTripExact(c: Suite, stateValue: str, x: Context, envelope: str)
    requires Seal(c, stateValue, c.sha256(stateValue), x) == Some(envelope)
    ensures Open(c, stateValue, c.sha256(stateValue), envelope) == Some(x) <==>
            x.version == CONTEXT_VERSION && x.startedAt > 0 && TextsValid(x)
  {
    hide TextsValid, Coerced, Seal, Open;
    OpenSealed(c, stateValue, x, envelope);
    CoercedIsIdentity(x);
  }

  /** Whatever opens under a state was sealed under it, in this very envelope. */
  lemma OpenedWasSealed(c: Suite, stateValue: str, stateHash: str, envelope: str)
    requires Open(c, stateValue, stateHash, envelope).Some?
    ensures stateHash == c.sha256(stateValue) && DecodeSecret(stateValue).Some?
    ensures exists payload | |payload| <= MAX_PAYLOAD ::
              && envelope == ContextEnvelope(c, DecodeSecret(stateValue).value, payload, stateHash)
              && ParsePayload(payload) == Open(c, stateValue, stateHash, envelope)
  {
    hide ParsePayload;
    var state := DecodeSecret(stateValue).value;
    var payload := c.open(ContextKey(c, state), ContextNonce(c, state), envelope[1..], stateHash).value;
    assert envelope == [envelope[0]] + envelope[1..];
    assert |payload| <= MAX_PAYLOAD && envelope == ContextEnvelope(c, state, payload, stateHash);
  }

  // ---- Binding ----

  datatype Binding = Binding(issuer: str, clientId: str, redirectUrl: str)

  predicate SupportedMode(mode: str) {
    mode in {MODE_QUERY, MODE_FORM_POST, MODE_JWT, MODE_QUERY_JWT, MODE_FORM_JWT}
  }

  function BindingOf(x: Context): Binding {
    Binding(x.issuer, x.clientId, x.redirectUrl)
  }

  predicate ValidateFor(x: Context, client: Option<Binding>) {
    && client == Some(BindingOf(x))
    && SupportedMode(x.responseMode)
    && (x.maxAge.Some? ==> 0 <= x.maxAge.value <= YEAR_SECONDS)
  }

  /** Which records an attempt is completed with: this client's own, in a known mode, with an age of up to a year. */
  lemma ValidExactly(x: Context, client: Option<Binding>)
    ensures ValidateFor(x, client) <==>
            && client.Some? && x.issuer == client.value.issuer && x.clientId == client.value.clientId
            && x.redirectUrl == client.value.redirectUrl
            && x.responseMode in {"query", "form_post", "jwt", "query.jwt", "form_post.jwt"}
            && (x.maxAge.Some? ==> 0 <= x.maxAge.value <= 365 * 86400)
  {
  }

  // ---- Size ----

  /** Go bounds an accepted ACR list by 16 values of 256 bytes. */
  predicate BoundedAcr(acr: seq<str>) {
    |acr| <= 16 && forall s | s in acr :: |s| <= 256
  }

  lemma {:induction false} ItemsLength(items: seq<str>)
    requires items != [] && forall s | s in items :: |s| <= 256
    ensures |PrintItems(items)| <= 1539 * |items|
  {
    hide Escape;
    EscapeLength(items[0]);
    if |items| > 1 {
      ItemsLength(items[1..]);
    }
  }

  /** Sixfold escaping at worst: 16 quoted values, 15 commas, two brackets. */
  lemma AcrLength(acr: seq<str>)
    requires BoundedAcr(acr)
    ensures |PrintValue(Texts(acr))| <= 24625
  {
    if acr != [] {
      ItemsLength(acr);
    }
  }

  lemma {:induction false} PrintNatLength(n: nat, bound: nat, digits: nat)
    requires n < bound && IsPowerOfTen(bound, digits)
    ensures |PrintNat(n)| <= digits
    decreases n
  {
    if n >= 10 {
      PrintNatLength(n / 10, bound / 10, digits - 1);
    }
  }

  predicate IsPowerOfTen(bound: nat, digits: nat) {
    if digits <= 1 then digits == 1 && bound == 10 else bound % 10 == 0 && IsPowerOfTen(bound / 10, digits - 1)
  }

  lemma Int64Length(n: int64)
    ensures |PrintInt(n)| <= 20
  {
    var m := if n < 0 then 0 - n else n as int;
    var bound := 10_000_000_000_000_000_000;
    assert IsPowerOfTen(100, 2);
    assert IsPowerOfTen(bound / 1_000_000_000_000_000, 4);
    assert IsPowerOfTen(bound / 1_000_000_000_000, 7);
    assert IsPowerOfTen(bound / 1_000_000_000, 10);
    assert IsPowerOfTen(bound / 1_000_000, 13);
    assert IsPowerOfTen(bound / 1_000, 16);
    assert IsPowerOfTen(bound, 19);
    PrintNatLength(m, bound, 19);
  }

  function MemberLength(m: Member): nat {
    |PrintString(m.key)| + 1 + |PrintValue(m.value)|
  }

  function MembersLength(ms: seq<Member>): nat {
    if ms == [] then 0 else MemberLength(ms[0]) + 1 + MembersLength(ms[1..])
  }

  lemma {:induction false} PrintMembersLength(ms: seq<Member>)
    requires ms != []
    ensures |PrintMembers(ms)| == MembersLength(ms)
  {
    hide PrintString, PrintValue;
    if |ms| > 1 {
      PrintMembersLength(ms[1..]);
    } else {
      assert MembersLength(ms[1..]) == 0;
    }
  }

  lemma {:induction false} MembersLengthConcat(a: seq<Member>, b: seq<Member>)
    ensures MembersLength(a + b) == MembersLength(a) + MembersLength(b)
  {
    hide MemberLength;
    if a == [] {
      assert a + b == b;
    } else {
      MembersLengthConcat(a[1..], b);
      assert (a + b)[1..] == a[1..] + b;
    }
  }

  lemma PlainFront(s: str)
    requires s != [] && Plain(s[0])
    ensures EscapeFront(s) == [s[0]] && FrontWidth(s) == 1
  {
  }

  lemma {:induction false} PlainEscapes(s: str)
    requires forall i | 0 <= i < |s| :: Plain(s[i])
    ensures Escape(s) == s
  {
    hide Plain, EscapeFront, FrontWidth;
    if s != [] {
      PlainEscapes(s[1..]);
      PlainFront(s);
      assert [s[0]] + s[1..] == s;
    }
  }

  lemma KeyLength(f: Field, v: Value)
    ensures MemberLength(At(f, v)) == |KeyOf(f)| + 3 + |PrintValue(v)|
  {
    hide Escape, PrintValue, KeyOf, Plain;
    KeyIsPlain(f);
    PlainEscapes(KeyOf(f));
  }

  lemma ModeLength(mode: str)
    requires SupportedMode(mode)
    ensures |PrintString(mode)| <= 16
  {
    hide Escape;
    assert |mode| <= 14 && forall i | 0 <= i < |mode| :: Plain(mode[i]);
    PlainEscapes(mode);
  }

  lemma FirstLength(x: Context)
    requires SupportedMode(x.responseMode)
    ensures MembersLength(FirstMembers(x)) <= 175 + |Escape(x.issuer)| + |Escape(x.clientId)| + |Escape(x.redirectUrl)|
  {
    hide KeyOf, PrintInt, Escape, MemberLength, SupportedMode;
    var ms := FirstMembers(x);
    Int64Length(x.version);
    Int64Length(x.startedAt);
    ModeLength(x.responseMode);
    assert MemberLength(ms[0]) <= 30 by { KeyLength(FVersion, Number(x.version)); KeySizes(); }
    assert MemberLength(ms[1]) == 11 + |Escape(x.issuer)| by { KeyLength(FIssuer, Text(x.issuer)); KeySizes(); }
    assert MemberLength(ms[2]) == 14 + |Escape(x.clientId)| by { KeyLength(FClientId, Text(x.clientId)); KeySizes(); }
    assert MemberLength(ms[3]) == 17 + |Escape(x.redirectUrl)| by {
      KeyLength(FRedirectUri, Text(x.redirectUrl));
      KeySizes();
    }
    assert MemberLength(ms[4]) <= 32 by { KeyLength(FResponseMode, Text(x.responseMode)); KeySizes(); }
    assert MemberLength(ms[5]) <= 31 by {
      KeyLength(FRequireResponseIssuer, Flag(x.requireResponseIssuer));
      KeySizes();
    }
    assert MemberLength(ms[6]) <= 33 by { KeyLength(FStartedAt, Number(x.startedAt)); KeySizes(); }
    SevenMembers(ms);
  }

  lemma SevenMembers(ms: seq<Member>)
    requires |ms| == 7
    ensures MembersLength(ms) == 7 + MemberLength(ms[0]) + MemberLength(ms[1]) + MemberLength(ms[2]) +
            MemberLength(ms[3])
                                 + MemberLength(ms[4]) + MemberLength(ms[5]) + MemberLength(ms[6])
  {
    hide MemberLength;
    MembersLengthFrom(ms, 0);
    MembersLengthFrom(ms, 1);
    MembersLengthFrom(ms, 2);
    MembersLengthFrom(ms, 3);
    MembersLengthFrom(ms, 4);
    MembersLengthFrom(ms, 5);
    MembersLengthFrom(ms, 6);
    assert ms[0..] == ms;
  }

  lemma MembersLengthFrom(ms: seq<Member>, i: nat)
    requires i < |ms|
    ensures MembersLength(ms[i..]) == MemberLength(ms[i]) + 1 + MembersLength(ms[i + 1..])
  {
    assert ms[i..][1..] == ms[i + 1..];
  }

  lemma KeySizes()
    ensures |KeyOf(FVersion)| == 7 && |KeyOf(FIssuer)| == 6 && |KeyOf(FClientId)| == 9 && |KeyOf(FRedirectUri)| == 12
    ensures |KeyOf(FResponseMode)| == 13 && |KeyOf(FRequireResponseIssuer)| == 23 && |KeyOf(FStartedAt)| == 10
    ensures |KeyOf(FMaxAge)| == 7 && |KeyOf(FAcrValues)| == 10 && |KeyOf(FUseUserInfo)| == 12
    ensures |KeyOf(FRequireName)| == 12 && |KeyOf(FRequireEmail)| == 13 && |KeyOf(FOfflineAccess)| == 14
  {
  }

  lemma OptionalLength(x: Context)
    ensures MembersLength(OptionalMembers(x)) <= 45 + |PrintValue(Texts(x.acrValues))|
  {
    hide KeyOf, PrintInt, MemberLength, PrintItems;
    KeySizes();
    var age := if x.maxAge.Some? then [At(FMaxAge, Number(x.maxAge.value))] else [];
    var acr := if x.acrValues != [] then [At(FAcrValues, Texts(x.acrValues))] else [];
    MembersLengthConcat(age, acr);
    assert MembersLength(age) <= 31 by {
      if x.maxAge.Some? {
        Int64Length(x.maxAge.value);
        KeyLength(FMaxAge, Number(x.maxAge.value));
        assert age[1..] == [];
      }
    }
    assert MembersLength(acr) <= 14 + |PrintValue(Texts(x.acrValues))| by {
      if x.acrValues != [] {
        KeyLength(FAcrValues, Texts(x.acrValues));
        assert acr[1..] == [];
      }
    }
  }

  lemma LastLength(x: Context)
    ensures MembersLength(LastMembers(x)) <= 87
  {
    hide KeyOf, MemberLength;
    KeySizes();
    var ms := LastMembers(x);
    KeyLength(FUseUserInfo, Flag(x.useUserInfo));
    KeyLength(FRequireName, Flag(x.requireName));
    KeyLength(FRequireEmail, Flag(x.requireEmail));
    KeyLength(FOfflineAccess, Flag(x.offlineAccess));
    MembersLengthFrom(ms, 0);
    MembersLengthFrom(ms, 1);
    MembersLengthFrom(ms, 2);
    MembersLengthFrom(ms, 3);
    assert ms[0..] == ms;
  }

  lemma PayloadLength(x: Context)
    requires SupportedMode(x.responseMode)
    ensures |Payload(x)| <= 308 + |Escape(x.issuer)| + |Escape(x.clientId)| + |Escape(x.redirectUrl)|
                            + |PrintValue(Texts(x.acrValues))|
  {
    hide FirstMembers, OptionalMembers, LastMembers, MembersLength, PrintMembers, PrintValue, Escape, SupportedMode;
    FirstLength(x);
    OptionalLength(x);
    LastLength(x);
    MembersLengthConcat(FirstMembers(x), OptionalMembers(x));
    MembersLengthConcat(FirstMembers(x) + OptionalMembers(x), LastMembers(x));
    assert Members(x) != [] by { MembersNonEmpty(x); }
    PrintMembersLength(Members(x));
  }

  lemma MembersNonEmpty(x: Context)
    ensures Members(x) != []
  {
  }

  /** A validated ACR list never overflows the envelope as long as the binding leaves it room. */
  lemma SealSucceeds(c: Suite, stateValue: str, stateHash: str, x: Context)
    requires DecodeSecret(stateValue).Some? && SupportedMode(x.responseMode) && BoundedAcr(x.acrValues)
    requires |Escape(x.issuer)| + |Escape(x.clientId)| + |Escape(x.redirectUrl)| <= 7835
    ensures Seal(c, stateValue, stateHash, x).Some?
  {
    hide Payload, PrintValue, Escape, SupportedMode;
    PayloadLength(x);
    AcrLength(x.acrValues);
  }
}
