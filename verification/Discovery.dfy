/** Discovery of a provider's endpoints, and the set of origins that every later request must stay inside. */
module Discovery {
  import opened Bytes
  import Utf8

  const SCHEME_SEPARATOR: str := "://"
  const HTTPS: str := "https"
  const HTTP: str := "http"
  const SLASH: str := "/"

  /** A parsed URL. text is what printing it gives; slashText the same with an empty path made "/". */
  datatype UrlParts = UrlParts(
    scheme: str, isOpaque: bool, host: str, hostname: str, numericLoopback: bool, path: str, hasQuery: bool,
    hasUser: bool, hasFragment: bool, text: str, slashText: str)

  /** The scheme of a parsed URL ends before the first colon. */
  type Url = u: UrlParts | ':' !in u.scheme
    witness UrlParts([], false, [], [], false, [], false, false, false, [], [])

  datatype Kind = Authorization | TokenKind | Jwks | UserInfoKind | Par | Registration | Logout | Session | Revocation

  datatype Aliases = Aliases(token: str, revocation: str, userInfo: str, par: str)

  datatype Metadata = Metadata(
    authorization: str, token: str, jwks: str, userInfo: str, par: str, registration: str, endSession: str,
    checkSession: str, revocation: str, aliases: Aliases)

  /** foldRune is Unicode's simple case folding outside ASCII. */
  datatype Environment = Environment(parse: str -> Option<Url>, foldRune: int -> int)

  const KELVIN := 0x212A
  const LONG_S := 0x17F

  /** Two runes outside ASCII fold to ASCII letters. */
  function Fold(env: Environment, r: int): int {
    if 'A' as int <= r <= 'Z' as int then r + 32
    else if r == KELVIN then 'k' as int
    else if r == LONG_S then 's' as int
    else if r < 0x80 || env.foldRune(r) < 0x80 then r
    else env.foldRune(r)
  }

  /** strings.EqualFold, rune by rune. */
  predicate EqualFold(env: Environment, s: str, t: str) {
    && |Utf8.Runes(s)| == |Utf8.Runes(t)|
    && forall i | 0 <= i < |Utf8.Runes(s)| :: Fold(env, Utf8.Runes(s)[i]) == Fold(env, Utf8.Runes(t)[i])
  }

  /** An absent policy is the same-origin one; otherChecks stands for every check that involves no endpoint. */
  datatype Config = Config(
    allowLoopback: bool, policy: Option<(Kind, Url, Url) -> bool>, mutualTls: bool, otherChecks: bool)

  datatype Discovered = Discovered(issuer: Url, metadata: Metadata, mutualTls: bool, origins: set<str>)

  function Origin(u: Url): str {
    u.scheme + SCHEME_SEPARATOR + u.host
  }

  predicate HttpsOrLoopback(u: Url) {
    u.scheme == HTTPS || (u.scheme == HTTP && u.numericLoopback)
  }

  /** validateNetworkURL for an endpoint, whose query is allowed and whose empty path is completed. */
  function ValidateEndpoint(env: Environment, raw: str, allowLoopback: bool): Option<Url> {
    match env.parse(raw)
    case None => None
    case Some(u) =>
      if u.isOpaque || u.host == [] || u.hostname == [] then None
      else if u.scheme != HTTPS && !(allowLoopback && HttpsOrLoopback(u)) then None
      else if u.hasUser || u.hasFragment then None
      else if u.path == [] then
        if u.slashText != raw + SLASH && u.slashText != raw then None else Some(u.(path := SLASH, text := u.slashText))
      else if u.text != raw then None
      else Some(u)
  }

  function SameOrigin(env: Environment): (Kind, Url, Url) -> bool {
    (kind: Kind, issuer: Url, endpoint: Url) =>
      EqualFold(env, issuer.scheme, endpoint.scheme) && EqualFold(env, issuer.host, endpoint.host)
  }

  function EffectivePolicy(env: Environment, config: Config): (Kind, Url, Url) -> bool {
    if config.policy.Some? then config.policy.value else SameOrigin(env)
  }

  datatype Spec = Spec(kind: Kind, raw: str, required: bool)

  function Specs(m: Metadata): seq<Spec> {
    [Spec(Authorization, m.authorization, true), Spec(TokenKind, m.token, true), Spec(Jwks, m.jwks, true),
     Spec(UserInfoKind, m.userInfo, false), Spec(Par, m.par, false), Spec(Registration, m.registration, false),
     Spec(Logout, m.endSession, false), Spec(Session, m.checkSession, false), Spec(Revocation, m.revocation, false)]
  }

  function AliasSpecs(m: Metadata): seq<Spec> {
    [Spec(TokenKind, m.aliases.token, false), Spec(Revocation, m.aliases.revocation, false),
     Spec(UserInfoKind, m.aliases.userInfo, false), Spec(Par, m.aliases.par, false)]
  }

  predicate Skipped(s: Spec) {
    s.raw == [] && !s.required
  }

  /** The endpoint parses, is acceptable, and the policy admits it for its purpose. */
  predicate Vetted(env: Environment, config: Config, issuer: Url, s: Spec) {
    var u := ValidateEndpoint(env, s.raw, config.allowLoopback);
    u.Some? && EffectivePolicy(env, config)(s.kind, issuer, u.value)
  }

  function OriginsOf(env: Environment, config: Config, specs: seq<Spec>): set<str> {
    set i | 0 <= i < |specs| && !Skipped(specs[i]) && ValidateEndpoint(env, specs[i].raw, config.allowLoopback).Some? ::
      Origin(ValidateEndpoint(env, specs[i].raw, config.allowLoopback).value)
  }

  predicate AllVetted(env: Environment, config: Config, issuer: Url, specs: seq<Spec>) {
    forall i | 0 <= i < |specs| :: Skipped(specs[i]) || Vetted(env, config, issuer, specs[i])
  }

  function Discover(env: Environment, config: Config, issuer: Url, m: Metadata): Option<Discovered> {
    if !config.otherChecks || !AllVetted(env, config, issuer, Specs(m)) then None
    else
      var origins := {Origin(issuer)} + OriginsOf(env, config, Specs(m));
      if !config.mutualTls then Some(Discovered(issuer, m, false, origins))
      else if m.aliases.token == [] || !AllVetted(env, config, issuer, AliasSpecs(m)) then None
      else Some(Discovered(issuer, m.(token := m.aliases.token), true, origins + OriginsOf(env, config, AliasSpecs(m))))
  }

  /** One of the two loops that grow the allowlist, stopping at the first endpoint that is not vetted. */
  method AdmitEndpoints(env: Environment, config: Config, issuer: Url, specs: seq<Spec>, before: set<str>)
    returns (allowed: set<str>, ok: bool)
    ensures ok == AllVetted(env, config, issuer, specs)
    ensures ok ==> allowed == before + OriginsOf(env, config, specs)
  {
    hide ValidateEndpoint, EffectivePolicy;
    allowed := before;
    for i := 0 to |specs|
      invariant forall k | 0 <= k < i :: Skipped(specs[k]) || Vetted(env, config, issuer, specs[k])
      invariant allowed == before + OriginsOf(env, config, specs[..i])
    {
      var spec := specs[i];
      OriginsStep(env, config, specs, i);
      if spec.raw == [] && !spec.required {
        continue;
      }
      var endpoint := ValidateEndpoint(env, spec.raw, config.allowLoopback);
      if endpoint.None? {
        return allowed, false;
      }
      if !EffectivePolicy(env, config)(spec.kind, issuer, endpoint.value) {
        return allowed, false;
      }
      allowed := allowed + {Origin(endpoint.value)};
    }
    assert specs[..|specs|] == specs;
    ok := true;
  }

  lemma OriginsStep(env: Environment, config: Config, specs: seq<Spec>, i: nat)
    requires i < |specs|
    ensures OriginsOf(env, config, specs[..i + 1]) ==
            OriginsOf(env, config, specs[..i])
            + (if !Skipped(specs[i]) && ValidateEndpoint(env, specs[i].raw, config.allowLoopback).Some?
               then {Origin(ValidateEndpoint(env, specs[i].raw, config.allowLoopback).value)} else {})
  {
    hide ValidateEndpoint, Origin;
    var a, b := OriginsOf(env, config, specs[..i + 1]), OriginsOf(env, config, specs[..i]);
    forall o | o in b ensures o in a {
      var k :| 0 <= k < i && !Skipped(specs[..i][k])
        && ValidateEndpoint(env, specs[..i][k].raw, config.allowLoopback).Some?
        && o == Origin(ValidateEndpoint(env, specs[..i][k].raw, config.allowLoopback).value);
      assert specs[..i + 1][k] == specs[..i][k];
    }
    forall o | o in a && o !in b
      ensures !Skipped(specs[i]) && ValidateEndpoint(env, specs[i].raw, config.allowLoopback).Some?
              && o == Origin(ValidateEndpoint(env, specs[i].raw, config.allowLoopback).value)
    {
      var k :| 0 <= k < i + 1 && !Skipped(specs[..i + 1][k])
        && ValidateEndpoint(env, specs[..i + 1][k].raw, config.allowLoopback).Some?
        && o == Origin(ValidateEndpoint(env, specs[..i + 1][k].raw, config.allowLoopback).value);
    }
    assert specs[..i + 1][i] == specs[i];
  }

  method DiscoverProvider(env: Environment, config: Config, issuer: Url, m: Metadata) returns (r: Option<Discovered>)
    ensures r == Discover(env, config, issuer, m)
  {
    hide AllVetted, OriginsOf, Origin;
    if !config.otherChecks {
      return None;
    }
    var metadata := m;
    var allowed, ok := AdmitEndpoints(env, config, issuer, Specs(m), {Origin(issuer)});
    if !ok {
      return None;
    }
    if config.mutualTls {
      if m.aliases.token == [] {
        return None;
      }
      allowed, ok := AdmitEndpoints(env, config, issuer, AliasSpecs(m), allowed);
      if !ok {
        return None;
      }
      metadata := metadata.(token := m.aliases.token);
    }
    r := Some(Discovered(issuer, metadata, config.mutualTls, allowed));
  }

  // ---- The transport and the endpoints chosen later ----

  /** The round tripper of the bounded client. */
  predicate Admits(d: Discovered, request: Url) {
    Origin(request) in d.origins
  }

  predicate EmptyPort(u: Url) {
    u.host != [] && u.host[|u.host| - 1] == ':'
  }

  /** Building a request strips the colon of an empty port. */
  function RequestUrl(u: Url): Url {
    if EmptyPort(u) then u.(host := u.host[..|u.host| - 1]) else u
  }

  datatype Operation = TokenOperation | ParOperation | UserInfoOperation | JwksOperation | RevocationOperation

  /** The endpoint an operation contacts; an alias replaces it under mutual TLS when there is one. */
  function EndpointFor(d: Discovered, operation: Operation): str {
    match operation
    case TokenOperation => d.metadata.token
    case JwksOperation => d.metadata.jwks
    case ParOperation => if d.mutualTls && d.metadata.aliases.par != [] then d.metadata.aliases.par else d.metadata.par
    case UserInfoOperation =>
      if d.mutualTls && d.metadata.aliases.userInfo != [] then d.metadata.aliases.userInfo else d.metadata.userInfo
    case RevocationOperation =>
      if d.metadata.revocation == [] then []
      else if d.mutualTls && d.metadata.aliases.revocation != [] then d.metadata.aliases.revocation
      else d.metadata.revocation
  }

  /** The transport admits exactly the issuer's origin and those of the vetted endpoints. */
  lemma AdmittedExactly(env: Environment, config: Config, issuer: Url, m: Metadata, d: Discovered, request: Url)
    requires Discover(env, config, issuer, m) == Some(d)
    ensures Admits(d, request) <==>
            || Origin(request) == Origin(issuer)
            || exists s | s in Specs(m) + (if config.mutualTls then AliasSpecs(m) else []) ::
                 && !Skipped(s) && Vetted(env, config, issuer, s)
                 && Origin(request) == Origin(ValidateEndpoint(env, s.raw, config.allowLoopback).value)
  {
    hide ValidateEndpoint, EffectivePolicy, Origin, Specs, AliasSpecs;
    var all := Specs(m) + (if config.mutualTls then AliasSpecs(m) else []);
    if Admits(d, request) && Origin(request) != Origin(issuer) {
      var part := if Origin(request) in OriginsOf(env, config, Specs(m)) then Specs(m) else AliasSpecs(m);
      var i :| 0 <= i < |part| && !Skipped(part[i]) && ValidateEndpoint(env, part[i].raw, config.allowLoopback).Some?
        && Origin(request) == Origin(ValidateEndpoint(env, part[i].raw, config.allowLoopback).value);
      assert part[i] in all && Vetted(env, config, issuer, part[i]);
    }
    if s :| s in all && !Skipped(s) && Vetted(env, config, issuer, s)
            && Origin(request) == Origin(ValidateEndpoint(env, s.raw, config.allowLoopback).value) {
      var part := if s in Specs(m) then Specs(m) else AliasSpecs(m);
      var i :| 0 <= i < |part| && part[i] == s;
    }
  }

  /** The specification an operation's endpoint was vetted under. */
  lemma ChosenSpec(env: Environment, config: Config, issuer: Url, m: Metadata, d: Discovered, operation: Operation)
    requires Discover(env, config, issuer, m) == Some(d) && EndpointFor(d, operation) != []
    ensures exists s | s in Specs(m) + (if config.mutualTls then AliasSpecs(m) else []) ::
              s.raw == EndpointFor(d, operation) && !Skipped(s) && Vetted(env, config, issuer, s)
  {
    hide Vetted, OriginsOf;
    var all := Specs(m) + (if config.mutualTls then AliasSpecs(m) else []);
    var raw := EndpointFor(d, operation);
    var i := match operation
      case TokenOperation => if config.mutualTls then 9 else 1
      case JwksOperation => 2
      case ParOperation => if config.mutualTls && m.aliases.par != [] then 12 else 4
      case UserInfoOperation => if config.mutualTls && m.aliases.userInfo != [] then 11 else 3
      case RevocationOperation => if config.mutualTls && m.aliases.revocation != [] then 10 else 8;
    assert |Specs(m)| == 9;
    assert all[i].raw == raw && all[i] in all;
    assert i < 9 ==> all[i] == Specs(m)[i];
    assert i >= 9 ==> all[i] == AliasSpecs(m)[i - 9];
  }

  /** Some endpoint of the metadata, or the issuer, is written with this origin. */
  predicate Written(env: Environment, config: Config, issuer: Url, m: Metadata, origin: str) {
    || origin == Origin(issuer)
    || exists s | s in Specs(m) + (if config.mutualTls then AliasSpecs(m) else []) ::
         && !Skipped(s) && ValidateEndpoint(env, s.raw, config.allowLoopback).Some?
         && Origin(ValidateEndpoint(env, s.raw, config.allowLoopback).value) == origin
  }

  /**
   * Every endpoint chosen later lies inside the allowlist. The request for it gets through as well, unless the endpoint
   * has a colon and no port, when some other endpoint must be written without the colon.
   */
  lemma ChosenEndpointStaysInside(env: Environment, config: Config, issuer: Url, m: Metadata, d: Discovered,
                                  operation: Operation)
    requires Discover(env, config, issuer, m) == Some(d) && EndpointFor(d, operation) != []
    ensures var raw := EndpointFor(d, operation);
            && env.parse(raw).Some? && Admits(d, env.parse(raw).value)
            && (Admits(d, RequestUrl(env.parse(raw).value)) <==>
                || !EmptyPort(env.parse(raw).value)
                || Written(env, config, issuer, m, Origin(RequestUrl(env.parse(raw).value))))
  {
    ChosenSpec(env, config, issuer, m, d, operation);
    hide Specs, AliasSpecs, EffectivePolicy, Origin;
    var s :| s in Specs(m) + (if config.mutualTls then AliasSpecs(m) else []) && s.raw == EndpointFor(d, operation)
             && !Skipped(s) && Vetted(env, config, issuer, s);
    var u := ValidateEndpoint(env, s.raw, config.allowLoopback).value;
    assert Origin(u) == Origin(env.parse(s.raw).value) by { ValidationKeepsOrigin(env, s.raw, config.allowLoopback); }
    AdmittedExactly(env, config, issuer, m, d, env.parse(s.raw).value);
    AdmittedIsWritten(env, config, issuer, m, d, RequestUrl(env.parse(s.raw).value));
  }

  lemma AdmittedIsWritten(env: Environment, config: Config, issuer: Url, m: Metadata, d: Discovered, request: Url)
    requires Discover(env, config, issuer, m) == Some(d)
    ensures Admits(d, request) <==> Written(env, config, issuer, m, Origin(request))
  {
    hide ValidateEndpoint, EffectivePolicy, Origin, Specs, AliasSpecs;
    AdmittedExactly(env, config, issuer, m, d, request);
    if Written(env, config, issuer, m, Origin(request)) && Origin(request) != Origin(issuer) {
      var s :| s in Specs(m) + (if config.mutualTls then AliasSpecs(m) else []) && !Skipped(s)
               && ValidateEndpoint(env, s.raw, config.allowLoopback).Some?
               && Origin(ValidateEndpoint(env, s.raw, config.allowLoopback).value) == Origin(request);
      var part := if s in Specs(m) then Specs(m) else AliasSpecs(m);
      var i :| 0 <= i < |part| && part[i] == s;
    }
  }

  lemma ValidationKeepsOrigin(env: Environment, raw: str, allowLoopback: bool)
    requires ValidateEndpoint(env, raw, allowLoopback).Some?
    ensures env.parse(raw).Some?
    ensures Origin(ValidateEndpoint(env, raw, allowLoopback).value) == Origin(env.parse(raw).value)
  {
  }

  /** The URL with this scheme, host and path, for texts that a parser reads as such. */
  function PlainUrl(host: str, hostname: str, text: str): Url {
    UrlParts(HTTPS, false, host, hostname, false, SLASH, false, false, false, text, text)
  }

  /** A parser that knows two texts. */
  function ParseTwo(first: Url, second: Url): str -> Option<Url> {
    (text: str) => if text == first.text then Some(first) else if text == second.text then Some(second) else None
  }

  /** An accepted endpoint with an empty port that no request can reach. */
  lemma EmptyPortIsUnreachable() returns (env: Environment, config: Config, issuer: Url, m: Metadata, d: Discovered)
    ensures Discover(env, config, issuer, m) == Some(d) && env.parse(EndpointFor(d, TokenOperation)).Some?
    ensures env.parse(issuer.text) == Some(issuer)
    ensures !Admits(d, RequestUrl(env.parse(EndpointFor(d, TokenOperation)).value))
  {
    var raw: str, own: str, a: str, b: str := "https://b:/", "https://a/", "a", "b";
    var u := PlainUrl(b + ":", b, raw);
    issuer := PlainUrl(a, a, own);
    assert own[8] == 'a' && raw[8] == 'b';
    env := Environment(ParseTwo(u, issuer), r => r);
    config := Config(false, Some((k: Kind, i: Url, e: Url) => true), false, true);
    m := Metadata(raw, raw, raw, [], [], [], [], [], [], Aliases([], [], [], []));
    assert ValidateEndpoint(env, raw, false) == Some(u);
    assert AllVetted(env, config, issuer, Specs(m));
    d := Discover(env, config, issuer, m).value;
    var request := RequestUrl(u);
    assert request.host == b;
    assert |Origin(request)| == 9 && Origin(request)[8] == 'b' && |Origin(issuer)| == 9 && Origin(issuer)[8] == 'a';
    assert |Origin(u)| == 10;
    forall o | o in d.origins ensures o == Origin(issuer) || o == Origin(u) {
    }
  }

  // ---- The default policy ----

  /** Against an ASCII rune: itself, the other case of a letter, the Kelvin sign for k and the long s for s. */
  lemma FoldExactly(env: Environment, r: int, t: int)
    requires 0 <= t < 0x80
    ensures Fold(env, r) == Fold(env, t) <==>
            || r == t
            || ('A' as int <= r <= 'Z' as int && t == r + 32) || ('a' as int <= r <= 'z' as int && t == r - 32)
            || (r == 0x212A && t in {'k' as int, 'K' as int}) || (r == 0x17F && t in {'s' as int, 'S' as int})
  {
  }

  lemma FoldIsSymmetric(env: Environment, s: str, t: str)
    ensures EqualFold(env, s, t) <==> EqualFold(env, t, s)
  {
  }

  /** Equal origins are equal schemes and hosts. */
  lemma OriginParts(u: Url, v: Url)
    requires Origin(u) == Origin(v)
    ensures u.scheme == v.scheme && u.host == v.host
  {
    var rest: str := "//";
    assert SCHEME_SEPARATOR == [':'] + rest;
    assert Origin(u) == u.scheme + [':'] + (rest + u.host);
    assert Origin(v) == v.scheme + [':'] + (rest + v.host);
    IndexOfPrefix(u.scheme, ':', rest + u.host);
    IndexOfPrefix(v.scheme, ':', rest + v.host);
    assert Origin(u)[..|u.scheme|] == u.scheme && Origin(v)[..|v.scheme|] == v.scheme;
    assert Origin(u)[|u.scheme| + 3..] == u.host && Origin(v)[|v.scheme| + 3..] == v.host;
  }

  lemma {:induction false} AsciiRunes(s: str)
    requires Ascii(s)
    ensures |Utf8.Runes(s)| == |s| && forall i | 0 <= i < |s| :: Utf8.Runes(s)[i] == s[i] as int
  {
    if s != [] {
      AsciiRunes(s[1..]);
      assert Utf8.Runes(s) == [s[0] as int] + Utf8.Runes(s[1..]);
    }
  }

  /** Against ASCII text, folding is ASCII letter case exactly when the other text is ASCII as well. */
  lemma AsciiFold(env: Environment, s: str, t: str)
    requires Ascii(t) && EqualFold(env, s, t)
    ensures LowerCase(s) == LowerCase(t) <==> Ascii(s)
  {
    AsciiRunes(t);
    if Ascii(s) {
      AsciiRunes(s);
      forall i | 0 <= i < |s| ensures LowerCase(s)[i] == LowerCase(t)[i] {
        assert Fold(env, s[i] as int) == Fold(env, t[i] as int);
      }
    }
    if LowerCase(s) == LowerCase(t) {
      forall i | 0 <= i < |s| ensures s[i] as int < 0x80 {
        assert LowerCase(s)[i] == LowerCase(t)[i];
      }
    }
  }

  /**
   * Without a configured policy the scheme and the host of every admitted request are the issuer's up to case folding.
   * For an ASCII issuer that is ASCII letter case, exactly when the request's host is ASCII.
   */
  lemma DefaultPolicyIsSameOrigin(env: Environment, config: Config, issuer: Url, m: Metadata, d: Discovered,
                                  request: Url)
    requires config.policy == None && Discover(env, config, issuer, m) == Some(d) && Admits(d, request)
    ensures EqualFold(env, request.scheme, issuer.scheme) && EqualFold(env, request.host, issuer.host)
    ensures Ascii(issuer.host) ==> (LowerCase(request.host) == LowerCase(issuer.host) <==> Ascii(request.host))
  {
    AdmittedExactly(env, config, issuer, m, d, request);
    hide Specs, AliasSpecs, Origin, EqualFold, Ascii, LowerCase;
    if Origin(request) == Origin(issuer) {
      OriginParts(request, issuer);
      FoldIsReflexive(env, issuer);
    } else {
      var s :| s in Specs(m) + (if config.mutualTls then AliasSpecs(m) else []) && !Skipped(s)
               && Vetted(env, config, issuer, s)
               && Origin(request) == Origin(ValidateEndpoint(env, s.raw, config.allowLoopback).value);
      var u := ValidateEndpoint(env, s.raw, config.allowLoopback).value;
      assert SameOrigin(env)(s.kind, issuer, u);
      OriginParts(request, u);
      FoldIsSymmetric(env, issuer.scheme, u.scheme);
      FoldIsSymmetric(env, issuer.host, u.host);
    }
    if Ascii(issuer.host) {
      AsciiFold(env, request.host, issuer.host);
    }
  }

  lemma FoldIsReflexive(env: Environment, u: Url)
    ensures EqualFold(env, u.scheme, u.scheme) && EqualFold(env, u.host, u.host)
  {
  }

  /** A host of the Kelvin sign is the same origin as the host k, and no letter case makes them equal. */
  lemma KelvinIsSameOrigin()
    returns (env: Environment, config: Config, issuer: Url, m: Metadata, d: Discovered, request: Url)
    ensures config.policy == None && Discover(env, config, issuer, m) == Some(d)
    ensures env.parse(EndpointFor(d, TokenOperation)) == Some(request) && Admits(d, request)
    ensures Ascii(issuer.host) && LowerCase(request.host) != LowerCase(issuer.host)
  {
    var raw: str, own: str, k: str := "https://%E2%84%AA/", "https://k/", "k";
    var kelvin := [Byte(0xE2), Byte(0x84), Byte(0xAA)];
    request, issuer := PlainUrl(kelvin, kelvin, raw), PlainUrl(k, k, own);
    assert raw[8] == '%' && own[8] == 'k';
    env := Environment(ParseTwo(request, issuer), r => r);
    config := Config(false, None, false, true);
    m := Metadata(raw, raw, raw, [], [], [], [], [], [], Aliases([], [], [], []));
    assert ValidateEndpoint(env, raw, false) == Some(request);
    KelvinFolds(env);
    FoldIsReflexive(env, issuer);
    assert SameOrigin(env)(TokenKind, issuer, request);
    assert AllVetted(env, config, issuer, Specs(m)) by {
      hide EqualFold;
      forall i | 0 <= i < |Specs(m)| ensures Skipped(Specs(m)[i]) || Vetted(env, config, issuer, Specs(m)[i]) {
        assert Specs(m)[i].raw == raw || Skipped(Specs(m)[i]);
        assert SameOrigin(env)(Specs(m)[i].kind, issuer, request);
      }
    }
    d := Discover(env, config, issuer, m).value;
    AdmittedSpec(env, config, issuer, m, d, request);
    assert |LowerCase(request.host)| == 3;
  }

  lemma AdmittedSpec(env: Environment, config: Config, issuer: Url, m: Metadata, d: Discovered, request: Url)
    requires Discover(env, config, issuer, m) == Some(d) && ValidateEndpoint(env, m.token, config.allowLoopback) ==
             Some(request)
    ensures Admits(d, request)
  {
    hide ValidateEndpoint, EffectivePolicy, Origin;
    assert Specs(m)[1].raw == m.token && Specs(m)[1].required;
  }

  lemma KelvinFolds(env: Environment)
    ensures var k: str := "k"; EqualFold(env, k, [Byte(0xE2), Byte(0x84), Byte(0xAA)])
  {
    var k: str := "k";
    var kelvin := [Byte(0xE2), Byte(0x84), Byte(0xAA)];
    AsciiRunes(k);
    assert Utf8.RuneWidth(kelvin) == 3 && Utf8.RuneValue(kelvin) == KELVIN;
    assert kelvin[3..] == [] && Utf8.Runes([]) == [];
    assert Utf8.Runes(kelvin) == [KELVIN];
  }

  // ---- The exact conditions of discovery ----

  /** An endpoint in canonical spelling: HTTPS, or HTTP to a numeric loopback host where that is allowed. */
  lemma EndpointExactly(env: Environment, raw: str, allowLoopback: bool, u: Url)
    ensures ValidateEndpoint(env, raw, allowLoopback) == Some(u) <==>
            exists parsed: Url ::
              && env.parse(raw) == Some(parsed) && !parsed.isOpaque && parsed.host != [] && parsed.hostname != []
              && (parsed.scheme == "https" || (allowLoopback && parsed.scheme == "http" && parsed.numericLoopback))
              && !parsed.hasUser && !parsed.hasFragment
              && (if parsed.path == [] then
                    parsed.slashText in {raw, raw + "/"} && u == parsed.(path := "/", text := parsed.slashText)
                  else parsed.text == raw && u == parsed)
  {
    if env.parse(raw).Some? {
      var parsed: Url := env.parse(raw).value;
    }
  }

  /** The endpoint is acceptable, and the policy, or without one the same-origin rule, admits it for this purpose. */
  predicate Admissible(env: Environment, config: Config, issuer: Url, kind: Kind, raw: str) {
    && ValidateEndpoint(env, raw, config.allowLoopback).Some?
    && var u := ValidateEndpoint(env, raw, config.allowLoopback).value;
       match config.policy
       case Some(allows) => allows(kind, issuer, u)
       case None => EqualFold(env, issuer.scheme, u.scheme) && EqualFold(env, issuer.host, u.host)
  }

  predicate AdmissibleIfGiven(env: Environment, config: Config, issuer: Url, kind: Kind, raw: str) {
    raw != [] ==> Admissible(env, config, issuer, kind, raw)
  }

  lemma VettedExactly(env: Environment, config: Config, issuer: Url, s: Spec)
    ensures Vetted(env, config, issuer, s) <==> Admissible(env, config, issuer, s.kind, s.raw)
  {
    hide ValidateEndpoint, EqualFold;
  }

  /** Discovery succeeds exactly when every endpoint in the metadata is admissible for its own purpose. */
  lemma DiscoveryExactly(env: Environment, config: Config, issuer: Url, m: Metadata)
    ensures Discover(env, config, issuer, m).Some? <==>
            && config.otherChecks
            && Admissible(env, config, issuer, Authorization, m.authorization)
            && Admissible(env, config, issuer, TokenKind, m.token)
            && Admissible(env, config, issuer, Jwks, m.jwks)
            && AdmissibleIfGiven(env, config, issuer, UserInfoKind, m.userInfo)
            && AdmissibleIfGiven(env, config, issuer, Par, m.par)
            && AdmissibleIfGiven(env, config, issuer, Registration, m.registration)
            && AdmissibleIfGiven(env, config, issuer, Logout, m.endSession)
            && AdmissibleIfGiven(env, config, issuer, Session, m.checkSession)
            && AdmissibleIfGiven(env, config, issuer, Revocation, m.revocation)
            && (config.mutualTls ==>
                  && m.aliases.token != [] && Admissible(env, config, issuer, TokenKind, m.aliases.token)
                  && AdmissibleIfGiven(env, config, issuer, Revocation, m.aliases.revocation)
                  && AdmissibleIfGiven(env, config, issuer, UserInfoKind, m.aliases.userInfo)
                  && AdmissibleIfGiven(env, config, issuer, Par, m.aliases.par))
  {
    hide Vetted, Admissible, OriginsOf;
    forall s ensures Vetted(env, config, issuer, s) <==> Admissible(env, config, issuer, s.kind, s.raw) {
      VettedExactly(env, config, issuer, s);
    }
    SpecsVetted(env, config, issuer, m);
    AliasesVetted(env, config, issuer, m);
    hide AllVetted, Specs, AliasSpecs;
  }

  lemma SpecsVetted(env: Environment, config: Config, issuer: Url, m: Metadata)
    ensures AllVetted(env, config, issuer, Specs(m)) <==>
            && Vetted(env, config, issuer, Spec(Authorization, m.authorization, true))
            && Vetted(env, config, issuer, Spec(TokenKind, m.token, true))
            && Vetted(env, config, issuer, Spec(Jwks, m.jwks, true))
            && (m.userInfo != [] ==> Vetted(env, config, issuer, Spec(UserInfoKind, m.userInfo, false)))
            && (m.par != [] ==> Vetted(env, config, issuer, Spec(Par, m.par, false)))
            && (m.registration != [] ==> Vetted(env, config, issuer, Spec(Registration, m.registration, false)))
            && (m.endSession != [] ==> Vetted(env, config, issuer, Spec(Logout, m.endSession, false)))
            && (m.checkSession != [] ==> Vetted(env, config, issuer, Spec(Session, m.checkSession, false)))
            && (m.revocation != [] ==> Vetted(env, config, issuer, Spec(Revocation, m.revocation, false)))
  {
    hide Vetted;
    var s := Specs(m);
    assert s[0] == Spec(Authorization, m.authorization, true) && s[1] == Spec(TokenKind, m.token, true);
    assert s[2] == Spec(Jwks, m.jwks, true) && s[3] == Spec(UserInfoKind, m.userInfo, false);
    assert s[4] == Spec(Par, m.par, false) && s[5] == Spec(Registration, m.registration, false);
    assert s[6] == Spec(Logout, m.endSession, false) && s[7] == Spec(Session, m.checkSession, false);
    assert s[8] == Spec(Revocation, m.revocation, false) && |s| == 9;
  }

  lemma AliasesVetted(env: Environment, config: Config, issuer: Url, m: Metadata)
    ensures AllVetted(env, config, issuer, AliasSpecs(m)) <==>
            && (m.aliases.token != [] ==> Vetted(env, config, issuer, Spec(TokenKind, m.aliases.token, false)))
            && (m.aliases.revocation != [] ==>
                  Vetted(env, config, issuer, Spec(Revocation, m.aliases.revocation, false)))
            && (m.aliases.userInfo != [] ==> Vetted(env, config, issuer, Spec(UserInfoKind, m.aliases.userInfo, false)))
            && (m.aliases.par != [] ==> Vetted(env, config, issuer, Spec(Par, m.aliases.par, false)))
  {
    hide Vetted;
    var s := AliasSpecs(m);
    assert s[0] == Spec(TokenKind, m.aliases.token, false) && s[1] == Spec(Revocation, m.aliases.revocation, false);
    assert s[2] == Spec(UserInfoKind, m.aliases.userInfo, false) && s[3] == Spec(Par, m.aliases.par, false);
    assert |s| == 4;
  }

  function Preferred(mutualTls: bool, replacement: str, raw: str): str {
    if mutualTls && replacement != [] then replacement else raw
  }

  /** The endpoint of every operation, in terms of the metadata document: its alias where mutual TLS has one. */
  lemma ChosenExactly(env: Environment, config: Config, issuer: Url, m: Metadata, d: Discovered)
    requires Discover(env, config, issuer, m) == Some(d)
    ensures EndpointFor(d, TokenOperation) == Preferred(config.mutualTls, m.aliases.token, m.token)
    ensures EndpointFor(d, ParOperation) == Preferred(config.mutualTls, m.aliases.par, m.par)
    ensures EndpointFor(d, UserInfoOperation) == Preferred(config.mutualTls, m.aliases.userInfo, m.userInfo)
    ensures EndpointFor(d, JwksOperation) == m.jwks
    ensures EndpointFor(d, RevocationOperation) ==
            if m.revocation == [] then [] else Preferred(config.mutualTls, m.aliases.revocation, m.revocation)
    ensures d.issuer == issuer && (config.mutualTls ==> EndpointFor(d, TokenOperation) != [])
  {
    hide AllVetted, OriginsOf;
  }
}
