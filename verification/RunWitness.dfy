/** Concrete runs: all hypotheses about runs can be met together, and an attempt can complete at another binding. */
module RunWitness {
  import opened Bytes
  import opened Crypto
  import opened GoTime
  import opened LoginProtection
  import opened Protocol
  import opened Runs
  import AttemptContext
  import Callback
  import Discovery
  import EndpointClient
  import Options
  import Json
  import Utf8
  import AR = AuthorizationRequest

  const ISSUER: str := "https://issuer.example"
  const REDIRECT: str := "https://client.example/cb"

  /** One second after 1970. */
  const NOW: Time := Time(UNIX_TO_INTERNAL + 1, 0)

  function PlainDiscovery(): Discovery.Discovered {
    var url := Discovery.UrlParts([], false, [], [], false, [], false, false, false, [], []);
    var aliases := Discovery.Aliases([], [], [], []);
    Discovery.Discovered(url, Discovery.Metadata([], [], [], [], [], [], [], [], [], aliases), false, {})
  }

  /** A client that asks for nothing special. */
  function PlainClient(clientId: str): Rp {
    var client := EndpointClient.Client(clientId, [], EndpointClient.NoSecret, None);
    var provider := AR.Provider(client, ISSUER, REDIRECT, true, None, false, [], [], None, false, false,
                                PlainDiscovery(), (uri: str) => true, map[]);
    Rp(provider, Options.IdentityPolicy(false, false, false), false, false, [], (url: str) => true)
  }

  function PlainOptions(): Options.AuthorizationOptions {
    Options.AuthorizationOptions([], [], None, [], [], [], [], [], Options.ClaimsRequest([], false), [], false, false,
                                 false, false, false, false)
  }

  function Repeat(b: byte, n: nat): (s: str)
    ensures |s| == n && forall i | 0 <= i < n :: s[i] == b
  {
    seq(n, _ => b)
  }

  /** Three different secrets, and nonces. */
  function PlainEntropy(): (s: str)
    ensures |s| == 120
  {
    Repeat(Byte(1), 32) + Repeat(Byte(2), 32) + Repeat(Byte(3), 32) + Zeros(24)
  }

  lemma PlainMaterial()
    ensures MaterialOf(PlainEntropy()[..96]).Some?
  {
    var raw := PlainEntropy()[..96];
    assert raw[..32][0] == Byte(1) && raw[32..64][0] == Byte(2) && raw[64..][0] == Byte(3);
  }

  lemma PlainValidated(policy: Options.IdentityPolicy) returns (v: Options.Validated)
    ensures Options.Validate(PlainOptions(), policy) == Some(v)
    ensures v.responseMode == AttemptContext.MODE_QUERY && v.acrValues == [] && v.claims == [] && !v.offlineAccess
  {
    v := Options.Normal(PlainOptions(), policy);
  }

  /** The binding of a short identifier leaves room for the record. */
  lemma PlainBindingFits(clientId: str)
    requires |clientId| <= 3
    ensures |Json.Escape(ISSUER)| + |Json.Escape(clientId)| + |Json.Escape(REDIRECT)| <= 7835
  {
    hide Json.Escape;
    Json.EscapeLength(ISSUER);
    Json.EscapeLength(clientId);
    Json.EscapeLength(REDIRECT);
  }

  lemma PlainParameters(c: Suite, clientId: str, m: Material, v: Options.Validated)
    requires Admissible(m) && v.responseMode == AttemptContext.MODE_QUERY && v.claims == [] && !v.offlineAccess
    ensures AR.BaseParameters(PlainClient(clientId).provider, m, v, c).Some?
  {
    hide Admissible, AR.CoreParameters, AR.ListParameters, AR.ScalarParameters;
  }

  /** Such a client begins an attempt. */
  lemma PlainBegins(c: Suite, clientId: str) returns (b: Begun)
    requires |clientId| <= 3
    ensures NextBegun(c, PlainClient(clientId), PlainOptions(), PlainEntropy(), NOW) == Some(b)
    ensures b.context == NewContext(PlainClient(clientId), b.validated, NOW)
    ensures b.validated.responseMode == AttemptContext.MODE_QUERY && DecodeSecret(b.material.state).Some?
  {
    hide Options.Validate, MaterialOf, Protect, AttemptContext.Seal, AR.BaseParameters, Admissible, PlainOptions,
      PlainEntropy, DecodeSecret, AttemptContext.SupportedMode, Json.Escape;
    var rp, raw, nonces := PlainClient(clientId), PlainEntropy()[..96], PlainEntropy()[96..120];
    var v := PlainValidated(rp.policy);
    PlainMaterial();
    GeneratedIsAdmissible(raw);
    GeneratedRoundTrip(c, raw, nonces);
    var m := MaterialOf(raw).value;
    var p := Protect(c, m, nonces).value;
    PlainBindingFits(clientId);
    QueryIsSupported();
    AttemptContext.SealSucceeds(c, m.state, p.stateHash, NewContext(rp, v, NOW));
    PlainParameters(c, clientId, m, v);
    b := Begin(c, rp, PlainOptions(), raw, nonces, NOW).value;
  }

  lemma QueryIsSupported()
    ensures AttemptContext.SupportedMode(AttemptContext.MODE_QUERY)
  {
  }

  function RowOf(b: Begun): Row {
    Row(b.attempt.secrets.nonceEnvelope, b.attempt.secrets.verifierEnvelope, b.attempt.contextText)
  }

  function CodeFor(b: Begun): Callback.Response {
    Callback.Response("c", b.material.state, [], [], None, AttemptContext.MODE_QUERY)
  }

  lemma PlainTexts()
    ensures Utf8.Valid(ISSUER) && Utf8.Coerce(ISSUER) == ISSUER && Utf8.Valid(REDIRECT) &&
            Utf8.Coerce(REDIRECT) == REDIRECT
  {
    hide Utf8.Coerce, Utf8.Valid;
    AttemptContext.AsciiIsValid(ISSUER);
    AttemptContext.AsciiIsValid(REDIRECT);
  }

  lemma PlainBinding(clientId: str)
    ensures BindingFor(PlainClient(clientId)) == AttemptContext.Binding(ISSUER, clientId, REDIRECT)
    ensures CoercedBinding(BindingFor(PlainClient(clientId))) ==
            AttemptContext.Binding(ISSUER, Utf8.Coerce(clientId), REDIRECT)
  {
    hide Utf8.Coerce, Utf8.Valid, ISSUER, REDIRECT;
    PlainTexts();
  }

  lemma PlainCompletable(w: World, a: Started, first: str, second: str)
    requires a.client == 0 && w.clients == [PlainClient(first), PlainClient(second)] && Utf8.Coerce(first) == second
    requires a.at == NOW && a.options == PlainOptions()
    ensures Completable(w, a, 1, CodeFor(a.begun))
  {
    hide Utf8.Coerce, BindingFor, CoercedBinding;
    PlainBinding(first);
    PlainBinding(second);
    Callback.ModesDiffer();
  }

  lemma CodeIsValid()
    ensures ValidCode("c")
  {
    Options.PlainToken("c");
  }

  /** The first client begins, its row is written, and the second completes. */
  lemma ExchangingRun(first: str, second: str) returns (w: World, states: seq<State>, events: seq<Event>)
    requires |first| <= 3 && Utf8.Coerce(first) == second
    ensures w.clients == [PlainClient(first), PlainClient(second)]
    ensures IsRun(w, states, events) && Ideal(w, states[|events|])
    ensures var s := states[|events|];
            && |s.started| == |s.exchanged| == 1 && s.started[0].client == 0 && s.exchanged[0].client == 1
            && Serves(w, s.started[0], s.exchanged[0])
  {
    hide CollisionFree, KeysSeparate, Serves, Completable, NextBegun, SealingOf, DecodeSecret, ResolveResponse,
      PlainClient, PlainOptions, PlainEntropy, ValidCode, Utf8.Coerce, CompleteStep, NewContext;
    var c := IdealSuiteExists();
    w := World(c, [PlainClient(first), PlainClient(second)]);
    var b := PlainBegins(c, first);
    var a := Started(0, PlainOptions(), NOW, b);
    var hash := b.attempt.secrets.stateHash;
    var s0 := State(map[0 := PlainEntropy()], [], {}, map[], {}, []);
    var s1 := s0.(entropy := map[0 := PlainEntropy()[120..]], started := [a],
                  sealings := set p: Purpose :: SealingOf(c, b, p));
    var s2 := s1.(store := map[hash := RowOf(b)]);
    var begin, write := BeginEvent(0, PlainOptions(), NOW), Write(hash, RowOf(b));
    assert Next(w, s0, s1, begin);
    assert Next(w, s1, s2, write);
    assert IsRun(w, [s0, s1, s2], [begin, write]);
    PlainCompletable(w, a, first, second);
    CodeIsValid();
    PlainInitialized(second);
    DirectResponse(w.clients[1], CodeFor(b), NOW);
    var t := HonestCompletion(w, [s0, s1, s2], [begin, write], 0, 1, CodeFor(b), None, CodeFor(b), NOW);
    var complete := CompleteEvent(1, hash, CodeFor(b), None, NOW);
    states, events := [s0, s1, s2, t], [begin, write, complete];
    CompletingKeepsStarted(w, s2, t, complete);
  }

  lemma PlainInitialized(clientId: str)
    ensures PlainClient(clientId).provider.initialized
  {
  }

  lemma DirectResponse(rp: Rp, r: Callback.Response, now: Time)
    requires r.responseJwt == [] && r.error.None?
    ensures ResolveResponse(rp, r, None, now) == Some(r)
  {
  }

  lemma CompletingKeepsStarted(w: World, s: State, t: State, e: Event)
    requires e.CompleteEvent? && Next(w, s, t, e)
    ensures t.started == s.started
  {
    hide ResolveResponse, ExchangeFor, NoForgery;
  }

  /** Runs under all hypotheses reach exchanges. */
  lemma ExchangeIsReachable() returns (w: World, states: seq<State>, events: seq<Event>)
    ensures IsRun(w, states, events) && Ideal(w, states[|events|]) && |states[|events|].exchanged| > 0
    ensures forall rp | rp in w.clients :: ValidBinding(BindingFor(rp))
  {
    hide IsRun, Ideal, Serves, Utf8.Coerce, Utf8.Valid, BindingFor;
    var id: str := "a";
    AttemptContext.AsciiIsValid(id);
    PlainTexts();
    PlainBinding(id);
    w, states, events := ExchangingRun(id, id);
  }

  const INVALID: str := [Byte(255)]

  /** An attempt begun by one binding completes at another: the identifier of the first client is one invalid byte. */
  lemma OtherBindingCompletes() returns (w: World, states: seq<State>, events: seq<Event>)
    ensures IsRun(w, states, events) && Ideal(w, states[|events|])
    ensures var s := states[|events|];
            && |s.started| == |s.exchanged| == 1
            && Serves(w, s.started[0], s.exchanged[0])
            && s.started[0].client < |w.clients| && s.exchanged[0].client < |w.clients|
            && BindingFor(w.clients[s.exchanged[0].client]) != BindingFor(w.clients[s.started[0].client])
  {
    hide IsRun, Ideal, Serves;
    InvalidIsReplaced();
    w, states, events := ExchangingRun(INVALID, Utf8.REPLACEMENT);
  }

  lemma InvalidIsReplaced()
    ensures Utf8.Coerce(INVALID) == Utf8.REPLACEMENT
  {
    assert Utf8.Coerce([]) == [];
    assert INVALID[1..] == [];
  }
}
