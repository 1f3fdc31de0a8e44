# A verified model of the OpenID Connect login attempt

This project models the one-time login attempt of the `oidc` package and proves what the attempt promises. An attempt
is generated from entropy, encrypted into a value that can be stored, sent out as an authorization request, parsed back
from a callback, recovered, exchanged for tokens and checked against the ID token. A row of the table below names the
member whose contract states a property and the lines it is about.

The modules follow the stages of an attempt:

- `Bytes`, `Names`, `Utf8`, `Base64Url`, `Json`, `FormCodec`, `GoTime`: the text and number formats, written out in full. A Go
  string is a sequence of bytes; 64-bit integers wrap and saturate where Go's do.
- `Crypto`: SHA-256, HMAC-SHA-256 and AES-256-GCM as functions with known lengths, and the law that opening yields a
  plaintext exactly when the ciphertext is the sealing of that plaintext.
- `LoginProtection`, `AttemptContext`: the two fixed 72-byte envelopes, the sealed record and the binding check.
- `Options`, `AuthorizationRequest`: validation of options, the parameter map, and its four ways of delivery.
- `Callback`, `Claims`, `Jarm`: the direct and the signed response parser.
- `EndpointClient`, `TokenRequest`, `IdToken`: authenticated requests with the nonce retry, token responses and
  refreshes, the checks on ID tokens, and the identity made of them.
- `Discovery`: the origin allowlist and the endpoints chosen later.
- `Protocol`, `Runs`, `RunWitness`: the client's two operations, runs of many clients over one store, and concrete runs.

Loops and in-place updates of the Go code are methods proved against specification functions; the lemmas are about those
functions, and about states and runs made of them.

## What a run is, and what is supposed of it

`Runs` has four kinds of step: beginning an attempt, a beginning that fails and only uses up entropy, writing a row of
the store, and completing. Writing may store anything: envelopes of different attempts mixed, altered or invented.
Completing takes any response, whether or not a provider sent it, and the row under any state hash.

The theorems about runs rest on these hypotheses, each a named predicate:

- `CollisionFree`: the texts of different 32-byte secrets hash differently. `KeysSeparate`: under one state the three
  labels give three keys. `IdealSuiteExists` shows that both can hold of functions that obey all laws of `Crypto`, and
  `ExchangeIsReachable` that all hypotheses together leave runs with exchanges in them.
- `NoForgery`, a condition of the completing step: what opens under a key was sealed under it by an attempt of this run.
  `HonestIsUnforged` shows that it never stands in the way of an attempt stored as it was begun.
- `FreshStates`: the entropy never repeats a state.
- The store consumes a row in one atomic step and accepts no row again under a consumed key. The package leaves this to
  its caller (pkg/oidc/api.go:174-175).

## Where the code and the expectation differ

Each of these is stated exactly, with the condition under which the expectation holds:

1. Protection does not check the length of the state. A state with line breaks in it is protected and never recovered;
   recovery inverts protection exactly for states of 43 characters (`RecoverProtected`, `NewlineStateIsLost`).
2. The sealed record passes through JSON, which replaces invalid UTF-8. Opening returns the identical record exactly
   when its texts are valid UTF-8 and the clock is after 1970 (`RoundTripExact`). The client identifier is not checked
   for this. As a consequence the completing client has the *replaced* binding of the beginning one, and the same binding
   exactly when its texts are valid UTF-8 (`ServedByTheSameBinding`). `OtherBindingCompletes` is a run in which an
   attempt begun under the identifier that is the single byte 255 completes under another identifier.
3. The `max_age` test wraps and saturates. It agrees with unbounded arithmetic for every token exactly when the clock is
   away from the two ends of the int64 range (`MaxAgeExact`).
4. An endpoint written with a colon and no port is accepted, but requests to it lose the colon. They reach it exactly
   when the issuer or another endpoint is written with the shorter origin (`ChosenEndpointStaysInside`,
   `EmptyPortIsUnreachable`).
5. The URL keeps whatever the authorization endpoint's own query holds. A provider reads exactly the request's parameters
   if and only if that query has no `request` or `request_uri` in the way, for direct delivery no parameter of the
   request's kind that the request itself leaves out (`max_age=0` in the endpoint, say, with no max_age in the options),
   and, for request objects, every value is valid UTF-8 (`DeliveryMeaningExact`, `BuiltMeaningExact`). The same holds for
   the three parameters that carry policy, with the condition cut down to them (`ServedPolicyReaches`).
6. Normalizing scopes again is refused when the normal form has more than 32 entries, which 32 accepted scopes can have
   (`NormalizingAgain`, `NormalFormCanBeTooLong`).
7. The code reads `auth_time` through a JSON number type, which also accepts a string: exactly the decimal spelling of a
   positive int64 (`UnixTimeLanguage`).
8. The same-origin policy compares with Unicode case folding, under which the Kelvin sign is a k. For an ASCII issuer an
   admitted host differs from it in letter case only, exactly when it is ASCII itself (`DefaultPolicyIsSameOrigin`,
   `KelvinIsSameOrigin`).

## Model

| member | source | states |
|---|---|---|
| `Base64Url.EncodeByBits` | pkg/oidc/login_material.go:39-43 | Encoding writes the bits of its input six at a time, with zeros after the end |
| `Base64Url.DigitExactly` | pkg/oidc/login_material.go:39-43 | The digits are those of the URL-safe alphabet of section 5 of RFC 4648 |
| `Base64Url.DecodeExact` | pkg/oidc/login_recovery.go:22-30 | The strict decoder yields x exactly for the texts that are the encoding of x once CR and LF are removed |
| `Base64Url.DecodeEncode` | pkg/oidc/login_material.go:39-43 | Decoding inverts encoding for every byte string |
| `Base64Url.Canonical` | pkg/oidc/login_recovery.go:69-76 | A text that decodes is at least as long as the encoding, and of that very length exactly when it is the encoding |
| `Utf8.CoerceIsIdentity` | pkg/oidc/attempt_context.go:44-47 | Replacing invalid UTF-8 changes a text exactly when it is not valid |
| `Utf8.ValidExactly` | pkg/oidc/callback.go:33-38 | A text is valid exactly when it is the encoding of a list of Unicode scalar values, and then reading its runes gives back that list |
| `LoginProtection.Entropy.ReadFull` | pkg/oidc/login_material.go:28-32 | Fills the whole buffer from the stream, or uses the stream up and reports it |
| `LoginProtection.GenerateLoginMaterial` | pkg/oidc/login_material.go:24-44 | Three 32-byte secrets from the next 96 bytes; missing, short or repeating entropy is refused |
| `LoginProtection.GeneratedIsAdmissible` | pkg/oidc/login_material.go:33-43 | Generated secrets are 43 characters each, decode to their slices of the entropy, and differ |
| `LoginProtection.GeneratedExactly` | pkg/oidc/login_material.go:33-44 | Ninety-six bytes make material exactly when their three thirds differ |
| `LoginProtection.SealSecret` | pkg/oidc/login_protection.go:77-101 | Version, nonce and sealed secret in a fixed 72-byte array, or failure exactly when the sealing has another size |
| `LoginProtection.ProtectLoginMaterial` | pkg/oidc/login_protection.go:37-116 | Inadmissible material is refused before entropy is read; otherwise 24 bytes make the two envelopes |
| `LoginProtection.ProtectedExactly` | pkg/oidc/login_protection.go:37-116 | Protection succeeds exactly for three different secrets of which the two that are sealed have 43 characters |
| `LoginProtection.DecodeInto` | pkg/oidc/login_recovery.go:25-30 | Decoding into a fixed array leaves exactly the decoded bytes in its front part |
| `LoginProtection.SecretExactly` | pkg/oidc/login_recovery.go:22-30 | A text is a secret exactly when it is the encoding of 32 bytes once CR and LF are removed |
| `LoginProtection.OpenInto` | pkg/oidc/login_recovery.go:40-78 | Opens one envelope and decodes its plaintext in place, failing exactly when either step does |
| `LoginProtection.RecoverLoginMaterial` | pkg/oidc/login_recovery.go:21-99 | Early-exit recovery equals its specification on all inputs, accepted or not |
| `LoginProtection.RecoverProtected` | pkg/oidc/login_recovery.go:21-99 | Recovering what protection made returns the material if its state has 43 characters, and nothing otherwise |
| `LoginProtection.ProtectRecovered` | pkg/oidc/login_protection.go:37-116 | What recovery accepts is, byte for byte, what protection writes for that material with the two embedded nonces; every accepted text is canonical |
| `LoginProtection.RecoveryIsImageOfProtection` | pkg/oidc/login_recovery.go:21-99 | Recovery accepts exactly the image of protection |
| `LoginProtection.GeneratedRoundTrip` | pkg/oidc/login_protection.go:37-116 | Generated material is always protected, and always recovered as it was |
| `LoginProtection.NewlineStateIsLost` | pkg/oidc/login_protection.go:38-53 | Generated material whose state has a line feed put in front is protected, and recovering it fails |
| `Json.EscapeReads` | pkg/oidc/attempt_context.go:44-47 | Reading an escaped string yields the string with invalid UTF-8 replaced |
| `Json.ObjectReads` | pkg/oidc/attempt_context.go:90-94 | Reading a printed flat object yields its members in order, coerced |
| `Json.EscapeLength` | pkg/oidc/attempt_context.go:44-47 | Escaping makes a text at most six times as long |
| `Json.EscapedIsSafe` | pkg/oidc/attempt_context.go:44-47 | Escaped text holds no control character and none of the three characters that HTML could take for markup |
| `AttemptContext.DeriveAttemptContextKey` | pkg/oidc/attempt_context.go:100-110 | Key and nonce are two separately labelled keyed hashes of the state, the nonce cut to 12 bytes in place |
| `AttemptContext.NonceIsDerivedApart` | pkg/oidc/attempt_context.go:100-110 | The nonce is derived under a label that is none of the three labels of keys |
| `AttemptContext.PayloadText` | pkg/oidc/attempt_context.go:22-36 | The sealed text, key by key: which members it has, in which order, and which of them are left out |
| `AttemptContext.SealAttemptContext` | pkg/oidc/attempt_context.go:38-60 | The versioned envelope of the printed record, refused for a bad state or above 32 KiB |
| `AttemptContext.OpenAttemptContext` | pkg/oidc/attempt_context.go:64-98 | Opening equals its specification, with both size limits, version, hash and clock checks |
| `AttemptContext.PayloadRoundTrip` | pkg/oidc/attempt_context.go:22-36 | Parsing a printed record yields it coerced, with max_age zero and absent apart and an empty ACR list kept empty |
| `AttemptContext.SealedSizes` | pkg/oidc/api.go:222-229 | Every sealed envelope passes both size checks on the way back and survives base64url |
| `AttemptContext.OpenSealed` | pkg/oidc/attempt_context.go:64-98 | What opening makes of any sealed record |
| `AttemptContext.RoundTripExact` | pkg/oidc/attempt_context.go:38-98 | Opening returns the identical record if and only if the version is current, the clock is after 1970 and the texts are valid UTF-8 |
| `AttemptContext.OpenedWasSealed` | pkg/oidc/attempt_context.go:64-98 | Whatever opens is the sealing, under this state, of a payload within the limit |
| `AttemptContext.AcrLength` | pkg/oidc/config.go:221-224 | An accepted ACR list prints to at most 24,625 bytes |
| `AttemptContext.PayloadLength` | pkg/oidc/attempt_context.go:44-47 | The record prints to at most 308 bytes beyond its escaped binding and its ACR list |
| `AttemptContext.SealSucceeds` | pkg/oidc/attempt_context.go:38-60 | Validated options never overflow the envelope while the escaped binding has at most 7,835 bytes |
| `AttemptContext.ValidExactly` | pkg/oidc/attempt_context.go:112-125 | A record may be completed exactly by the client of its three binding texts, in one of five modes, with a max_age of at most a year |
| `GoTime.MaxAgeAgrees` | pkg/oidc/exchange.go:158-166 | With the clock in range the wrapping, saturating test equals the unbounded one for every auth_time and every max_age up to a year |
| `GoTime.MaxAgeDisagrees` | pkg/oidc/exchange.go:158-166 | With any other clock some auth_time and max_age are misjudged |
| `GoTime.MaxAgeExact` | pkg/oidc/exchange.go:272-288 | The range is exact |
| `GoTime.AddIsExact` | pkg/oidc/jose.go:151-151 | For an ordinary clock, adding up to an hour moves the instant by exactly that many nanoseconds |
| `GoTime.MinutesLater` | pkg/oidc/jose.go:151-151 | For an ordinary clock a deadline so many minutes ahead is that many times sixty seconds later |
| `Options.CopyTokens` | pkg/oidc/config.go:188-200 | Returns the list unchanged exactly when it is short enough, every value is acceptable and none repeats |
| `Options.CompleteScopes` | pkg/oidc/config.go:205-213 | The in-place updates of the scope list yield its normal form |
| `Options.ValidateAuthorizationOptions` | pkg/oidc/config.go:181-276 | Validation accepts exactly the acceptable options, with seconds, defaults and the union of policies |
| `Options.ValidationExactly` | pkg/oidc/config.go:181-276 | Which options are accepted and what becomes of each of them, in terms of the options alone |
| `Options.ScopesExactly` | pkg/oidc/config.go:205-213 | The normal form, spelled out: the usual three by default, openid in front if it is missing, offline_access behind if it is wanted |
| `Options.ScopesNormalForm` | pkg/oidc/config.go:205-213 | No duplicates, openid included, the caller's scopes consecutive and in order |
| `Options.NormalizingAgain` | pkg/oidc/config.go:182-213 | Normalizing a normal form changes nothing exactly when it has at most 32 entries, and is refused otherwise |
| `Options.NormalFormCanBeTooLong` | pkg/oidc/config.go:202-213 | Accepted options whose normal form has 33 entries and is refused |
| `Options.FieldsOfJoin` | pkg/oidc/api.go:272-272 | Splitting a space-joined list on whitespace returns the list |
| `Options.ScopeParameter` | pkg/oidc/authorization_url.go:63-63 | The joined scope and ACR parameters split back into the validated lists |
| `FormCodec.Unescapes` | pkg/oidc/callback.go:73-73 | Percent-decoding inverts percent-encoding |
| `FormCodec.EscapeExactly` | pkg/oidc/endpoint_client.go:167-168 | Escaping writes, of all texts that are read as this string, the one that escapes nothing without need, in upper case |
| `FormCodec.UnescapeFront` | pkg/oidc/callback.go:94-94 | What one character or one escape of either case reads as, and which escapes are errors |
| `FormCodec.SegmentExactly` | pkg/oidc/callback.go:94-94 | A segment is split at its first equals sign; without one it is a name with an empty value |
| `FormCodec.ParseEncoded` | pkg/oidc/callback.go:94-94 | Parsing encoded pairs returns them in order |
| `FormCodec.ParseFront` | pkg/oidc/callback.go:94-94 | A query is read segment by segment: empty ones mean nothing, a bad one spoils the whole |
| `FormCodec.EntriesPermute` | pkg/oidc/callback.go:94-94 | Reordering pairs reorders at most the values under one name |
| `Callback.CheckNames` | pkg/oidc/callback.go:101-106 | The loop over the map, in any order, accepts exactly known names given once |
| `Callback.CheckTokens` | pkg/oidc/callback.go:107-114 | The loop over the token-shaped values, in any order, accepts exactly valid ones |
| `Callback.ReadValues` | pkg/oidc/callback.go:101-168 | Filling the response step by step equals the specification on all decoded values |
| `Callback.ParseCallback` | pkg/oidc/callback.go:63-168 | The whole parser over GET, POST and other requests equals its specification |
| `Callback.ParserLanguage` | pkg/oidc/callback.go:101-168 | Accepted are exactly three shapes, each with the response it stands for |
| `Callback.ShapesDisjoint` | pkg/oidc/callback.go:126-167 | No values have two of the three shapes |
| `Callback.CallbackRoundTrip` | pkg/oidc/callback.go:63-168 | A well-formed response within 64 KiB, encoded and parsed by GET or POST, comes back with only its mode set |
| `Callback.ParsedIsWellFormed` | pkg/oidc/callback.go:101-168 | What is accepted is well formed, and the values are exactly the parameters of that response |
| `Callback.OrderIsIrrelevant` | pkg/oidc/callback.go:101-168 | Permuting the pairs changes neither the decision nor the response |
| `Callback.RequestOrderIsIrrelevant` | pkg/oidc/callback.go:63-168 | The same for whole requests: permuting the encoded parameters of a GET query or of a POST form changes nothing |
| `Callback.RequestLanguage` | pkg/oidc/callback.go:63-100 | A request is accepted exactly when it carries, within 64 KiB and in one of the two ways, a readable text of one of the three shapes |
| `Callback.ResponseValueExactly` | pkg/oidc/callback.go:33-38 | The bounded values: valid UTF-8, no control characters and, in a token, no white space |
| `Callback.ErrorFieldsExactly` | pkg/oidc/callback.go:40-48 | What may be said of an error: its code, description and URI, each within its own limit |
| `Callback.ModesExactly` | pkg/oidc/callback.go:170-196 | The case by case test accepts exactly the known modes with a response in the right form by the right channel |
| `Claims.UnmarshalAudience` | pkg/oidc/jose.go:215-227 | One string, a non-empty list or null; the receiver is written only on success |
| `Claims.AudienceLanguage` | pkg/oidc/jose.go:215-227 | The audiences that are read: one string, a non-empty list of strings or nulls, or null |
| `Claims.StringClaimLanguage` | pkg/oidc/exchange.go:257-270 | A string claim is present exactly as a string that is not empty |
| `Jarm.VerifyAuthorizationResponse` | pkg/oidc/jose.go:116-189 | The claim checks with their loops equal the specification |
| `Jarm.ReadVerified` | pkg/oidc/jose.go:154-189 | The shape checks on claims already known to be addressed to this client |
| `Jarm.SignedAgreesWithDirect` | pkg/oidc/jose.go:116-189 | For an issuer an unsigned response could carry, signed claims are accepted exactly when the direct checks accept the same fields, with the same response |
| `Jarm.AddressedExactly` | pkg/oidc/jose.go:116-153 | For an ordinary clock, claims are addressed to this client exactly with typed texts, its issuer, itself as the only audience, an expiry within ten minutes and an issue time of at most a minute ahead |
| `Jarm.SignedLanguage` | pkg/oidc/jose.go:116-189 | For an issuer an unsigned response could carry, accepted are exactly addressed claims whose texts have the shape of a code or an error response |
| `EndpointClient.CloneValues` | pkg/oidc/endpoint_client.go:263-269 | A fresh map with the same entries, in any order of copying |
| `EndpointClient.ClientAssertion` | pkg/oidc/endpoint_client.go:195-215 | Signed over this client, audience, time window and the next identifier, or a failure |
| `EndpointClient.DpopProof` | pkg/oidc/endpoint_client.go:217-253 | Signed over the upper-cased method, this endpoint without its query, the time, this nonce and the next identifier, or a failure |
| `EndpointClient.NewAuthenticatedFormRequest` | pkg/oidc/endpoint_client.go:153-193 | The request and the identifiers it uses up are those of the specification, and the caller's form is untouched |
| `EndpointClient.RequestForIs` | pkg/oidc/endpoint_client.go:153-193 | A built request is the caller's form under the client's authentication, with a proof exactly when there is a signer |
| `EndpointClient.RequestBuiltExactly` | pkg/oidc/endpoint_client.go:153-193 | A request is built exactly when the assertion and the proof that it needs can be made of the next identifiers, and it holds those |
| `EndpointClient.TargetIsPrefix` | pkg/oidc/endpoint_client.go:217-253 | The target of a proof is the URL up to its first question mark; a question mark at the very end stays |
| `EndpointClient.AuthenticationWrites` | pkg/oidc/endpoint_client.go:165-184 | What each method of authentication writes into the form, field by field, and which fields it leaves |
| `EndpointClient.DoAuthenticatedJson` | pkg/oidc/endpoint_client.go:108-147 | The retry loop sends and returns exactly what the loop-free specification says, against any answers |
| `EndpointClient.ConversationBounds` | pkg/oidc/endpoint_client.go:108-147 | At most two requests; the second only after a demand for a nonce, with exactly that nonce in its proof; the final fallback is never reached |
| `EndpointClient.ConversationExactly` | pkg/oidc/endpoint_client.go:108-147 | For every list of answers: how many requests go out, each with which nonce, and which answer decides; a JSON answer that demands a nonce with any status outside 200 to 299 is retried whenever there is a signer |
| `EndpointClient.PlainConversation` | pkg/oidc/endpoint_client.go:108-147 | A client without signers always sends exactly one request; a readable 2xx JSON answer to it yields exactly its body |
| `EndpointClient.EveryRequestCarries` | pkg/oidc/endpoint_client.go:153-193 | Whatever leaves is the caller's unmodified form under an authentication of this client |
| `EndpointClient.AuthenticationKeepsForm` | pkg/oidc/endpoint_client.go:165-184 | Authentication touches four field names and no other |
| `TokenRequest.PerformTokenRequest` | pkg/oidc/endpoint_client.go:87-106 | The conversation of this form, and the tokens in it if they pass every check |
| `TokenRequest.TokensExactly` | pkg/oidc/endpoint_client.go:87-106 | The tokens of an answer, member by member, and the bounds and the type they are held to |
| `TokenRequest.TokenUrlExactly` | pkg/oidc/endpoint_client.go:87-89 | Token requests go to the token endpoint of the metadata, or to its alias under mutual TLS |
| `TokenRequest.ExchangeCode` | pkg/oidc/endpoint_client.go:66-74 | The conversation of the code exchange form |
| `TokenRequest.SendRefresh` | pkg/oidc/endpoint_client.go:76-85 | Nothing is sent for an unusable refresh token; otherwise the conversation of the refresh form |
| `TokenRequest.ExchangeRequestCarries` | pkg/oidc/endpoint_client.go:66-74 | Every request of a code exchange goes to this endpoint with the authorization code grant and exactly this code, redirect URI and verifier |
| `TokenRequest.RefreshRequestCarries` | pkg/oidc/endpoint_client.go:76-85 | Every request of a refresh carries the refresh grant, exactly this token and exactly this scope list |
| `TokenRequest.Refresh` | pkg/oidc/api.go:287-316 | Nothing is sent for an unusable request; otherwise one conversation and the token set that its answer earns |
| `TokenRequest.RefreshExactly` | pkg/oidc/api.go:287-316 | A refresh succeeds exactly for a usable request, acceptable tokens, and no ID token or one that verifies, names the subject and is bound to this client; the set holds the tokens of the answer |
| `TokenRequest.ChainHoldsLastToken` | pkg/oidc/api.go:287-316 | Over any chain of refreshes the access and the ID token are those of the last answer, the refresh token is the last non-empty one, and every ID token names the expected subject and this client |
| `IdToken.ValidateIdTokenBinding` | pkg/oidc/exchange.go:135-174 | The loop and the checks equal the declarative conditions on audience, authorized party, age and class |
| `IdToken.BindingExactly` | pkg/oidc/exchange.go:135-174 | The same in terms of the raw claims: audience, azp, auth_time and acr |
| `IdToken.AcceptedMeetsMaxAge` | pkg/oidc/exchange.go:158-166 | With a clock in range, binding with max_age is binding without it plus the unbounded age test |
| `Claims.UnixTimeLanguage` | pkg/oidc/exchange.go:272-288 | For every claim map the time read is t exactly when t is positive and the claim is the integer t or the string that is its decimal spelling |
| `IdToken.NonceLanguage` | pkg/oidc/exchange.go:79-83 | The nonce test accepts exactly the strings that are the attempt's nonce once CR and LF are removed |
| `IdToken.Overlay` | pkg/oidc/exchange.go:96-100 | The loop overwrites the four profile claims that UserInfo has, and nothing else |
| `IdToken.OverlaySays` | pkg/oidc/exchange.go:96-100 | Under every name, whose value the merged claims hold |
| `IdToken.UserInfoExactly` | pkg/oidc/exchange.go:231-253 | UserInfo counts exactly for this subject and, when signed, for this issuer and this client |
| `IdToken.ConcludeExchange` | pkg/oidc/exchange.go:79-106 | The end of an exchange equals its specification |
| `IdToken.CoordinatesComeFromToken` | pkg/oidc/exchange.go:88-105 | Issuer and subject are the token's, and UserInfo is read only for the same subject |
| `IdToken.IdentityReadsProfile` | pkg/oidc/identity_claims.go:33-113 | The identity depends on the four profile claims only |
| `IdToken.OtherClaimsDoNotInterfere` | pkg/oidc/exchange.go:88-106 | Claims outside the seven that are read never affect the outcome |
| `IdToken.RequiredEmailIsVerified` | pkg/oidc/identity_claims.go:70-89 | With a required email, success means the merged claims hold it and call it verified with the literal true |
| `IdToken.IdentityExactly` | pkg/oidc/identity_claims.go:33-113 | The identity field by field, under every policy: an email exactly when the claims hold it and call it verified, name and picture as the claims say, within their bounds |
| `IdToken.ConcludedExactly` | pkg/oidc/exchange.go:79-106 | When an exchange ends in an identity, and in which one |
| `Discovery.AdmitEndpoints` | pkg/oidc/provider.go:211-223 | The loop succeeds exactly when every given endpoint is vetted, and adds exactly their origins |
| `Discovery.DiscoverProvider` | pkg/oidc/provider.go:194-278 | Both loops and the replaced token endpoint equal the specification |
| `Discovery.EndpointExactly` | pkg/oidc/provider.go:301-321 | An endpoint is acceptable exactly in canonical spelling, by HTTPS or by HTTP to a numeric loopback host where that is allowed, without user information and fragment |
| `Discovery.DiscoveryExactly` | pkg/oidc/provider.go:194-278 | Discovery succeeds exactly when every endpoint of the metadata is acceptable and admitted for its own purpose; under mutual TLS the aliases as well |
| `Discovery.AdmittedExactly` | pkg/oidc/provider.go:323-326 | The transport admits exactly the issuer's origin and those of vetted endpoints |
| `Discovery.ChosenEndpointStaysInside` | pkg/oidc/exchange.go:176-183 | Every endpoint chosen later, with or without an alias, lies inside the allowlist; its request gets through except for an empty port whose shorter origin nobody else is written with |
| `Discovery.ChosenSpec` | pkg/oidc/endpoint_client.go:43-50 | The endpoint an operation contacts is one that was vetted |
| `Discovery.ChosenExactly` | pkg/oidc/exchange.go:176-183 | The endpoint of every operation in terms of the metadata: its alias under mutual TLS, where there is one |
| `Discovery.EmptyPortIsUnreachable` | pkg/oidc/provider.go:301-321 | An accepted endpoint with an empty port, beside an issuer of another host, that no request can reach |
| `Discovery.DefaultPolicyIsSameOrigin` | pkg/oidc/config.go:47-61 | Without a policy every admitted request has the issuer's scheme and host up to case folding; for an ASCII issuer that is letter case exactly when the request's host is ASCII |
| `Discovery.FoldExactly` | pkg/oidc/config.go:48-48 | Which runes fold together with an ASCII one: itself, the other case of a letter, the Kelvin sign with k and the long s with s |
| `Discovery.AsciiFold` | pkg/oidc/config.go:48-48 | A text that folds to an ASCII text differs from it in letter case only, exactly when it is ASCII |
| `Discovery.KelvinIsSameOrigin` | pkg/oidc/config.go:47-52 | An endpoint whose host is the Kelvin sign passes as the same origin as the issuer k |
| `AuthorizationRequest.BuildLists` | pkg/oidc/authorization_url.go:69-88 | The signer's thumbprint and the joined lists |
| `AuthorizationRequest.BuildScalars` | pkg/oidc/authorization_url.go:89-119 | The single values, refused exactly when the provider does not support what is asked |
| `AuthorizationRequest.BuildParameters` | pkg/oidc/authorization_url.go:27-119 | The map built step by step is the specified one |
| `AuthorizationRequest.WrapParameters` | pkg/oidc/authorization_url.go:120-143 | The optional signed object replaces the parameters |
| `AuthorizationRequest.PushAuthorizationRequest` | pkg/oidc/endpoint_client.go:43-64 | Nothing is sent without an endpoint; otherwise the conversation of the parameters and the reference it yields |
| `AuthorizationRequest.MergeQuery` | pkg/oidc/authorization_url.go:155-158 | The loop, in any order, lets the parameters override the endpoint's query |
| `AuthorizationRequest.InitialAuthorizationUrl` | pkg/oidc/authorization_url.go:27-161 | The query of the final URL and the requests sent on the way |
| `AuthorizationRequest.BaseParametersSay` | pkg/oidc/authorization_url.go:59-119 | Response type, client, scope, state, nonce, challenge and its method, redirect URI, max_age, ACR values and response mode in the request are those of the material and the validated options |
| `AuthorizationRequest.RequestExactly` | pkg/oidc/authorization_url.go:59-119 | Under every name the request holds exactly the one value that the caller's options, the material and the client ask for, or nothing |
| `AuthorizationRequest.RequestBuiltExactly` | pkg/oidc/authorization_url.go:27-119 | A request is built exactly for admissible material, a usable thumbprint and support for everything that is asked for |
| `AuthorizationRequest.ObjectClaimsExactly` | pkg/oidc/authorization_url.go:120-136 | The claims of a request object: the parameters and five of its own, valid from now for five minutes |
| `AuthorizationRequest.WrappedExactly` | pkg/oidc/authorization_url.go:120-143 | Who asks for a request object, what is signed, and what is sent in its place |
| `AuthorizationRequest.DeliveredExactly` | pkg/oidc/authorization_url.go:144-160 | Who asks for a pushed request, and the query that is built with or without it |
| `AuthorizationRequest.ReferenceExactly` | pkg/oidc/endpoint_client.go:53-64 | The references that are accepted: text and lifetime |
| `AuthorizationRequest.ParUrlExactly` | pkg/oidc/endpoint_client.go:43-50 | Requests are pushed to the endpoint of the metadata, or to its alias under mutual TLS |
| `AuthorizationRequest.NoCollisions` | pkg/oidc/authorization_url.go:124-133 | Added claims and authentication fields never collide with a parameter, except client_id with an equal value |
| `AuthorizationRequest.DeliveryMeans` | pkg/oidc/authorization_url.go:120-160 | Delivered in any of the four ways, the provider reads of the given names exactly the parameters of the request, with their own values |
| `AuthorizationRequest.DeliveryLost` | pkg/oidc/authorization_url.go:154-160 | Otherwise some honest provider reads something else, or something more |
| `AuthorizationRequest.DeliveryMeaningExact` | pkg/oidc/authorization_url.go:120-160 | The condition is exact, for any set of parameter names and in particular for all of them |
| `AuthorizationRequest.BuiltMeaningExact` | pkg/oidc/authorization_url.go:27-161 | The same for the URL that is really built: every provider that holds what was sent and opens the object reads exactly the parameters, if and only if the endpoint's own query and the options allow it |
| `AuthorizationRequest.BuiltIsDelivery` | pkg/oidc/authorization_url.go:120-161 | The query of a built URL is one of the four deliveries, whichever way was chosen |
| `AuthorizationRequest.UnrelatedParametersSurvive` | pkg/oidc/authorization_url.go:154-160 | The endpoint's own parameters survive unless this delivery writes over them |
| `AuthorizationRequest.WrittenNames` | pkg/oidc/authorization_url.go:142-149 | What a delivery writes: the request's own names, or client_id with one reference |
| `AuthorizationRequest.WrappedIsSent` | pkg/oidc/authorization_url.go:120-143 | What is built is one of the deliveries that the theorems speak of |
| `AuthorizationRequest.PushedWasSent` | pkg/oidc/authorization_url.go:144-150 | A URL with a reference stands for a form that really went out to the pushing endpoint |
| `Protocol.Client.BeginContext` | pkg/oidc/api.go:126-171 | The URL's query, the attempt, the entropy left and the requests sent, for every outcome |
| `Protocol.BegunExactly` | pkg/oidc/api.go:126-171 | An attempt is made exactly for acceptable options, 120 bytes of entropy of which the first 96 make three different secrets, a record within its limit, and a supported request |
| `Protocol.EntropySpent` | pkg/oidc/api.go:138-145 | The 120 bytes become, in order, state, nonce, verifier and the nonces of the two envelopes, and none is used twice |
| `Protocol.EntropyExactly` | pkg/oidc/login_material.go:24-44 | What every outcome leaves of the entropy |
| `Protocol.Client.AcceptResponse` | pkg/oidc/api.go:218-246 | Recovery, opening, binding, mode and issuer checks, in early-exit form |
| `Protocol.StoredExactly` | pkg/oidc/api.go:222-233 | A stored text is opened exactly within its size limit, through the strict decoder |
| `Protocol.Client.Complete` | pkg/oidc/api.go:193-275 | No token request without an exchange to make; with one, exactly its conversation with the discovered token endpoint, and the identity its answer earns; the two readings of the clock are separate |
| `Protocol.ResolvedExactly` | pkg/oidc/api.go:200-217 | A direct response is taken as it came; a signed one must come alone, be enabled and verify, and keeps its own channel |
| `Protocol.ErrorExactly` | pkg/oidc/api.go:247-255 | A provider's error surfaces unchanged, exactly for a response that is accepted and fields that may be shown |
| `Protocol.FinishExactly` | pkg/oidc/exchange.go:65-106 | When the answers to a code exchange end in an identity, and in which one |
| `Protocol.RequestsStayInside` | pkg/oidc/provider.go:323-326 | Whatever an authenticated request is sent to was discovered and lies inside the allowlist |
| `Runs.SealedBy` | pkg/oidc/login_protection.go:77-101 | A sealing found under a state was made by the attempt with that state, for that purpose |
| `Runs.AcceptedIsBegun` | pkg/oidc/api.go:218-240 | Whatever is accepted, however the stored envelopes were mixed, is a single attempt that was begun |
| `Runs.RecordCarriesPolicy` | pkg/oidc/api.go:146-154 | The stored record says max_age, ACR values, mode, the union of policies, the issuer requirement, the time and offline access as the options and the client did |
| `Runs.BegunScope` | pkg/oidc/authorization_url.go:63-63 | The scope that goes out reads as the normal form of the scopes in the attempt's own options, openid among them |
| `Runs.BegunAsks` | pkg/oidc/authorization_url.go:59-119 | The request of every begun attempt says, under every name, exactly what its options, its secrets and its client ask for |
| `Runs.BegunPolicy` | pkg/oidc/config.go:266-275 | Policy in the options, in the parameters that are built, in the record and in the demands on the token is the same |
| `Runs.AcceptedServes` | pkg/oidc/api.go:193-258 | The exchange of an accepted attempt is the one the attempt was begun for |
| `Runs.BeginKeeps` | pkg/oidc/api.go:126-171 | Beginning keeps the invariant |
| `Runs.CompleteKeeps` | pkg/oidc/api.go:193-258 | Completing keeps the invariant, whatever response and row it is given |
| `Runs.StepKeeps` | pkg/oidc/api.go:126-275 | Every step keeps the invariant |
| `Runs.InvariantHolds` | pkg/oidc/api.go:126-275 | The invariant holds at every state of every run |
| `Runs.RunIsSound` | pkg/oidc/api.go:126-275 | Every exchange of every run serves exactly one begun attempt: its response carries that state and the exchanged code, names the beginning client's issuer or none (none only if that client does not insist) and came in the mode asked for; its verifier matches the challenge sent with that state, and nonce, redirect URI, scope, binding and policy are that attempt's |
| `Runs.RunIsSoundOnTheWire` | pkg/oidc/endpoint_client.go:66-74 | Whatever the network answers, every token request of an exchange of a run carries the verifier of the challenge sent with that state, and the redirect URI of that attempt |
| `Runs.ServedOnTheWire` | pkg/oidc/exchange.go:65-65 | The same for the requests of any exchange that serves an attempt |
| `Runs.ServedPolicyReaches` | pkg/oidc/authorization_url.go:80-118 | Max_age, ACR values and response mode as honest providers read them in the built URL are those the exchange is held to, if and only if the endpoint's own query leaves them alone |
| `Runs.RunCarriesPolicy` | pkg/oidc/exchange.go:158-172 | The same for every exchange of every run |
| `Runs.RunCompletes` | pkg/oidc/exchange.go:79-106 | In any run an identity comes from a token with the nonce of that attempt's request, for this client, meeting the max_age, ACR, name and email demands of that attempt's own options |
| `Runs.ServedIdentity` | pkg/oidc/api.go:247-262 | The same for any exchange that serves an attempt |
| `IdToken.ConcludedMeans` | pkg/oidc/exchange.go:79-106 | What success says of the token and of the identity made of it |
| `Runs.ExchangedAtMostOnce` | pkg/oidc/api.go:173-193 | No attempt is exchanged twice |
| `Runs.ServedByTheSameBinding` | pkg/oidc/attempt_context.go:112-125 | The completing client is bound like the beginning one exactly when the binding is valid UTF-8, and then sends the redirect URI that was in the request |
| `Runs.CompletionExact` | pkg/oidc/api.go:218-246 | An attempt stored as it was begun is accepted, at any client, exactly for its own state and binding, in the mode that was asked for, after 1970, and from the beginning client's issuer or, unless that client insists, without one |
| `Runs.ExchangeExactly` | pkg/oidc/api.go:218-258 | It is exchanged exactly when, in addition, the response carries no error and a code of 1 to 4096 plain bytes, and the client is ready |
| `Runs.ErrorIsForTheAttempt` | pkg/oidc/api.go:247-255 | An error response to it surfaces exactly when it fits the attempt and its fields may be shown |
| `Runs.ErrorIsBegun` | pkg/oidc/api.go:218-255 | In every state, whatever was stored, a surfacing error answers an attempt that was begun, in its mode and from its issuer |
| `Runs.HonestIsUnforged` | pkg/oidc/login_recovery.go:40-78 | The three openings of an unaltered attempt are not forgeries |
| `Runs.HonestCompletion` | pkg/oidc/api.go:193-258 | From any state of any run an unaltered attempt can be completed by a direct or signed response that fits, in any response mode and at any client with its binding, by an exchange that serves it |
| `Runs.IdealSuiteExists` | pkg/oidc/login_protection.go:66-101 | The hypotheses about the primitives can be met |
| `RunWitness.ExchangingRun` | pkg/oidc/api.go:126-275 | For every short client identifier there is a run in which it begins and the client with the replaced identifier completes |
| `RunWitness.ExchangeIsReachable` | pkg/oidc/api.go:126-275 | A run under all hypotheses, with valid bindings, that reaches an exchange |
| `RunWitness.OtherBindingCompletes` | pkg/oidc/provider.go:123-125 | A run in which an attempt begun by one binding completes at another |

## Left out

- Secrecy and unforgeability: the primitives are functions with laws, and what an adversary cannot do is a hypothesis.
- HTTP transport, TLS, media type text, body reading, redirects, timeouts, nil clients and nil or cancelled contexts: an answer of a server is
  any value of `EndpointClient.Answer`. Failure to construct a request from a URL, and the unsupported authentication
  method that discovery excludes, are not represented.
- Parsing of URLs: `Discovery.Url` is a record, and printing it back is one of its fields; the picture URL check and the
  checks on a pushed request's reference are parameters.
- Signatures, headers and decryption of JWTs, key sets, safeSigningAlgorithms and parseCompactJWTHeader: verification
  yields a token or nothing, and the check of a DPoP proof's header is part of the signing function.
- EndpointClient.DpopProof: upper-cases the ASCII letters of the method only; every HTTP method is ASCII.
- JSON beyond what the code reads: keys that match only without regard to letter case, nested values and non-integer
  numbers in the stored record, and general validity of a claims request, which is an input.
- net/url's limit on the number of query parameters, the order in which Go prints a query, and malformed pairs in the
  authorization endpoint's own query, which Go drops before the parameters are merged into it.
- TokenSet.ExpiresAt, the scope list of a token set and the token-returning variants of completion.
- Client authentication validation and the checks of discovery that involve no endpoint: one boolean, `otherChecks`.
- The UserInfo request itself: its answer, signed or not, is the parameter of the checks on it.
- Revocation beyond its choice of endpoint, logout, WebFinger, dynamic registration and the JOSE adapters.
- The at_hash check, whose outcome is a parameter, and Unicode's case folding of runes outside ASCII, which is a
  function.
- Buffer clearing, constant-time comparison, formatting redaction and the texts of errors; a failing operation returns no
  value rather than a particular error, except in the endpoint client.
- The allowlist, the claims map and the token set are values where Go updates maps and records; their methods reassign
  them in the order of the source, and aliasing of those maps is not modelled.
