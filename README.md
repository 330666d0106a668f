# Token-response parsing of an OAuth 2.0 client

This project models how an OAuth 2.0 client library turns the JSON body of a
token response (section 5.1 of RFC 6749) into a typed token, or into a
`ParseError` that names the check that failed. It covers three parts:

- the bearer token of RFC 6750, `Bearer<L>`, which is generic over its lifetime `L`;
- the `Refresh` lifetime, which holds a refresh token and an expiry time;
- the `Expiring` lifetime, which holds only an expiry time.

All three parts are pure. They become datatypes, functions and lemmas:

- JSON is a small datatype (`Json.Json`), and the serde_json accessors it needs are functions over it (`as_object`, `as_str`, `as_i64`, `get`).
- Rust's `?` operator becomes Dafny's `:-` over `Wrappers.Result`.
- The process clock (`SystemTime::now()`) is an explicit `now: int` parameter, counted in seconds.
- The `FromResponse` trait bound on `L` is passed explicitly. `TokenBearer.FromResponse` takes the lifetime's parser as a function value, and `TokenBearer.FromResponseInherit` takes the lifetime's inherit parser the same way.
- Module `Tokens` instantiates these generic parsers with each lifetime.

The accessors `access_token()`, `scope()`, `id_token()` and `lifetime()` of `Bearer`, and `refresh_token()` and `expires()` of the lifetimes, are the datatypes' destructors.

Section 5.1 of RFC 6749 calls `token_type` case-insensitive, and the code is stricter or more lenient than a reading of the RFC on a few points; there the model follows the code:

- `token_type` must be exactly `"Bearer"` or `"bearer"`, so `"BEARER"` is refused.
- A negative `expires_in` counts as zero seconds. A large one is added as it is: it is not clamped.
- On the inherit path, a `refresh_token` that is missing or not a string is taken from the previous lifetime. That step can therefore never fail.
- An empty `access_token` string is accepted.

## Model

| member | source | states |
|---|---|---|
| Json.AsI64 | src/token/refresh.rs:35-37 | `as_i64` yields a value exactly for an integer in the signed 64-bit range, and then yields that integer |
| Json.GetStr | src/token/bearer.rs:36-37 | `get(..).and_then(as_str)` yields a value exactly when the field is present and a string, and then yields that string |
| Json.GetI64 | src/token/refresh.rs:35-36 | `get(..).and_then(as_i64)` yields a value exactly when the field is present and an in-range integer |
| Json.AsObject | src/token/bearer.rs:34 | `as_object` yields a value exactly for an object, and then yields its fields |
| Json.AsStr | src/token/bearer.rs:37 | `as_str` yields a value exactly for a string, and then yields that string |
| Json.Get | src/token/bearer.rs:43 | `get` on an object yields a value exactly when the key is present, and then yields the value stored under it |
| Clock.TryIntoU64 | src/token/refresh.rs:41 | `try_into::<u64>()` on an i64 succeeds exactly for a non-negative value and keeps it |
| Clock.ExpiresAt | src/token/refresh.rs:41 | an expiry is `now + expires_in` when `expires_in >= 0` and `now` when it is negative; it always lies in `[now, now + i64::MAX]`, and a positive `expires_in` gives `now < t <= now + expires_in` |
| TokenRefresh.FromResponse | src/token/refresh.rs:29-43 | a non-object gives `ExpectedType("object")`; then a missing or non-string `refresh_token` gives `ExpectedFieldType("refresh_token","string")`; then a missing or non-i64 `expires_in` gives `ExpectedFieldType("expires_in","i64")`; success happens exactly when all three hold; the result carries the JSON refresh token and the clamped expiry, and is not expired at `now` |
| TokenRefresh.FromResponseInherit | src/token/refresh.rs:45-61 | only the object check and the `expires_in` check can fail, with the same errors; the refresh token is the JSON string when there is one, otherwise the previous one (also when the field is present but not a string); with a string `refresh_token` the result equals `FromResponse` at the same `now` |
| TokenRefresh.Expired | src/token/refresh.rs:24-26 | a lifetime is expired exactly when the clock is strictly past its expiry; one whose expiry equals the clock is not expired |
| TokenRefresh.InheritIgnoresPreviousExpiry | src/token/refresh.rs:45-61 | the inherit result depends on the previous lifetime only through its refresh token, never its expiry |
| TokenRefresh.ExpiredAfterExpiresIn | src/token/refresh.rs:24-26 | a lifetime just parsed is expired at a later instant exactly when that instant is strictly past `now + expires_in`, with a negative `expires_in` counting as zero |
| TokenRefresh.ResponseImage | src/token/refresh.rs:39-42 | the lifetimes `from_response` returns at `now` are exactly those that expire in `[now, now + i64::MAX]` |
| TokenRefresh.OneHourResponses | src/token/refresh.rs:68-88 | the module's tests: both paths keep `"aaaaaaaa"` and give `now < expires <= now + 3600` for `expires_in` 3600 |
| TokenExpiring.FromResponse | src/token/expiring.rs:23-37 | a non-object gives `ExpectedType("object")`; then a `refresh_token` key with any value, null included, gives `UnexpectedField("refresh_token")` before `expires_in` is examined; then a missing or non-i64 `expires_in` gives `ExpectedFieldType("expires_in","i64")`; success happens exactly when all three pass, with the clamped expiry, not expired at `now` |
| TokenExpiring.Expired | src/token/expiring.rs:18-20 | a lifetime is expired exactly when the clock is strictly past its expiry; one whose expiry equals the clock is not expired |
| TokenExpiring.ExpiredAfterExpiresIn | src/token/expiring.rs:18-20 | a lifetime just parsed is expired at a later instant exactly when that instant is strictly past `now + expires_in`, with a negative `expires_in` counting as zero |
| TokenExpiring.ResponseImage | src/token/expiring.rs:34-36 | the lifetimes `from_response` returns at `now` are exactly those that expire in `[now, now + i64::MAX]` |
| TokenExpiring.OneHourResponse | src/token/expiring.rs:44-50 | the module's test: `expires_in` 3600 gives `now < expires <= now + 3600` |
| TokenBearer.IsBearerType | src/token/bearer.rs:39 | a token type is accepted exactly when it is `"Bearer"` or `"bearer"`; the comparison is exact, so `"BEARER"` is refused |
| TokenBearer.FromResponseAndLifetime | src/token/bearer.rs:33-55 | the checks run in this order: object, then string `token_type`, then `token_type` exactly `"Bearer"` or `"bearer"`, then string `access_token`, each with its own error; success happens exactly when all pass; `access_token` is the JSON string; `scope` and `id_token` are present exactly when the field is a string, with that string; the lifetime is the given one, unchanged |
| TokenBearer.FromResponse | src/token/bearer.rs:59-62 | a lifetime error is returned as it is, before any bearer check; success happens exactly when the lifetime parses and the bearer fields are valid; the token holds exactly the parsed lifetime |
| TokenBearer.FromResponseInherit | src/token/bearer.rs:64-67 | the same as `FromResponse` with the lifetime parser fixed to the inherit parser applied to the previous lifetime: same check order, and fields taken only from the new JSON |
| TokenBearer.InheritReadsOnlyPreviousLifetime | src/token/bearer.rs:64-67 | two previous tokens with the same lifetime give the same result, so the previous access token, scope and id token are never used |
| TokenStatic.FromResponse | src/token/bearer.rs:86-111 | an assumption standing in for the unseen `Static` parser: it accepts every response; the tests only show it accepting objects with `token_type`, `access_token` and perhaps `scope` |
| Tokens.BearerStaticFromResponse | src/token/bearer.rs:59-62 | with the always-succeeding static lifetime assumed here, only the bearer checks decide the result |
| Tokens.BearerExpiringFromResponse | src/token/bearer.rs:59-61 | `Bearer<Expiring>` fails with `UnexpectedField("refresh_token")` whenever the key is present, whatever the bearer fields hold; success happens exactly when both the lifetime fields and the bearer fields are valid |
| Tokens.BearerRefreshFromResponse | src/token/bearer.rs:59-62 | `Bearer<Refresh>` reports the lifetime errors first; success happens exactly when the lifetime fields and the bearer fields are valid |
| Tokens.BearerRefreshFromResponseInherit | src/token/bearer.rs:64-67 | on refresh only the object check, `expires_in` and the bearer fields can fail; the access token, scope and id token come from the new response; the lifetime is the one `Refresh`'s inherit parser gives for the previous lifetime, so the refresh token is the new one or else the previous one; with a string `refresh_token` the result equals the plain parse |
| Tokens.BearerRefreshImage | src/token/bearer.rs:49-54 | every `Bearer<Refresh>` value whose expiry lies in `[now, now + i64::MAX]`, and no other, is the parse at `now` of some response |
| Tokens.RefreshWithIdToken | src/token/bearer.rs:148-167 | the bearer test: the id token is kept, scope is absent, refresh token `"bbbbbbbb"`, expiry within the hour |
| Tokens.RefreshKeepsPreviousRefreshToken | src/token/bearer.rs:169-195 | the bearer test: a refresh response without `refresh_token` yields access token `"cccccccc"` and keeps refresh token `"bbbbbbbb"` |
| Tokens.LifetimeErrorFirst | src/token/bearer.rs:59-61 | a `Bearer<Expiring>` response with a refresh token and token type `"MAC"` fails on the refresh token |
| Tokens.StaticTokenTypes | src/token/bearer.rs:76-127 | the bearer tests: `"MAC"` (and `"BEARER"`) give `ExpectedFieldValue("token_type","Bearer")`; `"Bearer"` and `"bearer"` are accepted; `scope` is kept |

## Left out

- `SystemTime::now()`: the current time is a parameter, counted in whole seconds. Sub-second precision is not modelled.
- Clock.ExpiresAt: the panic of `SystemTime + Duration` on overflow is not modelled, because time is an unbounded integer.
- The `Static` lifetime: its definition is not part of this model. `TokenStatic.FromResponse` is an assumption standing in for it: it accepts every response. The bearer tests only show `Static` accepting objects that hold `token_type`, `access_token` and perhaps `scope`. Its `expired` is not modelled.
- `Expiring`'s `from_response_inherit`: it is the trait's default, whose definition is not part of this model, so `Bearer<Expiring>` has no inherit instantiation here. The generic `TokenBearer.FromResponseInherit` covers that case for any inherit parser.
- The definitions of `ParseError` and of the `FromResponse` and `Lifetime` traits are not part of this model. The four error variants are reconstructed from their uses.
- JSON floating-point numbers are a single `JFloat` value that `as_i64` rejects. serde's `Serialize`/`Deserialize` derives are not modelled.
- The HTTP transport (`HttpClient::post`), the client's error type and the client operations (building the authorization URI, exchanging a code, refreshing a token) are outside the token parsers and are not modelled.
