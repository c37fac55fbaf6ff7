# Google ID-token verifier: a Dafny model

This project models the core of `node-google-id-token-verifier`, a library that verifies
OpenID Connect ID tokens issued by Google. The model has two parts.

- **The verification pipeline** (`lib/main.js`). It handles the JWS compact serialisation
  (section 7.1 of RFC 7515). `unescapedString` turns the base64url signature segment
  (section 5 of RFC 4648) into padded standard base64. `decodeJWT` splits the token into
  exactly three parts and keeps the signed bytes as they were sent. `verifySignature`
  picks the JSON Web Key named by the header's `kid`. `verifyPayload` applies the
  issuer, audience and expiry checks of section 3.1.3.7 of OpenID Connect Core 1.0, in
  that order. `verify` chains all of them and reports the first failure.
- **The key cache** (`lib/certCache.js`). The cache is a transition function over the
  state `{url, expiry, cache}`. Its inputs are the clock and the HTTP responses. It
  returns what reaches the callback, the next state and the number of requests made.
  Cached keys are served while `now < expiry`. Otherwise the JWKS URL is resolved
  through the discovery document (`jwks_uri`, OpenID Connect Discovery 1.0), the keys are
  fetched again, and the expiry is recomputed from `Cache-Control: max-age` (section
  5.2.2.1 of RFC 9111).

The foreign code is passed in as parameters:

- `Token.Decoders` stands for Node's `Buffer` base64 decoding followed by `JSON.parse`.
  It is a partial function that returns an `Option`.
- `Signature.RsaCheck` stands for `getPem` followed by the RSA/SHA-256 verifier. It is a
  predicate over `(key, dataToSign, signature)`.
- `CertCache.Network` holds the HTTP response for each URL. The discovery request goes
  to `CertCache.DiscoveryDocumentUrl` (lib/certCache.js:5).

Files, one module each: `wrappers.dfy` (Option/Result/Outcome), `errors.dfy`,
`base64url.dfy`, `token.dfy`, `signature.dfy`, `claims.dfy`, `cachecontrol.dfy`,
`certcache.dfy`, `pipeline.dfy`, `discoveryloop.dfy`.

Behaviour of the code that the model keeps, even where another reading would be natural:

- An absent or empty `Cache-Control` header sets the expiry to `null`, so every later
  call fetches again; it does not cache forever (lib/certCache.js:16, :50).
- A non-empty header without `max-age=` makes `regexResult.length` throw
  (lib/certCache.js:42-43). The cache and the expiry are not written, and a URL resolved
  earlier in the same call is kept.
- The expiry test is `now > exp*1000`, so a token whose `exp` equals the current instant
  passes (lib/main.js:65).
- `verify` ignores the cache's error argument. A decoding error is still reported first.
  After that, `keys.keys` on `null` throws a TypeError, and that TypeError is the error
  reported (lib/main.js:71-74).
- A certificate body that is JSON `null` is cached with the header's expiry and
  delivered as `null` keys, so `keys.keys` throws for every token that decodes, on that
  call and on every call before the expiry (lib/certCache.js:50-52, lib/main.js:73-74). A discovery body that is JSON
  `null` makes `body.jwks_uri` throw, and no callback runs (lib/certCache.js:68).
- `new Date(now + cacheAge)` is the Invalid Date once the sum passes 8.64e15 ms, the
  largest time value a `Date` holds. That expiry is truthy, but `nowTime < NaN` is false,
  so such keys are never served from the cache and every later call fetches again
  (lib/certCache.js:16, :50).
- Only the JWKS list form (`keys[].kid/n/e`) exists in the code. The header and payload
  segments are decoded directly by `Buffer` and are not passed through `unescapedString`.
  The signature is passed to the verifier as a padded base64 string, not as raw bytes.

## Model

| member | source | states |
|---|---|---|
| `Base64Url.PadLength` | lib/main.js:13 | The number of `=` appended is between 1 and 4, makes the length a multiple of 4, and is 4 when the input is already aligned |
| `Base64Url.Translate` | lib/main.js:14 | Both global replaces keep the length and map each character in place: `-` to `+`, `_` to `/`, everything else unchanged |
| `Base64Url.UnescapedString` | lib/main.js:12-15 | The output length is a multiple of 4 and 1 to 4 longer than the input; each input character is translated in place; the suffix is all `=`; no `-` or `_` remains |
| `Base64Url.EscapeUnescaped` | lib/main.js:12-15 | Round trip: converting the output back to base64url (`+` to `-`, `/` to `_`, padding dropped) gives back every base64url segment |
| `Token.Split` | lib/main.js:18 | `split('.')` gives one more part than there are dots, and no part contains a dot |
| `Token.JoinSplit` | lib/main.js:18 | Joining the parts of a split with the separator gives back the original string |
| `Token.SplitJoin` | lib/main.js:18 | Splitting a join of separator-free parts gives back the parts |
| `Token.TokenShape` | lib/main.js:18-28 | For a three-part token, `dataToSign` is `part0 + "." + part1`, contains exactly one dot, and the token is `dataToSign + "." + part2` |
| `Token.DecodeJwt` | lib/main.js:17-36 | Fails with `Invalid idToken` exactly when the token does not have two dots; any other failure is `Invalid payload`; on success `dataToSign` is the token's prefix before the second dot and `signature` is the unescaped rest |
| `Token.NoDecodeOnBadShape` | lib/main.js:18-21 | A token without exactly two dots fails with `Invalid idToken` whatever the decoders do, so no segment is decoded |
| `Token.DecodeFailureIsInvalidPayload` | lib/main.js:23-35 | A three-part token fails exactly when the header or the payload decoder fails, and then the error is `Invalid payload` |
| `Token.DecodeBuiltToken` | lib/main.js:26-31 | A token built from three dot-free segments decodes to the two decoded records, the first two segments as the signed bytes, and the unescaped third segment |
| `Signature.FindKey` | lib/main.js:40-44 | Finds the position of the first key whose `kid` matches, and returns `None` exactly when no key has that `kid` |
| `Signature.VerifySignature` | lib/main.js:38-52 | `Cannot not found valid JWK` exactly when `kid` is missing or unknown; `Invalid Signature` exactly when the predicate rejects with the first matching key; passes exactly when it accepts |
| `Signature.UnknownKeyIgnoresCrypto` | lib/main.js:39-42 | With no key for `kid`, the outcome is the same whatever the crypto predicate says |
| `Signature.FirstKeyDecides` | lib/main.js:44 | Keys placed after the first matching key, including keys with the same `kid`, do not change the verdict |
| `Signature.FirstIsUnique` | lib/main.js:44 | Only one position is the first with a given `kid` |
| `Claims.VerifyPayload` | lib/main.js:54-68 | Passes exactly when the issuer is one of the two accepted strings, `aud` is exactly the audience, and the expiry has not passed; otherwise gives the earliest failing check's error |
| `Claims.ExpiryBoundaryPasses` | lib/main.js:65-67 | An expiry equal to now passes, and one millisecond later the token is `Expired idToken` |
| `Claims.IssuerReportedFirst` | lib/main.js:57-63 | A token with a bad issuer is reported as a bad issuer, whatever else is wrong with it |
| `Claims.PassesEarlier` | lib/main.js:65 | A payload that passes at some instant also passes at every earlier instant |
| `Claims.NoExpiryNeverExpires` | lib/main.js:65 | A NaN expiry (no `exp`) never fails the strict comparison |
| `Errors.MessagesDistinguishErrors` | lib/main.js:20-66 | Two errors have the same message exactly when they are the same error |
| `Pipeline.Verify` | lib/main.js:70-82 | A token without two dots fails with `Invalid idToken`; when the cache passed `null` the result is a decoding error or the TypeError; a success returns the decoded payload, which passed every claim check |
| `Pipeline.VerifyAcceptsExactly` | lib/main.js:72-79 | `verify` returns payload P exactly when the token is three dot-free segments, the first key with the header's `kid` signs the first two segments, P is the decoded payload, and P passes the claim checks |
| `Pipeline.VerifySound` | lib/main.js:72-77 | Every payload `verify` returns satisfies the independent acceptance description |
| `Pipeline.VerifyComplete` | lib/main.js:72-77 | Every token the acceptance description admits is accepted by `verify`, with that payload |
| `Pipeline.DecodeErrorWins` | lib/main.js:73 | A decoding error is reported whatever the keys, the clock and the signature |
| `Pipeline.SignatureBeforeClaims` | lib/main.js:74-75 | A signature failure is reported before any claim failure |
| `Pipeline.ClaimFailureReported` | lib/main.js:75-79 | For a decodable, correctly signed token, the failure reported is the claim check's failure |
| `Pipeline.CachedNullRejects` | lib/main.js:71-74 | While a `null` certificate body is cached and unexpired, every decodable token fails with the `keys.keys` TypeError and no request is made |
| `Pipeline.VerifyWithCache` | lib/main.js:70-82 | The cache call runs first and its state and request count are kept; no answer comes only when the cache throws (discovery as corrected under "## Findings"); a cache error never yields a payload |
| `CacheControl.IndexOf` | lib/certCache.js:41-42 | Finds the first position of the pattern, with no earlier occurrence; returns `None` exactly when the pattern does not occur |
| `CacheControl.DigitRun` | lib/certCache.js:41 | The greedy `[0-9]*` match: a prefix made only of digits, followed by a non-digit or by the end of the string |
| `CacheControl.Decimal` | lib/certCache.js:45 | The decimal spelling of a number is non-empty and made only of digits |
| `CacheControl.DecimalRoundTrip` | lib/certCache.js:45 | Reading the decimal spelling of N the way `regexResult[1] * 1000` reads its digits gives back N |
| `CacheControl.MaxAge` | lib/certCache.js:41-45 | `exec` returns `null` exactly when `max-age=` does not occur |
| `CacheControl.MaxAgeReadsDirective` | lib/certCache.js:41-45 | When the first `max-age=` in the header is followed by a digit string and then a non-digit or the end, the value read is that string's decimal value, whatever directives come before it; an empty run reads as 0 |
| `CacheControl.MaxAgeReadsDecimal` | lib/certCache.js:41-45 | The decimal spelling of N after the first `max-age=` reads as N |
| `CacheControl.FirstDirectiveAt` | lib/certCache.js:42 | The leftmost match starts at the first occurrence of `max-age=` |
| `CacheControl.NoDirectiveWithoutM` | lib/certCache.js:42 | Text with no `m` holds no start of `max-age=` |
| `CacheControl.MaxAgeAfterOtherDirectives` | lib/certCache.js:41-45 | `must-revalidate, max-age=60` reads as 60 seconds |
| `CacheControl.MaxAgeEmptyRun` | lib/certCache.js:41-45 | `max-age=, public` reads as 0 seconds, so the keys expire at once |
| `CacheControl.MaxAgeLeadingZeros` | lib/certCache.js:41-45 | `max-age=007` reads as 7 seconds |
| `CacheControl.DigitRunStops` | lib/certCache.js:41 | The digit run stops at the first non-digit |
| `CertCache.ExpiryFromHeader` | lib/certCache.js:37-50 | An absent or empty header gives a `null` expiry; a header without `max-age=` throws; otherwise the expiry is `now` plus a whole number of seconds, within the `Date` range |
| `CertCache.ExpiryOfMaxAge` | lib/certCache.js:40-50 | When the first `max-age=` is followed by the digits D, the expiry is `now + 1000*D`, with an empty run giving `now`; past 8.64e15 ms it is the Invalid Date |
| `CertCache.FetchCerts` | lib/certCache.js:31-53 | Makes one request and keeps the URL. A failure leaves the state unchanged and reports the prefixed error. A header with no `max-age=` throws and changes nothing. Otherwise the body, `null` included, is cached and delivered, with the new expiry |
| `CertCache.GetFederatedCerts` | lib/certCache.js:13-72 | With discovery as corrected under "## Findings": at most 2 requests; 0 exactly on the fast path, which returns the cache with the state unchanged; a resolved URL is kept and costs one request; a discovery failure changes nothing; a `null` discovery body throws and changes nothing; cache and expiry change only when keys are delivered, and then the cache holds what was delivered; while no certificate body is `null`, an expiry is only set together with keys |
| `CertCache.DiscoveryResolvesUrl` | lib/certCache.js:63-69 | A successful discovery stores `jwks_uri` and fetches the keys from it in the same call, using two requests; an error is reported exactly when that fetch fails |
| `CertCache.MissingUriReported` | lib/certCache.js:68-69 | A discovery document without `jwks_uri` ends the call after one request, with an error and the state unchanged |
| `CertCache.NullDiscoveryThrows` | lib/certCache.js:68 | A discovery body that is JSON `null` throws after one request, with no callback and the state unchanged |
| `CertCache.NullKeysCached` | lib/certCache.js:50-52 | A `null` certificate body is cached with the header's expiry, breaking "expiry only with keys", and every call before that expiry delivers `null` keys without a request |
| `CertCache.NoExpiryAlwaysRequests` | lib/certCache.js:16 | With a `null` expiry, every call makes at least one request |
| `CertCache.UrlNeverCleared` | lib/certCache.js:21-24 | Once resolved, the URL stays the same after any sequence of calls, failures included |
| `CertCache.ValidAfterScript` | lib/certCache.js:50-51 | An expiry is only ever set together with cached keys, along any sequence of calls whose certificate bodies are never `null` |
| `CertCache.RequestsBounded` | lib/certCache.js:21-31 | A sequence of k calls makes at most 2k requests |
| `CertCache.InvalidExpiryRefetches` | lib/certCache.js:16-50 | An expiry past the `Date` range is stored as the Invalid Date: the keys are delivered once, and the next call, at any instant, requests again |
| `CertCache.MaxAgeBeyondDateRange` | lib/certCache.js:45-50 | A `max-age` above 8.64e12 seconds, read at a non-negative clock, gives the Invalid Date |
| `CertCache.RefreshHonoursMaxAge` | lib/certCache.js:16-17 | After a fetch with `max-age=N`, a call within N seconds is served from the cache with no request; a later call requests again |
| `CertCache.TraceStep` | lib/certCache.js:13-54 | One call of a sequence starts from the state the previous call left |
| `CertCache.TestHeaderExpiry` | test/cacheTest.js:13-23 | The test's header `public, max-age=<seconds>...` makes the keys expire after the whole seconds, however the fraction after them is spelled, within the `Date` range |
| `CertCache.TestCalls` | test/cacheTest.js:14-24 | Each scripted call of the test gives the expected reply, next state and request count |
| `CertCache.TestTrace` | test/cacheTest.js:33-55 | The test's four calls form the trace computed by the transition function |
| `CertCache.CacheTestScenario` | test/cacheTest.js:33-55 | The running request counts are 1, 3, 4, 4; the first two calls report an error with no keys; the last two deliver the keys |
| `DiscoveryLoop.GetCertsAsWritten` | lib/certCache.js:13-72 | The source's recursion unrolled for at most `fuel` requests; whenever it completes, it used no more requests than the fuel |
| `DiscoveryLoop.MissingUriNeverCompletes` | lib/certCache.js:63-69 | With no `jwks_uri` in the discovery document, the source's call does not complete for any number of requests |
| `DiscoveryLoop.AsWrittenAgrees` | lib/certCache.js:13-72 | In every other case, the source's call completes within two requests with exactly the transition function's result |

## Left out

- `Signature.VerifySignature`: the RSA/SHA-256 check and `getPem`'s modulus/exponent-to-PEM
  conversion (lib/main.js:45-49) are foreign crypto. They are the predicate `RsaCheck`. An
  exception thrown inside them, for example for a key with no `n`, is not modelled. The
  source would report that exception. The model answers `Invalid Signature` or passes.
- Node's `Buffer` base64 decoding and `JSON.parse` (lib/main.js:8-10, :24-25) are foreign
  decoders. They are the partial functions of `Token.Decoders`. A header or payload that
  parses to JSON `null` is not modelled, because the source's TypeError for it happens
  outside `decodeJWT`.
- `Token.Payload`: `iss`, `aud` and `kid` are `Option<string>`. A value that is not a string
  behaves like an absent one, because the comparisons are strict. `exp` enters as the
  integer time value of `new Date(exp*1000)`, and NaN is `None`. Float rounding of
  fractional seconds is not modelled.
- `Pipeline.Verify`: the expected audience is a string. A caller passing `undefined`, which
  would then match an absent `aud`, is not modelled.
- `CacheControl.MaxAge`: the digit run is read as an unbounded natural number, and
  `regexResult[1] * 1000` as exact. JavaScript rounds that product once it passes 2^53, but
  such a product already lies past the `Date` range, so the expiry is the Invalid Date
  either way unless the clock reads before about 1958.
- The HTTP client, the callback and async plumbing, and the `CertCache.global` singleton
  (lib/certCache.js:31, :63, :74) are replaced by `CertCache.Network` responses and an
  explicit `CertCache.State`.
- `CertCache.GetFederatedCerts`: one clock reading serves the whole call. The source reads
  the clock again after the response (lib/certCache.js:49) and in `verifyPayload`
  (lib/main.js:55). `Pipeline.VerifyWithCache` likewise uses one instant for the cache and
  for the claims.
- A certificate body that is a JSON object without a `keys` list is read as an empty key
  set, and a discovery body that is not `null` but has no string `jwks_uri` is read as
  naming none. Other non-object JSON bodies and keys whose `kid` is not a string are not
  modelled.
- Concurrent `verify` calls racing on the shared cache are not modelled. The model is
  sequential.
- The map-of-certificates key form and the authorization-code exchange do not appear in
  the code, so they are not modelled.
- Strings are sequences of characters. JavaScript measures `length` in UTF-16 code units,
  which agrees for the ASCII alphabet of base64url tokens.
- The text of runtime TypeErrors depends on the Node version. `Errors.Message` gives a
  descriptive string for them.

## Findings

| source | as written | input that shows it | evidently intended | confidence | as-written member | corrected member |
|---|---|---|---|---|---|---|
| lib/certCache.js:68-69 | The code stores `body.jwks_uri` and calls `getFederatedGoogleCerts` again. A missing or empty `jwks_uri` is falsy, so that call goes back to `getGoogleCertsURI` and requests the discovery document again, with no limit and no callback | An empty cache and a discovery response `{}`, with no `jwks_uri` | Report an error after the discovery request and leave the state unresolved | medium; not executed | `DiscoveryLoop.GetCertsAsWritten` (`DiscoveryLoop.MissingUriNeverCompletes`) | `CertCache.GetFederatedCerts` (`CertCache.MissingUriReported`; `DiscoveryLoop.AsWrittenAgrees` shows that the two agree everywhere else) |
