/**
 * The key cache of lib/certCache.js as a transition function. The state is the
 * three fields of a `CertCache` object; the clock and the HTTP responses are
 * inputs; a call yields what reaches the callback, the next state and the
 * number of HTTP requests issued.
 */
module CertCache {
  import opened Wrappers
  import CacheControl
  import opened Signature

  /** The discovery document of OpenID Connect Discovery 1.0, section 4. */
  const DiscoveryDocumentUrl: string := "https://accounts.google.com/.well-known/openid-configuration"

  const CertsFailurePrefix: string := "Failed to retrieve verification certificates: "
  const DiscoveryFailurePrefix: string := "Failed to retrieve discovery document: "

  /**
   * The error this model reports when the discovery document names no JWKS
   * endpoint; the source instead requests the document again without end
   * (see module DiscoveryLoop).
   */
  const MissingJwksUri: string := "Discovery document names no jwks_uri"

  /** A JWKS document (`{"keys": [...]}`); an object without a `keys` list reads as an empty one. */
  datatype Jwks = Jwks(keys: seq<Jwk>)

  /** The discovery document's `jwks_uri` (section 3 of OpenID Connect Discovery 1.0); "" when absent. */
  datatype DiscoveryDoc = DiscoveryDoc(jwksUri: string)

  /**
   * The outcome of one `request.get`: a transport error, or the `Cache-Control`
   * header and the parsed body, `None` being a body that parses to JSON `null`.
   */
  datatype Response<B> = RequestFailed(reason: string) | Received(cacheControl: Option<string>, body: Option<B>)

  /** The server side of one call: the response to a request for each URL. */
  datatype Network = Network(discovery: string -> Response<DiscoveryDoc>, certs: string -> Response<Jwks>)

  /** The response to the request for the discovery document (lib/certCache.js:5, :58-63). */
  function Discovery(net: Network): Response<DiscoveryDoc>
  {
    net.discovery(DiscoveryDocumentUrl)
  }

  /** Every certificate response that arrives has a non-`null` body. */
  ghost predicate ServesKeyDocuments(net: Network)
  {
    forall u :: net.certs(u).Received? ==> net.certs(u).body.Some?
  }

  /** The exception `body.jwks_uri` raises on a `null` discovery body. */
  const NullDiscoveryBody: string := "TypeError: cannot read property 'jwks_uri' of null"

  /**
   * The largest time value a JavaScript `Date` holds, in milliseconds; the
   * constructor's TimeClip step turns anything beyond it into an Invalid Date.
   */
  const MaxTimeValue: int := 8_640_000_000_000_000

  /** A `Date` object: a time value in milliseconds, or the Invalid Date whose `getTime()` is NaN. */
  datatype Date = At(ms: int) | InvalidDate

  /** `new Date(t)` for a time value `t`. */
  function NewDate(t: int): (d: Date)
    ensures d.At? <==> -MaxTimeValue <= t <= MaxTimeValue
    ensures d.At? ==> d.ms == t
  {
    if -MaxTimeValue <= t <= MaxTimeValue then At(t) else InvalidDate
  }

  /**
   * `googleOAuth2FederatedSignonCertsUrl`, `certificateExpiry` and
   * `certificateCache`; `None` is `null` (or any falsy URL).
   */
  datatype State = State(url: Option<string>, expiry: Option<Date>, cache: Option<Jwks>)

  /** A freshly constructed `CertCache`. */
  const Empty: State := State(None, None, None)

  /**
   * What the caller observes: its callback invoked with `(err, keys)`, or an
   * exception escaping the HTTP callback, after which the caller's callback
   * is never invoked.
   */
  datatype Reply = Callback(err: Option<string>, keys: Option<Jwks>) | Uncaught(reason: string)

  /** The result of one `getFederatedGoogleCerts` call. */
  datatype Call = Call(reply: Reply, state: State, requests: nat)

  /**
   * Cached keys are served without a request: an expiry is set and lies
   * strictly in the future. An Invalid Date is truthy, but `now < NaN` is false.
   */
  predicate Fresh(s: State, now: int)
  {
    s.expiry.Some? && s.expiry.value.At? && now < s.expiry.value.ms
  }

  /**
   * An expiry is only set together with keys. The source keeps this as long
   * as the certificate server never answers with a `null` body.
   */
  predicate Valid(s: State)
  {
    s.expiry.Some? ==> s.cache.Some?
  }

  /** How a successful certificate response sets the expiry. */
  datatype NewExpiry = NoExpiry | ExpiresAt(ms: int) | ExpiresInvalid | HeaderThrows

  /**
   * lib/certCache.js:37-50. A missing or empty header gives `null`; a header
   * without `max-age=` makes `regexResult` `null` so `.length` throws; otherwise
   * the expiry is the `Date` of `now` plus the captured seconds in milliseconds,
   * which is the Invalid Date beyond `MaxTimeValue`.
   */
  function ExpiryFromHeader(cacheControl: Option<string>, now: int): (x: NewExpiry)
    ensures x == NoExpiry <==> cacheControl.None? || cacheControl.value == ""
    ensures x == HeaderThrows <==>
      cacheControl.Some? && cacheControl.value != "" &&
      forall j :: !CacheControl.OccursAt(cacheControl.value, CacheControl.Directive, j)
    ensures x.ExpiresAt? ==> now <= x.ms <= MaxTimeValue && (x.ms - now) % 1000 == 0
  {
    if cacheControl.None? || cacheControl.value == "" then NoExpiry
    else match CacheControl.MaxAge(cacheControl.value)
      case None => HeaderThrows
      case Some(seconds) =>
        match NewDate(now + 1000 * seconds)
        case At(ms) => ExpiresAt(ms)
        case InvalidDate => ExpiresInvalid
  }

  /**
   * A header whose first `max-age=` is followed by the digits `ds` and then a
   * non-digit or the end makes the keys expire that many seconds from now,
   * or sets the Invalid Date when that instant lies beyond `MaxTimeValue`.
   */
  lemma ExpiryOfMaxAge(prefix: string, ds: string, suffix: string, now: int)
    requires CacheControl.AllDigits(ds)
    requires suffix == [] || !CacheControl.IsDigit(suffix[0])
    requires forall j :: 0 <= j < |prefix| ==>
      !CacheControl.OccursAt(prefix + CacheControl.Directive + ds + suffix, CacheControl.Directive, j)
    ensures var t := now + 1000 * CacheControl.DecimalValue(ds);
      ExpiryFromHeader(Some(prefix + CacheControl.Directive + ds + suffix), now)
      == if -MaxTimeValue <= t <= MaxTimeValue then ExpiresAt(t) else ExpiresInvalid
  {
    CacheControl.MaxAgeReadsDirective(prefix, ds, suffix);
  }

  /** The certificate request and its callback, lib/certCache.js:26-53. */
  function FetchCerts(s: State, now: int, resp: Response<Jwks>): (c: Call)
    requires s.url.Some?
    ensures c.requests == 1 && c.state.url == s.url
    ensures resp.RequestFailed? ==>
      c.state == s && c.reply == Callback(Some(CertsFailurePrefix + resp.reason), None)
    ensures resp.Received? ==>
      match ExpiryFromHeader(resp.cacheControl, now)
      case HeaderThrows => c.reply.Uncaught? && c.state == s
      case NoExpiry => c.reply == Callback(None, resp.body) && c.state == s.(expiry := None, cache := resp.body)
      case ExpiresAt(ms) => c.reply == Callback(None, resp.body) && c.state == s.(expiry := Some(At(ms)), cache := resp.body)
      case ExpiresInvalid => c.reply == Callback(None, resp.body) && c.state == s.(expiry := Some(InvalidDate), cache := resp.body)
  {
    match resp
    case RequestFailed(reason) => Call(Callback(Some(CertsFailurePrefix + reason), None), s, 1)
    case Received(cacheControl, body) =>
      match ExpiryFromHeader(cacheControl, now)
      case HeaderThrows => Call(Uncaught("TypeError: cannot read property 'length' of null"), s, 1)
      case NoExpiry => Call(Callback(None, body), s.(expiry := None, cache := body), 1)
      case ExpiresAt(ms) => Call(Callback(None, body), s.(expiry := Some(At(ms)), cache := body), 1)
      case ExpiresInvalid => Call(Callback(None, body), s.(expiry := Some(InvalidDate), cache := body), 1)
  }

  /**
   * `getFederatedGoogleCerts` (lib/certCache.js:13-54) with `getGoogleCertsURI`
   * (lib/certCache.js:56-72): the fast path, then discovery when the URL is
   * unresolved, then the certificate request.
   */
  function GetFederatedCerts(s: State, now: int, net: Network): (c: Call)
    ensures c.requests <= 2
    ensures c.requests == 0 <==> Fresh(s, now)
    ensures Fresh(s, now) ==> c == Call(Callback(None, s.cache), s, 0)
    ensures s.url.Some? ==> c.state.url == s.url
    ensures s.url.Some? && !Fresh(s, now) ==> c.requests == 1
    ensures s.url.None? && !Fresh(s, now) && Discovery(net).RequestFailed? ==>
      c == Call(Callback(Some(DiscoveryFailurePrefix + Discovery(net).reason), None), s, 1)
    ensures s.url.None? && !Fresh(s, now) && Discovery(net).Received? && Discovery(net).body.None? ==>
      c == Call(Uncaught(NullDiscoveryBody), s, 1)
    ensures c.reply.Callback? && c.reply.err.Some? ==> c.reply.keys.None?
    ensures !(c.reply.Callback? && c.reply.err.None?) ==>
      c.state.cache == s.cache && c.state.expiry == s.expiry
    ensures c.reply.Callback? && c.reply.err.None? ==> c.state.cache == c.reply.keys
    ensures Valid(s) && ServesKeyDocuments(net) ==> Valid(c.state)
    ensures Valid(s) && ServesKeyDocuments(net) && c.reply.Callback? && c.reply.err.None? ==> c.reply.keys.Some?
  {
    if s.expiry.Some? && s.expiry.value.At? && now < s.expiry.value.ms then Call(Callback(None, s.cache), s, 0)
    else if s.url.None? then
      match Discovery(net)
      case RequestFailed(reason) => Call(Callback(Some(DiscoveryFailurePrefix + reason), None), s, 1)
      case Received(_, None) => Call(Uncaught(NullDiscoveryBody), s, 1)
      case Received(_, Some(doc)) =>
        if doc.jwksUri == "" then Call(Callback(Some(MissingJwksUri), None), s, 1)
        else
          var c := FetchCerts(s.(url := Some(doc.jwksUri)), now, net.certs(doc.jwksUri));
          c.(requests := c.requests + 1)
    else FetchCerts(s, now, net.certs(s.url.value))
  }

  /** A successful discovery resolves the URL to the document's `jwks_uri`, and the certificates are fetched from it. */
  lemma DiscoveryResolvesUrl(s: State, now: int, net: Network)
    requires s.url.None? && !Fresh(s, now)
    requires Discovery(net).Received? && Discovery(net).body.Some? && Discovery(net).body.value.jwksUri != ""
    ensures var uri := Discovery(net).body.value.jwksUri;
      var c := GetFederatedCerts(s, now, net);
      && c.state.url == Some(uri)
      && c.requests == 2
      && (c.reply.Callback? && c.reply.err.Some? <==> net.certs(uri).RequestFailed?)
  {
  }

  /**
   * A discovery document without `jwks_uri` ends the call with an error after
   * one request, leaving the state as it was, where the source would request
   * the document again without end.
   */
  lemma MissingUriReported(s: State, now: int, net: Network)
    requires s.url.None? && !Fresh(s, now)
    requires Discovery(net).Received? && Discovery(net).body == Some(DiscoveryDoc(""))
    ensures GetFederatedCerts(s, now, net) == Call(Callback(Some(MissingJwksUri), None), s, 1)
  {
  }

  /** With no expiry stored, every call issues at least one request. */
  lemma NoExpiryAlwaysRequests(s: State, now: int, net: Network)
    requires s.expiry.None?
    ensures GetFederatedCerts(s, now, net).requests >= 1
  {
  }

  /** One call of a scripted sequence: the clock reading and the server's behaviour. */
  datatype Invocation = Invocation(now: int, net: Network)

  /** The calls of a sequence, each starting from the state the previous one left. */
  function Trace(s: State, script: seq<Invocation>): (t: seq<Call>)
    ensures |t| == |script|
    decreases |script|
  {
    if script == [] then []
    else
      var c := GetFederatedCerts(s, script[0].now, script[0].net);
      [c] + Trace(c.state, script[1..])
  }

  /** The state after a sequence of calls. */
  function Final(s: State, script: seq<Invocation>): State
    decreases |script|
  {
    if script == [] then s
    else Final(GetFederatedCerts(s, script[0].now, script[0].net).state, script[1..])
  }

  /** The number of requests issued by the calls of a trace. */
  function TotalRequests(t: seq<Call>): nat
  {
    if t == [] then 0 else t[0].requests + TotalRequests(t[1..])
  }

  /** Nothing clears a resolved URL: after any sequence of calls it is still the same. */
  lemma {:induction false} UrlNeverCleared(s: State, script: seq<Invocation>)
    requires s.url.Some?
    ensures Final(s, script).url == s.url
    decreases |script|
  {
    if script != [] {
      UrlNeverCleared(GetFederatedCerts(s, script[0].now, script[0].net).state, script[1..]);
    }
  }

  /** `Valid` is preserved by any sequence of calls whose certificate bodies are never `null`. */
  lemma {:induction false} ValidAfterScript(s: State, script: seq<Invocation>)
    requires Valid(s)
    requires forall k :: 0 <= k < |script| ==> ServesKeyDocuments(script[k].net)
    ensures Valid(Final(s, script))
    decreases |script|
  {
    if script != [] {
      ValidAfterScript(GetFederatedCerts(s, script[0].now, script[0].net).state, script[1..]);
    }
  }

  /** A sequence of `k` calls issues at most `2 * k` requests. */
  lemma {:induction false} RequestsBounded(s: State, script: seq<Invocation>)
    ensures TotalRequests(Trace(s, script)) <= 2 * |script|
    decreases |script|
  {
    if script != [] {
      var c := GetFederatedCerts(s, script[0].now, script[0].net);
      RequestsBounded(c.state, script[1..]);
      assert Trace(s, script)[1..] == Trace(c.state, script[1..]);
    }
  }

  /**
   * Refresh: after a successful fetch whose header says `max-age=N`, a call
   * within the next `N` seconds is served from the cache with no request,
   * and a call at or after that instant requests again.
   */
  lemma RefreshHonoursMaxAge(s: State, t: int, net: Network, later: int, net2: Network, n: nat)
    requires s.url.Some? && !Fresh(s, t)
    requires net.certs(s.url.value).Received?
    requires ExpiryFromHeader(net.certs(s.url.value).cacheControl, t) == ExpiresAt(t + 1000 * n)
    requires t <= later
    ensures var c := GetFederatedCerts(s, t, net);
      var c2 := GetFederatedCerts(c.state, later, net2);
      && c.reply == Callback(None, net.certs(s.url.value).body)
      && (later < t + 1000 * n ==> c2 == Call(Callback(None, net.certs(s.url.value).body), c.state, 0))
      && (later >= t + 1000 * n ==> c2.requests == 1)
  {
  }

  /**
   * An expiry beyond the `Date` range is stored as the Invalid Date, which is
   * truthy but never in the future: the keys are delivered once, and every
   * later call requests them again.
   */
  lemma InvalidExpiryRefetches(s: State, t: int, net: Network, later: int, net2: Network)
    requires s.url.Some? && !Fresh(s, t)
    requires net.certs(s.url.value).Received?
    requires ExpiryFromHeader(net.certs(s.url.value).cacheControl, t) == ExpiresInvalid
    ensures var c := GetFederatedCerts(s, t, net);
      && c.reply == Callback(None, net.certs(s.url.value).body)
      && c.state.expiry == Some(InvalidDate)
      && GetFederatedCerts(c.state, later, net2).requests == 1
  {
  }

  /** A `max-age` of more than 8.64e12 seconds, read at a non-negative clock, is past the `Date` range. */
  lemma MaxAgeBeyondDateRange(n: nat, now: int)
    requires 0 <= now && n > MaxTimeValue / 1000
    ensures ExpiryFromHeader(Some(CacheControl.Directive + CacheControl.Decimal(n)), now) == ExpiresInvalid
  {
    assert CacheControl.Directive + CacheControl.Decimal(n) == [] + CacheControl.Directive + CacheControl.Decimal(n) + [];
    ExpiryOfMaxAge([], CacheControl.Decimal(n), [], now);
    CacheControl.DecimalRoundTrip(n);
    assert 1000 * n >= 1000 * (MaxTimeValue / 1000 + 1);
  }

  /**
   * A certificate response whose body is JSON `null` is cached as it is, with
   * the header's expiry: until that expiry every call delivers `null` keys
   * without a request, so no token can be verified in the meantime.
   */
  lemma NullKeysCached(s: State, t: int, net: Network, later: int, net2: Network, ms: int)
    requires s.url.Some? && !Fresh(s, t)
    requires net.certs(s.url.value).Received? && net.certs(s.url.value).body.None?
    requires ExpiryFromHeader(net.certs(s.url.value).cacheControl, t) == ExpiresAt(ms)
    requires t <= later < ms
    ensures var c := GetFederatedCerts(s, t, net);
      && c == Call(Callback(None, None), s.(expiry := Some(At(ms)), cache := None), 1)
      && !Valid(c.state)
      && GetFederatedCerts(c.state, later, net2) == Call(Callback(None, None), c.state, 0)
  {
  }

  /** A discovery body that is JSON `null` makes `body.jwks_uri` throw before the URL is written. */
  lemma NullDiscoveryThrows(s: State, now: int, net: Network)
    requires s.url.None? && !Fresh(s, now)
    requires Discovery(net).Received? && Discovery(net).body.None?
    ensures GetFederatedCerts(s, now, net) == Call(Uncaught(NullDiscoveryBody), s, 1)
  {
  }

  /** A server of the test: every request answered the same way, whatever the URL. */
  function Always<B>(r: Response<B>): string -> Response<B>
  {
    (u: string) => r
  }

  /** The running totals of requests along a trace. */
  function Cumulative(t: seq<Call>, before: nat): (sums: seq<nat>)
    ensures |sums| == |t|
  {
    if t == [] then [] else [before + t[0].requests] + Cumulative(t[1..], before + t[0].requests)
  }

  /**
   * The header of test/cacheTest.js. Its `max-age` is `Date.now()/1000 + 1000`,
   * whose spelling is the whole seconds `n` followed by `rest`: a fraction, or
   * nothing, and then the remaining directives.
   */
  function TestHeader(n: nat, rest: string): string
  {
    "public, " + CacheControl.Directive + CacheControl.Decimal(n) + rest
  }

  /**
   * The test's header makes the keys expire `n` seconds from now, however the
   * fraction is spelled (the Invalid Date beyond the `Date` range).
   */
  lemma TestHeaderExpiry(n: nat, rest: string, now: int)
    requires rest == [] || !CacheControl.IsDigit(rest[0])
    ensures ExpiryFromHeader(Some(TestHeader(n, rest)), now)
      == if -MaxTimeValue <= now + 1000 * n <= MaxTimeValue then ExpiresAt(now + 1000 * n) else ExpiresInvalid
  {
    CacheControl.NoDirectiveWithoutM("public, ", CacheControl.Directive + CacheControl.Decimal(n) + rest);
    assert TestHeader(n, rest) == "public, " + (CacheControl.Directive + CacheControl.Decimal(n) + rest);
    ExpiryOfMaxAge("public, ", CacheControl.Decimal(n), rest, now);
    CacheControl.DecimalRoundTrip(n);
  }

  /**
   * The calls of test/cacheTest.js, all at instant `t`: discovery fails;
   * discovery succeeds and the certificate request fails; the certificates
   * arrive with `max-age`; the fourth call meets whatever server `other` is.
   */
  function TestScript(t: int, n: nat, rest: string, uri: string, body: Jwks, other: Network): seq<Invocation>
  {
    var timeout := RequestFailed("timeout");
    [ Invocation(t, Network(Always(RequestFailed("timeout")), Always(timeout))),
      Invocation(t, Network(Always(Received(None, Some(DiscoveryDoc(uri)))), Always(timeout))),
      Invocation(t, Network(Always(RequestFailed("timeout")), Always(Received(Some(TestHeader(n, rest)), Some(body))))),
      Invocation(t, other) ]
  }

  /**
   * The scripted sequence of test/cacheTest.js: the running request counts are
   * 1, 3, 4, 4, the first two calls report an error without keys, and the last
   * two deliver the certificates, the fourth from the cache.
   */
  lemma CacheTestScenario(t: int, n: nat, rest: string, uri: string, body: Jwks, other: Network)
    requires uri != "" && n >= 1 && -MaxTimeValue <= t && t + 1000 * n <= MaxTimeValue
    requires rest == [] || !CacheControl.IsDigit(rest[0])
    ensures var trace := Trace(Empty, TestScript(t, n, rest, uri, body, other));
      && Cumulative(trace, 0) == [1, 3, 4, 4]
      && trace[0].reply.Callback? && trace[0].reply.err.Some? && trace[0].reply.keys.None?
      && trace[1].reply.Callback? && trace[1].reply.err.Some? && trace[1].reply.keys.None?
      && trace[2].reply == Callback(None, Some(body))
      && trace[3].reply == Callback(None, Some(body))
  {
    var trace := TestTrace(t, n, rest, uri, body, other);
    assert Cumulative(trace[3..], 4) == [4] by {
      assert trace[3..][1..] == [];
    }
    assert trace[2..][1..] == trace[3..];
    assert Cumulative(trace[2..], 3) == [4, 4];
    assert trace[1..][1..] == trace[2..];
    assert Cumulative(trace[1..], 1) == [3, 4, 4];
  }

  /** One step of a trace. */
  lemma TraceStep(s: State, first: Invocation, rest: seq<Invocation>, c: Call)
    requires GetFederatedCerts(s, first.now, first.net) == c
    ensures Trace(s, [first] + rest) == [c] + Trace(c.state, rest)
  {
    assert ([first] + rest)[1..] == rest;
  }

  /** The four calls of the test one by one. */
  lemma TestTrace(t: int, n: nat, rest: string, uri: string, body: Jwks, other: Network) returns (trace: seq<Call>)
    requires uri != "" && n >= 1 && -MaxTimeValue <= t && t + 1000 * n <= MaxTimeValue
    requires rest == [] || !CacheControl.IsDigit(rest[0])
    ensures trace == Trace(Empty, TestScript(t, n, rest, uri, body, other))
    ensures trace == [
      Call(Callback(Some(DiscoveryFailurePrefix + "timeout"), None), Empty, 1),
      Call(Callback(Some(CertsFailurePrefix + "timeout"), None), State(Some(uri), None, None), 2),
      Call(Callback(None, Some(body)), State(Some(uri), Some(At(t + 1000 * n)), Some(body)), 1),
      Call(Callback(None, Some(body)), State(Some(uri), Some(At(t + 1000 * n)), Some(body)), 0)]
  {
    var script := TestScript(t, n, rest, uri, body, other);
    var s2 := State(Some(uri), None, None);
    var s3 := State(Some(uri), Some(At(t + 1000 * n)), Some(body));
    var c1 := Call(Callback(Some(DiscoveryFailurePrefix + "timeout"), None), Empty, 1);
    var c2 := Call(Callback(Some(CertsFailurePrefix + "timeout"), None), s2, 2);
    var c3 := Call(Callback(None, Some(body)), s3, 1);
    var c4 := Call(Callback(None, Some(body)), s3, 0);
    TestCalls(t, n, rest, uri, body, other);
    TraceStep(s3, script[3], [], c4);
    TraceStep(s2, script[2], [script[3]], c3);
    TraceStep(Empty, script[1], [script[2], script[3]], c2);
    TraceStep(Empty, script[0], [script[1], script[2], script[3]], c1);
    assert script == [script[0]] + [script[1], script[2], script[3]];
    trace := [c1, c2, c3, c4];
  }

  /** What each call of the test yields from the state the previous call left. */
  lemma TestCalls(t: int, n: nat, rest: string, uri: string, body: Jwks, other: Network)
    requires uri != "" && n >= 1 && -MaxTimeValue <= t && t + 1000 * n <= MaxTimeValue
    requires rest == [] || !CacheControl.IsDigit(rest[0])
    ensures var script := TestScript(t, n, rest, uri, body, other);
      var s2 := State(Some(uri), None, None);
      var s3 := State(Some(uri), Some(At(t + 1000 * n)), Some(body));
      && GetFederatedCerts(Empty, t, script[0].net) == Call(Callback(Some(DiscoveryFailurePrefix + "timeout"), None), Empty, 1)
      && GetFederatedCerts(Empty, t, script[1].net) == Call(Callback(Some(CertsFailurePrefix + "timeout"), None), s2, 2)
      && GetFederatedCerts(s2, t, script[2].net) == Call(Callback(None, Some(body)), s3, 1)
      && GetFederatedCerts(s3, t, script[3].net) == Call(Callback(None, Some(body)), s3, 0)
      && forall k :: 0 <= k < 4 ==> script[k].now == t
  {
    TestHeaderExpiry(n, rest, t);
    assert ExpiryFromHeader(Some(TestHeader(n, rest)), t) == ExpiresAt(t + 1000 * n);
  }
}
