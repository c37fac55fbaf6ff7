/**
 * `exports.verify` (lib/main.js:70-82): the key cache is consulted first, then
 * the token is decoded, its signature checked and its claims validated; the
 * first failure is reported with no payload.
 */
module Pipeline {
  import opened Wrappers
  import opened Errors
  import opened Token
  import opened Signature
  import opened Claims
  import opened CertCache
  import Base64Url

  /**
   * The callback body (lib/main.js:72-80). `keys` is the callback's second
   * argument: the JWKS document, or `None` for the `null` the cache passes
   * on failure. The callback's error argument is ignored, as in the source.
   */
  function Verify(idToken: string, audience: string, keys: Option<Jwks>, nowMs: int, dec: Decoders, rsa: RsaCheck)
    : (r: Result<Payload, VerifyError>)
    ensures Count(idToken, '.') != 2 ==> r == Failure(InvalidIdToken)
    ensures keys.None? ==> r.Failure? && r.error in {InvalidIdToken, InvalidPayload, KeysNull}
    ensures r.Success? ==>
      && DecodeJwt(idToken, dec).Success?
      && r.value == DecodeJwt(idToken, dec).value.payload
      && IssuerAccepted(r.value) && AudienceMatches(r.value, audience) && !ExpiredAt(r.value, nowMs)
  {
    match DecodeJwt(idToken, dec)
    case Failure(e) => Failure(e)
    case Success(jwt) =>
      if keys.None? then Failure(KeysNull)
      else match VerifySignature(jwt, keys.value.keys, rsa)
        case Fail(e) => Failure(e)
        case Pass =>
          match VerifyPayload(jwt.payload, audience, nowMs)
          case Fail(e) => Failure(e)
          case Pass => Success(jwt.payload)
  }

  /**
   * An independent description of an accepted token: three dot-free segments,
   * a header naming a key the key set holds, a signature the first such key
   * accepts over the first two segments as sent, and claims that pass.
   */
  ghost predicate Accepted(idToken: string, audience: string, keys: Option<Jwks>, nowMs: int,
                           dec: Decoders, rsa: RsaCheck, payload: Payload)
  {
    exists h: string, p: string, sig: string, header: Header, i: int ::
      AcceptedAs(idToken, audience, keys, nowMs, dec, rsa, payload, h, p, sig, header, i)
  }

  /** `Accepted`, with the segments, the decoded header and the chosen key's position named. */
  predicate AcceptedAs(idToken: string, audience: string, keys: Option<Jwks>, nowMs: int,
                       dec: Decoders, rsa: RsaCheck, payload: Payload,
                       h: string, p: string, sig: string, header: Header, i: int)
  {
    && idToken == h + "." + p + "." + sig
    && '.' !in h && '.' !in p && '.' !in sig
    && dec.header(h) == Some(header) && dec.payload(p) == Some(payload)
    && keys.Some? && header.kid.Some?
    && IsFirstWithKid(keys.value.keys, header.kid.value, i)
    && rsa(keys.value.keys[i], h + "." + p, Base64Url.UnescapedString(sig))
    && IssuerAccepted(payload) && AudienceMatches(payload, audience) && !ExpiredAt(payload, nowMs)
  }

  /** `verify` yields a payload exactly for the tokens `Accepted` describes, and that payload. */
  lemma VerifyAcceptsExactly(idToken: string, audience: string, keys: Option<Jwks>, nowMs: int,
                             dec: Decoders, rsa: RsaCheck, payload: Payload)
    ensures Verify(idToken, audience, keys, nowMs, dec, rsa) == Success(payload)
      <==> Accepted(idToken, audience, keys, nowMs, dec, rsa, payload)
  {
    if Verify(idToken, audience, keys, nowMs, dec, rsa) == Success(payload) {
      VerifySound(idToken, audience, keys, nowMs, dec, rsa, payload);
    }
    if Accepted(idToken, audience, keys, nowMs, dec, rsa, payload) {
      VerifyComplete(idToken, audience, keys, nowMs, dec, rsa, payload);
    }
  }

  lemma VerifySound(idToken: string, audience: string, keys: Option<Jwks>, nowMs: int,
                    dec: Decoders, rsa: RsaCheck, payload: Payload)
    requires Verify(idToken, audience, keys, nowMs, dec, rsa) == Success(payload)
    ensures Accepted(idToken, audience, keys, nowMs, dec, rsa, payload)
  {
    var jwt := DecodeJwt(idToken, dec).value;
    var parts := Split(idToken, '.');
    TokenShape(idToken, parts);
    var i := FindKey(keys.value.keys, jwt.header.kid.value).value;
    var h, p, sig := parts[0], parts[1], parts[2];
    assert jwt == DecodedJwt(h + "." + p, dec.header(h).value, dec.payload(p).value, Base64Url.UnescapedString(sig));
    assert AcceptedAs(idToken, audience, keys, nowMs, dec, rsa, payload, h, p, sig, jwt.header, i);
  }

  lemma VerifyComplete(idToken: string, audience: string, keys: Option<Jwks>, nowMs: int,
                       dec: Decoders, rsa: RsaCheck, payload: Payload)
    requires Accepted(idToken, audience, keys, nowMs, dec, rsa, payload)
    ensures Verify(idToken, audience, keys, nowMs, dec, rsa) == Success(payload)
  {
    var h: string, p: string, sig: string, header: Header, i: int :|
      AcceptedAs(idToken, audience, keys, nowMs, dec, rsa, payload, h, p, sig, header, i);
    DecodeBuiltToken(h, p, sig, dec);
    var jwt := DecodedJwt(h + "." + p, header, payload, Base64Url.UnescapedString(sig));
    assert DecodeJwt(idToken, dec) == Success(jwt);
    var j := FindKey(keys.value.keys, header.kid.value).value;
    FirstIsUnique(keys.value.keys, header.kid.value, i, j);
    assert VerifySignature(jwt, keys.value.keys, rsa) == Pass;
    assert VerifyPayload(payload, audience, nowMs) == Pass;
  }

  /** The decoding errors come before everything else, whatever the keys and the clock. */
  lemma DecodeErrorWins(idToken: string, audience: string, keys: Option<Jwks>, nowMs: int, dec: Decoders, rsa: RsaCheck)
    requires DecodeJwt(idToken, dec).Failure?
    ensures Verify(idToken, audience, keys, nowMs, dec, rsa) == Failure(DecodeJwt(idToken, dec).error)
  {
  }

  /** The signature is checked before the claims: a bad signature hides every claim failure. */
  lemma SignatureBeforeClaims(idToken: string, audience: string, keys: Jwks, nowMs: int, dec: Decoders, rsa: RsaCheck)
    requires DecodeJwt(idToken, dec).Success?
    requires VerifySignature(DecodeJwt(idToken, dec).value, keys.keys, rsa).Fail?
    ensures Verify(idToken, audience, Some(keys), nowMs, dec, rsa)
      == Failure(VerifySignature(DecodeJwt(idToken, dec).value, keys.keys, rsa).error)
  {
  }

  /** A correctly signed, decodable token fails exactly with its first failing claim check. */
  lemma ClaimFailureReported(idToken: string, audience: string, keys: Jwks, nowMs: int, dec: Decoders, rsa: RsaCheck)
    requires DecodeJwt(idToken, dec).Success?
    requires VerifySignature(DecodeJwt(idToken, dec).value, keys.keys, rsa).Pass?
    ensures Verify(idToken, audience, Some(keys), nowMs, dec, rsa).Failure?
      ==> Verify(idToken, audience, Some(keys), nowMs, dec, rsa).error
          == VerifyPayload(DecodeJwt(idToken, dec).value.payload, audience, nowMs).error
  {
  }

  /** A whole `verify` call: the answer (`None` when the callback never runs), the cache's next state, the requests made. */
  datatype Verification = Verification(result: Option<Result<Payload, VerifyError>>, cache: State, requests: nat)

  /**
   * `exports.verify` with the global cache made explicit: the cache call comes
   * first, and its `keys` argument (never its error) feeds the callback body.
   */
  function VerifyWithCache(s: State, nowMs: int, net: Network, idToken: string, audience: string,
                           dec: Decoders, rsa: RsaCheck): (v: Verification)
    ensures v.cache == GetFederatedCerts(s, nowMs, net).state
    ensures v.requests == GetFederatedCerts(s, nowMs, net).requests <= 2
    ensures v.result.None? <==> GetFederatedCerts(s, nowMs, net).reply.Uncaught?
    ensures GetFederatedCerts(s, nowMs, net).reply.Callback? && GetFederatedCerts(s, nowMs, net).reply.err.Some? ==>
      v.result.Some? && v.result.value.Failure? && v.result.value.error in {InvalidIdToken, InvalidPayload, KeysNull}
    ensures v.result.Some? && v.result.value.Success? ==>
      Accepted(idToken, audience, GetFederatedCerts(s, nowMs, net).reply.keys, nowMs, dec, rsa, v.result.value.value)
  {
    var c := GetFederatedCerts(s, nowMs, net);
    match c.reply
    case Uncaught(_) => Verification(None, c.state, c.requests)
    case Callback(_, keys) =>
      var r := Verify(idToken, audience, keys, nowMs, dec, rsa);
      VerifyAcceptsExactly(idToken, audience, keys, nowMs, dec, rsa,
                           if r.Success? then r.value else Payload(None, None, None, None));
      Verification(Some(r), c.state, c.requests)
  }

  /**
   * While a `null` certificate body is cached and unexpired, `keys.keys`
   * throws for every decodable token, with no request made.
   */
  lemma CachedNullRejects(s: State, nowMs: int, net: Network, idToken: string, audience: string,
                          dec: Decoders, rsa: RsaCheck)
    requires Fresh(s, nowMs) && s.cache.None?
    requires DecodeJwt(idToken, dec).Success?
    ensures VerifyWithCache(s, nowMs, net, idToken, audience, dec, rsa) == Verification(Some(Failure(KeysNull)), s, 0)
  {
  }
}
