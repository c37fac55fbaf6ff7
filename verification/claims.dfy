/**
 * `verifyPayload` (lib/main.js:54-68): the ID-token claim checks of section
 * 3.1.3.7 of OpenID Connect Core 1.0 as the source performs them: issuer,
 * then audience, then expiry; no not-before or issued-at check.
 */
module Claims {
  import opened Wrappers
  import opened Errors
  import opened Token

  /** The two issuers the source accepts. */
  const Issuers: seq<string> := ["accounts.google.com", "https://accounts.google.com"]

  predicate IssuerAccepted(p: Payload)
  {
    p.iss.Some? && p.iss.value in Issuers
  }

  /** `payload.aud !== audience` is false: `aud` is the very string expected. */
  predicate AudienceMatches(p: Payload, audience: string)
  {
    p.aud == Some(audience)
  }

  /**
   * `now > new Date(payload.exp * 1000)`: strict, so an expiry equal to now is
   * not expired; a NaN expiry compares false, so it never expires.
   */
  predicate ExpiredAt(p: Payload, nowMs: int)
  {
    p.expMs.Some? && nowMs > p.expMs.value
  }

  /** The model of `verifyPayload`; `nowMs` is `new Date()` in milliseconds. */
  function VerifyPayload(p: Payload, audience: string, nowMs: int): (r: Outcome<VerifyError>)
    ensures r.Pass? <==> IssuerAccepted(p) && AudienceMatches(p, audience) && !ExpiredAt(p, nowMs)
    ensures r == Fail(InvalidIssuer) <==> !IssuerAccepted(p)
    ensures r == Fail(InvalidAudience) <==> IssuerAccepted(p) && !AudienceMatches(p, audience)
    ensures r == Fail(Expired) <==> IssuerAccepted(p) && AudienceMatches(p, audience) && ExpiredAt(p, nowMs)
  {
    if !(p.iss.Some? && p.iss.value in Issuers) then Fail(InvalidIssuer)
    else if p.aud != Some(audience) then Fail(InvalidAudience)
    else if p.expMs.Some? && nowMs > p.expMs.value then Fail(Expired)
    else Pass
  }

  /** A token whose expiry instant is exactly now still passes the expiry test. */
  lemma ExpiryBoundaryPasses(p: Payload, audience: string)
    requires IssuerAccepted(p) && AudienceMatches(p, audience) && p.expMs.Some?
    ensures VerifyPayload(p, audience, p.expMs.value) == Pass
    ensures VerifyPayload(p, audience, p.expMs.value + 1) == Fail(Expired)
  {
  }

  /** The issuer check comes first: a token failing several checks reports the issuer. */
  lemma IssuerReportedFirst(p: Payload, audience: string, nowMs: int)
    requires !IssuerAccepted(p)
    ensures VerifyPayload(p, audience, nowMs) == Fail(InvalidIssuer)
  {
  }

  /** A token that passes at some instant passes at every earlier instant. */
  lemma PassesEarlier(p: Payload, audience: string, nowMs: int, earlier: int)
    requires VerifyPayload(p, audience, nowMs) == Pass
    requires earlier <= nowMs
    ensures VerifyPayload(p, audience, earlier) == Pass
  {
  }

  /** A token whose expiry is NaN (no `exp`) never fails the expiry test. */
  lemma NoExpiryNeverExpires(p: Payload, audience: string, nowMs: int)
    requires IssuerAccepted(p) && AudienceMatches(p, audience) && p.expMs.None?
    ensures VerifyPayload(p, audience, nowMs) == Pass
  {
  }
}
