/**
 * `getFederatedGoogleCerts` and `getGoogleCertsURI` exactly as written
 * (lib/certCache.js:13-72), including the case the transition function of
 * module CertCache reports as an error: a discovery document whose `jwks_uri`
 * is missing or empty leaves the URL falsy, so `getFederatedGoogleCerts`
 * calls `getGoogleCertsURI` again, which requests the document again. The
 * recursion is unrolled for at most `fuel` requests.
 */
module DiscoveryLoop {
  import opened Wrappers
  import opened CertCache

  /** The call as written; `None` when it has not reached a callback within `fuel` requests. */
  function GetCertsAsWritten(s: State, now: int, net: Network, fuel: nat): (r: Option<Call>)
    ensures r.Some? ==> r.value.requests <= fuel
    decreases fuel
  {
    if s.expiry.Some? && s.expiry.value.At? && now < s.expiry.value.ms then Some(Call(Callback(None, s.cache), s, 0))
    else if fuel == 0 then None
    else if s.url.None? then
      match Discovery(net)
      case RequestFailed(reason) => Some(Call(Callback(Some(DiscoveryFailurePrefix + reason), None), s, 1))
      case Received(_, None) => Some(Call(Uncaught(NullDiscoveryBody), s, 1))
      case Received(_, Some(doc)) =>
        var next := s.(url := if doc.jwksUri == "" then None else Some(doc.jwksUri));
        match GetCertsAsWritten(next, now, net, fuel - 1)
        case None => None
        case Some(c) => Some(c.(requests := c.requests + 1))
    else Some(FetchCerts(s, now, net.certs(s.url.value)))
  }

  /** A discovery response naming no `jwks_uri`. */
  predicate NamesNoJwksUri(net: Network)
  {
    Discovery(net).Received? && Discovery(net).body == Some(DiscoveryDoc(""))
  }

  /**
   * The discrepancy: with the URL unresolved, keys not fresh and a discovery
   * document lacking `jwks_uri`, no number of requests lets the call finish.
   */
  lemma {:induction false} MissingUriNeverCompletes(s: State, now: int, net: Network, fuel: nat)
    requires s.url.None? && !Fresh(s, now) && NamesNoJwksUri(net)
    ensures GetCertsAsWritten(s, now, net, fuel).None?
    decreases fuel
  {
    if fuel > 0 {
      MissingUriNeverCompletes(s.(url := None), now, net, fuel - 1);
    }
  }

  /**
   * Everywhere else the source and the transition function agree: two
   * requests always suffice and the results coincide.
   */
  lemma AsWrittenAgrees(s: State, now: int, net: Network, fuel: nat)
    requires fuel >= 2
    requires !(s.url.None? && NamesNoJwksUri(net))
    ensures GetCertsAsWritten(s, now, net, fuel) == Some(GetFederatedCerts(s, now, net))
  {
    if !Fresh(s, now) && s.url.None? && Discovery(net).Received? && Discovery(net).body.Some? {
      var uri := Discovery(net).body.value.jwksUri;
      assert GetCertsAsWritten(s.(url := Some(uri)), now, net, fuel - 1)
        == Some(FetchCerts(s.(url := Some(uri)), now, net.certs(uri)));
    }
  }
}
