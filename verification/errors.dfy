/** The failures the verification pipeline can report (lib/main.js). */
module Errors {

  /** One constructor per distinct `Error` the pipeline throws. */
  datatype VerifyError =
    | InvalidIdToken     // the token does not split into exactly three parts
    | InvalidPayload     // a header or payload segment fails to decode or parse
    | KeysNull           // the key cache handed over `null`, so `keys.keys` throws a TypeError
    | NoValidJwk         // no `kid` in the header, or no key carries it
    | InvalidSignature   // the RSA/SHA-256 check rejects the signature
    | InvalidIssuer      // `iss` is not one of the two accepted issuers
    | InvalidAudience    // `aud` differs from the expected audience
    | Expired            // the expiry instant lies strictly before now

  /** The message the source attaches to each error (the TypeError's text depends on the runtime). */
  function Message(e: VerifyError): string
  {
    match e
    case InvalidIdToken => "Invalid idToken"
    case InvalidPayload => "Invalid payload"
    case KeysNull => "TypeError: cannot read property 'keys' of null"
    case NoValidJwk => "Cannot not found valid JWK"
    case InvalidSignature => "Invalid Signature"
    case InvalidIssuer => "Invalid idToken issuer"
    case InvalidAudience => "Invalid idToken audience"
    case Expired => "Expired idToken"
  }

  /** Distinct failures carry distinct messages, so a caller can tell them apart by text. */
  lemma MessagesDistinguishErrors(e1: VerifyError, e2: VerifyError)
    ensures Message(e1) == Message(e2) <==> e1 == e2
  {
  }
}
