/**
 * `verifySignature` (lib/main.js:38-52): selects the JSON Web Key named by the
 * header's `kid` and checks the RSA/SHA-256 signature over the signed bytes.
 * The PEM conversion and the cryptographic check are foreign code and enter
 * as the predicate `RsaCheck`.
 */
module Signature {
  import opened Wrappers
  import opened Errors
  import opened Token

  /** One entry of a JWKS `keys` list: key id, modulus and exponent (base64url). */
  datatype Jwk = Jwk(kid: string, n: string, e: string)

  /** `crypto.createVerify('sha256')` on `getPem(key.n, key.e)`: (key, dataToSign, signature) to verdict. */
  type RsaCheck = (Jwk, string, string) -> bool

  /** `i` is the position of the first key whose `kid` is `kid` (what `_.findWhere` picks). */
  predicate IsFirstWithKid(keys: seq<Jwk>, kid: string, i: int)
  {
    && 0 <= i < |keys|
    && keys[i].kid == kid
    && forall j :: 0 <= j < i ==> keys[j].kid != kid
  }

  /** `_.findWhere(keys, {kid: kid})` as a position; `None` when `_.pluck(keys, 'kid')` lacks `kid`. */
  function FindKey(keys: seq<Jwk>, kid: string): (r: Option<nat>)
    ensures r.Some? ==> IsFirstWithKid(keys, kid, r.value)
    ensures r.None? <==> forall j :: 0 <= j < |keys| ==> keys[j].kid != kid
  {
    if keys == [] then None
    else if keys[0].kid == kid then Some(0)
    else match FindKey(keys[1..], kid)
      case None => None
      case Some(i) => Some(i + 1)
  }

  /** The header names a key id, and some key carries it. */
  predicate KeyFound(jwt: DecodedJwt, keys: seq<Jwk>)
  {
    jwt.header.kid.Some? && exists j :: 0 <= j < |keys| && keys[j].kid == jwt.header.kid.value
  }

  /** The model of `verifySignature`. */
  function VerifySignature(jwt: DecodedJwt, keys: seq<Jwk>, rsa: RsaCheck): (r: Outcome<VerifyError>)
    ensures r == Fail(NoValidJwk) <==> !KeyFound(jwt, keys)
    ensures r == Fail(InvalidSignature) <==>
      jwt.header.kid.Some? &&
      exists i :: IsFirstWithKid(keys, jwt.header.kid.value, i) && !rsa(keys[i], jwt.dataToSign, jwt.signature)
    ensures r.Pass? <==>
      jwt.header.kid.Some? &&
      exists i :: IsFirstWithKid(keys, jwt.header.kid.value, i) && rsa(keys[i], jwt.dataToSign, jwt.signature)
  {
    if jwt.header.kid.None? then Fail(NoValidJwk)
    else match FindKey(keys, jwt.header.kid.value)
      case None => Fail(NoValidJwk)
      case Some(i) =>
        if rsa(keys[i], jwt.dataToSign, jwt.signature) then Pass else Fail(InvalidSignature)
  }

  /** Without a matching key the verdict is `NoValidJwk` whatever the crypto predicate says. */
  lemma UnknownKeyIgnoresCrypto(jwt: DecodedJwt, keys: seq<Jwk>, rsa1: RsaCheck, rsa2: RsaCheck)
    requires !KeyFound(jwt, keys)
    ensures VerifySignature(jwt, keys, rsa1) == VerifySignature(jwt, keys, rsa2) == Fail(NoValidJwk)
  {
  }

  /**
   * Only the first key with the header's `kid` matters: keys placed after it,
   * even ones reusing the same id, do not change the verdict.
   */
  lemma {:induction false} FirstKeyDecides(jwt: DecodedJwt, keys: seq<Jwk>, more: seq<Jwk>, rsa: RsaCheck)
    requires KeyFound(jwt, keys)
    ensures VerifySignature(jwt, keys + more, rsa) == VerifySignature(jwt, keys, rsa)
  {
    var kid := jwt.header.kid.value;
    var i := FindKey(keys, kid).value;
    assert IsFirstWithKid(keys + more, kid, i) by {
      assert (keys + more)[i] == keys[i];
      forall j | 0 <= j < i ensures (keys + more)[j].kid != kid {
        assert (keys + more)[j] == keys[j];
      }
    }
    FirstIsUnique(keys + more, kid, i, FindKey(keys + more, kid).value);
  }

  /** There is one first position. */
  lemma FirstIsUnique(keys: seq<Jwk>, kid: string, i: int, j: int)
    requires IsFirstWithKid(keys, kid, i) && IsFirstWithKid(keys, kid, j)
    ensures i == j
  {
  }
}
