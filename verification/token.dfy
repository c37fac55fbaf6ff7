/**
 * `decodeJWT` (lib/main.js:17-36): the JWS compact serialisation (section 7.1
 * of RFC 7515) split into its three parts, with the signed bytes kept as sent.
 * Base64 decoding and `JSON.parse` are foreign code and enter as `Decoders`.
 */
module Token {
  import opened Wrappers
  import opened Errors
  import Base64Url

  /** The header fields the core reads; `kid` is `None` when absent or not a string. */
  datatype Header = Header(kid: Option<string>)

  /**
   * The payload fields the core reads. `iss`, `aud` and `sub` are `None` when absent
   * or not strings. `expMs` is the time value of `new Date(exp * 1000)` in integer
   * milliseconds, `None` when that value is NaN (for instance when `exp` is absent).
   */
  datatype Payload = Payload(iss: Option<string>, aud: Option<string>, expMs: Option<int>, sub: Option<string>)

  /**
   * `JSON.parse(decodeBase64WithUriEncoding(segment))` for the header and for the
   * payload; `None` is a thrown parse error.
   */
  datatype Decoders = Decoders(header: string -> Option<Header>, payload: string -> Option<Payload>)

  /** What `decodeJWT` returns. */
  datatype DecodedJwt = DecodedJwt(dataToSign: string, header: Header, payload: Payload, signature: string)

  /** The number of occurrences of `c` in `s`. */
  function Count(s: string, c: char): nat
  {
    if s == [] then 0 else (if s[0] == c then 1 else 0) + Count(s[1..], c)
  }

  lemma {:induction false} CountZero(s: string, c: char)
    ensures Count(s, c) == 0 <==> c !in s
  {
    if s != [] {
      CountZero(s[1..], c);
      assert c in s <==> s[0] == c || c in s[1..];
    }
  }

  lemma {:induction false} CountAppend(a: string, b: string, c: char)
    ensures Count(a + b, c) == Count(a, c) + Count(b, c)
  {
    if a == [] {
      assert a + b == b;
    } else {
      assert (a + b)[0] == a[0];
      assert (a + b)[1..] == a[1..] + b;
      CountAppend(a[1..], b, c);
    }
  }

  /** `s.split(sep)` for a one-character separator: the pieces between separators, empty ones kept. */
  function Split(s: string, sep: char): (parts: seq<string>)
    ensures |parts| == Count(s, sep) + 1
    ensures forall k :: 0 <= k < |parts| ==> sep !in parts[k]
  {
    if s == [] then [[]]
    else
      var rest := Split(s[1..], sep);
      if s[0] == sep then [[]] + rest
      else [[s[0]] + rest[0]] + rest[1..]
  }

  /** `parts.join(sep)`. */
  function Join(parts: seq<string>, sep: char): string
    requires |parts| >= 1
  {
    if |parts| == 1 then parts[0] else parts[0] + [sep] + Join(parts[1..], sep)
  }

  /** Joining the pieces of a split gives back the string. */
  lemma {:induction false} JoinSplit(s: string, sep: char)
    ensures Join(Split(s, sep), sep) == s
  {
    if s != [] {
      var rest := Split(s[1..], sep);
      JoinSplit(s[1..], sep);
      if s[0] == sep {
        assert ([[]] + rest)[1..] == rest;
      } else {
        var parts := [[s[0]] + rest[0]] + rest[1..];
        if |rest| == 1 {
          assert parts == [[s[0]] + rest[0]];
        } else {
          assert parts[1..] == rest[1..];
          assert Join(rest, sep) == rest[0] + [sep] + Join(rest[1..], sep);
        }
      }
    }
  }

  /** Splitting a join of separator-free pieces gives back the pieces. */
  lemma {:induction false} SplitJoin(parts: seq<string>, sep: char)
    requires |parts| >= 1
    requires forall k :: 0 <= k < |parts| ==> sep !in parts[k]
    ensures Split(Join(parts, sep), sep) == parts
  {
    if |parts| == 1 {
      SplitPiece(parts[0], sep);
    } else {
      SplitJoin(parts[1..], sep);
      SplitPieceThen(parts[0], Join(parts[1..], sep), sep);
      assert Join(parts, sep) == parts[0] + ([sep] + Join(parts[1..], sep));
      assert [parts[0]] + parts[1..] == parts;
    }
  }

  lemma {:induction false} SplitPiece(p: string, sep: char)
    requires sep !in p
    ensures Split(p, sep) == [p]
  {
    if p != [] {
      SplitPiece(p[1..], sep);
      assert [p[0]] + p[1..] == p;
    }
  }

  /** A separator-free piece followed by a separator and a tail splits into the piece and the tail's pieces. */
  lemma {:induction false} SplitPieceThen(p: string, tail: string, sep: char)
    requires sep !in p
    ensures Split(p + [sep] + tail, sep) == [p] + Split(tail, sep)
  {
    var s := p + [sep] + tail;
    if p == [] {
      assert s[0] == sep && s[1..] == tail;
    } else {
      assert s[0] == p[0];
      assert s[1..] == p[1..] + [sep] + tail;
      SplitPieceThen(p[1..], tail, sep);
      assert [p[0]] + p[1..] == p;
    }
  }

  /**
   * The model of `decodeJWT`. The three parts are decoded only when the token
   * splits into exactly three; the signature part is only unescaped.
   */
  function DecodeJwt(idToken: string, dec: Decoders): (r: Result<DecodedJwt, VerifyError>)
    ensures r == Failure(InvalidIdToken) <==> Count(idToken, '.') != 2
    ensures r.Failure? ==> r.error == InvalidIdToken || r.error == InvalidPayload
    ensures r.Success? ==>
      var n := |r.value.dataToSign|;
      && n < |idToken|
      && idToken[..n] == r.value.dataToSign
      && idToken[n] == '.'
      && Count(r.value.dataToSign, '.') == 1
      && '.' !in idToken[n + 1..]
      && r.value.signature == Base64Url.UnescapedString(idToken[n + 1..])
  {
    var parts := Split(idToken, '.');
    if |parts| != 3 then Failure(InvalidIdToken)
    else
      match (dec.header(parts[0]), dec.payload(parts[1]))
      case (Some(h), Some(p)) =>
        var dataToSign := Join(parts[..2], '.');
        TokenShape(idToken, parts);
        Success(DecodedJwt(dataToSign, h, p, Base64Url.UnescapedString(parts[2])))
      case _ => Failure(InvalidPayload)
  }

  /** The facts about a three-part token that `DecodeJwt`'s contract relies on. */
  lemma TokenShape(idToken: string, parts: seq<string>)
    requires parts == Split(idToken, '.') && |parts| == 3
    ensures var d := Join(parts[..2], '.');
      && d == parts[0] + "." + parts[1]
      && idToken == d + "." + parts[2]
      && Count(d, '.') == 1
  {
    JoinSplit(idToken, '.');
    var d := parts[0] + "." + parts[1];
    assert parts[..2][1..] == [parts[1]];
    assert Join(parts[1..], '.') == parts[1] + "." + parts[2];
    assert d == parts[0] + ("." + parts[1]);
    CountAppend(parts[0], "." + parts[1], '.');
    CountAppend(".", parts[1], '.');
    assert "."[1..] == [];
    CountZero(parts[0], '.');
    CountZero(parts[1], '.');
  }

  /** A token that is not three parts is rejected without consulting either decoder. */
  lemma NoDecodeOnBadShape(idToken: string, dec1: Decoders, dec2: Decoders)
    requires Count(idToken, '.') != 2
    ensures DecodeJwt(idToken, dec1) == DecodeJwt(idToken, dec2) == Failure(InvalidIdToken)
  {
  }

  /**
   * With three parts, decoding fails exactly when the header or payload decoder
   * fails, and then the error is `InvalidPayload`.
   */
  lemma DecodeFailureIsInvalidPayload(idToken: string, dec: Decoders)
    requires Count(idToken, '.') == 2
    ensures var parts := Split(idToken, '.');
      DecodeJwt(idToken, dec).Failure? <==> dec.header(parts[0]).None? || dec.payload(parts[1]).None?
    ensures DecodeJwt(idToken, dec).Failure? ==> DecodeJwt(idToken, dec).error == InvalidPayload
  {
  }

  /**
   * Building a token from three dot-free segments and decoding it recovers
   * the decoded header and payload, the first two segments as the signed bytes
   * and the unescaped third segment as the signature.
   */
  lemma DecodeBuiltToken(h: string, p: string, sig: string, dec: Decoders)
    requires '.' !in h && '.' !in p && '.' !in sig
    requires dec.header(h).Some? && dec.payload(p).Some?
    ensures DecodeJwt(h + "." + p + "." + sig, dec)
      == Success(DecodedJwt(h + "." + p, dec.header(h).value, dec.payload(p).value, Base64Url.UnescapedString(sig)))
  {
    var parts := [h, p, sig];
    assert Join(parts, '.') == h + "." + p + "." + sig by {
      assert parts[1..] == [p, sig];
      assert parts[1..][1..] == [sig];
      assert Join([p, sig], '.') == p + "." + sig;
      assert Join(parts, '.') == h + "." + (p + "." + sig);
    }
    SplitJoin(parts, '.');
    var t := h + "." + p + "." + sig;
    assert Split(t, '.') == parts;
    assert parts[..2] == [h, p];
    assert [h, p][1..] == [p];
    assert Join([h, p], '.') == h + "." + p;
  }
}
