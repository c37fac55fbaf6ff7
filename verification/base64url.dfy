/**
 * `unescapedString` (lib/main.js:12-15): turns a base64url segment (section 5
 * of RFC 4648) into the standard base64 alphabet and pads it with `=`.
 */
module Base64Url {

  /** The alphabet change of one character: `-` becomes `+`, `_` becomes `/`. */
  function ToStandard(c: char): char
  {
    if c == '-' then '+' else if c == '_' then '/' else c
  }

  /** The inverse alphabet change: `+` becomes `-`, `/` becomes `_`. */
  function ToUrlSafe(c: char): char
  {
    if c == '+' then '-' else if c == '/' then '_' else c
  }

  /** The two global `replace` calls: every character mapped, in place. */
  function Translate(s: string): (r: string)
    ensures |r| == |s|
    ensures forall i :: 0 <= i < |s| ==> r[i] == ToStandard(s[i])
  {
    if s == [] then [] else [ToStandard(s[0])] + Translate(s[1..])
  }

  /** `n` copies of character `c`. */
  function Repeat(c: char, n: nat): (r: string)
    ensures |r| == n
    ensures forall i :: 0 <= i < n ==> r[i] == c
  {
    if n == 0 then [] else [c] + Repeat(c, n - 1)
  }

  /**
   * The number of `=` the source appends: `new Array(5 - len % 4).join('=')`
   * joins `5 - len % 4` empty slots, which yields one fewer separator.
   */
  function PadLength(len: nat): (k: nat)
    ensures 1 <= k <= 4
    ensures (len + k) % 4 == 0
    ensures len % 4 == 0 ==> k == 4
  {
    (5 - len % 4) - 1
  }

  /** The padded, standard-alphabet form of a base64url segment. */
  function UnescapedString(s: string): (r: string)
    ensures |r| % 4 == 0
    ensures |s| < |r| <= |s| + 4
    ensures |s| % 4 == 0 ==> |r| == |s| + 4
    ensures forall i :: 0 <= i < |s| ==> r[i] == ToStandard(s[i])
    ensures forall i :: |s| <= i < |r| ==> r[i] == '='
    ensures '-' !in r && '_' !in r
  {
    Translate(s) + Repeat('=', PadLength(|s|))
  }

  /** A base64url segment as a token carries it: no padding and no standard-only characters. */
  predicate IsUrlSafeSegment(s: string)
  {
    forall i :: 0 <= i < |s| ==> s[i] != '+' && s[i] != '/' && s[i] != '='
  }

  /** The reverse direction, standard to base64url: padding dropped, alphabet changed back. */
  function Escape(r: string): string
  {
    if r == [] then []
    else (if r[0] == '=' then [] else [ToUrlSafe(r[0])]) + Escape(r[1..])
  }

  lemma {:induction false} EscapeAppend(a: string, b: string)
    ensures Escape(a + b) == Escape(a) + Escape(b)
  {
    if a == [] {
      assert a + b == b;
    } else {
      assert (a + b)[0] == a[0];
      assert (a + b)[1..] == a[1..] + b;
      EscapeAppend(a[1..], b);
    }
  }

  lemma {:induction false} EscapeTranslate(s: string)
    requires IsUrlSafeSegment(s)
    ensures Escape(Translate(s)) == s
  {
    if s != [] {
      var t := Translate(s);
      assert t[0] == ToStandard(s[0]) && t[0] != '=';
      assert t[1..] == Translate(s[1..]);
      EscapeTranslate(s[1..]);
    }
  }

  lemma {:induction false} EscapePadding(n: nat)
    ensures Escape(Repeat('=', n)) == []
  {
    if n > 0 {
      assert Repeat('=', n)[1..] == Repeat('=', n - 1);
      EscapePadding(n - 1);
    }
  }

  /** Round trip: escaping the unescaped form of a base64url segment gives the segment back. */
  lemma EscapeUnescaped(s: string)
    requires IsUrlSafeSegment(s)
    ensures Escape(UnescapedString(s)) == s
  {
    EscapeAppend(Translate(s), Repeat('=', PadLength(|s|)));
    EscapeTranslate(s);
    EscapePadding(PadLength(|s|));
  }
}
