/**
 * The `max-age` extraction of lib/certCache.js:40-46: the regular expression
 * `max-age=([0-9]*)` applied to the `Cache-Control` header (the directive of
 * section 5.2.2.1 of RFC 9111), and the decimal reading of the captured digits.
 */
module CacheControl {
  import opened Wrappers

  const Directive: string := "max-age="

  /** `pat` occurs in `h` starting at position `i`. */
  predicate OccursAt(h: string, pat: string, i: int)
  {
    0 <= i && i + |pat| <= |h| && h[i..i + |pat|] == pat
  }

  /** The first position at or after `from` where `pat` occurs. */
  function IndexOf(h: string, pat: string, from: nat): (r: Option<nat>)
    ensures r.Some? ==>
      && from <= r.value
      && OccursAt(h, pat, r.value)
      && forall j :: from <= j < r.value ==> !OccursAt(h, pat, j)
    ensures r.None? ==> forall j :: from <= j ==> !OccursAt(h, pat, j)
    decreases |h| - from
  {
    if from + |pat| > |h| then None
    else if h[from..from + |pat|] == pat then Some(from)
    else IndexOf(h, pat, from + 1)
  }

  predicate IsDigit(c: char)
  {
    '0' <= c <= '9'
  }

  predicate AllDigits(s: string)
  {
    forall i :: 0 <= i < |s| ==> IsDigit(s[i])
  }

  /** What the greedy `[0-9]*` matches: the longest prefix of `s` made of digits. */
  function DigitRun(s: string): (r: string)
    ensures |r| <= |s| && r == s[..|r|]
    ensures AllDigits(r)
    ensures |r| < |s| ==> !IsDigit(s[|r|])
  {
    if s == [] || !IsDigit(s[0]) then []
    else [s[0]] + DigitRun(s[1..])
  }

  /** The value of a decimal digit. */
  function DigitValue(c: char): nat
    requires IsDigit(c)
  {
    c as int - '0' as int
  }

  /** `Number(digits)`: the decimal value, with the empty run read as 0 and leading zeros ignored. */
  function DecimalValue(ds: string): nat
    requires AllDigits(ds)
  {
    if ds == [] then 0 else DecimalValue(ds[..|ds| - 1]) * 10 + DigitValue(ds[|ds| - 1])
  }

  /** The shortest decimal spelling of `n`, the independent writer `DecimalValue` must invert. */
  function Decimal(n: nat): (ds: string)
    ensures |ds| >= 1 && AllDigits(ds)
  {
    var d := ['0' + (n % 10) as char];
    if n < 10 then d else Decimal(n / 10) + d
  }

  /** Reading the decimal spelling of `n` gives `n` back. */
  lemma {:induction false} DecimalRoundTrip(n: nat)
    ensures DecimalValue(Decimal(n)) == n
  {
    var ds := Decimal(n);
    if n >= 10 {
      assert ds[..|ds| - 1] == Decimal(n / 10);
      DecimalRoundTrip(n / 10);
    }
  }

  /**
   * `pattern.exec(cacheControl)`: the leftmost match starts at the first
   * `max-age=`; `None` is the `null` returned when there is none, otherwise
   * the captured digit run's value.
   */
  function MaxAge(h: string): (r: Option<nat>)
    ensures r.None? <==> forall j :: !OccursAt(h, Directive, j)
  {
    match IndexOf(h, Directive, 0)
    case None => None
    case Some(i) => Some(DecimalValue(DigitRun(h[i + |Directive|..])))
  }

  /**
   * A header whose first `max-age=` is followed by the digit string `ds` and
   * then a non-digit or the end yields the value of `ds`: 0 for an empty run,
   * and leading zeros ignored.
   */
  lemma MaxAgeReadsDirective(prefix: string, ds: string, suffix: string)
    requires AllDigits(ds)
    requires suffix == [] || !IsDigit(suffix[0])
    requires forall j :: 0 <= j < |prefix| ==> !OccursAt(prefix + Directive + ds + suffix, Directive, j)
    ensures MaxAge(prefix + Directive + ds + suffix) == Some(DecimalValue(ds))
  {
    var h := prefix + Directive + ds + suffix;
    Regroup(prefix, Directive, ds, suffix);
    FirstDirectiveAt(h, |prefix|);
    MaxAgeAt(h, |prefix|);
    DigitRunStops(ds, suffix);
  }

  /** The decimal spelling of `n` after the first `max-age=` yields `n`. */
  lemma MaxAgeReadsDecimal(prefix: string, n: nat, suffix: string)
    requires suffix == [] || !IsDigit(suffix[0])
    requires forall j :: 0 <= j < |prefix| ==> !OccursAt(prefix + Directive + Decimal(n) + suffix, Directive, j)
    ensures MaxAge(prefix + Directive + Decimal(n) + suffix) == Some(n)
  {
    MaxAgeReadsDirective(prefix, Decimal(n), suffix);
    DecimalRoundTrip(n);
  }

  /** Concatenation regrouped, and the part after the first two pieces. */
  lemma Regroup(a: string, b: string, c: string, d: string)
    ensures a + b + c + d == a + (b + (c + d))
    ensures (a + b + c + d)[|a|..|a| + |b|] == b
    ensures (a + b + c + d)[|a| + |b|..] == c + d
  {
  }

  /** `MaxAge` reads the digits after the first `max-age=`. */
  lemma MaxAgeAt(h: string, i: nat)
    requires IndexOf(h, Directive, 0) == Some(i)
    ensures MaxAge(h) == Some(DecimalValue(DigitRun(h[i + |Directive|..])))
  {
  }

  /** The leftmost match of the regular expression starts at the first occurrence of `max-age=`. */
  lemma FirstDirectiveAt(h: string, i: nat)
    requires OccursAt(h, Directive, i)
    requires forall j :: 0 <= j < i ==> !OccursAt(h, Directive, j)
    ensures IndexOf(h, Directive, 0) == Some(i)
  {
  }

  /** Text without an `m` cannot hold the start of `max-age=`. */
  lemma NoDirectiveWithoutM(prefix: string, rest: string)
    requires 'm' !in prefix
    ensures forall j :: 0 <= j < |prefix| ==> !OccursAt(prefix + rest, Directive, j)
  {
    var h := prefix + rest;
    forall j | 0 <= j < |prefix| ensures !OccursAt(h, Directive, j) {
      assert h[j] == prefix[j];
      if j + |Directive| <= |h| {
        assert h[j..j + |Directive|][0] == h[j];
      }
    }
  }

  /** One character that cannot begin `max-age=` in front of `t` adds no occurrence. */
  lemma PrependNoDirective(x: char, t: string, k: nat)
    requires |t| >= 1 && t[0] != Directive[1]
    requires forall j :: 0 <= j < k ==> !OccursAt(t, Directive, j)
    ensures forall j :: 0 <= j < k + 1 ==> !OccursAt([x] + t, Directive, j)
  {
    var h := [x] + t;
    forall j | 0 <= j < k + 1 ensures !OccursAt(h, Directive, j) {
      if j == 0 {
        if |Directive| <= |h| {
          assert h[..|Directive|][1] == t[0];
        }
      } else if j + |Directive| <= |h| {
        assert !OccursAt(t, Directive, j - 1);
        assert h[j..j + |Directive|] == t[j - 1..j - 1 + |Directive|];
      }
    }
  }

  /** `must-revalidate` before the directive does not hide it: the header reads as 60 seconds. */
  lemma MaxAgeAfterOtherDirectives(h: string)
    requires h == "must-revalidate, max-age=60"
    ensures MaxAge(h) == Some(60)
  {
    var prefix := ['m'] + "ust-revalidate, ";
    MustRevalidateSplits(h);
    SixtyAfter(h, prefix);
  }

  /** The header split at its first `max-age=`. */
  lemma MustRevalidateSplits(h: string)
    requires h == "must-revalidate, max-age=60"
    ensures h == ['m'] + "ust-revalidate, " + Directive + "60" + ""
  {
  }

  /** The steps of `MaxAgeAfterOtherDirectives` with the header kept symbolic. */
  lemma SixtyAfter(h: string, prefix: string)
    requires prefix == ['m'] + "ust-revalidate, "
    requires h == prefix + Directive + "60" + ""
    ensures MaxAge(h) == Some(60)
  {
    var t := "ust-revalidate, " + (Directive + "60");
    NoDirectiveWithoutM("ust-revalidate, ", Directive + "60");
    PrependNoDirective('m', t, 16);
    assert h == ['m'] + t;
    MaxAgeReadsDirective(prefix, "60", "");
    assert "60"[..1] == "6";
  }

  /** An empty digit run reads as 0 seconds. */
  lemma MaxAgeEmptyRun()
    ensures MaxAge("max-age=, public") == Some(0)
  {
    assert "max-age=, public" == [] + Directive + "" + ", public";
    MaxAgeReadsDirective([], "", ", public");
  }

  /** Leading zeros are ignored. */
  lemma MaxAgeLeadingZeros()
    ensures MaxAge("max-age=007") == Some(7)
  {
    assert "max-age=007" == [] + Directive + "007" + "";
    MaxAgeReadsDirective([], "007", "");
    assert "007"[..2] == "00" && "00"[..1] == "0" && "0"[..0] == [];
  }

  /** The digit run of a digit string followed by a non-digit is that digit string. */
  lemma {:induction false} DigitRunStops(ds: string, suffix: string)
    requires AllDigits(ds)
    requires suffix == [] || !IsDigit(suffix[0])
    ensures DigitRun(ds + suffix) == ds
  {
    if ds == [] {
      assert ds + suffix == suffix;
    } else {
      assert (ds + suffix)[1..] == ds[1..] + suffix;
      DigitRunStops(ds[1..], suffix);
      assert [ds[0]] + ds[1..] == ds;
    }
  }
}
