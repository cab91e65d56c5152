/** Decimal rendering of integers (Python's `str(int)` / f-string `{n}`)
    and parsing of base-10 integers (Python's `int(str)`). */
module Numbers {
  import opened Wrappers
  import opened Strings

  function DigitChar(d: nat): (c: char)
    requires d < 10
    ensures IsAsciiDigit(c)
  {
    ['0', '1', '2', '3', '4', '5', '6', '7', '8', '9'][d]
  }

  function DigitValue(c: char): (d: nat)
    requires IsAsciiDigit(c)
    ensures d < 10
  {
    (c as int) - ('0' as int)
  }

  lemma DigitRoundTrip(d: nat)
    requires d < 10
    ensures DigitValue(DigitChar(d)) == d
  {
  }

  /** `str(n)` for `n >= 0`: ASCII digits, no leading zero. */
  function NatToString(n: nat): (s: string)
    ensures |s| > 0
    ensures forall k :: 0 <= k < |s| ==> IsAsciiDigit(s[k])
    ensures |s| > 1 ==> s[0] != '0'
    decreases n
  {
    if n < 10 then [DigitChar(n)] else NatToString(n / 10) + [DigitChar(n % 10)]
  }

  /** `str(n)` for any integer: a minus sign precedes the digits of `-n`. */
  function IntToString(n: int): (s: string)
    ensures |s| > 0
    ensures n >= 0 <==> IsAsciiDigit(s[0])
    ensures n < 0 <==> s[0] == '-'
    ensures forall k :: 1 <= k < |s| ==> IsAsciiDigit(s[k])
    ensures IsAsciiDigit(s[|s| - 1])
  {
    if n < 0 then "-" + NatToString(-n) else NatToString(n)
  }

  /** The digits and underscores `int()` accepts after the sign: at least
      one digit, digits at both ends, no two underscores in a row. */
  predicate ValidDigitPart(d: string) {
    && |d| > 0
    && IsAsciiDigit(d[0])
    && IsAsciiDigit(d[|d| - 1])
    && (forall k :: 0 <= k < |d| ==> IsAsciiDigit(d[k]) || d[k] == '_')
    && (forall k :: 0 <= k < |d| - 1 ==> !(d[k] == '_' && d[k + 1] == '_'))
  }

  /** The value of a digit string, underscores skipped. */
  function DigitsValue(d: string): nat
    requires forall k :: 0 <= k < |d| ==> IsAsciiDigit(d[k]) || d[k] == '_'
  {
    if |d| == 0 then 0
    else if d[|d| - 1] == '_' then DigitsValue(d[..|d| - 1])
    else 10 * DigitsValue(d[..|d| - 1]) + DigitValue(d[|d| - 1])
  }

  /** `int(p)`: surrounding whitespace is ignored, one optional sign, then
      a digit part; anything else raises `ValueError` (here: `None`). */
  function ParseInt(p: string): (r: Option<int>)
    ensures r.Some? ==> exists k :: 0 <= k < |p| && IsAsciiDigit(p[k])
  {
    var t := Strip(p);
    if |t| > 0 && (t[0] == '+' || t[0] == '-') then
      var d := t[1..];
      if ValidDigitPart(d) then
        var v: int := DigitsValue(d);
        Some(if t[0] == '-' then -v else v)
      else None
    else if ValidDigitPart(t) then Some(DigitsValue(t))
    else None
  }

  lemma {:induction false} NatToStringValue(n: nat)
    ensures DigitsValue(NatToString(n)) == n
    decreases n
  {
    var s := NatToString(n);
    if n < 10 {
      DigitRoundTrip(n);
    } else {
      NatToStringValue(n / 10);
      assert s[..|s| - 1] == NatToString(n / 10);
      DigitRoundTrip(n % 10);
    }
  }

  lemma NatDigitsValid(n: nat)
    ensures ValidDigitPart(NatToString(n))
  {
    var s := NatToString(n);
    assert forall k :: 0 <= k < |s| - 1 ==> IsAsciiDigit(s[k]);
  }

  /** A valid digit part with nothing around it parses to its value. */
  lemma ParseUnsigned(d: string, m: int)
    requires ValidDigitPart(d) && m == DigitsValue(d)
    ensures ParseInt(d) == Some(m)
  {
    StripFixed(d);
  }

  /** A minus sign followed by a valid digit part parses to the negated
      value of the digits. */
  lemma ParseNegative(d: string, m: int)
    requires ValidDigitPart(d) && m == -(DigitsValue(d) as int)
    ensures ParseInt("-" + d) == Some(m)
  {
    var s := "-" + d;
    assert s[|s| - 1] == d[|d| - 1];
    StripFixed(s);
    assert s[1..] == d;
  }

  lemma ParseNatString(n: nat)
    ensures ParseInt(IntToString(n)) == Some(n)
  {
    NatDigitsValid(n);
    NatToStringValue(n);
    ParseUnsigned(NatToString(n), n);
  }

  lemma ParseNegString(n: int)
    requires n < 0
    ensures ParseInt(IntToString(n)) == Some(n)
  {
    NatDigitsValid(-n);
    NatToStringValue(-n);
    ParseNegative(NatToString(-n), n);
  }

  /** Parsing the rendering of any integer gives that integer back. */
  lemma IntToStringRoundTrip(n: int)
    ensures ParseInt(IntToString(n)) == Some(n)
  {
    if n < 0 {
      ParseNegString(n);
    } else {
      ParseNatString(n);
    }
  }

  /** Rendering is injective: different integers print differently. */
  lemma IntToStringInjective(m: int, n: int)
    requires IntToString(m) == IntToString(n)
    ensures m == n
  {
    IntToStringRoundTrip(m);
    IntToStringRoundTrip(n);
  }

  /** Numbers below a thousand print in at most three digits. */
  lemma ShortRendering(n: int)
    requires 0 <= n < 1000
    ensures |IntToString(n)| <= 3
  {
    if n >= 10 {
      assert NatToString(n) == NatToString(n / 10) + [DigitChar(n % 10)];
      if n / 10 >= 10 {
        assert NatToString(n / 10) == NatToString(n / 100) + [DigitChar(n / 10 % 10)];
      }
    }
  }

  /** A three-digit number prints as its three digits. */
  lemma ThreeDigits(n: int)
    requires 100 <= n < 1000
    ensures IntToString(n) == [DigitChar(n / 100), DigitChar(n / 10 % 10), DigitChar(n % 10)]
  {
    assert NatToString(n / 10) == NatToString(n / 100) + [DigitChar(n / 10 % 10)];
    assert n / 10 / 10 == n / 100;
  }
}
