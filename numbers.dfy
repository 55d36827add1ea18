/**
 * JavaScript number behaviour needed by the dashboard: the outcome of a division
 * (which may be NaN or an infinity), `parseFloat` on decimal text, and the
 * decimal rendering of an index used when numbering the search sample.
 * Finite numbers are modelled as exact `real`s.
 */
module Numbers {
  import opened Wrappers
  import opened Text

  /** The value of a JavaScript division: finite, or one of the non-finite results. */
  datatype JsNumber = Finite(value: real) | NaN | PosInfinity | NegInfinity

  /** `a / b` on finite operands (a zero divisor is the positive zero a sum of finite terms gives). */
  function Divide(a: real, b: real): (q: JsNumber)
    ensures q.Finite? <==> b != 0.0
    ensures q.Finite? ==> q.value * b == a
    ensures q == NaN <==> a == 0.0 && b == 0.0
  {
    if b != 0.0 then Finite(a / b)
    else if a == 0.0 then NaN
    else if a > 0.0 then PosInfinity
    else NegInfinity
  }

  /** `x * k` for a positive finite factor `k`: NaN and the infinities absorb it. */
  function Times(x: JsNumber, k: real): (r: JsNumber)
    requires k > 0.0
    ensures r.Finite? <==> x.Finite?
    ensures x.Finite? ==> r.value == x.value * k
    ensures !x.Finite? ==> r == x
  {
    match x
    case Finite(v) => Finite(v * k)
    case _ => x
  }

  predicate IsDigit(c: char)
  {
    '0' <= c <= '9'
  }

  predicate AllDigits(s: string)
  {
    forall k :: 0 <= k < |s| ==> IsDigit(s[k])
  }

  function DigitValue(c: char): nat
    requires IsDigit(c)
  {
    c as int - '0' as int
  }

  function DigitChar(d: nat): (c: char)
    requires d < 10
    ensures IsDigit(c) && DigitValue(c) == d
  {
    ('0' as int + d) as char
  }

  /** Length of the longest prefix of `s` made of decimal digits. */
  function LeadingDigits(s: string): (n: nat)
    ensures n <= |s|
    ensures AllDigits(s[..n])
    ensures n < |s| ==> !IsDigit(s[n])
  {
    if s != [] && IsDigit(s[0]) then
      var n := 1 + LeadingDigits(s[1..]);
      assert forall k :: 1 <= k < n ==> s[..n][k] == s[1..][..n - 1][k - 1];
      n
    else 0
  }

  /** The value of a string of decimal digits, most significant first. */
  function DigitsValue(s: string): nat
    requires AllDigits(s)
  {
    if s == [] then 0 else DigitsValue(s[..|s| - 1]) * 10 + DigitValue(s[|s| - 1])
  }

  function Pow10(n: nat): (p: nat)
    ensures p >= 1
  {
    if n == 0 then 1 else 10 * Pow10(n - 1)
  }

  /** `10 ** e` as a real, for a signed exponent. */
  function Scale(e: int): (r: real)
    ensures r > 0.0
  {
    if e >= 0 then Pow10(e) as real else 1.0 / Pow10(-e) as real
  }

  /**
   * The exponent part of a decimal literal at the start of `s` (`e`/`E`, an optional
   * sign, at least one digit); `0` when `s` does not start with one, since the
   * prefix parse then stops before the `e`.
   */
  function Exponent(s: string): int
  {
    if |s| >= 2 && (s[0] == 'e' || s[0] == 'E') then
      var k := if s[1] == '+' || s[1] == '-' then 2 else 1;
      var d := LeadingDigits(s[k..]);
      if d == 0 then 0
      else if s[1] == '-' then -(DigitsValue(s[k..][..d]) as int)
      else DigitsValue(s[k..][..d])
    else 0
  }

  /** The value of the decimal literal `whole.frac` (with `fracLen` fraction digits) times `10 ** e`. */
  function DecimalValue(whole: nat, frac: nat, fracLen: nat, e: int): (r: real)
    ensures r >= 0.0
    ensures r == 0.0 <==> whole == 0 && frac == 0
  {
    var m := whole as real + frac as real / Pow10(fracLen) as real;
    assert m >= 0.0 && Scale(e) > 0.0;
    m * Scale(e)
  }

  /**
   * `parseFloat(s)`: skip leading whitespace, read an optional sign, then the longest
   * prefix of the form digits [ '.' digits ] [ exponent ] with at least one mantissa
   * digit. `None` stands for the `NaN` returned when no such prefix exists.
   */
  function ParseFloat(s: string): (r: Option<real>)
    ensures r.Some? ==> exists k :: 0 <= k < |s| && IsDigit(s[k])
  {
    var t := TrimStart(s);
    var signed := t != [] && (t[0] == '-' || t[0] == '+');
    var u := if signed then t[1..] else t;
    var m := ParseUnsigned(u);
    assert m.Some? ==> exists k :: 0 <= k < |s| && IsDigit(s[k]) by {
      if m.Some? {
        var k :| 0 <= k < |u| && IsDigit(u[k]);
        var skipped := |s| - |u|;
        assert u == s[skipped..];
        assert s[skipped + k] == u[k];
      }
    }
    if t != [] && t[0] == '-' then
      match m
      case None => None
      case Some(x) => Some(-x)
    else m
  }

  /** The unsigned literal at the start of `u`, or `None` when it has no mantissa digit. */
  function ParseUnsigned(u: string): (r: Option<real>)
    ensures r.Some? ==> r.value >= 0.0
    ensures r.Some? ==> exists k :: 0 <= k < |u| && IsDigit(u[k])
  {
    var i := LeadingDigits(u);
    if i < |u| && u[i] == '.' then
      var f := LeadingDigits(u[i + 1..]);
      if i + f == 0 then None
      else
        assert IsDigit(u[if i > 0 then 0 else i + 1]);
        Some(DecimalValue(DigitsValue(u[..i]), DigitsValue(u[i + 1..][..f]), f, Exponent(u[i + 1 + f..])))
    else if i == 0 then None
    else
      assert IsDigit(u[0]);
      Some(DecimalValue(DigitsValue(u[..i]), 0, 0, Exponent(u[i..])))
  }

  /** A parse of text that does not start with a minus sign is never negative. */
  lemma ParseFloatNonNegative(s: string)
    requires TrimStart(s) == [] || TrimStart(s)[0] != '-'
    requires ParseFloat(s).Some?
    ensures ParseFloat(s).value >= 0.0
  {
  }

  /** `String(n)` for a natural number: its decimal digits without leading zeros. */
  function NatToString(n: nat): (s: string)
    ensures s != [] && AllDigits(s)
    ensures |s| > 1 ==> s[0] != '0'
  {
    if n < 10 then [DigitChar(n)]
    else
      var s := NatToString(n / 10) + [DigitChar(n % 10)];
      assert s[0] == NatToString(n / 10)[0];
      s
  }

  /** Reading back the digits of a rendered number gives the number. */
  lemma {:induction false} DigitsValueOfNatToString(n: nat)
    ensures DigitsValue(NatToString(n)) == n
  {
    if n >= 10 {
      var s := NatToString(n);
      DigitsValueOfNatToString(n / 10);
      assert s[..|s| - 1] == NatToString(n / 10);
    }
  }

  /** A digit-only literal parses to the number its digits spell. */
  lemma ParseFloatDigits(s: string)
    requires s != [] && AllDigits(s)
    ensures ParseFloat(s) == Some(DigitsValue(s) as real)
  {
    assert !IsWhitespace(s[0]) && s[0] != '-' && s[0] != '+';
    assert TrimStart(s) == s;
    assert ParseFloat(s) == ParseUnsigned(s);
    assert ParseUnsigned(s) == Some(DigitsValue(s) as real) by {
      LeadingDigitsAll(s);
      assert s[..|s|] == s && s[|s|..] == [];
      assert ParseUnsigned(s) == Some(DecimalValue(DigitsValue(s), 0, 0, Exponent([])));
      assert Scale(0) == 1.0;
    }
  }

  /** `parseFloat(String(n)) == n` for every natural number `n`. */
  lemma ParseFloatNatToString(n: nat)
    ensures ParseFloat(NatToString(n)) == Some(n as real)
  {
    ParseFloatDigits(NatToString(n));
    DigitsValueOfNatToString(n);
  }

  /** The digit prefix of a number followed by a non-digit is exactly that number's digits. */
  lemma {:induction false} LeadingDigitsConcat(d: string, rest: string)
    requires AllDigits(d)
    requires rest != [] && !IsDigit(rest[0])
    ensures LeadingDigits(d + rest) == |d|
  {
    if d != [] {
      assert (d + rest)[1..] == d[1..] + rest;
      LeadingDigitsConcat(d[1..], rest);
    } else {
      assert d + rest == rest;
    }
  }

  lemma {:induction false} LeadingDigitsAll(s: string)
    requires AllDigits(s)
    ensures LeadingDigits(s) == |s|
  {
    if s != [] {
      LeadingDigitsAll(s[1..]);
    }
  }
}
