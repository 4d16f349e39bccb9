/** JavaScript's `Number.parseFloat`, as far as the export parser uses it:
    a lenient parse of the longest decimal prefix of a string. */
module JsNumber {

  import opened Wrappers
  import JsString

  /** A JavaScript number that is not NaN. Finite values are exact reals;
      rounding to binary64 is not modelled. */
  datatype Num = Finite(value: real) | Infinite(negative: bool)

  predicate IsDigit(c: char) {
    '0' <= c <= '9'
  }

  predicate AllDigits(s: string) {
    forall i :: 0 <= i < |s| ==> IsDigit(s[i])
  }

  function DigitValue(c: char): (d: nat)
    requires IsDigit(c)
    ensures d < 10
  {
    (c as int) - ('0' as int)
  }

  function DigitChar(d: nat): (c: char)
    requires d < 10
    ensures IsDigit(c) && DigitValue(c) == d
  {
    (('0' as int) + d) as char
  }

  /** The length of the run of decimal digits at the start of `s`. */
  function DigitRun(s: string): (n: nat)
    ensures n <= |s| && AllDigits(s[..n])
    ensures n == |s| || !IsDigit(s[n])
  {
    if s == [] || !IsDigit(s[0]) then 0
    else
      var n := 1 + DigitRun(s[1..]);
      assert s[..n] == [s[0]] + s[1..][..n - 1];
      n
  }

  /** The value of a string of decimal digits, most significant first. */
  function DigitsValue(d: string): nat
    requires AllDigits(d)
  {
    if d == [] then 0 else DigitsValue(d[..|d| - 1]) * 10 + DigitValue(d[|d| - 1])
  }

  function Pow10(n: nat): (r: nat)
    ensures r > 0
  {
    if n == 0 then 1 else 10 * Pow10(n - 1)
  }

  /** `m` times ten to the power `e`. */
  function Scale(m: real, e: int): real {
    if e >= 0 then m * Pow10(e) as real else m / Pow10(-e) as real
  }

  /** Takes an optional leading `+` or `-` off `s`; says whether it was `-`. */
  function TakeSign(s: string): (r: (bool, string))
    ensures r.1 == s || (|s| > 0 && r.1 == s[1..])
  {
    if |s| > 0 && (s[0] == '+' || s[0] == '-') then (s[0] == '-', s[1..]) else (false, s)
  }

  predicate StartsWith(s: string, prefix: string) {
    |prefix| <= |s| && s[..|prefix|] == prefix
  }

  /** The exponent a decimal literal's ExponentPart denotes (`e` or `E`, an
      optional sign, at least one digit), or 0 when `s` does not start with
      one. */
  function Exponent(s: string): int {
    if |s| > 0 && (s[0] == 'e' || s[0] == 'E') then
      var (negative, t) := TakeSign(s[1..]);
      var k := DigitRun(t);
      var v: int := DigitsValue(t[..k]);
      if negative then -v else v
    else 0
  }

  /** `Number.parseFloat(s)`, with `None` for NaN: after leading whitespace,
      the longest prefix that is a StrDecimalLiteral (an optional sign, then
      `Infinity` or an unsigned decimal). It gives NaN exactly when the
      string, after its leading whitespace, has no numeric prefix. */
  function ParseFloat(s: string): (r: Option<Num>)
    ensures r.None? <==> !HasNumericPrefix(JsString.TrimStart(s))
  {
    ParseUnsignedNaNIff(TakeSign(JsString.TrimStart(s)).1);
    var (negative, u) := TakeSign(JsString.TrimStart(s));
    if StartsWith(u, "Infinity") then Some(Infinite(negative))
    else
      match ParseUnsigned(u)
      case None => None
      case Some(x) => Some(Finite(if negative then -x else x))
  }

  /** The value of the longest prefix of `u` of the form digits, optional
      point and digits (at least one digit in all), optional exponent. */
  function ParseUnsigned(u: string): Option<real> {
    var n := DigitRun(u);
    if n < |u| && u[n] == '.' then
      var fraction := u[n + 1..];
      var m := DigitRun(fraction);
      if n + m == 0 then None
      else Some(Scale(Mantissa(u[..n], fraction[..m]), Exponent(fraction[m..])))
    else if n == 0 then None
    else Some(Scale(DigitsValue(u[..n]) as real, Exponent(u[n..])))
  }

  /** The value of the numeral `whole.fraction`. */
  function Mantissa(whole: string, fraction: string): real
    requires AllDigits(whole) && AllDigits(fraction)
  {
    DigitsValue(whole) as real + DigitsValue(fraction) as real / Pow10(|fraction|) as real
  }

  /** `t` starts, after an optional sign, with something `parseFloat` can
      read: `Infinity`, a digit, or a point followed by a digit. */
  predicate HasNumericPrefix(t: string) {
    var u := TakeSign(t).1;
    StartsWith(u, "Infinity") || (|u| > 0 && IsDigit(u[0]))
    || (|u| > 1 && u[0] == '.' && IsDigit(u[1]))
  }

  lemma ParseUnsignedNaNIff(u: string)
    ensures ParseUnsigned(u).None? <==>
      !((|u| > 0 && IsDigit(u[0])) || (|u| > 1 && u[0] == '.' && IsDigit(u[1])))
  {
    var n := DigitRun(u);
    if n == 0 && |u| > 0 && u[0] == '.' {
      var fraction := u[1..];
      assert fraction == u[n + 1..];
      assert DigitRun(fraction) == 0 <==> !(|u| > 1 && IsDigit(u[1])) by {
        if |u| > 1 {
          assert fraction[0] == u[1];
        }
      }
    }
  }

  /** The decimal numeral of `n`, as JavaScript prints a non-negative
      integer. */
  function Decimal(n: nat): (s: string)
    ensures |s| > 0 && AllDigits(s)
  {
    if n < 10 then [DigitChar(n)] else Decimal(n / 10) + [DigitChar(n % 10)]
  }

  lemma {:induction false} DecimalValue(n: nat)
    ensures DigitsValue(Decimal(n)) == n
  {
    if n >= 10 {
      var s := Decimal(n);
      DecimalValue(n / 10);
      assert s[..|s| - 1] == Decimal(n / 10);
    }
  }

  lemma {:induction false} DigitRunOf(d: string, junk: string)
    requires AllDigits(d)
    requires junk == [] || !IsDigit(junk[0])
    ensures DigitRun(d + junk) == |d|
  {
    if d != [] {
      assert (d + junk)[1..] == d[1..] + junk;
      DigitRunOf(d[1..], junk);
    }
  }

  /** `parseFloat` reads a non-negative integer numeral back to its value
      and ignores whatever follows it that cannot continue the number. */
  lemma ParseFloatDecimal(n: nat, junk: string)
    requires junk == [] || !(IsDigit(junk[0]) || junk[0] == '.' || junk[0] == 'e' || junk[0] == 'E')
    ensures ParseFloat(Decimal(n) + junk) == Some(Finite(n as real))
  {
    var d := Decimal(n);
    var s := d + junk;
    assert s[0] == d[0];
    assert JsString.TrimStart(s) == s;
    assert TakeSign(s) == (false, s);
    assert !StartsWith(s, "Infinity") by {
      if |s| >= 8 {
        assert s[..8][0] == s[0];
      }
    }
    assert ParseUnsigned(s) == Some(n as real) by {
      DigitRunOf(d, junk);
      assert s[..|d|] == d && s[|d|..] == junk;
      DecimalValue(n);
      assert Exponent(junk) == 0;
    }
  }

  /** The coordinates the export fixtures use. */
  lemma ParseFloatExamples()
    ensures ParseFloat("52.1") == Some(Finite(52.1))
  {
    assert JsString.TrimStart("52.1") == "52.1";
    assert TakeSign("52.1") == (false, "52.1");
    assert !StartsWith("52.1", "Infinity");
    assert ParseUnsigned("52.1") == Some(52.1) by {
      var s := "52.1";
      assert DigitRun(s) == 2;
      assert s[..2] == "52" && s[3..] == "1";
      assert DigitsValue("52") == 52;
    }
  }

  /** The malformed coordinates of the export fixtures are NaN. */
  lemma ParseFloatRejectsExamples()
    ensures ParseFloat("x.1") == None
    ensures ParseFloat("nope") == None
  {
    assert JsString.TrimStart("x.1") == "x.1";
    assert JsString.TrimStart("nope") == "nope";
  }
}
