/** The text of a float. RFC 8785 section 3.2.2.3 prints it as ECMAScript does; the program prints it as
    Python does. Both use the shortest digits that read back as the float. */
module NumberText {
  import opened Json
  import opened JsonRoundTrip
  import opened Floats

  /** The value 0.digits * 10^point; `Zero` has no digits. */
  datatype Decimal = Zero(negative: bool) | Decimal(negative: bool, digits: string, point: int)

  predicate IsDecimal(d: Decimal) {
    d.Decimal? ==> d.digits != "" && AllDigits(d.digits) && d.digits[0] != '0'
  }

  function Zeros(n: nat): string { seq(n, _ => '0') }

  function Magnitude(n: int): nat { if n < 0 then -n else n }

  function SignOf(n: int): string { if n < 0 then "-" else "+" }

  /** `repr`: scientific for exponents below -4 and from 16, with at least two digits of exponent. */
  function PythonFloat(d: Decimal): Lexeme
    requires IsDecimal(d)
  {
    match d
    case Zero(negative) => Lexeme(negative, "0", "0", "")
    case Decimal(negative, digits, point) =>
      if point <= -4 || point > 16 then
        var e := NatText(Magnitude(point - 1));
        Lexeme(negative, digits[..1], digits[1..], SignOf(point - 1) + (if |e| < 2 then "0" else "") + e)
      else if point <= 0 then Lexeme(negative, "0", Zeros(-point) + digits, "")
      else if point < |digits| then Lexeme(negative, digits[..point], digits[point..], "")
      else Lexeme(negative, digits + Zeros(point - |digits|), "0", "")
  }

  /** `Number::toString` of ECMA-262, without the sign. */
  function ScriptDigits(digits: string, point: int): string
    requires digits != ""
  {
    if |digits| <= point <= 21 then digits + Zeros(point - |digits|)
    else if 0 < point <= 21 then digits[..point] + "." + digits[point..]
    else if -6 < point <= 0 then "0." + Zeros(-point) + digits
    else
      digits[..1] + (if |digits| == 1 then "" else "." + digits[1..])
      + "e" + SignOf(point - 1) + NatText(Magnitude(point - 1))
  }

  function ScriptText(d: Decimal): string
    requires IsDecimal(d)
  {
    match d
    case Zero(_) => "0"
    case Decimal(negative, digits, point) => (if negative then "-" else "") + ScriptDigits(digits, point)
  }

  /** Python's text is a number lexeme. */
  lemma PythonFloatIsLexeme(d: Decimal)
    requires IsDecimal(d)
    ensures IsLexeme(PythonFloat(d))
  {
    if d.Decimal? {
      NatTextIsLong(Magnitude(d.point - 1));
    }
  }

  lemma {:induction false} NatTextIsLong(n: nat)
    ensures AllDigits(NatText(n)) && (|NatText(n)| >= 2 <==> n >= 10) && NatText(n) != ""
  {
    if n >= 10 { NatTextIsLong(n / 10); }
  }

  /** Not zero, and a fraction within Python's plain range, or an exponent of two digits that both print. */
  predicate PrintsAlike(d: Decimal) {
    d.Decimal? && ((-4 < d.point <= 16 && d.point < |d.digits|) || d.point > 21 || d.point <= -9)
  }

  function PythonDigits(d: Decimal): string
    requires IsDecimal(d)
  {
    var f := PythonFloat(d);
    f.whole + LexemeTail(f.fraction, f.exponent)
  }

  lemma SameSign(sign: string, s: string, t: string)
    ensures sign + s == sign + t <==> s == t
  {
    assert (sign + s)[|sign|..] == s && (sign + t)[|sign|..] == t;
  }

  lemma PlainDigits(s: string)
    requires AllDigits(s)
    ensures '.' !in s && 'e' !in s
  {}

  /** A whole number keeps `.0` in Python only. */
  lemma WholeDiffers(d: Decimal)
    requires IsDecimal(d) && d.Decimal? && |d.digits| <= d.point <= 16
    ensures PythonDigits(d) != ScriptDigits(d.digits, d.point)
  {
    PlainDigits(ScriptDigits(d.digits, d.point));
    var w := PythonFloat(d).whole;
    assert PythonDigits(d) == w + ".0";
    assert (w + ".0")[|w|] == '.';
  }

  /** Between the two ranges only Python has an exponent. */
  lemma RangeDiffers(d: Decimal)
    requires IsDecimal(d) && d.Decimal? && (16 < d.point <= 21 || -6 < d.point <= -4)
    ensures PythonDigits(d) != ScriptDigits(d.digits, d.point)
  {
    var f := PythonFloat(d);
    assert f.exponent != "";
    var head := f.whole + (if f.fraction == "" then "" else "." + f.fraction);
    assert PythonDigits(d) == head + ("e" + f.exponent);
    assert (head + ("e" + f.exponent))[|head|] == 'e';
    NoExponent(d.digits, d.point);
  }

  lemma NoExponent(digits: string, point: int)
    requires digits != "" && AllDigits(digits) && -6 < point <= 21
    ensures 'e' !in ScriptDigits(digits, point)
  {
    PlainDigits(digits);
  }

  function FirstDigits(digits: string): string
    requires digits != ""
  {
    digits[..1] + if |digits| == 1 then "" else "." + digits[1..]
  }

  function Padded(e: string): string {
    (if |e| < 2 then "0" else "") + e
  }

  lemma ScriptForm(digits: string, point: int)
    requires digits != "" && (point > 21 || point <= -6)
    ensures ScriptDigits(digits, point)
         == FirstDigits(digits) + ("e" + SignOf(point - 1)) + NatText(Magnitude(point - 1))
  {
    hide NatText;
    assert FirstDigits(digits) + "e" + SignOf(point - 1) == FirstDigits(digits) + ("e" + SignOf(point - 1));
  }

  lemma PythonForm(d: Decimal)
    requires IsDecimal(d) && d.Decimal? && (d.point > 21 || d.point <= -6)
    ensures PythonDigits(d)
         == FirstDigits(d.digits) + ("e" + SignOf(d.point - 1)) + Padded(NatText(Magnitude(d.point - 1)))
  {
    hide NatText;
    var sign, e := SignOf(d.point - 1), NatText(Magnitude(d.point - 1));
    var point := if |d.digits| == 1 then "" else "." + d.digits[1..];
    var x := PythonFloat(d).exponent;
    assert x == sign + Padded(e) by {
      assert sign + (if |e| < 2 then "0" else "") + e == sign + Padded(e);
    }
    hide Padded, SignOf;
    Regrouped(d.digits[..1], point, sign, Padded(e));
  }

  lemma Regrouped(a: string, b: string, sign: string, e: string)
    ensures a + (b + ("e" + (sign + e))) == (a + b) + ("e" + sign) + e
  {}

  lemma ScientificForms(d: Decimal)
    requires IsDecimal(d) && d.Decimal? && (d.point > 21 || d.point <= -6)
    ensures
      var head := FirstDigits(d.digits) + ("e" + SignOf(d.point - 1));
      var e := NatText(Magnitude(d.point - 1));
      ScriptDigits(d.digits, d.point) == head + e && PythonDigits(d) == head + Padded(e)
  {
    hide PythonDigits, ScriptDigits, FirstDigits, SignOf, NatText, Padded;
    ScriptForm(d.digits, d.point);
    PythonForm(d);
  }

  lemma ScientificAgreesIff(d: Decimal)
    requires IsDecimal(d) && d.Decimal? && (d.point > 21 || d.point <= -6)
    ensures PythonDigits(d) == ScriptDigits(d.digits, d.point) <==> d.point > 21 || d.point <= -9
  {
    hide NatText, PythonDigits, ScriptDigits, FirstDigits, SignOf;
    ScientificForms(d);
    NatTextIsLong(Magnitude(d.point - 1));
  }

  lemma FractionAgrees(d: Decimal)
    requires IsDecimal(d) && d.Decimal? && -4 < d.point <= 16 && d.point < |d.digits|
    ensures PythonDigits(d) == ScriptDigits(d.digits, d.point)
  {}

  /** Canonical text prints a float as RFC 8785 asks exactly when it `PrintsAlike`: not 28.0, 0.0, 1e-05,
      1e-07 or 1e+16, which section 3.2.2.3 writes 28, 0, 0.00001, 1e-7 and 10000000000000000. */
  lemma NumbersAgreeIff(d: Decimal)
    requires IsDecimal(d)
    ensures WellFormed(Float(PythonFloat(d)))
    ensures Canonicalize(Float(PythonFloat(d))) == ScriptText(d) <==> PrintsAlike(d)
  {
    PythonFloatIsLexeme(d);
    match d
    case Zero(_) =>
    case Decimal(negative, digits, point) =>
      CanonicalDigits(d);
      SameSign(if negative then "-" else "", PythonDigits(d), ScriptDigits(digits, point));
      hide PythonDigits, ScriptDigits, Canonicalize;
      if point > 21 || point <= -6 {
        ScientificAgreesIff(d);
      } else if point > 16 || point <= -4 {
        RangeDiffers(d);
      } else if point < |digits| {
        FractionAgrees(d);
      } else {
        WholeDiffers(d);
      }
  }

  lemma CanonicalDigits(d: Decimal)
    requires IsDecimal(d) && d.Decimal?
    ensures Canonicalize(Float(PythonFloat(d))) == (if d.negative then "-" else "") + PythonDigits(d)
  {
    hide PythonFloat, LexemeTail;
    var f := PythonFloat(d);
    assert f.negative == d.negative by { SignKept(d); }
    assert (if f.negative then "-" else "") + f.whole + LexemeTail(f.fraction, f.exponent)
        == (if f.negative then "-" else "") + (f.whole + LexemeTail(f.fraction, f.exponent));
  }

  lemma SignKept(d: Decimal)
    requires IsDecimal(d)
    ensures PythonFloat(d).negative == d.negative
  {}

  /** 28.0 is such a float. */
  lemma NumberTextCounterexample()
    ensures Canonicalize(Float(PythonFloat(Decimal(false, "28", 2)))) == "28.0"
    ensures ScriptText(Decimal(false, "28", 2)) == "28"
  {
    assert Zeros(0) == "";
    assert "28" + Zeros(0) == "28";
  }

  /* ---------- integers ---------- */

  function WholeDigits(digits: string, point: int): (s: string)
    requires AllDigits(digits) && |digits| <= point
    ensures AllDigits(s)
  {
    digits + Zeros(point - |digits|)
  }

  /** The decimal is this integer. */
  predicate Denotes(d: Decimal, n: int)
    requires IsDecimal(d)
  {
    match d
    case Zero(_) => n == 0
    case Decimal(negative, digits, point) =>
      |digits| <= point && Magnitude(n) == NatValue(WholeDigits(digits, point)) && (negative <==> n < 0)
  }

  function Pow10(n: nat): nat {
    if n == 0 then 1 else 10 * Pow10(n - 1)
  }

  lemma {:induction false} ValueBounds(s: string)
    requires AllDigits(s)
    ensures NatValue(s) < Pow10(|s|)
    ensures s != "" && s[0] != '0' ==> Pow10(|s| - 1) <= NatValue(s)
  {
    if s != "" { ValueBounds(s[..|s| - 1]); }
  }

  lemma {:induction false} Pow10Grows(a: nat, b: nat)
    requires a <= b
    ensures 1 <= Pow10(a) <= Pow10(b)
  {
    if a < b {
      Pow10Grows(a, b - 1);
    } else if a > 0 {
      Pow10Grows(a - 1, a - 1);
    }
  }

  /** The digits of a number are the text of its value. */
  lemma {:induction false} TextOfValue(s: string)
    requires IsWhole(s)
    ensures NatText(NatValue(s)) == s
  {
    var n := |s| - 1;
    assert s == s[..n] + [s[n]];
    if n > 0 {
      TextOfValue(s[..n]);
      FrontIsPositive(s[..n]);
    } else {
      assert NatValue(s[..n]) == 0;
    }
  }

  lemma FrontIsPositive(s: string)
    requires AllDigits(s) && s != "" && s[0] != '0'
    ensures NatValue(s) > 0
  {
    hide NatValue;
    ValueBounds(s);
    Pow10Grows(0, |s| - 1);
  }

  lemma MagnitudeBelow(digits: string, point: int)
    requires AllDigits(digits) && digits != "" && digits[0] != '0' && |digits| <= point
    ensures 0 < NatValue(WholeDigits(digits, point))
    ensures NatValue(WholeDigits(digits, point)) < Pow10(21) <==> point <= 21
  {
    hide NatValue, Pow10;
    ValueBounds(WholeDigits(digits, point));
    Pow10Grows(0, point - 1);
    if point <= 21 { Pow10Grows(point, 21); } else { Pow10Grows(21, point - 1); }
  }

  lemma NotPlainDigits(digits: string, point: int)
    requires AllDigits(digits) && digits != "" && !(|digits| <= point <= 21)
    ensures !AllDigits(ScriptDigits(digits, point))
  {
    var s := ScriptDigits(digits, point);
    if 0 < point <= 21 {
      assert s == digits[..point] + ("." + digits[point..]);
      assert s[point] == '.';
    } else if -6 < point <= 0 {
      assert s == "0" + ("." + Zeros(-point) + digits);
      assert s[1] == '.';
    } else {
      var head := FirstDigits(digits);
      assert s == head + ("e" + SignOf(point - 1) + NatText(Magnitude(point - 1)));
      assert s[|head|] == 'e';
    }
  }

  lemma SignedTextsAgreeIff(n: int, negative: bool, s: string)
    requires s != "" && s[0] != '-'
    ensures IntText(n) == (if negative then "-" else "") + s
       <==> NatText(Magnitude(n)) == s && (negative <==> n < 0)
  {
    NatTextIsLong(Magnitude(n));
    hide NatText;
    var t := NatText(Magnitude(n));
    assert IsDigit(t[0]);
    SameSign("-", t, s);
    assert "" + s == s;
    assert ("-" + s)[0] == '-' && ("-" + t)[0] == '-';
  }

  /** RFC 8785 knows an integer only as its nearest binary64 number and prints the shortest digits `d` of
      that. The program prints the same exactly when they denote the integer itself, below 10^21. */
  lemma IntegersAgreeIff(n: int, d: Decimal)
    requires IsDecimal(d)
    ensures Canonicalize(Int(n)) == ScriptText(d) <==> Denotes(d, n) && Magnitude(n) < Pow10(21)
  {
    assert Canonicalize(Int(n)) == IntText(n);
    NatRoundTrip(Magnitude(n));
    match d
    case Zero(_) =>
      SignedTextsAgreeIff(n, false, "0");
      Pow10Grows(0, 21);
      assert NatText(0) == "0" && NatValue("0") == 0;
    case Decimal(negative, digits, point) =>
      hide NatText, NatValue, Pow10, Canonicalize;
      if |digits| <= point {
        MagnitudeBelow(digits, point);
      }
      if |digits| <= point <= 21 {
        var s := WholeDigits(digits, point);
        assert IsWhole(s);
        TextOfValue(s);
        SignedTextsAgreeIff(n, negative, s);
      } else {
        NotPlainDigits(digits, point);
        ScriptStarts(digits, point);
        NatTextIsLong(Magnitude(n));
        SignedTextsAgreeIff(n, negative, ScriptDigits(digits, point));
      }
  }

  lemma ScriptStarts(digits: string, point: int)
    requires AllDigits(digits) && digits != ""
    ensures ScriptDigits(digits, point) != "" && IsDigit(ScriptDigits(digits, point)[0])
  {}

  /** Below 2^53 every integer is a binary64 number, and what reads back as it is the integer. */
  lemma SmallIntegersAgree(n: int, m: int, d: Decimal)
    requires IsDecimal(d) && Denotes(d, m) && (m < 0 <==> n < 0)
    requires Magnitude(n) < PRECISION && Rounded(Magnitude(m)) == Rounded(Magnitude(n))
    ensures Canonicalize(Int(n)) == ScriptText(d)
  {
    SameSmall(Magnitude(n), Magnitude(m));
    hide Pow10;
    PrecisionIsBelow();
    IntegersAgreeIff(n, d);
  }

  lemma {:induction false} Pow10Adds(a: nat, b: nat)
    ensures Pow10(a + b) == Pow10(a) * Pow10(b)
  {
    if a > 0 { Pow10Adds(a - 1, b); }
  }

  lemma PrecisionIsBelow()
    ensures PRECISION < Pow10(21)
  {
    assert Pow10(4) == 10_000;
    hide Pow10;
    Pow10Adds(4, 4);
    Pow10Adds(8, 8);
    Pow10Grows(16, 21);
  }

  lemma SameSmall(a: nat, b: nat)
    requires a < PRECISION && Rounded(a) == Rounded(b)
    ensures a == b
  {
    hide Nearest;
    RepresentableIsFixed(a);
    if b < PRECISION {
      RepresentableIsFixed(b);
    } else {
      MultipleIsRepresentable(PRECISION, 1);
      RepresentableIsFixed(PRECISION);
      RoundedIsMonotone(PRECISION, b);
    }
  }

  /** 2^53 + 1 is read as 2^53 and printed so; 10^21 is printed with an exponent. */
  lemma IntegerTextCounterexamples(d: Decimal)
    requires IsDecimal(d)
    ensures Rounded(PRECISION + 1) == PRECISION
    ensures Denotes(d, PRECISION) ==> Canonicalize(Int(PRECISION + 1)) != ScriptText(d)
    ensures Denotes(d, Pow10(21)) ==> Canonicalize(Int(Pow10(21))) != ScriptText(d)
  {
    RoundsAs(PRECISION / 2, 1, 2);
    hide NatText, NatValue, Pow10, Canonicalize, Rounded, IsDecimal;
    IntegersAgreeIff(PRECISION + 1, d);
    IntegersAgreeIff(Pow10(21), d);
  }

  /** Every integer has such digits. */
  lemma SomeDigitsDenote(n: int) returns (d: Decimal)
    ensures IsDecimal(d) && Denotes(d, n)
  {
    NatRoundTrip(Magnitude(n));
    hide NatText;
    var s := NatText(Magnitude(n));
    d := if n == 0 then Zero(false) else Decimal(n < 0, s, |s|);
    assert WholeDigits(s, |s|) == s;
  }

  function OneTimesTen(exponent: int): Decimal {
    Decimal(false, "1", exponent + 1)
  }

  lemma SmallNatText(n: nat)
    requires n < 100
    ensures NatText(n) == if n < 10 then [Digit(n)] else [Digit(n / 10), Digit(n % 10)]
  {}

  lemma PythonPower(exponent: int, text: string)
    requires LexemeText(PythonFloat(OneTimesTen(exponent))) == text
    ensures Canonicalize(Float(PythonFloat(OneTimesTen(exponent)))) == text
  {}

  /** Powers of ten at the ends of the ranges, as Python prints them. */
  lemma PythonPowers()
    ensures Canonicalize(Float(PythonFloat(OneTimesTen(-4)))) == "0.0001"
    ensures Canonicalize(Float(PythonFloat(OneTimesTen(-5)))) == "1e-05"
    ensures Canonicalize(Float(PythonFloat(OneTimesTen(15)))) == "1000000000000000.0"
    ensures Canonicalize(Float(PythonFloat(OneTimesTen(16)))) == "1e+16"
  {
    PlainPowers();
    ScientificPowers();
    hide PythonFloat, Canonicalize, LexemeText;
    PythonPower(-4, "0.0001");
    PythonPower(-5, "1e-05");
    PythonPower(15, "1000000000000000.0");
    PythonPower(16, "1e+16");
  }

  lemma PlainPowers()
    ensures LexemeText(PythonFloat(OneTimesTen(-4))) == "0.0001"
    ensures LexemeText(PythonFloat(OneTimesTen(15))) == "1000000000000000.0"
  {
    hide NatText;
    assert Zeros(3) == "000" && Zeros(15) == "000000000000000";
  }

  lemma ScientificPowers()
    ensures LexemeText(PythonFloat(OneTimesTen(-5))) == "1e-05"
    ensures LexemeText(PythonFloat(OneTimesTen(16))) == "1e+16"
  {
    SmallNatText(5);
    SmallNatText(16);
    hide NatText;
  }

  /** And as RFC 8785 prints them. */
  lemma ScriptPowers()
    ensures ScriptText(OneTimesTen(-6)) == "0.000001" && ScriptText(OneTimesTen(-7)) == "1e-7"
    ensures ScriptText(OneTimesTen(16)) == "10000000000000000" && ScriptText(OneTimesTen(21)) == "1e+21"
  {
    PlainScript();
    ScientificScript();
    hide ScriptText;
  }

  lemma PlainScript()
    ensures ScriptText(OneTimesTen(-6)) == "0.000001" && ScriptText(OneTimesTen(16)) == "10000000000000000"
  {
    hide NatText;
    assert Zeros(5) == "00000" && Zeros(16) == "0000000000000000";
  }

  lemma ScientificScript()
    ensures ScriptText(OneTimesTen(-7)) == "1e-7" && ScriptText(OneTimesTen(21)) == "1e+21"
  {
    SmallNatText(7);
    SmallNatText(21);
    hide NatText;
  }
}
