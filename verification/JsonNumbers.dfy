/** The numbers of RFC 8259, section 6, and the values they denote: what the parser's digit loops compute. */
module JsonNumbers {
  import opened Options
  import opened Text
  import opened JsonTree
  import opened JsonGrammar
  import JsonRoundTrip

  datatype Exponent = Exponent(mark: char, sign: string, digits: string)

  datatype Numeral = Numeral(minus: bool, whole: string, fraction: string, exponent: Option<Exponent>)

  /** An integer part, at most one fraction of at least one digit, at most one exponent. */
  predicate IsNumeral(n: Numeral) {
    && n.whole != "" && Digits(n.whole) && Digits(n.fraction)
    && (n.exponent.Some? ==>
          var e := n.exponent.value;
          (e.mark == 'e' || e.mark == 'E') && (e.sign == "" || e.sign == "+" || e.sign == "-")
          && e.digits != "" && Digits(e.digits))
  }

  function ExponentText(e: Option<Exponent>): string {
    if e.None? then "" else [e.value.mark] + (e.value.sign + e.value.digits)
  }

  function UnsignedText(n: Numeral): string {
    n.whole + ((if n.fraction == "" then "" else "." + n.fraction) + ExponentText(n.exponent))
  }

  function NumeralText(n: Numeral): string { (if n.minus then "-" else "") + UnsignedText(n) }

  // ------------------------------------------------------------------ what a numeral denotes

  function Worth(s: string): real
    requires Digits(s)
  {
    Spelled(s) as real
  }

  /** x times ten to the k. */
  function Scale(x: real, k: int): real
    decreases if k < 0 then -k else k
  {
    if k == 0 then x else if k > 0 then Scale(x * 10.0, k - 1) else Scale(x / 10.0, k + 1)
  }

  function ExponentOf(n: Numeral): int
    requires IsNumeral(n)
  {
    if n.exponent.None? then 0
    else if n.exponent.value.sign == "-" then 0 - Spelled(n.exponent.value.digits)
    else Spelled(n.exponent.value.digits)
  }

  /** All digits before the exponent as one integer, moved by the exponent less the places of the fraction. */
  function Denoted(n: Numeral): real
    requires IsNumeral(n)
  {
    var all := n.whole + n.fraction;
    assert Digits(all);
    var x := Scale(Worth(all), ExponentOf(n) - |n.fraction|);
    if n.minus then -x else x
  }

  // ------------------------------------------------------------------ the loops compute it

  lemma Regroup(x: real, a: real, b: real)
    ensures (x * a) * b == x * (a * b)
  {
  }

  lemma WorthSnoc(s: string, c: char)
    requires Digits(s) && IsDigit(c)
    ensures Digits(s + [c]) && Worth(s + [c]) == Worth(s) * 10.0 + DigitValue(c) as real
  {
    assert (s + [c])[..|s|] == s;
  }

  lemma PowStep(n: nat)
    ensures Pow10(n + 1) == Pow10(n) * 10.0 && Pow10(0) == 1.0
  {
  }

  lemma NothingIsWorth()
    ensures Worth("") == 0.0
  {
  }

  lemma {:induction false} WorthConcat(a: string, b: string)
    requires Digits(a) && Digits(b)
    ensures Digits(a + b)
    ensures Worth(a + b) == Worth(a) * Pow10(|b|) + Worth(b)
    decreases |b|
  {
    hide Worth, Pow10;
    PowStep(0);
    NothingIsWorth();
    if b == "" {
      assert a + b == a;
    } else {
      var n := |b| - 1;
      WorthConcat(a, b[..n]);
      assert IsDigit(b[n]);
      WorthSnoc(a + b[..n], b[n]);
      WorthSnoc(b[..n], b[n]);
      PowStep(n);
      assert a + b == a + b[..n] + [b[n]] && b == b[..n] + [b[n]];
      Regroup(Worth(a), Pow10(n), 10.0);
    }
  }

  lemma WorthCons(c: char, t: string)
    requires IsDigit(c) && Digits(t)
    ensures Digits([c] + t) && Worth([c] + t) == Sum(DigitValue(c) as real, Pow10(|t|), Worth(t))
  {
    hide Worth, Pow10;
    WorthSnoc("", c);
    NothingIsWorth();
    assert "" + [c] == [c];
    WorthConcat([c], t);
  }

  lemma NoFraction(unit: real)
    ensures Balanced(FractionValue("", unit), Pow10(0), unit, Worth(""))
  {
    NothingIsWorth();
    hide Pow10, Worth;
    assert FractionValue("", unit) == 0.0;
  }

  lemma DigitsTail(d: string)
    requires Digits(d) && d != ""
    ensures Digits(d[1..]) && IsDigit(d[0])
  {
  }

  lemma FractionUnfold(d: string, unit: real)
    requires d != "" && (forall c :: c in d ==> IsDigit(c))
    ensures IsDigit(d[0]) && (forall c :: c in d[1..] ==> IsDigit(c))
    ensures FractionValue(d, unit) == Sum(DigitValue(d[0]) as real, unit, FractionValue(d[1..], unit * 0.1))
  {
    assert forall c :: c in d[1..] ==> c in d;
  }

  /** v with p for the last place's unit is what the digits w are worth at ten units. */
  predicate Balanced(v: real, p: real, unit: real, w: real) { v * p == unit * 10.0 * w }

  function Sum(first: real, unit: real, rest: real): real { first * unit + rest }

  lemma BalancedStep(first: real, unit: real, p: real, rest: real, s: real)
    requires Balanced(rest, p, unit * 0.1, s)
    ensures Balanced(Sum(first, unit, rest), p * 10.0, unit, Sum(first, p, s))
  {
    assert rest * p == unit * s;
    assert Sum(first, unit, rest) * (p * 10.0) == first * unit * (p * 10.0) + rest * (p * 10.0);
    assert rest * (p * 10.0) == (rest * p) * 10.0 == unit * 10.0 * s;
    assert first * unit * (p * 10.0) == unit * 10.0 * (first * p);
    assert unit * 10.0 * (first * p) + unit * 10.0 * s == unit * 10.0 * Sum(first, p, s);
  }

  /** Each digit of a fraction is worth a tenth of the one before it. */
  lemma {:induction false} FractionIsSpelled(d: string, unit: real)
    requires Digits(d)
    ensures forall c :: c in d ==> IsDigit(c)
    ensures Balanced(FractionValue(d, unit), Pow10(|d|), unit, Worth(d))
    decreases |d|
  {
    DigitsAre(d);
    hide *;
    if d == "" {
      NoFraction(unit);
    } else {
      DigitsTail(d);
      var t := d[1..];
      FractionIsSpelled(t, unit * 0.1);
      FractionUnfold(d, unit);
      assert d == [d[0]] + t;
      WorthCons(d[0], t);
      PowStep(|t|);
      BalancedStep(DigitValue(d[0]) as real, unit, Pow10(|t|), FractionValue(t, unit * 0.1), Worth(t));
    }
  }

  lemma {:induction false} ScaleUp(x: real, k: nat)
    ensures Scale(x, k) == x * Pow10(k)
    decreases k
  {
    if k > 0 {
      ScaleUp(x * 10.0, k - 1);
      var p := Pow10(k - 1);
      assert x * 10.0 * p == x * (p * 10.0);
    }
  }

  lemma {:induction false} ScaleDown(x: real, k: nat)
    ensures Scale(x, 0 - k) == x / Pow10(k)
    decreases k
  {
    if k > 0 {
      ScaleDown(x / 10.0, k - 1);
      var p := Pow10(k - 1);
      assert Pow10(k) == p * 10.0;
      DivideTwice(x, 10.0, p);
    }
  }

  lemma DivideTwice(x: real, a: real, b: real)
    requires a > 0.0 && b > 0.0
    ensures b * a > 0.0 && a * b > 0.0 && x / a / b == x / (b * a) && x / (a * b) == x / a / b
  {
    var y := x / a / b;
    assert y * b == x / a && y * b * a == x;
    assert y * (b * a) == x && a * b == b * a;
  }

  /** Moving twice is moving once by the sum. */
  lemma {:induction false} ScaleTwice(x: real, j: int, k: int)
    ensures Scale(Scale(x, j), k) == Scale(x, j + k)
    decreases if j < 0 then -j else j
  {
    if j > 0 {
      ScaleTwice(x * 10.0, j - 1, k);
      ScaleStep(x, j - 1 + k);
    } else if j < 0 {
      ScaleTwice(x / 10.0, j + 1, k);
      ScaleStep(x, j + k);
      ScaleStep(x / 10.0, j + k);
    }
  }

  lemma {:induction false} ScaleStep(x: real, k: int)
    ensures Scale(x * 10.0, k) == Scale(x, k + 1)
  {
    if k < 0 {
      assert x * 10.0 / 10.0 == x;
      assert Scale(x * 10.0, k) == Scale(x * 10.0 / 10.0, k + 1);
    }
  }

  lemma ExponentFactor(x: real, e: Option<Exponent>)
    requires IsNumeral(Numeral(false, "0", "", e))
    ensures Scaled(x, ExponentText(e)) == Scale(x, ExponentOf(Numeral(false, "0", "", e)))
  {
    if e.Some? {
      var d, s := e.value.digits, ExponentText(e);
      SpelledByLoop(d);
      ExponentDigits(e.value);
      ScaleUp(x, Spelled(d));
      ScaleDown(x, Spelled(d));
      hide LeadingDigits, DecValue, Spelled, Pow10, Scale;
      assert Starts(s, "eE");
    }
  }

  /** The exponent's sign and digits as the parser finds them. */
  lemma ExponentDigits(e: Exponent)
    requires IsNumeral(Numeral(false, "0", "", Some(e)))
    ensures var t := ExponentText(Some(e))[1..];
            && LeadingDigits(if Starts(t, "-+") then t[1..] else t) == e.digits
            && (Starts(t, "-") <==> e.sign == "-")
  {
    var d := e.digits;
    var t := ExponentText(Some(e))[1..];
    DigitsAre(d);
    LeadingDigitsOf(d, "");
    assert d + "" == d && t == e.sign + d;
    hide LeadingDigits;
    if e.sign == "" {
      assert t == d && IsDigit(t[0]);
    } else {
      assert t[0] == e.sign[0] && t[1..] == d;
    }
  }

  /** What follows the integer part, and what follows the fraction. */
  lemma TailParts(f: string, e: Option<Exponent>)
    requires IsNumeral(Numeral(false, "0", "", e)) && Digits(f)
    ensures var t := ExponentText(e);
            var tail := (if f == "" then "" else "." + f) + t;
            && (t == "" || !IsDigit(t[0])) && (tail == "" || !IsDigit(tail[0])) && (Starts(tail, ".") <==> f != "")
            && (f == "" ==> tail == t) && (f != "" ==> tail[1..] == f + t && tail[1..][|f|..] == t)
  {
    var t := ExponentText(e);
    assert t != "" ==> t[0] == 'e' || t[0] == 'E';
    assert f != "" ==> ("." + f) + t == "." + (f + t);
  }

  /** The number before the exponent. */
  function Mantissa(whole: string, f: string): real
    requires Digits(whole) && Digits(f)
  {
    DigitsAre(whole);
    DigitsAre(f);
    DecValue(whole, 0) as real + if f == "" then 0.0 else FractionValue(f, 0.1)
  }

  lemma UnsignedUnfold(q: string, whole: string, rest: string)
    requires LeadingDigits(q) == whole && q[|whole|..] == rest
    ensures !Starts(rest, ".") ==> UnsignedValue(q) == Scaled(DecValue(whole, 0) as real, rest)
    ensures Starts(rest, ".") ==>
              var f := LeadingDigits(rest[1..]);
              UnsignedValue(q) == Scaled(DecValue(whole, 0) as real + FractionValue(f, 0.1), rest[1..][|f|..])
  {
    hide LeadingDigits, DecValue, Scaled, FractionValue, Starts;
  }

  lemma NumeralParts(n: Numeral)
    requires IsNumeral(n)
    ensures Digits(n.whole) && Digits(n.fraction) && n.whole != "" && IsNumeral(Numeral(false, "0", "", n.exponent))
    ensures UnsignedText(n) == n.whole + ((if n.fraction == "" then "" else "." + n.fraction) + ExponentText(n.exponent))
  {
  }

  lemma UnsignedParts(n: Numeral)
    requires IsNumeral(n)
    ensures UnsignedValue(UnsignedText(n)) == Scaled(Mantissa(n.whole, n.fraction), ExponentText(n.exponent))
  {
    var f, t := n.fraction, ExponentText(n.exponent);
    var tail := (if f == "" then "" else "." + f) + t;
    hide *;
    NumeralParts(n);
    TailParts(f, n.exponent);
    DigitsAre(n.whole);
    DigitsAre(f);
    LeadingDigitsOf(n.whole, tail);
    LeadingDigitsOf(f, t);
    assert (n.whole + tail)[|n.whole|..] == tail;
    UnsignedUnfold(n.whole + tail, n.whole, tail);
    MantissaUnfold(n.whole, f);
  }

  lemma MantissaUnfold(whole: string, f: string)
    requires Digits(whole) && Digits(f)
    ensures (forall c :: c in whole ==> IsDigit(c)) && (forall c :: c in f ==> IsDigit(c))
    ensures f == "" ==> Mantissa(whole, f) == DecValue(whole, 0) as real
    ensures f != "" ==> Mantissa(whole, f) == DecValue(whole, 0) as real + FractionValue(f, 0.1)
  {
    DigitsAre(whole);
    DigitsAre(f);
    hide DecValue, FractionValue;
  }

  lemma WholeIs(whole: string, f: string)
    requires Digits(whole) && Digits(f)
    ensures f == "" ==> Mantissa(whole, f) == Worth(whole)
    ensures f != "" ==> (forall c :: c in f ==> IsDigit(c)) && Mantissa(whole, f) == Worth(whole) + FractionValue(f, 0.1)
  {
    SpelledByLoop(whole);
    DigitsAre(f);
    hide DecValue, FractionValue, Spelled;
  }

  lemma MantissaIsSpelled(whole: string, f: string)
    requires Digits(whole) && Digits(f)
    ensures Digits(whole + f) && Mantissa(whole, f) == Scale(Worth(whole + f), 0 - |f|)
  {
    hide Worth, Pow10, Scale, Mantissa, FractionValue;
    WholeIs(whole, f);
    WorthConcat(whole, f);
    PowStep(0);
    NothingIsWorth();
    ScaleDown(Worth(whole + f), |f|);
    if f != "" {
      FractionIsSpelled(f, 0.1);
      assert FractionValue(f, 0.1) * Pow10(|f|) == Worth(f);
      Quotient(Worth(whole + f), Worth(whole), FractionValue(f, 0.1), Pow10(|f|));
    }
  }

  lemma Quotient(all: real, w: real, x: real, p: real)
    requires p > 0.0 && all == w * p + x * p
    ensures all / p == w + x
  {
    assert all == (w + x) * p;
  }

  lemma ExponentAlone(n: Numeral)
    requires IsNumeral(n)
    ensures IsNumeral(Numeral(false, "0", "", n.exponent)) && ExponentOf(Numeral(false, "0", "", n.exponent)) == ExponentOf(n)
  {
  }

  lemma DenotedIs(n: Numeral)
    requires IsNumeral(n)
    ensures Digits(n.whole + n.fraction) && Digits(n.whole) && Digits(n.fraction)
    ensures !n.minus ==> Denoted(n) == Scale(Worth(n.whole + n.fraction), 0 - |n.fraction| + ExponentOf(n))
  {
    hide Scale, Worth, ExponentOf;
  }

  /** The part without a sign. */
  lemma UnsignedIsDenoted(n: Numeral)
    requires IsNumeral(n) && !n.minus
    ensures UnsignedValue(UnsignedText(n)) == Denoted(n)
  {
    hide *;
    NumeralParts(n);
    UnsignedParts(n);
    MantissaIsSpelled(n.whole, n.fraction);
    ExponentFactor(Mantissa(n.whole, n.fraction), n.exponent);
    var x := Worth(n.whole + n.fraction);
    ScaleTwice(x, 0 - |n.fraction|, ExponentOf(n));
    ExponentAlone(n);
    DenotedIs(n);
  }

  /**
   Every number of RFC 8259, leading zeros allowed, is a word of the grammar and is read as the number it denotes:
   sign, digits, fraction and exponent.
   */
  lemma NumeralIsRead(n: Numeral)
    requires IsNumeral(n)
    ensures IsWord(NumeralText(n)) && PrimitiveValue(NumeralText(n)) == Num(Denoted(n))
  {
    hide *;
    NumeralIsWord(n);
    SignAlone(n);
    var u, q := n.(minus := false), UnsignedText(n);
    UnsignedIsDenoted(u);
    var x := UnsignedValue(q);
    assert x == Denoted(u);
    SignedValue(NumeralText(n), q, n.minus);
    DenotedSign(n);
  }

  lemma SignAlone(n: Numeral)
    requires IsNumeral(n)
    ensures var q := UnsignedText(n);
            && q != "" && IsDigit(q[0]) && NumeralText(n) == (if n.minus then "-" + q else q)
            && UnsignedText(n.(minus := false)) == q && IsNumeral(n.(minus := false))
  {
    hide ExponentText;
    assert "" + UnsignedText(n) == UnsignedText(n);
    assert UnsignedText(n)[0] == n.whole[0];
  }

  lemma SignedValue(t: string, q: string, minus: bool)
    requires q != "" && IsDigit(q[0]) && t == if minus then "-" + q else q
    ensures PrimitiveValue(t) == Num(if minus then -UnsignedValue(q) else UnsignedValue(q))
  {
    assert minus ==> t[1..] == q;
    assert t[0] == '-' || IsDigit(t[0]);
    hide UnsignedValue;
  }

  lemma DenotedSign(n: Numeral)
    requires IsNumeral(n)
    ensures Denoted(n) == if n.minus then -Denoted(n.(minus := false)) else Denoted(n.(minus := false))
  {
    hide Scale, Spelled;
  }

  lemma NumeralIsWord(n: Numeral)
    requires IsNumeral(n)
    ensures IsWord(NumeralText(n))
  {
    var t := NumeralText(n);
    var sign, point := if n.minus then "-" else "", if n.fraction == "" then "" else "." + n.fraction;
    assert t == sign + n.whole + point + ExponentText(n.exponent);
    WordConcat(sign, n.whole);
    WordConcat(sign + n.whole, point);
    WordConcat(sign + n.whole + point, ExponentText(n.exponent));
    assert t[0] == if n.minus then '-' else n.whole[0];
  }

  predicate Visible(s: string) { forall i :: 0 <= i < |s| ==> InWord(s[i]) }

  lemma WordConcat(a: string, b: string)
    requires Visible(a) && Visible(b)
    ensures Visible(a + b)
  {
    hide InWord;
  }

  /** The three literal names. */
  lemma NamesAreRead()
    ensures IsWord("null") && PrimitiveValue("null") == Null
    ensures IsWord("true") && PrimitiveValue("true") == Bool(true)
    ensures IsWord("false") && PrimitiveValue("false") == Bool(false)
  {
  }

  /** A text that is a number, with white space around it, parses to the number it denotes. */
  lemma NumberParses(pre: string, n: Numeral, post: string)
    requires IsNumeral(n) && Blanks(pre) && Blanks(post)
    ensures ParseText(pre + NumeralText(n) + post) == Some(Num(Denoted(n)))
  {
    NumeralIsRead(n);
    var d := Doc.Word(NumeralText(n));
    assert Flatten(d) == NumeralText(n) && |TokensOf(d, |pre|)| == 1 && ValueOf(d) == PrimitiveValue(NumeralText(n));
    hide ParseText, NumeralText, PrimitiveValue, Denoted, IsWord;
    JsonRoundTrip.ParseOfText(pre, d, post);
  }
}
