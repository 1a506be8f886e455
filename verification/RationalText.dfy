/**
 * Printing a rational with a bounded number of fraction digits, or with all of them.
 * The printed digits are shown to spell the one-shot rounding of the rational, or the rational.
 */
module RationalText {
  import opened IntegerMath
  import opened DecimalText
  import opened Results
  import opened QuantityScanner

  datatype Digits = Finite(n: int) | Infinite

  datatype DisplayError = RangeError | TypeError

  const MAX_EXPANSION: nat := 256

  /** |numer / denom| to `digits` decimal places, ties away from zero, as an integer times 10^-digits. */
  function RoundedAbsScaled(numer: int, denom: int, digits: nat): nat
    requires denom > 0
  {
    if numer == 0 then 0
    else
      var scaled := Abs(numer) * Pow10(digits);
      var q := Quot(scaled, denom);
      if Rem(scaled, denom) * 2 >= denom then q + 1 else q
  }

  lemma RoundedBounds(numer: int, denom: int, digits: nat)
    requires denom > 0
    ensures var k := RoundedAbsScaled(numer, denom, digits);
      2 * (k * denom) - denom <= 2 * (Abs(numer) * Pow10(digits)) < 2 * (k * denom) + denom
  {
    hide Pow10, Quot, Rem;
    MulMonotone(0, Abs(numer), Pow10(digits));
    var scaled := Abs(numer) * Pow10(digits);
    var q := Quot(scaled, denom);
    assert (q + 1) * denom == q * denom + denom;
    if numer == 0 { assert 0 * Pow10(digits) == 0; }
  }

  lemma RoundedUnique(numer: int, denom: int, digits: nat, k: int)
    requires denom > 0
    requires 2 * (k * denom) - denom <= 2 * (Abs(numer) * Pow10(digits)) < 2 * (k * denom) + denom
    ensures RoundedAbsScaled(numer, denom, digits) == k
  {
    RoundedBounds(numer, denom, digits);
    var k' := RoundedAbsScaled(numer, denom, digits);
    if k < k' { MulStrict(k, k', denom); }
    if k' < k { MulStrict(k', k, denom); }
  }

  lemma ScaleBounds(k: int, denom: int, y: int, f: int)
    requires denom > 0 && f > 0
    requires 2 * (k * denom) - denom <= 2 * y < 2 * (k * denom) + denom
    ensures 2 * (k * (denom * f)) - denom * f <= 2 * (y * f) < 2 * (k * (denom * f)) + denom * f
  {
    var x := 2 * (k * denom);
    MulCancel(x - denom, 2 * y, f);
    MulCancel(2 * y, x + denom, f);
    assert x * f == 2 * (k * (denom * f)) by { MulAssoc(k, denom, f); }
    assert (x - denom) * f == x * f - denom * f;
    assert (x + denom) * f == x * f + denom * f;
  }

  lemma RoundedOfScaled(numer: int, denom: int, f: int, digits: nat, n: int, d: int)
    requires denom > 0 && f > 0 && d == denom * f && d > 0
    requires (Abs(numer) * Pow10(digits)) * f == Abs(n) * Pow10(digits)
    ensures RoundedAbsScaled(n, d, digits) == RoundedAbsScaled(numer, denom, digits)
  {
    RoundedBounds(numer, denom, digits);
    var k := RoundedAbsScaled(numer, denom, digits);
    ScaleBounds(k, denom, Abs(numer) * Pow10(digits), f);
    RoundedUnique(n, d, digits, k);
  }

  // Numerator and denominator can be scaled together.
  lemma RoundedCancel(numer: int, denom: int, f: int, digits: nat)
    requires denom > 0 && f > 0
    ensures denom * f > 0 && RoundedAbsScaled(numer * f, denom * f, digits) == RoundedAbsScaled(numer, denom, digits)
  {
    MulStrict(0, denom, f);
    AbsTimes(numer, f);
    MulSwap(Abs(numer), Pow10(digits), f);
    RoundedOfScaled(numer, denom, f, digits, numer * f, denom * f);
  }

  lemma AbsTimes(x: int, f: int)
    requires f > 0
    ensures Abs(x * f) == Abs(x) * f
  {
    if x < 0 { MulStrict(x, 0, f); } else { MulMonotone(0, x, f); }
    assert (-x) * f == -(x * f);
  }

  // ----- finitely many digits -----

  /** Left-pads with zeros to a width: while (s.length < width) s = '0' + s. */
  function PadLeft(s: string, width: nat): string
    decreases width - |s|
  {
    if |s| < width then PadLeft("0" + s, width) else s
  }

  lemma {:induction false} PadLeftFacts(s: string, width: nat)
    requires AllDigits(s) && |s| <= width
    ensures var p := PadLeft(s, width);
      |p| == width && AllDigits(p) && DigitsValue(p) == DigitsValue(s)
    decreases width - |s|
  {
    if |s| < width {
      LeadingZeros("0", s);
      PadLeftFacts("0" + s, width);
    }
  }

  /** Integer part and fraction after rounding, with the carry out of the fraction. */
  datatype Split = Split(whole: nat, frac: nat)

  function RoundedSplit(a: nat, denom: int, digits: nat): Split
    requires denom > 0
  {
    var scale := Pow10(digits);
    var whole := Quot(a, denom);
    var scaledRem := Rem(a, denom) * scale;
    var frac := Quot(scaledRem, denom) + (if Rem(scaledRem, denom) * 2 >= denom then 1 else 0);
    if frac == scale then Split(whole + 1, 0) else Split(whole, frac)
  }

  lemma SplitAlgebra(a: int, denom: int, scale: int, whole: int, rem: int, f: int, r: int)
    requires a == whole * denom + rem && rem * scale == f * denom + r
    ensures a * scale == (whole * scale + f) * denom + r
  {
    assert a * scale == (whole * denom) * scale + rem * scale;
    assert (whole * scale + f) * denom == (whole * scale) * denom + f * denom;
    assert (whole * denom) * scale == (whole * scale) * denom;
  }

  // Dividing a scaled number, digit block by digit block.
  lemma SplitSteps(a: nat, denom: int, scale: nat)
    requires denom > 0 && scale > 0
    ensures var whole, rem := Quot(a, denom), Rem(a, denom);
      && 0 <= a * scale && 0 <= rem * scale
      && Quot(a * scale, denom) == whole * scale + Quot(rem * scale, denom)
      && Rem(a * scale, denom) == Rem(rem * scale, denom)
      && Quot(rem * scale, denom) < scale
  {
    var whole, rem := Quot(a, denom), Rem(a, denom);
    MulMonotone(0, a, scale);
    MulMonotone(0, rem, scale);
    MulMonotone(0, whole, scale);
    var f, r := Quot(rem * scale, denom), Rem(rem * scale, denom);
    hide Quot, Rem;
    SplitAlgebra(a, denom, scale, whole, rem, f, r);
    QuotRemUnique(a * scale, denom, whole * scale + f, r);
    FractionBelowScale(rem, denom, scale, f);
  }

  lemma NothingRounds(denom: int, digits: nat)
    requires denom > 0
    ensures RoundedSplit(0, denom, digits) == Split(0, 0) && RoundedAbsScaled(0, denom, digits) == 0
  {
    hide Quot, Rem;
    QuotRemUnique(0, denom, 0, 0);
    assert 0 * Pow10(digits) == 0;
  }

  /** Splitting, rounding the fraction and carrying is rounding in one shot. */
  lemma SplitIsOneShot(a: nat, denom: int, digits: nat)
    requires denom > 0
    ensures var s := RoundedSplit(a, denom, digits);
      && s.whole * Pow10(digits) + s.frac == RoundedAbsScaled(a, denom, digits)
      && s.frac < Pow10(digits)
  {
    hide Pow10, Quot, Rem;
    if a == 0 {
      NothingRounds(denom, digits);
    } else {
      var scale := Pow10(digits);
      SplitSteps(a, denom, scale);
      var whole, f := Quot(a, denom), Quot(Rem(a, denom) * scale, denom);
      var up := if Rem(Rem(a, denom) * scale, denom) * 2 >= denom then 1 else 0;
      CarryAlgebra(whole, scale, f, up);
      assert RoundedSplit(a, denom, digits) == if f + up == scale then Split(whole + 1, 0) else Split(whole, f + up);
      assert RoundedAbsScaled(a, denom, digits) == whole * scale + f + up;
      hide RoundedSplit, RoundedAbsScaled;
    }
  }

  lemma FractionBelowScale(rem: int, denom: int, scale: int, f: int)
    requires rem < denom && 0 < denom && 0 < scale && f * denom <= rem * scale
    ensures f < scale
  {
    MulStrict(rem, denom, scale);
    MulCancel(f, scale, denom);
  }

  // The carry out of a rounded fraction goes to the whole part.
  lemma CarryAlgebra(whole: int, scale: int, f: int, up: int)
    requires f + up <= scale
    ensures (if f + up == scale then (whole + 1) * scale else whole * scale + (f + up)) == whole * scale + f + up
  {
    assert (whole + 1) * scale == whole * scale + scale;
  }

  /** Mantissa text: the whole part, and the fraction when any is left. */
  function MantissaText(whole: string, frac: string): string {
    if frac == "" then whole else whole + "." + frac
  }

  function SignText(numer: int): string { if numer < 0 then "-" else "" }

  function FormatFinite(numer: int, denom: int, digits: nat): string
    requires denom > 0
  {
    var a := Abs(numer);
    if numer == 0 then "0"
    else if digits == 0 then
      var whole := Quot(a, denom);
      SignText(numer) + NatToString(if Rem(a, denom) * 2 >= denom then whole + 1 else whole)
    else
      var s := RoundedSplit(a, denom, digits);
      SignText(numer) + MantissaText(NatToString(s.whole), TrimTrailingZeros(PadLeft(NatToString(s.frac), digits)))
  }

  // ----- all digits -----

  /** The next digit of rem / denom. */
  function NextDigit(rem: nat, denom: int): (d: nat)
    requires rem < denom
    ensures d <= 9
  {
    MulCancel(Quot(rem * 10, denom), 10, denom);
    Quot(rem * 10, denom)
  }

  function NextRem(rem: nat, denom: int): (r: nat)
    requires rem < denom
    ensures r < denom && rem * 10 == NextDigit(rem, denom) * denom + r
  {
    Rem(rem * 10, denom)
  }

  /** Long division: at most `fuel` further digits of rem / denom. */
  function Expand(rem: nat, denom: int, fuel: nat): string
    requires rem < denom
    decreases fuel
  {
    if fuel == 0 || rem == 0 then ""
    else [DigitChar(NextDigit(rem, denom))] + Expand(NextRem(rem, denom), denom, fuel - 1)
  }

  function ExactFrac(numer: int, denom: int): string
    requires denom > 0
  {
    TrimTrailingZeros(Expand(Rem(Abs(numer), denom), denom, MAX_EXPANSION))
  }

  function FormatExact(numer: int, denom: int): string
    requires denom > 0
  {
    if numer == 0 then "0"
    else SignText(numer) + MantissaText(NatToString(Quot(Abs(numer), denom)), ExactFrac(numer, denom))
  }

  function FormatRational(numer: int, denom: int, digits: Digits): Result<string, DisplayError> {
    if denom <= 0 then Failure(RangeError)
    else if numer == 0 then Success("0")
    else
      match digits
      case Infinite => Success(FormatExact(numer, denom))
      case Finite(d) =>
        if d < 0 || d > 256 then Failure(RangeError) else Success(FormatFinite(numer, denom, d))
  }

  /** The unlimited branch: long division until nothing remains, at most 256 digits. */
  method FormatUnlimited(numer: int, denom: int) returns (out: string)
    requires denom > 0 && numer != 0
    ensures out == FormatExact(numer, denom)
  {
    var intPart, rem := Quot(Abs(numer), denom), Rem(Abs(numer), denom);
    if rem == 0 {
      assert TrimTrailingZeros("") == "";
      return SignText(numer) + NatToString(intPart);
    }
    ghost var all := Expand(rem, denom, MAX_EXPANSION);
    var frac, i := "", 0;
    while i < 256 && rem != 0
      invariant 0 <= i <= 256 && 0 <= rem < denom
      invariant frac + Expand(rem, denom, MAX_EXPANSION - i) == all
    {
      ghost var rest := Expand(rem, denom, MAX_EXPANSION - i);
      var d := NextDigit(rem, denom);
      rem := NextRem(rem, denom);
      assert rest == [DigitChar(d)] + Expand(rem, denom, MAX_EXPANSION - i - 1);
      assert frac + rest == (frac + [DigitChar(d)]) + Expand(rem, denom, MAX_EXPANSION - i - 1);
      frac := frac + [DigitChar(d)];
      i := i + 1;
    }
    assert frac + "" == frac;
    frac := TrimTrailingZeros(frac);
    return SignText(numer) + (if |frac| == 0 then NatToString(intPart) else NatToString(intPart) + "." + frac);
  }

  /** The limited branch: round the fraction, carry, pad, trim. */
  method FormatLimited(numer: int, denom: int, digits: nat) returns (out: string)
    requires denom > 0 && numer != 0
    ensures out == FormatFinite(numer, denom, digits)
  {
    var a := Abs(numer);
    var intPart, rem := Quot(a, denom), Rem(a, denom);
    if digits == 0 {
      if rem != 0 && rem * 2 >= denom {
        intPart := intPart + 1;
      }
      return SignText(numer) + NatToString(intPart);
    }
    var scale := Pow10(digits);
    var frac := Quot(rem * scale, denom);
    if Rem(rem * scale, denom) * 2 >= denom {
      frac := frac + 1;
    }
    if frac == scale {
      frac, intPart := 0, intPart + 1;
    }
    assert RoundedSplit(a, denom, digits) == Split(intPart, frac);
    var fracStr := NatToString(frac);
    while |fracStr| < digits
      invariant PadLeft(fracStr, digits) == PadLeft(NatToString(frac), digits)
      decreases digits - |fracStr|
    {
      fracStr := "0" + fracStr;
    }
    fracStr := TrimTrailingZeros(fracStr);
    return SignText(numer) + (if |fracStr| == 0 then NatToString(intPart) else NatToString(intPart) + "." + fracStr);
  }

  method FormatRationalDecimal(numer: int, denom: int, digits: Digits) returns (r: Result<string, DisplayError>)
    ensures r == FormatRational(numer, denom, digits)
  {
    if denom <= 0 {
      return Failure(RangeError);
    }
    if numer == 0 {
      return Success("0");
    }
    var out: string;
    if digits == Infinite {
      out := FormatUnlimited(numer, denom);
      return Success(out);
    }
    if digits.n < 0 || digits.n > 256 {
      return Failure(RangeError);
    }
    out := FormatLimited(numer, denom, digits.n);
    return Success(out);
  }

  // ----- what the printed mantissa spells -----

  function SignOfNumer(numer: int): SignMark { if numer < 0 then Minus else Unsigned }

  /** A printed mantissa followed by a suffix, as a numeral. */
  function MantissaNumeral(numer: int, whole: nat, frac: string, suffix: string): Numeral {
    Numeral(SignOfNumer(numer), NatToString(whole), frac != "", frac, suffix)
  }

  lemma MantissaNumeralText(numer: int, whole: nat, frac: string, suffix: string)
    requires AllDigits(frac) && IsSuffixText(suffix) && StartsSuffix(suffix)
    ensures var n := MantissaNumeral(numer, whole, frac, suffix);
      IsNumeral(n) && Text(n) == SignText(numer) + MantissaText(NatToString(whole), frac) + suffix
  {
    var n := MantissaNumeral(numer, whole, frac, suffix);
    var w := NatToString(whole);
    assert n.sign.Text() == SignText(numer);
    hide NatToString, IsSuffixText, StartsSuffix;
    PointText(w, frac, suffix);
    GlueText(SignText(numer), MantissaText(w, frac), suffix);
  }

  lemma GlueText(a: string, b: string, c: string)
    ensures a + (b + c) == (a + b) + c
  {}

  lemma PointText(w: string, frac: string, suffix: string)
    ensures w + ((if frac == "" then "" else "." + frac) + suffix) == MantissaText(w, frac) + suffix
  {
    if frac == "" {
      assert "" + suffix == suffix;
    } else {
      GlueText(w, "." + frac, suffix);
      GlueText(w, ".", frac);
    }
  }

  // Whole digits followed by fraction digits, trailing zeros dropped.
  lemma TrimmedValue(whole: nat, full: string)
    requires AllDigits(full)
    ensures var frac := TrimTrailingZeros(full);
      && AllDigits(frac) && AllDigits(NatToString(whole) + frac) && |frac| <= |full|
      && DigitsValue(NatToString(whole) + frac) * Pow10(|full| - |frac|)
         == whole * Pow10(|full|) + DigitsValue(full)
  {
    var w := NatToString(whole);
    var frac := TrimTrailingZeros(full);
    var zeros := full[|frac|..];
    NatToStringValue(whole);
    assert full == frac + zeros;
    assert w + full == (w + frac) + zeros;
    DigitsValueConcat(w, frac);
    TrailingZeros(w + frac, zeros);
    DigitsValueConcat(w, full);
  }

  /** The fraction digits finite formatting prints. */
  function FiniteFrac(a: nat, denom: int, digits: nat): string
    requires denom > 0
  {
    if digits == 0 then "" else TrimTrailingZeros(PadLeft(NatToString(RoundedSplit(a, denom, digits).frac), digits))
  }

  function FiniteNumeral(numer: int, denom: int, digits: nat, suffix: string): Numeral
    requires denom > 0
  {
    var a := Abs(numer);
    MantissaNumeral(numer, RoundedSplit(a, denom, digits).whole, FiniteFrac(a, denom, digits), suffix)
  }

  lemma FiniteFracFacts(a: nat, denom: int, digits: nat)
    requires denom > 0
    ensures var s := RoundedSplit(a, denom, digits);
      var frac := FiniteFrac(a, denom, digits);
      && AllDigits(frac) && AllDigits(NatToString(s.whole) + frac) && |frac| <= digits
      && DigitsValue(NatToString(s.whole) + frac) * Pow10(digits - |frac|) == s.whole * Pow10(digits) + s.frac
  {
    var s := RoundedSplit(a, denom, digits);
    SplitIsOneShot(a, denom, digits);
    if digits == 0 {
      TrimmedValue(s.whole, "");
      assert DigitsValue("") == 0 && TrimTrailingZeros("") == "";
    } else {
      NatToStringValue(s.frac);
      NatToStringLength(s.frac, digits);
      PadLeftFacts(NatToString(s.frac), digits);
      TrimmedValue(s.whole, PadLeft(NatToString(s.frac), digits));
    }
  }

  lemma FiniteText(numer: int, denom: int, digits: nat, suffix: string)
    requires denom > 0 && numer != 0 && IsSuffixText(suffix) && StartsSuffix(suffix)
    requires AllDigits(FiniteFrac(Abs(numer), denom, digits))
    ensures var n := FiniteNumeral(numer, denom, digits, suffix);
      IsNumeral(n) && Text(n) == FormatFinite(numer, denom, digits) + suffix
  {
    var a := Abs(numer);
    MantissaNumeralText(numer, RoundedSplit(a, denom, digits).whole, FiniteFrac(a, denom, digits), suffix);
    if digits == 0 { ZeroDigitsSplit(a, denom); }
  }

  /** Finite formatting prints the digits of the one-shot rounding, without trailing zeros. */
  lemma FiniteDenotes(numer: int, denom: int, digits: nat, suffix: string)
    requires denom > 0 && numer != 0 && IsSuffixText(suffix) && StartsSuffix(suffix)
    ensures var n := FiniteNumeral(numer, denom, digits, suffix);
      && IsNumeral(n) && Text(n) == FormatFinite(numer, denom, digits) + suffix
      && AllDigits(n.whole + n.frac) && |n.frac| <= digits
      && DigitsValue(n.whole + n.frac) * Pow10(digits - |n.frac|) == RoundedAbsScaled(numer, denom, digits)
  {
    hide Pow10, DigitsValue;
    var a := Abs(numer);
    FiniteFracFacts(a, denom, digits);
    SplitIsOneShot(a, denom, digits);
    assert RoundedAbsScaled(a, denom, digits) == RoundedAbsScaled(numer, denom, digits);
    FiniteText(numer, denom, digits, suffix);
  }

  lemma ZeroDigitsSplit(a: nat, denom: int)
    requires denom > 0
    ensures RoundedSplit(a, denom, 0) ==
      Split(if Rem(a, denom) * 2 >= denom then Quot(a, denom) + 1 else Quot(a, denom), 0)
  {
    var rem := Rem(a, denom);
    assert Pow10(0) == 1;
    QuotRemUnique(rem, denom, 0, rem);
  }

  lemma StepAlgebra(rem: int, denom: int, d: int, r: int, p: int, v: int)
    requires rem * 10 == d * denom + r
    ensures (d * p + v) * denom - rem * (10 * p) == v * denom - r * p
  {
    assert (d * p + v) * denom == (d * denom) * p + v * denom;
    assert rem * (10 * p) == (rem * 10) * p == (d * denom) * p + r * p;
  }

  // One digit of long division, in numbers.
  lemma ExpandStep(rem: nat, denom: int, fuel: nat)
    requires 0 < rem < denom && 0 < fuel
    requires AllDigits(Expand(NextRem(rem, denom), denom, fuel - 1))
    ensures var r := NextRem(rem, denom);
      var tail := Expand(r, denom, fuel - 1);
      var e := Expand(rem, denom, fuel);
      && |e| == |tail| + 1 && AllDigits(e)
      && DigitsValue(e) * denom - rem * Pow10(|e|) == DigitsValue(tail) * denom - r * Pow10(|tail|)
  {
    var d, r := NextDigit(rem, denom), NextRem(rem, denom);
    var tail := Expand(r, denom, fuel - 1);
    DigitsValueConcat([DigitChar(d)], tail);
    assert DigitsValue([DigitChar(d)]) == d by { assert [DigitChar(d)][..0] == []; }
    StepAlgebra(rem, denom, d, r, Pow10(|tail|), DigitsValue(tail));
  }

  // Long division stops within k digits when 10^k makes the remainder a multiple of the denominator.
  lemma {:induction false} ExpandIsExact(rem: nat, denom: int, fuel: nat, k: nat, m: int)
    requires rem < denom && k <= fuel && rem * Pow10(k) == m * denom
    ensures var e := Expand(rem, denom, fuel);
      AllDigits(e) && |e| <= k && DigitsValue(e) * denom == rem * Pow10(|e|)
    decreases k
  {
    if k == 0 {
      MulCancel(m, 1, denom);
      MulCancel(m, 0, denom);
      assert rem == 0;
    }
    if rem != 0 {
      var d, r := NextDigit(rem, denom), NextRem(rem, denom);
      var p := Pow10(k - 1);
      StepAlgebra(rem, denom, d, r, p, m - d * p);
      ExpandIsExact(r, denom, fuel - 1, k - 1, m - d * p);
      ExpandStep(rem, denom, fuel);
    }
  }

  /** Whatever the cap, the digits printed never exceed the rational, and miss it only at the cap. */
  lemma {:induction false} ExpandFromBelow(rem: nat, denom: int, fuel: nat)
    requires rem < denom
    ensures var e := Expand(rem, denom, fuel);
      && AllDigits(e) && |e| <= fuel
      && DigitsValue(e) * denom <= rem * Pow10(|e|)
      && (DigitsValue(e) * denom < rem * Pow10(|e|) ==> |e| == fuel)
    decreases fuel
  {
    if rem != 0 && fuel > 0 {
      ExpandFromBelow(NextRem(rem, denom), denom, fuel - 1);
      ExpandStep(rem, denom, fuel);
    } else {
      assert DigitsValue("") == 0;
    }
  }

  function ExactNumeral(numer: int, denom: int, suffix: string): Numeral
    requires denom > 0
  {
    MantissaNumeral(numer, Quot(Abs(numer), denom), ExactFrac(numer, denom), suffix)
  }

  lemma TrimAlgebra(a: int, whole: int, rem: int, denom: int, v: int, e: int, f: int, z: int, p: int)
    requires a == whole * denom + rem && v * z == whole * p + e && f * z == p && z > 0
    ensures v * denom <= a * f <==> e * denom <= rem * p
    ensures v * denom == a * f <==> e * denom == rem * p
  {
    assert (v * denom) * z == (v * z) * denom == (whole * p) * denom + e * denom;
    assert (a * f) * z == a * p == (whole * denom) * p + rem * p by { MulAssoc(a, f, z); }
    assert (whole * p) * denom == (whole * denom) * p;
    MulCancel(v * denom, a * f, z);
  }

  // The trimmed digits against the untrimmed expansion.
  lemma ExactValue(numer: int, denom: int)
    requires denom > 0
    ensures var a := Abs(numer);
      var e := Expand(Rem(a, denom), denom, MAX_EXPANSION);
      var frac := ExactFrac(numer, denom);
      var digits := NatToString(Quot(a, denom)) + frac;
      && AllDigits(e) && AllDigits(digits) && AllDigits(frac) && |frac| <= |e|
      && (DigitsValue(digits) * denom <= a * Pow10(|frac|) <==> DigitsValue(e) * denom <= Rem(a, denom) * Pow10(|e|))
      && (DigitsValue(digits) * denom == a * Pow10(|frac|) <==> DigitsValue(e) * denom == Rem(a, denom) * Pow10(|e|))
  {
    hide Pow10, DigitsValue, NatToString, Expand, TrimTrailingZeros, Quot, Rem;
    var a := Abs(numer);
    var whole, rem := Quot(a, denom), Rem(a, denom);
    ExpandFromBelow(rem, denom, MAX_EXPANSION);
    var e := Expand(rem, denom, MAX_EXPANSION);
    var frac := ExactFrac(numer, denom);
    TrimmedValue(whole, e);
    Pow10Add(|frac|, |e| - |frac|);
    TrimAlgebra(a, whole, rem, denom, DigitsValue(NatToString(whole) + frac), DigitsValue(e),
      Pow10(|frac|), Pow10(|e| - |frac|), Pow10(|e|));
  }

  /** With no digit limit the printed text never exceeds the rational. */
  lemma ExactDenotes(numer: int, denom: int, suffix: string)
    requires denom > 0 && numer != 0 && IsSuffixText(suffix) && StartsSuffix(suffix)
    ensures var n := ExactNumeral(numer, denom, suffix);
      && IsNumeral(n) && Text(n) == FormatExact(numer, denom) + suffix
      && AllDigits(n.whole + n.frac) && |n.frac| <= MAX_EXPANSION
      && DigitsValue(n.whole + n.frac) * denom <= Abs(numer) * Pow10(|n.frac|)
  {
    ExpandFromBelow(Rem(Abs(numer), denom), denom, MAX_EXPANSION);
    ExactValue(numer, denom);
    MantissaNumeralText(numer, Quot(Abs(numer), denom), ExactFrac(numer, denom), suffix);
  }

  /** When 10^k is a multiple of the denominator for some k up to 256, at most k digits print the rational itself. */
  lemma ExactWhenTerminating(numer: int, denom: int, k: nat, c: int)
    requires denom > 0 && k <= MAX_EXPANSION && Pow10(k) == c * denom
    ensures var frac := ExactFrac(numer, denom);
      var digits := NatToString(Quot(Abs(numer), denom)) + frac;
      && AllDigits(digits) && |frac| <= k
      && DigitsValue(digits) * denom == Abs(numer) * Pow10(|frac|)
  {
    var rem := Rem(Abs(numer), denom);
    MulAssoc(rem, c, denom);
    ExpandIsExact(rem, denom, MAX_EXPANSION, k, rem * c);
    ExactValue(numer, denom);
  }
}
