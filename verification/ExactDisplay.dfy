/**
 * Display with unlimited digits: when it is exact, so that parsing the displayed text gives the
 * quantity back, and when the 256-digit cap cuts it short.
 */
module ExactDisplay {
  import opened IntegerMath
  import opened DecimalText
  import opened Results
  import opened Amounts
  import opened QuantityScanner
  import opened Quantities
  import CanonicalPrinting
  import opened QuantityArithmetic
  import opened RationalText
  import opened QuantityDisplay

  /** The digits a numeral prints, read as one integer. */
  function PrintedDigits(n: Numeral): nat
    requires AllDigits(n.whole + n.frac)
  {
    DigitsValue(n.whole + n.frac)
  }

  // ----- denominators that terminate -----

  // 2^bits divides 10^bits.
  lemma Pow2DividesPow10(bits: nat, k: nat)
    ensures Pow10(bits + k) == Pow5(bits) * (Pow2(bits) * Pow10(k))
  {
    Pow10Add(bits, k);
    Pow10Factors(bits);
    MulSwap(Pow2(bits), Pow5(bits), Pow10(k));
    MulAssoc(Pow5(bits), Pow2(bits), Pow10(k));
  }

  /** A binary mantissa of a normal amount terminates within bits + 9 digits: 69 for every table unit. */
  lemma BinaryTerminates(a: Amount, bits: nat) returns (k: nat, c: int)
    requires IsNormal(a)
    ensures k <= bits + 9 && Pow10(k) == c * MantissaForBinary(a, bits).denom
  {
    if a.value == 0 {
      k, c := 0, 1;
      Powers();
    } else {
      var j := if a.scale >= 0 then 0 else -a.scale;
      k, c := bits + j, Pow5(bits);
      Pow2DividesPow10(bits, j);
      Powers();
    }
  }

  lemma DecimalTerminates(a: Amount, exp: int) returns (k: nat)
    ensures Pow10(k) == MantissaForDecimal(a, exp).denom
    ensures k == if a.value == 0 || a.scale >= exp then 0 else exp - a.scale
  {
    k := if a.value == 0 || a.scale >= exp then 0 else exp - a.scale;
    Powers();
  }

  // ----- reading an exact numeral back -----

  // w * 10^e nanos-wise equals n shifted by the printed fraction digits.
  lemma ExactRounding(w: int, e: int, digits: nat, nanos: int)
    requires e >= MIN_SCALE && w * Pow10(e + 9) == nanos * Pow10(digits)
    ensures RoundedNanos(w, e - digits) == nanos
  {
    if e - digits >= MIN_SCALE {
      NanosOfShift(w, e - digits, digits);
      MulSwap(w, Pow10(digits), Pow10(e - digits + 9));
      MulCancel(w * Pow10(e - digits + 9), nanos, Pow10(digits));
    } else {
      var j := digits - e - 9;
      Pow10Add(j, e + 9);
      MulAssoc(nanos, Pow10(j), Pow10(e + 9));
      MulCancel(w, nanos * Pow10(j), Pow10(e + 9));
      RoundAwayOfMultiple(nanos, Pow10(j));
    }
  }

  /** A unit as a whole factor and a power of ten. */
  function UnitFactor(base: Base, exponent: int): nat
    requires base == Two ==> exponent >= 0
  {
    if base == Two then Pow2(exponent) else 1
  }

  function UnitExponent(base: Base, exponent: int): int { if base == Two then 0 else exponent }

  function Signed(negative: bool, x: int): int { if negative then -x else x }

  // The number a numeral with a known unit denotes, before clamping.
  lemma DenotationWithUnit(n: Numeral, base: Base, exponent: int)
    requires HasUnit(n, base, exponent) && (base == Two ==> exponent >= 0)
    ensures AllDigits(n.whole + n.frac)
    ensures DenotedValue(n) == Signed(n.sign == Minus, PrintedDigits(n) * UnitFactor(base, exponent))
    ensures DenotedScale(n) == UnitExponent(base, exponent) - |n.frac|
  {
    hide Pow10, Pow2;
    assert Pow2(0) == 1 by { Powers(); }
    DigitsValueConcat(n.whole, n.frac);
    hide DigitsValue, IsSuffixText, ConstructSuffix, InterpretSuffix;
    if base == Two { CanonicalPrinting.NegatedProduct(PrintedDigits(n), Pow2(exponent)); }
  }

  lemma SignedExactRounding(w: int, e: int, digits: nat, nanos: int)
    requires w >= 0 && e >= MIN_SCALE && w * Pow10(e + 9) == Abs(nanos) * Pow10(digits)
    ensures RoundedNanos(Signed(nanos < 0, w), e - digits) == nanos
  {
    if nanos < 0 {
      CanonicalPrinting.NegatedProduct(w, Pow10(e + 9));
      CanonicalPrinting.NegatedProduct(Abs(nanos), Pow10(digits));
      ExactRounding(-w, e, digits, nanos);
    } else {
      ExactRounding(w, e, digits, nanos);
    }
  }

  // A number of units as a decimal amount: binary units are whole numbers.
  lemma UnitsAsDecimal(v: nat, base: Base, exponent: int)
    requires (base == Two ==> exponent >= 0) && (base == Ten ==> exponent >= -9)
    ensures UnitExponent(base, exponent) >= MIN_SCALE
    ensures var w := v * UnitFactor(base, exponent);
      w >= 0 && w * Pow10(UnitExponent(base, exponent) + 9) == v * UnitNanos(base, exponent)
  {
    Powers();
    hide Pow10, Pow2;
    MulMonotone(0, v, UnitFactor(base, exponent));
    if base == Two { MulAssoc(v, Pow2(exponent), 1_000_000_000); }
  }

  lemma DenotesNanos(n: Numeral, value: int, scale: int, a: Amount)
    requires IsQuantityText(n) && DenotedValue(n) == value && DenotedScale(n) == scale
    requires IsNormal(a) && RoundedNanos(value, scale) == Nanos(a)
    ensures DenotedNanos(n) == Nanos(a)
  {
    hide RoundedNanos, DenotedValue, DenotedScale;
  }

  lemma ExactNumeralMeaning(q: Quantity, n: Numeral, base: Base, exponent: int)
    requires IsNormal(q.amount) && HasUnit(n, base, exponent) && IsQuantityText(n)
    requires (base == Two ==> exponent >= 0) && (base == Ten ==> exponent >= -9)
    requires n.sign == Minus <==> Nanos(q.amount) < 0
    requires AllDigits(n.whole + n.frac)
    requires PrintedDigits(n) * UnitNanos(base, exponent) == Abs(Nanos(q.amount)) * Pow10(|n.frac|)
    ensures DenotedNanos(n) == Nanos(q.amount)
  {
    hide Pow10, UnitNanos, RoundedNanos, UnitFactor, UnitExponent, PrintedDigits, HasUnit, DenotedValue, DenotedScale;
    DenotationWithUnit(n, base, exponent);
    UnitsAsDecimal(PrintedDigits(n), base, exponent);
    var w, e := PrintedDigits(n) * UnitFactor(base, exponent), UnitExponent(base, exponent);
    SignedExactRounding(w, e, |n.frac|, Nanos(q.amount));
    DenotesNanos(n, Signed(Nanos(q.amount) < 0, w), e - |n.frac|, q.amount);
  }

  lemma ParsesBack(q: Quantity, n: Numeral)
    requires IsNormal(q.amount) && IsQuantityText(n) && DenotedNanos(n) == Nanos(q.amount)
    ensures Parse(Text(n)).Success? && Parse(Text(n)).value.amount == q.amount
  {
    ParseMeaning(n);
    NormalFormIsUnique(Parse(Text(n)).value.amount, q.amount);
  }

  // Printing a terminating mantissa and reading it back.
  lemma ExactPrint(q: Quantity, r: Rational, f: int, base: Base, exponent: int, k: nat, c: int, suffix: string)
    returns (n: Numeral)
    requires IsNormal(q.amount) && q.amount.value != 0 && r.denom > 0 && f > 0
    requires (base == Ten ==> exponent >= -9) && (base == Two ==> exponent >= 0)
    requires Nanos(q.amount) == r.numer * f && UnitNanos(base, exponent) == r.denom * f
    requires k <= MAX_EXPANSION && Pow10(k) == c * r.denom
    requires IsSuffixText(suffix) && StartsSuffix(suffix) && InterpretSuffix(suffix).Success?
    requires var unit := InterpretSuffix(suffix).value;
      if exponent == 0 then unit.base == Ten && unit.exponent == 0 else unit.base == base && unit.exponent == exponent
    ensures FormatRational(r.numer, r.denom, Infinite) == Success(FormatExact(r.numer, r.denom))
    ensures Text(n) == FormatExact(r.numer, r.denom) + suffix && |n.frac| <= k && n.suffix == suffix && IsQuantityText(n)
    ensures Parse(Text(n)).Success? && Parse(Text(n)).value.amount == q.amount
  {
    AbsAmountNanos(q.amount);
    SameSign(Nanos(q.amount), r.numer, f);
    ExactDenotes(r.numer, r.denom, suffix);
    ExactWhenTerminating(r.numer, r.denom, k, c);
    n := ExactNumeral(r.numer, r.denom, suffix);
    assert Text(n) != "" by { assert n.whole != ""; }
    AbsTimes(r.numer, f);
    ScaleExact(PrintedDigits(n), r.denom, Abs(r.numer), Pow10(|n.frac|), f);
    ExactNumeralMeaning(q, n, base, exponent);
    ParsesBack(q, n);
  }

  lemma ScaleExact(v: int, denom: int, a: int, p: int, f: int)
    requires v * denom == a * p
    ensures v * (denom * f) == (a * f) * p
  {
    MulAssoc(v, denom, f);
    MulSwap(a, p, f);
  }

  /** The most fraction digits a unit of the suffix tables needs. */
  const TABLE_DIGITS := 69

  // A table power of two: the printed number is exact within 69 fraction digits.
  lemma BinaryTableExact(q: Quantity, bits: int) returns (n: Numeral)
    requires IsNormal(q.amount) && q.amount.value != 0 && InBinaryTable(bits)
    ensures var r := MantissaForBinary(q.amount, bits);
      && FormatRational(r.numer, r.denom, Infinite) == Success(FormatExact(r.numer, r.denom))
      && Text(n) == FormatExact(r.numer, r.denom) + ConstructSuffix(Two, bits, BinarySI)
    ensures n.suffix == ConstructSuffix(Two, bits, BinarySI)
    ensures |n.frac| <= TABLE_DIGITS && Parse(Text(n)).Success? && Parse(Text(n)).value.amount == q.amount
  {
    hide Pow10, Pow2, ConstructSuffix, InterpretSuffix, FormatRational, FormatExact, IsSuffixText, StartsSuffix,
      MantissaForBinary, Text, Nanos, UnitNanos, IsNormal, Parse;
    BinarySuffix(bits);
    var f := BinaryMantissa(q.amount, bits);
    var k, c := BinaryTerminates(q.amount, bits);
    n := ExactPrint(q, MantissaForBinary(q.amount, bits), f, Two, bits, k, c, ConstructSuffix(Two, bits, BinarySI));
  }

  // A table power of ten: the printed number is exact within 27 fraction digits.
  lemma DecimalTableExact(q: Quantity, exp: int, format: Format) returns (n: Numeral)
    requires IsNormal(q.amount) && q.amount.value != 0 && InDecimalTable(exp) && format != BinarySI
    ensures var r := MantissaForDecimal(q.amount, exp);
      && FormatRational(r.numer, r.denom, Infinite) == Success(FormatExact(r.numer, r.denom))
      && Text(n) == FormatExact(r.numer, r.denom) + ConstructSuffix(Ten, exp, format)
    ensures n.suffix == ConstructSuffix(Ten, exp, format)
    ensures |n.frac| <= TABLE_DIGITS && Parse(Text(n)).Success? && Parse(Text(n)).value.amount == q.amount
  {
    DecimalSuffix(exp, format);
    var f := DecimalMantissa(q.amount, exp);
    var k := DecimalTerminates(q.amount, exp);
    hide Pow10, Pow2, ConstructSuffix, InterpretSuffix, FormatRational, FormatExact, IsSuffixText, StartsSuffix,
      MantissaForDecimal, Text, Nanos, UnitNanos, Parse;
    n := ExactPrint(q, MantissaForDecimal(q.amount, exp), f, Ten, exp, k, 1, ConstructSuffix(Ten, exp, format));
  }

  // What unlimited display prints in a table unit.
  lemma BinaryTableText(q: Quantity, opts: DisplayOptions, bits: int)
    requires q.amount.value != 0 && opts.scale != Canonical && EffectiveDigits(opts) == Infinite
    requires DisplayFormat(q, opts) == BinarySI && InBinaryTable(bits)
    requires BinaryDisplayBits(q, opts.scale, false, Infinite) == Success(bits as nat)
    ensures var r := MantissaForBinary(q.amount, bits);
      var mantissa := FormatRational(r.numer, r.denom, Infinite);
      mantissa.Success? ==> Display(q, opts) == Success(mantissa.value + ConstructSuffix(Two, bits, BinarySI))
  {
    hide BinaryDisplayBits, MantissaForBinary, FormatRational, ConstructSuffix;
  }

  lemma DecimalTableText(q: Quantity, opts: DisplayOptions, exp: int)
    requires q.amount.value != 0 && opts.scale != Canonical && EffectiveDigits(opts) == Infinite
    requires DisplayFormat(q, opts) != BinarySI && InDecimalTable(exp)
    requires DecimalDisplayExponent(q, DisplayFormat(q, opts), opts.scale, false, Infinite) == Success(exp)
    ensures var r := MantissaForDecimal(q.amount, exp);
      var mantissa := FormatRational(r.numer, r.denom, Infinite);
      mantissa.Success? ==> Display(q, opts) == Success(mantissa.value + ConstructSuffix(Ten, exp, DisplayFormat(q, opts)))
  {
    DecimalSuffix(exp, DisplayFormat(q, opts));
    hide DecimalDisplayExponent, MantissaForDecimal, FormatRational, ConstructSuffix, DisplayFormat;
  }

  // The units unlimited display settles on are in the tables, except for a forced exponent in exponent format.
  lemma BinaryUnitInTable(q: Quantity, scale: ScaleOption)
    requires IsNormal(q.amount) && q.amount.value != 0 && scale != Canonical
    requires scale.Forced? ==> IsBinaryScaleValue(scale.scale)
    ensures var b := BinaryDisplayBits(q, scale, false, Infinite);
      b.Success? && InBinaryTable(b.value)
  {
    hide MantissaForBinary;
    if scale.Forced? { ClampFixesTable(scale.scale); } else { BinaryUnitChosen(q.amount); }
  }

  lemma DecimalUnitInTable(q: Quantity, format: Format, scale: ScaleOption)
    requires IsNormal(q.amount) && q.amount.value != 0 && scale != Canonical && format != BinarySI
    requires scale.Forced? ==> !IsBinaryScaleValue(scale.scale) && format == DecimalSI
    ensures var e := DecimalDisplayExponent(q, format, scale, false, Infinite);
      e.Success? && InDecimalTable(e.value)
  {
    hide MantissaForDecimal;
    if scale.Forced? { ClampReachesTable(scale.scale); } else { DecimalUnitChosen(q.amount); }
  }

  lemma ClampReachesTable(e: int)
    ensures InDecimalTable(ClampToDecimalSIExponent(e))
  {
    DivModOf(e, 3);
    DivModOf(-e, 3);
    MultipleMod(e / 3, 3);
    MultipleMod(-((-e) / 3), 3);
  }

  /**
   * Unlimited display in a table unit loses nothing: at most 69 fraction digits are printed, and
   * parsing the displayed text gives the amount back. Only a forced exponent in exponent format
   * is not in a table.
   */
  lemma TableRoundTrip(q: Quantity, opts: DisplayOptions) returns (n: Numeral)
    requires IsNormal(q.amount) && q.amount.value != 0 && opts.scale != Canonical && EffectiveDigits(opts) == Infinite
    requires Display(q, opts).Success? && !(opts.scale.Forced? && DisplayFormat(q, opts) == DecimalExponent)
    ensures Display(q, opts) == Success(Text(n)) && |n.frac| <= TABLE_DIGITS
    ensures Parse(Text(n)).Success? && Parse(Text(n)).value.amount == q.amount
  {
    DisplayOutcome(q, opts);
    hide Display, Parse, Text, FormatRational, FormatExact, ConstructSuffix, MantissaForBinary, MantissaForDecimal,
      BinaryDisplayBits, DecimalDisplayExponent;
    if DisplayFormat(q, opts) == BinarySI {
      BinaryUnitInTable(q, opts.scale);
      var bits := BinaryDisplayBits(q, opts.scale, false, Infinite).value;
      BinaryTableText(q, opts, bits);
      n := BinaryTableExact(q, bits);
    } else {
      var format := DisplayFormat(q, opts);
      DecimalUnitInTable(q, format, opts.scale);
      var exp := DecimalDisplayExponent(q, format, opts.scale, false, Infinite).value;
      DecimalTableText(q, opts, exp);
      n := DecimalTableExact(q, exp, format);
    }
  }

  lemma ZeroRoundTrip(q: Quantity, opts: DisplayOptions)
    requires IsNormal(q.amount) && q.amount.value == 0 && opts.scale != Canonical
    ensures Display(q, opts) == Success("0") && Parse("0").Success? && Parse("0").value.amount == q.amount
  {
    hide Pow10, Pow2;
    assert !IsWhitespacePresent("0");
  }

  // ----- forcing a decimal exponent -----

  lemma ExponentSuffix(exp: int)
    ensures var s := ConstructSuffix(Ten, exp, DecimalExponent);
      && IsSuffixText(s) && StartsSuffix(s) && InterpretSuffix(s).Success?
      && InterpretSuffix(s).value.base == Ten && InterpretSuffix(s).value.exponent == exp
  {
    SuffixRoundTrip(Ten, exp, DecimalExponent);
  }

  lemma FineRounding(value: int, scale: int, exp: int)
    requires exp < MIN_SCALE <= scale
    ensures RoundedNanos(value * Pow10(scale - exp), exp) == value * Pow10(scale + 9)
  {
    var j := -9 - exp;
    Pow10Add(scale + 9, j);
    MulAssoc(value, Pow10(scale + 9), Pow10(j));
    RoundAwayOfMultiple(value * Pow10(scale + 9), Pow10(j));
  }

  lemma WholeMantissa(numer: int, suffix: string)
    requires numer != 0 && IsSuffixText(suffix) && StartsSuffix(suffix)
    ensures var n := ExactNumeral(numer, 1, suffix);
      && IsNumeral(n) && Text(n) == FormatExact(numer, 1) + suffix && n.frac == ""
      && AllDigits(n.whole + n.frac) && PrintedDigits(n) == Abs(numer)
  {
    ExactDenotes(numer, 1, suffix);
    Powers();
    ExactWhenTerminating(numer, 1, 0, 1);
  }

  lemma UnlimitedText(numer: int, denom: int)
    requires denom > 0 && numer != 0
    ensures FormatRational(numer, denom, Infinite) == Success(FormatExact(numer, denom))
  {}

  lemma FineMantissa(q: Quantity, exp: int)
    requires IsNormal(q.amount) && q.amount.value != 0 && exp < MIN_SCALE
    ensures q.amount.scale > exp
    ensures MantissaForDecimal(q.amount, exp) == Rational(q.amount.value * Pow10(q.amount.scale - exp), 1)
  {
    hide Pow10;
  }

  // Below nano the mantissa is a whole number.
  lemma FineExponent(q: Quantity, exp: int) returns (n: Numeral)
    requires IsNormal(q.amount) && q.amount.value != 0 && exp < MIN_SCALE
    ensures var r := MantissaForDecimal(q.amount, exp);
      && FormatRational(r.numer, r.denom, Infinite) == Success(FormatExact(r.numer, r.denom))
      && Text(n) == FormatExact(r.numer, r.denom) + ConstructSuffix(Ten, exp, DecimalExponent)
    ensures Parse(Text(n)).Success? && Parse(Text(n)).value.amount == q.amount
  {
    hide Pow10, ConstructSuffix, InterpretSuffix, FormatExact, FormatRational, ExactFrac, PrintedDigits, HasUnit, Nanos, IsNormal,
      Parse, IsSuffixText, StartsSuffix, Text;
    FineMantissa(q, exp);
    var numer := q.amount.value * Pow10(q.amount.scale - exp);
    hide MantissaForDecimal;
    var suffix := ConstructSuffix(Ten, exp, DecimalExponent);
    ExponentSuffix(exp);
    SameSign(numer, q.amount.value, Pow10(q.amount.scale - exp));
    WholeMantissa(numer, suffix);
    n := ExactNumeral(numer, 1, suffix);
    UnlimitedText(numer, 1);
    WholeNumeralMeaning(n, numer, exp, q.amount);
    ParsesBack(q, n);
  }

  lemma WholeNumeralMeaning(n: Numeral, numer: int, exp: int, a: Amount)
    requires IsNumeral(n) && n.whole != "" && n.suffix == ConstructSuffix(Ten, exp, DecimalExponent)
    requires n.frac == "" && (n.sign == Minus <==> numer < 0)
    requires AllDigits(n.whole + n.frac) && PrintedDigits(n) == Abs(numer)
    requires IsNormal(a) && exp < MIN_SCALE && numer == a.value * Pow10(a.scale - exp)
    ensures IsQuantityText(n) && DenotedNanos(n) == Nanos(a)
  {
    hide Pow10, RoundedNanos, ConstructSuffix;
    ExponentSuffix(exp);
    assert Text(n) != "";
    DenotationWithUnit(n, Ten, exp);
    FineRounding(a.value, a.scale, exp);
    DenotesNanos(n, numer, exp, a);
  }

  // A number not ending in zero, divided by 10^d, needs d digits.
  lemma NeedsAllDigits(v: int, d: nat, a: int, f: nat)
    requires d > f && a % 10 != 0
    ensures v * Pow10(d) != a * Pow10(f)
  {
    var j := d - f;
    Pow10Add(j, f);
    MulAssoc(v, Pow10(j), Pow10(f));
    MulCancel(v * Pow10(j), a, Pow10(f));
    MultipleOfTen(v, j);
  }

  // Past the cap the printed digits fall strictly short.
  lemma StrictlyShort(v: int, denom: int, a: int, d: nat, f: nat)
    requires denom == Pow10(d) && d > f && a % 10 != 0 && v * denom <= a * Pow10(f)
    ensures v * denom < a * Pow10(f)
  {
    NeedsAllDigits(v, d, a, f);
  }

  lemma MultipleOfTen(v: int, j: nat)
    requires j > 0
    ensures (v * Pow10(j)) % 10 == 0
  {
    assert v * Pow10(j) == (v * Pow10(j - 1)) * 10;
    MultipleMod(v * Pow10(j - 1), 10);
  }

  lemma AbsModTen(v: int)
    ensures v % 10 == 0 <==> Abs(v) % 10 == 0
  {}

  lemma ShortRounding(v: int, exp: int, digits: nat, nanos: int)
    requires v >= 0 && exp - digits >= MIN_SCALE && v * Pow10(exp + 9) < Abs(nanos) * Pow10(digits)
    ensures Clamp(RoundedNanos(Signed(nanos < 0, v), exp - digits)) != nanos
  {
    var e := exp - digits;
    NanosOfShift(v, e, digits);
    MulSwap(v, Pow10(digits), Pow10(e + 9));
    MulCancel(v * Pow10(e + 9), Abs(nanos), Pow10(digits));
    CanonicalPrinting.NegatedProduct(v, Pow10(e + 9));
    MulMonotone(0, v, Pow10(e + 9));
  }

  // A printed number that falls short of the quantity is not read back as the quantity.
  lemma ShortIsDifferent(q: Quantity, n: Numeral, exp: int)
    requires IsNormal(q.amount) && HasUnit(n, Ten, exp) && IsQuantityText(n) && exp - |n.frac| >= MIN_SCALE
    requires AllDigits(n.whole + n.frac) && (n.sign == Minus <==> Nanos(q.amount) < 0)
    requires PrintedDigits(n) * Pow10(exp + 9) < Abs(Nanos(q.amount)) * Pow10(|n.frac|)
    ensures DenotedNanos(n) != Nanos(q.amount)
  {
    hide Pow10, RoundedNanos, DenotedValue, DenotedScale, PrintedDigits, HasUnit, Clamp;
    DenotationWithUnit(n, Ten, exp);
    ShortRounding(PrintedDigits(n), exp, |n.frac|, Nanos(q.amount));
  }

  // The numeral printed when the exponent lies above the scale.
  lemma CoarseNumeral(q: Quantity, exp: int) returns (n: Numeral)
    requires IsNormal(q.amount) && q.amount.value != 0 && exp - q.amount.scale > MAX_EXPANSION
    ensures var r := MantissaForDecimal(q.amount, exp);
      && r.numer == q.amount.value && r.denom == Pow10(exp - q.amount.scale)
      && FormatRational(r.numer, r.denom, Infinite) == Success(FormatExact(r.numer, r.denom))
      && Text(n) == FormatExact(r.numer, r.denom) + ConstructSuffix(Ten, exp, DecimalExponent)
      && IsNumeral(n) && Text(n) != "" && n.suffix == ConstructSuffix(Ten, exp, DecimalExponent)
      && (n.sign == Minus <==> r.numer < 0)
      && AllDigits(n.whole + n.frac) && |n.frac| <= MAX_EXPANSION
      && PrintedDigits(n) * r.denom <= Abs(r.numer) * Pow10(|n.frac|)
  {
    hide Pow10, ConstructSuffix, InterpretSuffix, FormatExact, ExactFrac, IsSuffixText, StartsSuffix, IsNormal;
    var r := MantissaForDecimal(q.amount, exp);
    var suffix := ConstructSuffix(Ten, exp, DecimalExponent);
    ExponentSuffix(exp);
    ExactDenotes(r.numer, r.denom, suffix);
    n := ExactNumeral(r.numer, r.denom, suffix);
    hide IsNumeral;
    assert Text(n) != "" by { assert n.whole != ""; }
  }

  // The printed digits fall short of the quantity.
  lemma CoarseIsShort(q: Quantity, exp: int, digits: nat, v: int)
    requires IsNormal(q.amount) && q.amount.value != 0 && exp - q.amount.scale > MAX_EXPANSION && digits <= MAX_EXPANSION
    requires v * Pow10(exp - q.amount.scale) <= Abs(q.amount.value) * Pow10(digits)
    requires MantissaForDecimal(q.amount, exp) == Rational(q.amount.value, Pow10(exp - q.amount.scale))
    ensures v * Pow10(exp + 9) < Abs(Nanos(q.amount)) * Pow10(digits)
    ensures Nanos(q.amount) < 0 <==> q.amount.value < 0
  {
    hide Pow10, MantissaForDecimal, Nanos;
    var denom := Pow10(exp - q.amount.scale);
    AbsModTen(q.amount.value);
    StrictlyShort(v, denom, Abs(q.amount.value), exp - q.amount.scale, digits);
    var f := DecimalMantissa(q.amount, exp);
    SameSign(Nanos(q.amount), q.amount.value, f);
    AbsTimes(q.amount.value, f);
    ScaleShort(v, denom, Abs(q.amount.value), Pow10(digits), f);
  }

  lemma CoarseExponent(q: Quantity, exp: int) returns (n: Numeral)
    requires IsNormal(q.amount) && q.amount.value != 0 && exp - q.amount.scale > MAX_EXPANSION
    ensures var r := MantissaForDecimal(q.amount, exp);
      && FormatRational(r.numer, r.denom, Infinite) == Success(FormatExact(r.numer, r.denom))
      && Text(n) == FormatExact(r.numer, r.denom) + ConstructSuffix(Ten, exp, DecimalExponent)
    ensures Parse(Text(n)).Success? && Parse(Text(n)).value.amount != q.amount
  {
    hide Pow10, ConstructSuffix, InterpretSuffix, FormatExact, FormatRational, Parse, IsSuffixText, StartsSuffix, MantissaForDecimal,
      PrintedDigits, Text, IsNumeral, Nanos, DenotedNanos;
    n := CoarseNumeral(q, exp);
    CoarseIsShort(q, exp, |n.frac|, PrintedDigits(n));
    ExponentSuffix(exp);
    ShortIsDifferent(q, n, exp);
    ParseMeaning(n);
  }

  lemma ScaleShort(v: int, denom: int, a: int, p: int, f: int)
    requires v * denom < a * p && f > 0
    ensures v * (denom * f) < (a * f) * p
  {
    MulStrict(v * denom, a * p, f);
    MulAssoc(v, denom, f);
    MulSwap(a, p, f);
  }

  lemma ForcedText(q: Quantity, opts: DisplayOptions, exp: int)
    requires q.amount.value != 0
    requires opts.scale == Forced(exp) && !IsBinaryScaleValue(exp) && DisplayFormat(q, opts) == DecimalExponent
    requires !opts.round && EffectiveDigits(opts) == Infinite
    ensures var r := MantissaForDecimal(q.amount, exp);
      var mantissa := FormatRational(r.numer, r.denom, Infinite);
      mantissa.Success? ==> Display(q, opts) == Success(mantissa.value + ConstructSuffix(Ten, exp, DecimalExponent))
  {}

  // Between nano and 256 digits above the quantity's scale.
  lemma ReachableExponent(q: Quantity, exp: int) returns (n: Numeral)
    requires IsNormal(q.amount) && q.amount.value != 0 && exp >= MIN_SCALE && exp - q.amount.scale <= 256
    ensures var r := MantissaForDecimal(q.amount, exp);
      && FormatRational(r.numer, r.denom, Infinite) == Success(FormatExact(r.numer, r.denom))
      && Text(n) == FormatExact(r.numer, r.denom) + ConstructSuffix(Ten, exp, DecimalExponent)
    ensures Parse(Text(n)).Success? && Parse(Text(n)).value.amount == q.amount
  {
    ExponentSuffix(exp);
    var f := DecimalMantissa(q.amount, exp);
    var k := DecimalTerminates(q.amount, exp);
    n := ExactPrint(q, MantissaForDecimal(q.amount, exp), f, Ten, exp, k, 1, ConstructSuffix(Ten, exp, DecimalExponent));
  }

  /**
   * A forced decimal exponent with unlimited digits is exact precisely when it lies at most 256
   * above the quantity's own scale; beyond that the digit cap cuts the number short.
   */
  lemma ForcedExponentIsExactUpTo256(q: Quantity, opts: DisplayOptions, exp: int)
    requires IsNormal(q.amount) && q.amount.value != 0
    requires opts.scale == Forced(exp) && !IsBinaryScaleValue(exp) && DisplayFormat(q, opts) == DecimalExponent
    requires !opts.round && EffectiveDigits(opts) == Infinite
    ensures var text := Display(q, opts);
      && text.Success? && Parse(text.value).Success?
      && (Parse(text.value).value.amount == q.amount <==> exp - q.amount.scale <= 256)
  {
    ForcedText(q, opts, exp);
    var n: Numeral;
    if exp < MIN_SCALE {
      n := FineExponent(q, exp);
    } else if exp - q.amount.scale <= 256 {
      n := ReachableExponent(q, exp);
    } else {
      n := CoarseExponent(q, exp);
    }
    assert Display(q, opts) == Success(Text(n));
  }

  /**
   * Display fails only on digits out of range, or on a forced scale of the wrong family. A forced
   * 10, 20, .., 60 always belongs to the binary family, even when a decimal format is explicit.
   */
  lemma DisplayOutcome(q: Quantity, opts: DisplayOptions)
    requires opts.scale != Canonical && q.amount.value != 0
    ensures var d := EffectiveDigits(opts);
      var badDigits := d.Finite? && !(0 <= d.n <= 256);
      var wrongFamily := opts.scale.Forced? && ((opts.scale.scale in [10, 20, 30, 40, 50, 60]) != (DisplayFormat(q, opts) == BinarySI));
      Display(q, opts).Failure? <==> badDigits || wrongFamily
    ensures var d := EffectiveDigits(opts);
      Display(q, opts) == Failure(RangeError) <==> d.Finite? && !(0 <= d.n <= 256)
  {}

  /** The displays the digit cap cuts short: a forced exponent, in exponent format, more than 256 above the scale. */
  predicate CutShort(q: Quantity, opts: DisplayOptions) {
    && q.amount.value != 0 && opts.scale.Forced? && DisplayFormat(q, opts) == DecimalExponent
    && opts.scale.scale - q.amount.scale > 256
  }

  /**
   * Whatever is displayed with unlimited digits parses, and it gives the quantity back exactly
   * unless the digit cap cut it short.
   */
  lemma UnlimitedDisplayIsExact(q: Quantity, opts: DisplayOptions)
    requires IsNormal(q.amount) && EffectiveDigits(opts) == Infinite && Display(q, opts).Success?
    ensures var text := Display(q, opts).value;
      && Parse(text).Success?
      && (Parse(text).value.amount == q.amount <==> !CutShort(q, opts))
  {
    if opts.scale == Canonical {
      CanonicalPrinting.PrintThenParse(match opts.format case Some(f) => WithFormat(q, f) case None => q);
    } else if q.amount.value == 0 {
      ZeroRoundTrip(q, opts);
    } else if opts.scale.Forced? && DisplayFormat(q, opts) == DecimalExponent {
      DisplayOutcome(q, opts);
      ForcedExponentIsExactUpTo256(q, opts, opts.scale.scale);
    } else {
      var n := TableRoundTrip(q, opts);
    }
    hide Display, Parse;
  }

  /** An input that is cut short: 1 shown in units of 10^257 with all digits does not read back as 1. */
  lemma OneIsCutShort()
    ensures var q := Quantity(Amount(1, 0), DecimalExponent);
      var shown := Display(q, DisplayOptions(None, Forced(257), false, Some(Infinite)));
      IsNormal(q.amount) && shown.Success? && Parse(shown.value).Success? && Parse(shown.value).value.amount != q.amount
  {
    var q := Quantity(Amount(1, 0), DecimalExponent);
    var opts := DisplayOptions(None, Forced(257), false, Some(Infinite));
    LargePowers();
    assert IsNormal(q.amount);
    DisplayOutcome(q, opts);
    hide Display, Parse, IsNormal;
    UnlimitedDisplayIsExact(q, opts);
  }
}
