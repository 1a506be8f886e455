/**
 * Display formatting: pick a unit, round, move to the next unit when rounding reaches it.
 * What is printed is measured against the quantity through the grammar of numerals.
 */
module QuantityDisplay {
  import opened IntegerMath
  import opened DecimalText
  import opened Results
  import opened Amounts
  import opened QuantityScanner
  import opened Quantities
  import CanonicalPrinting
  import opened QuantityArithmetic
  import opened RationalText

  datatype ScaleOption = Auto | Preserve | Canonical | Forced(scale: int)

  datatype DisplayOptions = DisplayOptions(format: Option<Format>, scale: ScaleOption, round: bool, digits: Option<Digits>)

  const DECIMAL_SI_EXPONENTS: seq<int> := [-9, -6, -3, 0, 3, 6, 9, 12, 15, 18]
  const BINARY_SI_BITS: seq<nat> := [0, 10, 20, 30, 40, 50, 60]

  predicate IsBinaryScaleValue(scale: int) { 10 <= scale <= 60 && scale % 10 == 0 }

  /** Math.trunc(x / d) * d */
  function TruncToMultiple(x: int, d: int): int
    requires d > 0
  {
    if x >= 0 then x - x % d else -((-x) - (-x) % d)
  }

  function ClampToDecimalSIExponent(exp: int): int {
    var e := TruncToMultiple(exp, 3);
    if e > 18 then 18 else if e < -9 then -9 else e
  }

  function ClampToBinarySIBits(bits: int): int {
    var b := TruncToMultiple(bits, 10);
    if b > 60 then 60 else if b < 0 then 0 else b
  }

  lemma TableEntries(i: nat)
    ensures |DECIMAL_SI_EXPONENTS| == 10 && |BINARY_SI_BITS| == 7
    ensures i < 10 ==> DECIMAL_SI_EXPONENTS[i] == 3 * i - 9
    ensures i < 7 ==> BINARY_SI_BITS[i] == 10 * i
  {}

  /** The largest of the first i table exponents (entry j is 3 * j - 9) the amount reaches, else the least. */
  function AutoExponent(a: Amount, i: nat): int {
    if i == 0 then -9
    else if CompareAmounts(a, Amount(1, 3 * (i - 1) - 9)) >= 0 then 3 * (i - 1) - 9
    else AutoExponent(a, i - 1)
  }

  method ChooseAutoDecimalExponent(a: Amount) returns (e: int)
    ensures e == AutoExponent(a, 10)
  {
    TableEntries(0);
    for i := |DECIMAL_SI_EXPONENTS| downto 0
      invariant AutoExponent(a, i) == AutoExponent(a, 10)
    {
      TableEntries(i);
      var exp := DECIMAL_SI_EXPONENTS[i];
      if CompareAmounts(a, Amount(1, exp)) >= 0 {
        return exp;
      }
    }
    return -9;
  }

  /** The largest of the first i table entries (entry j is 10 * j bits) the amount reaches, else 0. */
  function AutoBits(a: Amount, i: nat): nat {
    if i == 0 then 0
    else if CompareAmounts(a, Amount(Pow2(10 * (i - 1)), 0)) >= 0 then 10 * (i - 1)
    else AutoBits(a, i - 1)
  }

  method ChooseAutoBinaryBits(a: Amount) returns (b: nat)
    ensures b == AutoBits(a, 7)
  {
    TableEntries(0);
    for i := |BINARY_SI_BITS| downto 0
      invariant AutoBits(a, i) == AutoBits(a, 7)
    {
      TableEntries(i);
      var bits := BINARY_SI_BITS[i];
      if CompareAmounts(a, Amount(Pow2(bits), 0)) >= 0 {
        return bits;
      }
    }
    return 0;
  }

  function MantissaForDecimal(a: Amount, exp: int): (r: Rational)
    ensures r.denom > 0
  {
    if a.value == 0 then Rational(0, 1)
    else if a.scale >= exp then Rational(a.value * Pow10(a.scale - exp), 1)
    else Rational(a.value, Pow10(exp - a.scale))
  }

  function AbsAmount(a: Amount): Amount { Amount(Abs(a.value), a.scale) }

  /** The family a display uses: an explicit format, else the scale's own family. */
  function DisplayFormat(q: Quantity, opts: DisplayOptions): Format {
    match opts.format
    case Some(f) => f
    case None =>
      match opts.scale
      case Forced(s) =>
        if IsBinaryScaleValue(s) then BinarySI
        else if q.format == DecimalExponent then DecimalExponent else DecimalSI
      case _ => q.format
  }

  /** Limits at which rounding moves to the next unit. */
  function Bumps(r: Rational, step: nat, digits: Digits): bool
    requires r.denom > 0
  {
    digits.Finite? && digits.n >= 0 && RoundedAbsScaled(r.numer, r.denom, digits.n) >= step * Pow10(digits.n)
  }

  function BinaryDisplayBits(q: Quantity, scale: ScaleOption, round: bool, digits: Digits): Result<nat, DisplayError> {
    match scale
    case Forced(s) => if IsBinaryScaleValue(s) then Success(ClampToBinarySIBits(s)) else Failure(TypeError)
    case _ =>
      var bits := ClampToBinarySIBits(AutoBits(AbsAmount(q.amount), 7));
      if !round && Bumps(MantissaForBinary(q.amount, bits), 1024, digits) && bits < 60 then Success(bits + 10)
      else Success(bits)
  }

  function DisplayBinary(q: Quantity, scale: ScaleOption, round: bool, digits: Digits): Result<string, DisplayError> {
    var bits :- BinaryDisplayBits(q, scale, round, digits);
    var suffix := ConstructSuffix(Two, bits, BinarySI);
    var r := MantissaForBinary(q.amount, bits);
    if round then Success(IntToString(RoundAway(r.numer, r.denom)) + suffix)
    else
      var mantissa :- FormatRational(r.numer, r.denom, digits);
      Success(mantissa + suffix)
  }

  function DecimalDisplayExponent(q: Quantity, format: Format, scale: ScaleOption, round: bool, digits: Digits)
    : Result<int, DisplayError>
  {
    match scale
    case Forced(s) =>
      if IsBinaryScaleValue(s) then Failure(TypeError)
      else if format == DecimalSI then Success(ClampToDecimalSIExponent(s)) else Success(s)
    case _ =>
      var exp := ClampToDecimalSIExponent(AutoExponent(AbsAmount(q.amount), 10));
      if !round && Bumps(MantissaForDecimal(q.amount, exp), 1000, digits) && exp < 18 then Success(exp + 3)
      else Success(exp)
  }

  function DisplayDecimal(q: Quantity, format: Format, scale: ScaleOption, round: bool, digits: Digits)
    : Result<string, DisplayError>
  {
    var exp :- DecimalDisplayExponent(q, format, scale, round, digits);
    var table := ConstructSuffix(Ten, exp, format);
    var suffix := if format == DecimalSI && table == "" && exp != 0 then "e" + IntToString(exp) else table;
    var r := MantissaForDecimal(q.amount, exp);
    if round then Success(IntToString(ScaleToInt(q.amount, exp).q) + suffix)
    else
      var mantissa :- FormatRational(r.numer, r.denom, digits);
      Success(mantissa + suffix)
  }

  function EffectiveDigits(opts: DisplayOptions): Digits {
    if opts.round then Finite(0) else match opts.digits case Some(d) => d case None => Finite(2)
  }

  /** formatForDisplay */
  function Display(q: Quantity, opts: DisplayOptions): Result<string, DisplayError> {
    if opts.scale == Canonical then
      Success(CanonicalPrinting.ToString(match opts.format case Some(f) => WithFormat(q, f) case None => q))
    else if q.amount.value == 0 then Success("0")
    else
      var format := DisplayFormat(q, opts);
      var digits := EffectiveDigits(opts);
      if digits.Finite? && (digits.n < 0 || digits.n > 256) then Failure(RangeError)
      else if format == BinarySI then DisplayBinary(q, opts.scale, opts.round, digits)
      else DisplayDecimal(q, format, opts.scale, opts.round, digits)
  }

  // ----- mantissas as multiples of a unit -----

  /** The unit of a numeral, in nanos. */
  function UnitNanos(base: Base, exponent: int): (u: nat)
    requires base == Ten ==> exponent >= -9
    requires base == Two ==> exponent >= 0
    ensures u > 0
  {
    MulStrict(0, Pow2(if base == Two then exponent else 0), 1_000_000_000);
    if base == Two then Pow2(exponent) * 1_000_000_000 else Pow10(exponent + 9)
  }

  // numer / denom is the quantity over its unit: both sides carry one common factor.
  lemma DecimalMantissa(a: Amount, exp: int) returns (f: int)
    requires IsNormal(a) && exp >= -9
    ensures var r := MantissaForDecimal(a, exp);
      f > 0 && Nanos(a) == r.numer * f && UnitNanos(Ten, exp) == r.denom * f
  {
    if a.value == 0 {
      f := Pow10(exp + 9);
    } else if a.scale >= exp {
      f := Pow10(exp + 9);
      NanosOfShift(a.value, exp, a.scale - exp);
    } else {
      f := Pow10(a.scale + 9);
      Pow10Add(exp - a.scale, a.scale + 9);
    }
  }

  lemma BinaryMantissa(a: Amount, bits: nat) returns (f: int)
    requires IsNormal(a)
    ensures var r := MantissaForBinary(a, bits);
      f > 0 && Nanos(a) == r.numer * f && UnitNanos(Two, bits) == r.denom * f
  {
    Powers();
    if a.value == 0 {
      f := UnitNanos(Two, bits);
    } else if a.scale >= 0 {
      f := Pow10(9);
      NanosOfShift(a.value, 0, a.scale);
    } else {
      f := Pow10(a.scale + 9);
      Pow10Add(-a.scale, a.scale + 9);
      MulAssoc(Pow2(bits), Pow10(-a.scale), Pow10(a.scale + 9));
    }
  }

  lemma SameSign(n: int, m: int, f: int)
    requires f > 0 && n == m * f
    ensures (n < 0 <==> m < 0) && (n == 0 <==> m == 0)
  {
    MulCancel(m, 0, f);
  }

  // ----- the automatic unit -----

  /** The unit chosen is the largest one in the table the magnitude reaches. */
  lemma {:induction false} AutoExponentFacts(a: Amount, i: nat)
    requires a.scale >= MIN_SCALE && 0 < i <= 10
    ensures var e := AutoExponent(a, i);
      && e % 3 == 0 && -9 <= e <= 3 * i - 12
      && (Nanos(a) >= 1 ==> Nanos(a) >= Pow10(e + 9))
      && (e < 3 * i - 12 ==> Nanos(a) < Pow10(e + 12))
  {
    Powers();
    hide Pow10;
    var e := 3 * (i - 1) - 9;
    CompareIsNumeric(a, Amount(1, e));
    if CompareAmounts(a, Amount(1, e)) < 0 {
      if i > 1 { AutoExponentFacts(a, i - 1); }
    }
  }

  lemma {:induction false} AutoBitsFacts(a: Amount, i: nat)
    requires a.scale >= MIN_SCALE && 0 < i <= 7
    ensures var b := AutoBits(a, i);
      && b % 10 == 0 && b <= 10 * (i - 1)
      && (Nanos(a) >= UnitNanos(Two, 0) ==> Nanos(a) >= UnitNanos(Two, b))
      && (b < 10 * (i - 1) ==> Nanos(a) < UnitNanos(Two, b + 10))
  {
    Powers();
    hide Pow10, Pow2;
    var b := 10 * (i - 1);
    CompareIsNumeric(a, Amount(Pow2(b), 0));
    if CompareAmounts(a, Amount(Pow2(b), 0)) < 0 {
      if i > 1 { AutoBitsFacts(a, i - 1); }
    }
  }

  lemma AbsAmountNanos(a: Amount)
    requires IsNormal(a)
    ensures Nanos(AbsAmount(a)) == Abs(Nanos(a))
    ensures a.value != 0 ==> Nanos(a) != 0 && (Nanos(a) < 0 <==> a.value < 0)
  {
    AbsProduct(a.value, Pow10(a.scale + 9));
    MulCancel(a.value, 0, Pow10(a.scale + 9));
  }

  // Rounding n / unit to d digits, when n lies between one unit and step units.
  lemma BumpFacts(n: int, unit: int, step: nat, d: nat)
    requires unit > 0 && step >= 1
    ensures var k := RoundedAbsScaled(n, unit, d);
      && (Abs(n) >= unit ==> k >= Pow10(d))
      && (Abs(n) < step * unit ==> k <= step * Pow10(d))
  {
    var s, a := Pow10(d), Abs(n);
    var k := RoundedAbsScaled(n, unit, d);
    RoundedBounds(n, unit, d);
    if a >= unit {
      MulMonotone(unit, a, s);
      if k < s { MulStrict(k, s, unit); }
    }
    if a < step * unit {
      MulMonotone(a, step * unit, s);
      MulSwap(step, unit, s);
      if k > step * s { MulStrict(step * s, k, unit); }
    }
  }

  // When rounding reaches the next unit, the quantity rounds to exactly one of that unit.
  lemma BumpedIsOne(n: int, unit: int, step: nat, d: nat)
    requires unit > 0 && step >= 1 && Abs(n) < step * unit
    requires RoundedAbsScaled(n, unit, d) >= step * Pow10(d)
    ensures RoundedAbsScaled(n, step * unit, d) == Pow10(d)
  {
    var s, a := Pow10(d), Abs(n);
    BumpFacts(n, unit, step, d);
    RoundedBounds(n, unit, d);
    MulSwap(step, s, unit);
    MulStrict(a, step * unit, s);
    MulMonotone(1, step, unit);
    MulSwap(step, unit, s);
    assert s * (step * unit) == (step * unit) * s;
    RoundedUnique(n, step * unit, d, s);
  }

  // ----- what the display prints -----

  /** The printed mantissa as an integer number of 10^-d. */
  function PrintedScaled(n: Numeral, d: nat): nat
    requires AllDigits(n.whole + n.frac) && |n.frac| <= d
  {
    DigitsValue(n.whole + n.frac) * Pow10(d - |n.frac|)
  }

  /** The numeral's suffix stands for this unit. */
  predicate HasUnit(n: Numeral, base: Base, exponent: int) {
    && IsQuantityText(n)
    && var unit := InterpretSuffix(n.suffix).value;
       if exponent == 0 then unit.base == Ten && unit.exponent == 0
       else unit.base == base && unit.exponent == exponent
  }

  predicate IsAutomatic(opts: DisplayOptions) { opts.scale == Auto || opts.scale == Preserve }

  /**
   * The text of a finite automatic display is the one-shot rounding of the quantity to d
   * digits of its unit: k * 10^-d units, with the quantity's sign.
   */
  ghost predicate PrintsRounding(q: Quantity, n: Numeral, base: Base, exponent: int, d: nat, k: nat)
    requires IsNormal(q.amount)
  {
    && HasUnit(n, base, exponent)
    && (base == Ten ==> exponent >= -9) && (base == Two ==> exponent >= 0)
    && (n.sign == Minus <==> Nanos(q.amount) < 0)
    && AllDigits(n.whole + n.frac) && |n.frac| <= d
    && k == PrintedScaled(n, d)
    && k == RoundedAbsScaled(Nanos(q.amount), UnitNanos(base, exponent), d)
  }

  lemma FinitePrint(q: Quantity, r: Rational, f: int, base: Base, exponent: int, d: nat, suffix: string)
    returns (n: Numeral)
    requires IsNormal(q.amount) && q.amount.value != 0 && r.denom > 0 && f > 0
    requires (base == Ten ==> exponent >= -9) && (base == Two ==> exponent >= 0)
    requires Nanos(q.amount) == r.numer * f && UnitNanos(base, exponent) == r.denom * f
    requires IsSuffixText(suffix) && StartsSuffix(suffix) && InterpretSuffix(suffix).Success?
    requires var unit := InterpretSuffix(suffix).value;
      if exponent == 0 then unit.base == Ten && unit.exponent == 0 else unit.base == base && unit.exponent == exponent
    ensures r.numer != 0 && Text(n) == FormatFinite(r.numer, r.denom, d) + suffix && n.suffix == suffix
    ensures AllDigits(n.whole + n.frac) && |n.frac| <= d && PrintsRounding(q, n, base, exponent, d, PrintedScaled(n, d))
  {
    hide Pow10, Pow2, UnitNanos, RoundedAbsScaled, DigitsValue, FormatFinite, FiniteNumeral;
    AbsAmountNanos(q.amount);
    SameSign(Nanos(q.amount), r.numer, f);
    FiniteDenotes(r.numer, r.denom, d, suffix);
    RoundedCancel(r.numer, r.denom, f, d);
    n := FiniteNumeral(r.numer, r.denom, d, suffix);
    FiniteNumeralPieces(r.numer, r.denom, d, suffix);
  }

  lemma FiniteNumeralPieces(numer: int, denom: int, d: nat, suffix: string)
    requires denom > 0
    ensures var n := FiniteNumeral(numer, denom, d, suffix);
      && n.suffix == suffix && (n.sign == Minus <==> numer < 0)
      && Text(n) != ""
  {
    var n := FiniteNumeral(numer, denom, d, suffix);
    assert n.whole != "";
  }

  lemma DecimalSuffix(exp: int, format: Format)
    requires InDecimalTable(exp) && format != BinarySI
    ensures var table := ConstructSuffix(Ten, exp, format);
      && !(format == DecimalSI && table == "" && exp != 0)
      && IsSuffixText(table) && StartsSuffix(table) && InterpretSuffix(table).Success?
      && var unit := InterpretSuffix(table).value;
         unit.base == Ten && unit.exponent == exp
  {
    SuffixRoundTrip(Ten, exp, format);
    if format == DecimalSI && exp != 0 { DecimalSuffixRoundTrip(exp); }
  }

  // Rounding in the chosen unit, or in the next one when rounding reaches it.
  lemma Settle(n: int, unit: int, step: nat, top: bool, d: nat, bump: bool)
    requires unit > 0 && step >= 11 && Abs(n) < step * unit && (top ==> Abs(n) < 10 * unit)
    requires bump <==> RoundedAbsScaled(n, unit, d) >= step * Pow10(d) && !top
    ensures step * unit > 0
    ensures var k := RoundedAbsScaled(n, if bump then step * unit else unit, d);
      k < step * Pow10(d) && (Abs(n) >= unit ==> Pow10(d) <= k)
  {
    MulStrict(0, step, unit);
    MulMonotone(11, step, Pow10(d));
    BumpFacts(n, unit, step, d);
    if bump {
      BumpedIsOne(n, unit, step, d);
    } else if top {
      BumpFacts(n, unit, 10, d);
    }
  }

  lemma ClampFixesTable(e: int)
    ensures InDecimalTable(e) ==> ClampToDecimalSIExponent(e) == e
    ensures InBinaryTable(e) ==> ClampToBinarySIBits(e) == e
  {
    DivModOf(e, 3);
    DivModOf(e, 10);
    MultipleMod(-(e / 3), 3);
    MultipleMod(-(e / 10), 10);
  }

  lemma DecimalUnitChosen(a: Amount)
    requires IsNormal(a) && a.value != 0
    ensures var e := AutoExponent(AbsAmount(a), 10);
      && InDecimalTable(e) && ClampToDecimalSIExponent(e) == e
      && var unit := UnitNanos(Ten, e);
         && unit <= Abs(Nanos(a)) < 1000 * unit
         && (e < 18 ==> UnitNanos(Ten, e + 3) == 1000 * unit)
         && (e == 18 ==> Abs(Nanos(a)) < 10 * unit)
  {
    AbsAmountNanos(a);
    AutoExponentFacts(AbsAmount(a), 10);
    LargestUnit();
    var e := AutoExponent(AbsAmount(a), 10);
    Powers();
    hide Pow10, AutoExponent;
    ClampFixesTable(e);
    Pow10Add(3, e + 9);
  }

  lemma DecimalRounded(a: Amount, exp: int, d: nat)
    requires IsNormal(a) && exp >= -9
    ensures var r := MantissaForDecimal(a, exp);
      RoundedAbsScaled(r.numer, r.denom, d) == RoundedAbsScaled(Nanos(a), UnitNanos(Ten, exp), d)
  {
    hide Pow10, UnitNanos, MantissaForDecimal, RoundedAbsScaled;
    var r := MantissaForDecimal(a, exp);
    var f := DecimalMantissa(a, exp);
    RoundedCancel(r.numer, r.denom, f, d);
  }

  lemma BinaryRounded(a: Amount, bits: nat, d: nat)
    requires IsNormal(a)
    ensures var r := MantissaForBinary(a, bits);
      RoundedAbsScaled(r.numer, r.denom, d) == RoundedAbsScaled(Nanos(a), UnitNanos(Two, bits), d)
  {
    hide Pow10, Pow2, UnitNanos, MantissaForBinary, RoundedAbsScaled;
    var r := MantissaForBinary(a, bits);
    var f := BinaryMantissa(a, bits);
    RoundedCancel(r.numer, r.denom, f, d);
  }

  // The exponent a finite automatic decimal display settles on.
  lemma SettledExponent(q: Quantity, format: Format, scale: ScaleOption, d: nat)
    requires IsNormal(q.amount) && q.amount.value != 0 && (scale == Auto || scale == Preserve)
    ensures var e := DecimalDisplayExponent(q, format, scale, false, Finite(d));
      && e.Success? && InDecimalTable(e.value)
      && var k := RoundedAbsScaled(Nanos(q.amount), UnitNanos(Ten, e.value), d);
         Pow10(d) <= k < 1000 * Pow10(d)
  {
    hide Pow10, RoundedAbsScaled, UnitNanos, MantissaForDecimal, AutoExponent;
    var a := q.amount;
    DecimalUnitChosen(a);
    var e := AutoExponent(AbsAmount(a), 10);
    var r := MantissaForDecimal(a, e);
    DecimalRounded(a, e, d);
    var bump := Bumps(r, 1000, Finite(d)) && e < 18;
    assert DecimalDisplayExponent(q, format, scale, false, Finite(d)) == Success(if bump then e + 3 else e);
    Settle(Nanos(a), UnitNanos(Ten, e), 1000, e == 18, d, bump);
  }

  /** k * 10^-d units is within half of 10^-d of a unit of the magnitude of `nanos`. */
  predicate WithinHalf(k: nat, unit: nat, nanos: int, d: nat) {
    2 * Abs(k * unit - Abs(nanos) * Pow10(d)) <= unit
  }

  lemma RoundedWithinHalf(nanos: int, unit: nat, d: nat)
    requires unit > 0
    ensures WithinHalf(RoundedAbsScaled(nanos, unit, d), unit, nanos, d)
  {
    RoundedBounds(nanos, unit, d);
  }

  lemma LargestUnit()
    ensures MAX_NANOS < 10 * UnitNanos(Ten, 18)
    ensures MAX_NANOS < 10 * UnitNanos(Two, 60)
  {
    LargePowers();
    hide Pow10, Pow2;
  }

  lemma DecimalDisplayText(q: Quantity, opts: DisplayOptions, d: nat, exp: int)
    requires q.amount.value != 0 && opts.scale != Canonical && !opts.round
    requires EffectiveDigits(opts) == Finite(d) && d <= 256 && DisplayFormat(q, opts) != BinarySI
    requires DecimalDisplayExponent(q, DisplayFormat(q, opts), opts.scale, false, Finite(d)) == Success(exp)
    requires var table := ConstructSuffix(Ten, exp, DisplayFormat(q, opts));
      !(DisplayFormat(q, opts) == DecimalSI && table == "" && exp != 0)
    requires MantissaForDecimal(q.amount, exp).numer != 0
    ensures var r := MantissaForDecimal(q.amount, exp);
      Display(q, opts) == Success(FormatFinite(r.numer, r.denom, d) + ConstructSuffix(Ten, exp, DisplayFormat(q, opts)))
  {
    hide DecimalDisplayExponent, ConstructSuffix, MantissaForDecimal, FormatFinite;
  }

  lemma BinaryDisplayText(q: Quantity, opts: DisplayOptions, d: nat, bits: nat)
    requires q.amount.value != 0 && opts.scale != Canonical && !opts.round
    requires EffectiveDigits(opts) == Finite(d) && d <= 256 && DisplayFormat(q, opts) == BinarySI
    requires BinaryDisplayBits(q, opts.scale, false, Finite(d)) == Success(bits)
    requires MantissaForBinary(q.amount, bits).numer != 0
    ensures var r := MantissaForBinary(q.amount, bits);
      Display(q, opts) == Success(FormatFinite(r.numer, r.denom, d) + ConstructSuffix(Two, bits, BinarySI))
  {
    hide BinaryDisplayBits, ConstructSuffix, MantissaForBinary, FormatFinite;
  }

  // A nonzero quantity has a nonzero mantissa in every unit.
  lemma MantissaNonZero(a: Amount, exp: int, bits: nat)
    requires IsNormal(a) && a.value != 0 && exp >= -9
    ensures MantissaForDecimal(a, exp).numer != 0 && MantissaForBinary(a, bits).numer != 0
  {
    hide Pow10, Pow2;
    if a.scale >= exp { MulCancel(a.value, 0, Pow10(a.scale - exp)); }
    if a.scale >= 0 { MulCancel(a.value, 0, Pow10(a.scale)); }
  }

  /**
   * Automatic decimal display with d digits: within half of 10^-d of the unit printed, and with
   * a printed magnitude in [1, 1000), unit bump included.
   */
  lemma AutoDecimalDisplay(q: Quantity, opts: DisplayOptions, d: nat) returns (n: Numeral, exp: int, k: nat)
    requires IsNormal(q.amount) && q.amount.value != 0
    requires IsAutomatic(opts) && !opts.round && EffectiveDigits(opts) == Finite(d) && d <= 256
    requires DisplayFormat(q, opts) != BinarySI
    ensures Display(q, opts) == Success(Text(n))
    ensures InDecimalTable(exp) && PrintsRounding(q, n, Ten, exp, d, k)
    ensures Pow10(d) <= k < 1000 * Pow10(d)
    ensures WithinHalf(k, UnitNanos(Ten, exp), Nanos(q.amount), d)
  {
    hide Pow10, Pow2, UnitNanos, RoundedAbsScaled, FormatFinite;
    var format := DisplayFormat(q, opts);
    SettledExponent(q, format, opts.scale, d);
    exp := DecimalDisplayExponent(q, format, opts.scale, false, Finite(d)).value;
    DecimalSuffix(exp, format);
    MantissaNonZero(q.amount, exp, 0);
    DecimalDisplayText(q, opts, d, exp);
    var f := DecimalMantissa(q.amount, exp);
    hide Display, DecimalDisplayExponent, ConstructSuffix, MantissaForDecimal, AutoExponent;
    n := FinitePrint(q, MantissaForDecimal(q.amount, exp), f, Ten, exp, d, ConstructSuffix(Ten, exp, format));
    k := PrintedScaled(n, d);
    RoundedWithinHalf(Nanos(q.amount), UnitNanos(Ten, exp), d);
  }

  lemma BinarySuffix(bits: int)
    requires InBinaryTable(bits)
    ensures var table := ConstructSuffix(Two, bits, BinarySI);
      && IsSuffixText(table) && StartsSuffix(table) && InterpretSuffix(table).Success?
      && var unit := InterpretSuffix(table).value;
         if bits == 0 then unit.base == Ten && unit.exponent == 0 else unit.base == Two && unit.exponent == bits
  {
    SuffixRoundTrip(Two, bits, BinarySI);
  }

  lemma BinaryUnitChosen(a: Amount)
    requires IsNormal(a) && a.value != 0
    ensures var b := AutoBits(AbsAmount(a), 7);
      && InBinaryTable(b) && ClampToBinarySIBits(b) == b
      && var unit := UnitNanos(Two, b);
         && Abs(Nanos(a)) < 1024 * unit
         && (Abs(Nanos(a)) >= 1_000_000_000 ==> unit <= Abs(Nanos(a)))
         && (b < 60 ==> UnitNanos(Two, b + 10) == 1024 * unit)
         && (b == 60 ==> Abs(Nanos(a)) < 10 * unit)
  {
    hide Pow10;
    AbsAmountNanos(a);
    AutoBitsFacts(AbsAmount(a), 7);
    LargestUnit();
    var b := AutoBits(AbsAmount(a), 7);
    Powers();
    hide Pow2, AutoBits;
    ClampFixesTable(b);
    Pow2Add(10, b);
  }

  // The power of two a finite automatic binary display settles on.
  lemma SettledBits(q: Quantity, scale: ScaleOption, d: nat)
    requires IsNormal(q.amount) && q.amount.value != 0 && (scale == Auto || scale == Preserve)
    ensures var b := BinaryDisplayBits(q, scale, false, Finite(d));
      && b.Success? && InBinaryTable(b.value)
      && var k := RoundedAbsScaled(Nanos(q.amount), UnitNanos(Two, b.value), d);
         && k < 1024 * Pow10(d)
         && (Abs(Nanos(q.amount)) >= 1_000_000_000 ==> Pow10(d) <= k)
  {
    hide Pow10, Pow2, RoundedAbsScaled, UnitNanos, MantissaForBinary, AutoBits;
    var a := q.amount;
    BinaryUnitChosen(a);
    var b := AutoBits(AbsAmount(a), 7);
    var r := MantissaForBinary(a, b);
    BinaryRounded(a, b, d);
    var bump := Bumps(r, 1024, Finite(d)) && b < 60;
    assert BinaryDisplayBits(q, scale, false, Finite(d)) == Success(if bump then b + 10 else b);
    Settle(Nanos(a), UnitNanos(Two, b), 1024, b == 60, d, bump);
  }

  /**
   * Automatic binary display with d digits: within half of 10^-d of the unit printed, below 1024,
   * and at least 1 when the quantity is.
   */
  lemma AutoBinaryDisplay(q: Quantity, opts: DisplayOptions, d: nat) returns (n: Numeral, bits: int, k: nat)
    requires IsNormal(q.amount) && q.amount.value != 0
    requires IsAutomatic(opts) && !opts.round && EffectiveDigits(opts) == Finite(d) && d <= 256
    requires DisplayFormat(q, opts) == BinarySI
    ensures Display(q, opts) == Success(Text(n))
    ensures InBinaryTable(bits) && PrintsRounding(q, n, Two, bits, d, k)
    ensures k < 1024 * Pow10(d) && (Abs(Nanos(q.amount)) >= 1_000_000_000 ==> Pow10(d) <= k)
    ensures WithinHalf(k, UnitNanos(Two, bits), Nanos(q.amount), d)
  {
    hide Pow10, Pow2, UnitNanos, RoundedAbsScaled, FormatFinite;
    SettledBits(q, opts.scale, d);
    bits := BinaryDisplayBits(q, opts.scale, false, Finite(d)).value;
    BinarySuffix(bits);
    MantissaNonZero(q.amount, 0, bits);
    BinaryDisplayText(q, opts, d, bits);
    hide Display, BinaryDisplayBits, ConstructSuffix, MantissaForBinary, AutoBits;
    var f := BinaryMantissa(q.amount, bits);
    n := FinitePrint(q, MantissaForBinary(q.amount, bits), f, Two, bits, d, ConstructSuffix(Two, bits, BinarySI));
    k := PrintedScaled(n, d);
    RoundedWithinHalf(Nanos(q.amount), UnitNanos(Two, bits), d);
  }
}
