/**
 * Display with a limit on the digits or rounded to integers, in every unit it can settle on:
 * automatic, clamped or forced.
 */
module RoundedDisplay {
  import opened IntegerMath
  import opened DecimalText
  import opened Results
  import opened Amounts
  import opened QuantityScanner
  import opened Quantities
  import opened QuantityArithmetic
  import opened RationalText
  import opened QuantityDisplay
  import opened ExactDisplay
  import opened DisplayedUnits

  /** What the options say of the unit: a forced one as it is or clamped into the table, an automatic one from the table. */
  predicate UnitAsAsked(q: Quantity, opts: DisplayOptions, base: Base, exponent: int) {
    && (base == Two <==> DisplayFormat(q, opts) == BinarySI)
    && (base == Two ==> InBinaryTable(exponent) && (opts.scale.Forced? ==> exponent == opts.scale.scale))
    && (base == Ten && !(opts.scale.Forced? && DisplayFormat(q, opts) == DecimalExponent) ==> InDecimalTable(exponent))
    && (base == Ten && opts.scale.Forced? ==>
        exponent == if DisplayFormat(q, opts) == DecimalSI then ClampToDecimalSIExponent(opts.scale.scale) else opts.scale.scale)
  }

  /** The suffix of the unit can be read back. */
  predicate SpellsUnit(suffix: string, base: Base, exponent: int) {
    && IsSuffixText(suffix) && StartsSuffix(suffix) && InterpretSuffix(suffix).Success?
    && var unit := InterpretSuffix(suffix).value;
       if exponent == 0 then unit.base == Ten && unit.exponent == 0 else unit.base == base && unit.exponent == exponent
  }

  // ----- the unit -----

  lemma BinaryUnit(q: Quantity, opts: DisplayOptions) returns (bits: nat)
    requires IsNormal(q.amount) && q.amount.value != 0 && opts.scale != Canonical
    requires Display(q, opts).Success? && DisplayFormat(q, opts) == BinarySI
    ensures BinaryDisplayBits(q, opts.scale, opts.round, EffectiveDigits(opts)) == Success(bits)
    ensures IsAutomatic(opts) && opts.round ==> Abs(Nanos(q.amount)) < 1024 * UnitNanos(Two, bits)
    ensures IsShown(q, opts, Two, bits, ConstructSuffix(Two, bits, BinarySI))
    ensures UnitAsAsked(q, opts, Two, bits) && SpellsUnit(ConstructSuffix(Two, bits, BinarySI), Two, bits)
  {
    var digits := EffectiveDigits(opts);
    DisplayOutcome(q, opts);
    hide Display, AutoBits, ConstructSuffix, InterpretSuffix, MantissaForBinary, RoundedAbsScaled;
    if opts.scale.Forced? {
      ClampFixesTable(opts.scale.scale);
    } else {
      BinaryUnitChosen(q.amount);
      if digits.Finite? { SettledBits(q, opts.scale, digits.n); }
    }
    bits := BinaryDisplayBits(q, opts.scale, opts.round, digits).value;
    BinarySuffix(bits);
    hide BinaryDisplayBits, IsShown;
    BinaryShown(q, opts, bits);
  }

  lemma DecimalUnit(q: Quantity, opts: DisplayOptions) returns (exp: int)
    requires IsNormal(q.amount) && q.amount.value != 0 && opts.scale != Canonical
    requires Display(q, opts).Success? && DisplayFormat(q, opts) != BinarySI
    ensures var format := DisplayFormat(q, opts);
      var table := ConstructSuffix(Ten, exp, format);
      && DecimalDisplayExponent(q, format, opts.scale, opts.round, EffectiveDigits(opts)) == Success(exp)
      && (IsAutomatic(opts) && opts.round ==> exp >= MIN_SCALE && Abs(Nanos(q.amount)) < 1000 * UnitNanos(Ten, exp))
      && IsShown(q, opts, Ten, exp, table) && UnitAsAsked(q, opts, Ten, exp) && SpellsUnit(table, Ten, exp)
      && !(format == DecimalSI && table == "" && exp != 0)
  {
    var digits, format := EffectiveDigits(opts), DisplayFormat(q, opts);
    DisplayOutcome(q, opts);
    hide Display, AutoExponent, ConstructSuffix, InterpretSuffix, MantissaForDecimal, RoundedAbsScaled;
    if opts.scale.Forced? {
      ClampReachesTable(opts.scale.scale);
    } else {
      DecimalUnitChosen(q.amount);
      if digits.Finite? { SettledExponent(q, format, opts.scale, digits.n); }
    }
    exp := DecimalDisplayExponent(q, format, opts.scale, opts.round, digits).value;
    if InDecimalTable(exp) { DecimalSuffix(exp, format); } else { ExponentSuffix(exp); }
    hide DecimalDisplayExponent, IsShown;
    DecimalShown(q, opts, exp);
  }

  // ----- a limit on the digits -----

  lemma DecimalFiniteText(q: Quantity, opts: DisplayOptions, d: nat, exp: int)
    requires q.amount.value != 0 && opts.scale != Canonical && !opts.round
    requires EffectiveDigits(opts) == Finite(d) && d <= 256 && DisplayFormat(q, opts) != BinarySI
    requires DecimalDisplayExponent(q, DisplayFormat(q, opts), opts.scale, opts.round, Finite(d)) == Success(exp)
    requires var table := ConstructSuffix(Ten, exp, DisplayFormat(q, opts));
      !(DisplayFormat(q, opts) == DecimalSI && table == "" && exp != 0)
    ensures var r := MantissaForDecimal(q.amount, exp);
      r.numer != 0 ==>
      Display(q, opts) == Success(FormatFinite(r.numer, r.denom, d) + ConstructSuffix(Ten, exp, DisplayFormat(q, opts)))
  {
    hide DecimalDisplayExponent, ConstructSuffix, MantissaForDecimal, FormatFinite;
  }

  /**
   * With d digits the text is the quantity rounded once to d digits of its unit, within half of the
   * last digit, whatever unit was asked for down to nano.
   */
  lemma FiniteDisplay(q: Quantity, opts: DisplayOptions, d: nat) returns (n: Numeral, base: Base, exponent: int, k: nat)
    requires IsNormal(q.amount) && q.amount.value != 0 && opts.scale != Canonical
    requires !opts.round && EffectiveDigits(opts) == Finite(d) && Display(q, opts).Success?
    requires opts.scale.Forced? && DisplayFormat(q, opts) == DecimalExponent ==> opts.scale.scale >= MIN_SCALE
    ensures Display(q, opts) == Success(Text(n))
    ensures IsShown(q, opts, base, exponent, n.suffix)
    ensures UnitAsAsked(q, opts, base, exponent) && PrintsRounding(q, n, base, exponent, d, k)
    ensures WithinHalf(k, UnitNanos(base, exponent), Nanos(q.amount), d)
  {
    DisplayOutcome(q, opts);
    hide Display, FormatFinite, BinaryDisplayBits, DecimalDisplayExponent, ConstructSuffix, MantissaForBinary, MantissaForDecimal,
      InterpretSuffix, IsSuffixText, UnitNanos, RoundedAbsScaled, Text, IsShown;
    if DisplayFormat(q, opts) == BinarySI {
      var bits := BinaryUnit(q, opts);
      var f := BinaryMantissa(q.amount, bits);
      base, exponent := Two, bits;
      n := FinitePrint(q, MantissaForBinary(q.amount, bits), f, Two, bits, d, ConstructSuffix(Two, bits, BinarySI));
      BinaryDisplayText(q, opts, d, bits);
    } else {
      var exp := DecimalUnit(q, opts);
      var f := DecimalMantissa(q.amount, exp);
      base, exponent := Ten, exp;
      n := FinitePrint(q, MantissaForDecimal(q.amount, exp), f, Ten, exp, d, ConstructSuffix(Ten, exp, DisplayFormat(q, opts)));
      DecimalFiniteText(q, opts, d, exp);
    }
    k := PrintedScaled(n, d);
    RoundedWithinHalf(Nanos(q.amount), UnitNanos(base, exponent), d);
  }

  lemma {:induction false} PaddedZeros(s: string, width: nat)
    requires AllZeros(s)
    ensures AllZeros(PadLeft(s, width))
    decreases width - |s|
  {
    if |s| < width { PaddedZeros("0" + s, width); }
  }

  // A whole mantissa has no fraction, however many digits are asked for.
  lemma WholeText(numer: int, d: nat)
    requires numer != 0
    ensures FormatFinite(numer, 1, d) == FormatExact(numer, 1)
  {
    if d > 0 {
      assert NatToString(0) == "0";
      PaddedZeros("0", d);
      assert RoundedSplit(Abs(numer), 1, d) == Split(Abs(numer), 0);
      var padded := PadLeft("0", d);
      assert TrimTrailingZeros(padded) == "";
    }
  }

  /** Below nano a quantity is a whole number of units: a forced exponent loses nothing, whatever the digits. */
  lemma BelowNanoIsExact(q: Quantity, opts: DisplayOptions)
    requires IsNormal(q.amount) && q.amount.value != 0 && !opts.round && Display(q, opts).Success?
    requires opts.scale.Forced? && DisplayFormat(q, opts) == DecimalExponent && opts.scale.scale < MIN_SCALE
    ensures var text := Display(q, opts).value;
      Parse(text).Success? && Parse(text).value.amount == q.amount
  {
    DisplayOutcome(q, opts);
    hide Display, Parse, Pow10, MantissaForDecimal, DecimalDisplayExponent, FormatExact, FormatFinite, FormatRational,
      ConstructSuffix, InterpretSuffix, IsSuffixText, Text;
    if EffectiveDigits(opts) == Infinite {
      UnlimitedDisplayIsExact(q, opts);
    } else {
      var exp := DecimalUnit(q, opts);
      var n := FineExponent(q, exp);
      var numer := q.amount.value * Pow10(q.amount.scale - exp);
      FineMantissa(q, exp);
      SameSign(numer, q.amount.value, Pow10(q.amount.scale - exp));
      WholeText(numer, EffectiveDigits(opts).n);
      DecimalFiniteText(q, opts, EffectiveDigits(opts).n, exp);
    }
  }

  // ----- rounded to integers -----

  /** The quantity in units, rounded away from zero; below nano every quantity is a whole number of units. */
  function CeiledUnits(nanos: int, base: Base, exponent: int): int
    requires base == Two ==> exponent >= 0
  {
    if base == Ten && exponent < MIN_SCALE then nanos * Pow10(-9 - exponent)
    else RoundAway(nanos, UnitNanos(base, exponent))
  }

  lemma IntegerNumeral(v: int, suffix: string) returns (n: Numeral)
    requires IsSuffixText(suffix) && StartsSuffix(suffix)
    ensures IsNumeral(n) && Text(n) == IntToString(v) + suffix && Text(n) != "" && n.suffix == suffix && n.frac == ""
    ensures (n.sign == Minus <==> v < 0) && AllDigits(n.whole) && DigitsValue(n.whole) == Abs(v)
  {
    NatToStringValue(Abs(v));
    hide NatToString, DigitsValue, IsSuffixText, StartsSuffix;
    n := Numeral(if v < 0 then Minus else Unsigned, NatToString(Abs(v)), false, "", suffix);
  }

  /** The numeral is that whole number of units. */
  predicate PrintsInteger(n: Numeral, base: Base, exponent: int, v: int) {
    && HasUnit(n, base, exponent) && n.frac == "" && AllDigits(n.whole)
    && DigitsValue(n.whole) == Abs(v) && (n.sign == Minus <==> v < 0)
  }

  lemma DecimalCeiling(q: Quantity, exp: int)
    requires IsNormal(q.amount)
    ensures ScaleToInt(q.amount, exp).q == CeiledUnits(Nanos(q.amount), Ten, exp)
  {
    ScaleToIntIsCeiling(q.amount, exp);
  }

  lemma BinaryCeiling(q: Quantity, bits: nat)
    requires IsNormal(q.amount)
    ensures var r := MantissaForBinary(q.amount, bits);
      RoundAway(r.numer, r.denom) == CeiledUnits(Nanos(q.amount), Two, bits)
  {
    var f := BinaryMantissa(q.amount, bits);
    var r := MantissaForBinary(q.amount, bits);
    hide MantissaForBinary, UnitNanos, RoundAway;
    RoundAwayCancel(r.numer, r.denom, f);
  }

  lemma RoundedText(q: Quantity, opts: DisplayOptions, base: Base, exponent: int)
    requires q.amount.value != 0 && opts.scale != Canonical && opts.round && Display(q, opts).Success?
    requires base == Two <==> DisplayFormat(q, opts) == BinarySI
    requires base == Two ==> exponent >= 0 && BinaryDisplayBits(q, opts.scale, true, Finite(0)) == Success(exponent as nat)
    requires base == Ten ==>
      && DecimalDisplayExponent(q, DisplayFormat(q, opts), opts.scale, true, Finite(0)) == Success(exponent)
      && !(DisplayFormat(q, opts) == DecimalSI && ConstructSuffix(Ten, exponent, DecimalSI) == "" && exponent != 0)
    ensures var suffix := ConstructSuffix(base, exponent, DisplayFormat(q, opts));
      Display(q, opts) == Success(
        if base == Two then
          var r := MantissaForBinary(q.amount, exponent);
          IntToString(RoundAway(r.numer, r.denom)) + suffix
        else IntToString(ScaleToInt(q.amount, exponent).q) + suffix)
  {
    hide BinaryDisplayBits, DecimalDisplayExponent, ConstructSuffix, MantissaForBinary, MantissaForDecimal, IntToString, ScaleToInt;
  }

  /** With rounding the text is the quantity in its unit, rounded once to an integer away from zero. */
  lemma RoundDisplay(q: Quantity, opts: DisplayOptions) returns (n: Numeral, base: Base, exponent: int)
    requires IsNormal(q.amount) && q.amount.value != 0 && opts.scale != Canonical && opts.round && Display(q, opts).Success?
    ensures Display(q, opts) == Success(Text(n)) && IsShown(q, opts, base, exponent, n.suffix)
    ensures UnitAsAsked(q, opts, base, exponent)
    ensures base == Two ==> exponent >= 0
    ensures IsAutomatic(opts) ==>
      && (base == Ten ==> exponent >= MIN_SCALE)
      && Abs(Nanos(q.amount)) < (if base == Two then 1024 else 1000) * UnitNanos(base, exponent)
    ensures PrintsInteger(n, base, exponent, CeiledUnits(Nanos(q.amount), base, exponent))
  {
    hide Display, BinaryDisplayBits, DecimalDisplayExponent, ConstructSuffix, MantissaForBinary, IntToString, ScaleToInt,
      InterpretSuffix, IsSuffixText, CeiledUnits, Text, DigitsValue, IsShown;
    var format := DisplayFormat(q, opts);
    if format == BinarySI {
      var bits := BinaryUnit(q, opts);
      base, exponent := Two, bits;
      BinaryCeiling(q, bits);
    } else {
      var exp := DecimalUnit(q, opts);
      base, exponent := Ten, exp;
      DecimalCeiling(q, exp);
    }
    RoundedText(q, opts, base, exponent);
    n := IntegerNumeral(CeiledUnits(Nanos(q.amount), base, exponent), ConstructSuffix(base, exponent, format));
  }

  /** Rounding automatic display away from zero can reach the next unit, which it does not move to: from 1 up to 1000 or 1024. */
  lemma RoundedAutoRange(q: Quantity, opts: DisplayOptions) returns (n: Numeral, base: Base, exponent: int)
    requires IsNormal(q.amount) && q.amount.value != 0 && IsAutomatic(opts) && opts.round && Display(q, opts).Success?
    ensures Display(q, opts) == Success(Text(n)) && AllDigits(n.whole)
    ensures UnitAsAsked(q, opts, base, exponent)
    ensures 1 <= DigitsValue(n.whole) <= if base == Two then 1024 else 1000
  {
    n, base, exponent := RoundDisplay(q, opts);
    var unit := UnitNanos(base, exponent);
    hide Display, UnitNanos;
    AbsAmountNanos(q.amount);
    CeilingRange(Nanos(q.amount), unit, if base == Two then 1024 else 1000);
  }

  lemma CeilingRange(n: int, unit: int, step: nat)
    requires unit > 0 && n != 0 && Abs(n) < step * unit
    ensures 1 <= Abs(RoundAway(n, unit)) <= step
  {
    CeilDivBounds(Abs(n), unit);
    var c := CeilDiv(Abs(n), unit);
    if c > step { MulMonotone(step, c - 1, unit); }
    if c < 1 { MulMonotone(c, 0, unit); }
  }
}
