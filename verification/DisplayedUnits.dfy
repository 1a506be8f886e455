/** Which unit a display uses and how its suffix is spelled, for every choice of options. */
module DisplayedUnits {
  import opened IntegerMath
  import opened DecimalText
  import opened Results
  import opened Amounts
  import opened Quantities
  import opened QuantityArithmetic
  import opened RationalText
  import opened QuantityDisplay
  import opened ExactDisplay

  /** The suffix family: an explicit format, else the family of a forced scale, else the quantity's own. */
  predicate IsFamily(q: Quantity, opts: DisplayOptions, family: Format) {
    && (opts.format.Some? ==> family == opts.format.value)
    && (opts.format.None? && !opts.scale.Forced? ==> family == q.format)
    && (opts.format.None? && opts.scale.Forced? ==>
        if opts.scale.scale in [10, 20, 30, 40, 50, 60] then family == BinarySI
        else if q.format == DecimalExponent then family == DecimalExponent
        else family == DecimalSI)
  }

  /** How many digits: none when rounding, as asked for, or two. */
  predicate IsDigits(opts: DisplayOptions, digits: Digits) {
    && (opts.round ==> digits == Finite(0))
    && (!opts.round && opts.digits.Some? ==> digits == opts.digits.value)
    && (!opts.round && opts.digits.None? ==> digits == Finite(2))
  }

  /** A unit of the family and its suffix. */
  predicate IsSpelled(family: Format, base: Base, exponent: int, suffix: string) {
    match family
    case BinarySI =>
      base == Two
      && (exponent, suffix) in [(0, ""), (10, "Ki"), (20, "Mi"), (30, "Gi"), (40, "Ti"), (50, "Pi"), (60, "Ei")]
    case DecimalSI =>
      base == Ten
      && (exponent, suffix) in [(-9, "n"), (-6, "u"), (-3, "m"), (0, ""), (3, "k"), (6, "M"), (9, "G"), (12, "T"), (15, "P"), (18, "E")]
    case DecimalExponent => base == Ten && suffix == if exponent == 0 then "" else "e" + IntToString(exponent)
  }

  /** A forced decimal scale snapped towards zero to a multiple of three, within the table. */
  predicate IsSnapped(scale: int, exponent: int) {
    if scale >= 18 then exponent == 18
    else if scale <= -9 then exponent == -9
    else exponent % 3 == 0 && Abs(exponent) <= Abs(scale) < Abs(exponent) + 3 && exponent * scale >= 0
  }

  /** The largest unit of the table the quantity reaches, or the smallest unit. */
  predicate IsReached(nanos: int, base: Base, e: int) {
    if base == Two then
      && InBinaryTable(e)
      && (e > 0 ==> Pow2(e) * 1_000_000_000 <= Abs(nanos)) && (e < 60 ==> Abs(nanos) < Pow2(e + 10) * 1_000_000_000)
    else
      && InDecimalTable(e)
      && (e > -9 ==> Pow10(e + 9) <= Abs(nanos)) && (e < 18 ==> Abs(nanos) < Pow10(e + 12))
  }

  /** Rounding to the digits reaches the next unit. */
  predicate Rolls(nanos: int, base: Base, e: int, opts: DisplayOptions)
    requires if base == Two then InBinaryTable(e) else InDecimalTable(e)
  {
    && !opts.round && EffectiveDigits(opts).Finite? && EffectiveDigits(opts).n >= 0
    && RoundedAbsScaled(nanos, UnitNanos(base, e), EffectiveDigits(opts).n)
      >= (if base == Two then 1024 else 1000) * Pow10(EffectiveDigits(opts).n)
    && e < (if base == Two then 60 else 18)
  }

  /** The unit an automatic display uses: the one reached, or the next when rounding reaches it. */
  ghost predicate IsAutomaticUnit(q: Quantity, opts: DisplayOptions, base: Base, exponent: int)
    requires IsNormal(q.amount)
  {
    exists e :: IsReached(Nanos(q.amount), base, e)
      && exponent == e + (if !Rolls(Nanos(q.amount), base, e, opts) then 0 else if base == Two then 10 else 3)
  }

  /** Everything the options decide about the unit and its suffix. */
  ghost predicate IsShown(q: Quantity, opts: DisplayOptions, base: Base, exponent: int, suffix: string)
    requires IsNormal(q.amount)
  {
    exists family :: IsFamily(q, opts, family) && IsSpelled(family, base, exponent, suffix)
      && (opts.scale.Forced? ==> if family == DecimalSI then IsSnapped(opts.scale.scale, exponent) else exponent == opts.scale.scale)
      && (IsAutomatic(opts) ==> IsAutomaticUnit(q, opts, base, exponent))
  }

  lemma FamilyShown(q: Quantity, opts: DisplayOptions)
    ensures IsFamily(q, opts, DisplayFormat(q, opts))
    ensures IsDigits(opts, EffectiveDigits(opts))
  {}

  lemma SuffixSpelled(family: Format, exponent: int)
    requires family == BinarySI ==> InBinaryTable(exponent)
    requires family == DecimalSI ==> InDecimalTable(exponent)
    ensures var base := if family == BinarySI then Two else Ten;
      IsSpelled(family, base, exponent, ConstructSuffix(base, exponent, family))
  {
    hide IntToString;
    TableExponents(exponent);
  }

  lemma TableExponents(e: int)
    ensures InBinaryTable(e) ==> e in [0, 10, 20, 30, 40, 50, 60]
    ensures InDecimalTable(e) ==> e in [-9, -6, -3, 0, 3, 6, 9, 12, 15, 18]
  {}

  lemma ClampSnaps(scale: int)
    ensures IsSnapped(scale, ClampToDecimalSIExponent(scale))
  {
    DivModOf(scale, 3);
    DivModOf(-scale, 3);
    MultipleMod(scale / 3, 3);
    MultipleMod(-((-scale) / 3), 3);
  }

  // ----- the automatic unit -----

  lemma {:induction false} BitsReached(a: Amount, i: nat)
    requires a.scale >= MIN_SCALE && 0 < i <= 7
    ensures AutoBits(a, i) > 0 ==> Nanos(a) >= UnitNanos(Two, AutoBits(a, i))
  {
    Powers();
    hide Pow10, Pow2;
    var b := 10 * (i - 1);
    CompareIsNumeric(a, Amount(Pow2(b), 0));
    if CompareAmounts(a, Amount(Pow2(b), 0)) < 0 {
      if i > 1 { BitsReached(a, i - 1); }
    }
  }

  lemma BinaryReached(q: Quantity)
    requires IsNormal(q.amount) && q.amount.value != 0
    ensures var e := ClampToBinarySIBits(AutoBits(AbsAmount(q.amount), 7));
      IsReached(Nanos(q.amount), Two, e)
  {
    hide Pow10, Pow2, AutoBits, ClampToBinarySIBits;
    BinaryUnitChosen(q.amount);
    AbsAmountNanos(q.amount);
    BitsReached(AbsAmount(q.amount), 7);
  }

  lemma DecimalReached(q: Quantity)
    requires IsNormal(q.amount) && q.amount.value != 0
    ensures var e := ClampToDecimalSIExponent(AutoExponent(AbsAmount(q.amount), 10));
      IsReached(Nanos(q.amount), Ten, e)
  {
    hide Pow10, Pow2, AutoExponent, ClampToDecimalSIExponent;
    DecimalUnitChosen(q.amount);
  }

  lemma BinaryAutomatic(q: Quantity, opts: DisplayOptions, bits: nat)
    requires IsNormal(q.amount) && q.amount.value != 0 && IsAutomatic(opts)
    requires BinaryDisplayBits(q, opts.scale, opts.round, EffectiveDigits(opts)) == Success(bits)
    ensures IsAutomaticUnit(q, opts, Two, bits)
  {
    hide Pow10, Pow2, AutoBits, ClampToBinarySIBits, IsReached, MantissaForBinary, RoundedAbsScaled, UnitNanos;
    BinaryReached(q);
    var e := ClampToBinarySIBits(AutoBits(AbsAmount(q.amount), 7));
    ReachedInTable(Nanos(q.amount), Two, e);
    var d := EffectiveDigits(opts);
    if d.Finite? && d.n >= 0 { BinaryRounded(q.amount, e, d.n); }
    assert Rolls(Nanos(q.amount), Two, e, opts) <==> !opts.round && Bumps(MantissaForBinary(q.amount, e), 1024, d) && e < 60;
  }

  lemma ReachedInTable(nanos: int, base: Base, e: int)
    requires IsReached(nanos, base, e)
    ensures if base == Two then InBinaryTable(e) else InDecimalTable(e)
  {}

  lemma DecimalAutomatic(q: Quantity, opts: DisplayOptions, exp: int)
    requires IsNormal(q.amount) && q.amount.value != 0 && IsAutomatic(opts)
    requires DecimalDisplayExponent(q, DisplayFormat(q, opts), opts.scale, opts.round, EffectiveDigits(opts)) == Success(exp)
    ensures IsAutomaticUnit(q, opts, Ten, exp)
  {
    hide Pow10, Pow2, AutoExponent, ClampToDecimalSIExponent, IsReached, MantissaForDecimal, RoundedAbsScaled, UnitNanos,
      DisplayFormat;
    DecimalReached(q);
    var e := ClampToDecimalSIExponent(AutoExponent(AbsAmount(q.amount), 10));
    ReachedInTable(Nanos(q.amount), Ten, e);
    var d := EffectiveDigits(opts);
    if d.Finite? && d.n >= 0 { DecimalRounded(q.amount, e, d.n); }
    assert Rolls(Nanos(q.amount), Ten, e, opts) <==> !opts.round && Bumps(MantissaForDecimal(q.amount, e), 1000, d) && e < 18;
  }

  // ----- every unit -----

  lemma BinaryShown(q: Quantity, opts: DisplayOptions, bits: nat)
    requires IsNormal(q.amount) && q.amount.value != 0 && opts.scale != Canonical && DisplayFormat(q, opts) == BinarySI
    requires BinaryDisplayBits(q, opts.scale, opts.round, EffectiveDigits(opts)) == Success(bits) && InBinaryTable(bits)
    ensures IsShown(q, opts, Two, bits, ConstructSuffix(Two, bits, BinarySI))
  {
    FamilyShown(q, opts);
    SuffixSpelled(BinarySI, bits);
    if opts.scale.Forced? { ClampFixesTable(opts.scale.scale); } else { BinaryAutomatic(q, opts, bits); }
    hide IsFamily, IsSpelled, IsAutomaticUnit, AutoBits, MantissaForBinary;
  }

  lemma DecimalShown(q: Quantity, opts: DisplayOptions, exp: int)
    requires IsNormal(q.amount) && q.amount.value != 0 && opts.scale != Canonical && DisplayFormat(q, opts) != BinarySI
    requires DecimalDisplayExponent(q, DisplayFormat(q, opts), opts.scale, opts.round, EffectiveDigits(opts)) == Success(exp)
    requires DisplayFormat(q, opts) == DecimalSI ==> InDecimalTable(exp)
    ensures IsShown(q, opts, Ten, exp, ConstructSuffix(Ten, exp, DisplayFormat(q, opts)))
  {
    FamilyShown(q, opts);
    SuffixSpelled(DisplayFormat(q, opts), exp);
    if opts.scale.Forced? { ClampSnaps(opts.scale.scale); } else { DecimalAutomatic(q, opts, exp); }
    hide IsFamily, IsSpelled, IsAutomaticUnit, AutoExponent, MantissaForDecimal, IsSnapped, ClampToDecimalSIExponent;
  }
}
