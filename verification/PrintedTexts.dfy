/** What the printers print, character by character: canonical texts, the default display, and unlimited display. */
module PrintedTexts {
  import opened IntegerMath
  import opened DecimalText
  import opened Results
  import opened Amounts
  import opened QuantityScanner
  import opened Quantities
  import opened CanonicalPrinting
  import opened QuantityArithmetic
  import opened RationalText
  import opened QuantityDisplay
  import opened ExactDisplay
  import opened DisplayedUnits
  import opened RoundedDisplay

  /** The family canonical output uses: BinarySI only for whole numbers from 1024 up, else DecimalSI in its place. */
  function CanonicalFamily(format: Format, nanos: int): Format {
    if format != BinarySI then format
    else if Abs(nanos) >= 1024 * 1_000_000_000 && nanos % 1_000_000_000 == 0 then BinarySI
    else DecimalSI
  }

  /** A canonical text is an integer and a suffix of its family, exactly the quantity, and no larger suffix would do. */
  lemma CanonicalText(q: Quantity) returns (mantissa: int, exponent: int, suffix: string)
    requires IsNormal(q.amount) && q.amount.value != 0
    ensures ToString(q) == IntToString(mantissa) + suffix
    ensures var family := CanonicalFamily(q.format, Nanos(q.amount));
      && IsSpelled(family, if family == BinarySI then Two else Ten, exponent, suffix)
      && if family == BinarySI then
           mantissa % 1024 != 0 && exponent >= 0 && mantissa * Pow2(exponent) * 1_000_000_000 == Nanos(q.amount)
         else mantissa % 1000 != 0 && exponent >= -9 && mantissa * Pow10(exponent + 9) == Nanos(q.amount)
  {
    hide Pow10, Pow2, IntToString, ConstructSuffix, Nanos, Printed, IsSpelled, ScaleToInt;
    var p := Printed(q);
    mantissa, exponent, suffix := p.mantissa, p.exponent, ConstructSuffix(PrintedBase(q), p.exponent, PrintedFormat(q));
    PrintedIsCanonical(q);
    PrintsAsBinaryInNanos(q);
    ScaleToIntIsCeiling(q.amount, 0);
    WholeIsMultiple(q);
    hide PrintsAsBinary;
    SuffixSpelled(PrintedFormat(q), p.exponent);
  }

  lemma WholeIsMultiple(q: Quantity)
    requires IsNormal(q.amount)
    ensures Nanos(q.amount) % 1_000_000_000 == 0 <==> Nanos(q.amount) == ScaleToInt(q.amount, 0).q * 1_000_000_000
  {
    var n := Nanos(q.amount);
    Powers();
    hide Pow10, Nanos;
    ScaleToIntIsCeiling(q.amount, 0);
    hide ScaleToInt;
    if n % 1_000_000_000 == 0 { RoundAwayOfMultiple(n / 1_000_000_000, 1_000_000_000); }
  }

  /** Canonical display prints the canonical text, in the format asked for. */
  lemma CanonicalDisplay(q: Quantity, opts: DisplayOptions)
    requires opts.scale == Canonical
    ensures opts.format.None? ==> Display(q, opts) == Success(ToString(q))
    ensures opts.format.Some? ==> Display(q, opts) == Success(ToString(Quantity(q.amount, opts.format.value)))
  {
    hide ToString;
  }

  /** Zero is "0" everywhere. */
  lemma ZeroText(q: Quantity, opts: DisplayOptions)
    requires q.amount.value == 0
    ensures ToString(q) == "0" && Display(q, opts) == Success("0")
  {}

  /** Without options a quantity is shown in its own family, automatically, rounded to two digits. */
  lemma DefaultDisplay(q: Quantity) returns (n: Numeral, base: Base, exponent: int, k: nat)
    requires IsNormal(q.amount) && q.amount.value != 0
    ensures Display(q, DisplayOptions(None, Auto, false, None)) == Success(Text(n))
    ensures IsSpelled(q.format, base, exponent, n.suffix)
    ensures IsAutomaticUnit(q, DisplayOptions(None, Auto, false, None), base, exponent)
    ensures PrintsRounding(q, n, base, exponent, 2, k) && WithinHalf(k, UnitNanos(base, exponent), Nanos(q.amount), 2)
  {
    var opts := DisplayOptions(None, Auto, false, None);
    DisplayOutcome(q, opts);
    FamilyShown(q, opts);
    hide Display, DisplayFormat, IsSpelled, IsAutomaticUnit, PrintsRounding, WithinHalf, Text;
    n, base, exponent, k := FiniteDisplay(q, opts, 2);
  }

  /** Unlimited display in a table unit: the unit asked for, and all of the quantity. */
  lemma UnlimitedTableText(q: Quantity, opts: DisplayOptions) returns (n: Numeral, base: Base, exponent: int)
    requires IsNormal(q.amount) && q.amount.value != 0 && opts.scale != Canonical && EffectiveDigits(opts) == Infinite
    requires Display(q, opts).Success? && !(opts.scale.Forced? && DisplayFormat(q, opts) == DecimalExponent)
    ensures Display(q, opts) == Success(Text(n)) && |n.frac| <= TABLE_DIGITS
    ensures IsShown(q, opts, base, exponent, n.suffix)
    ensures Parse(Text(n)).Success? && Parse(Text(n)).value.amount == q.amount
  {
    hide Display, Parse, Text, FormatRational, FormatExact, ConstructSuffix, MantissaForBinary, MantissaForDecimal,
      BinaryDisplayBits, DecimalDisplayExponent, IsShown, InterpretSuffix, IsSuffixText;
    if DisplayFormat(q, opts) == BinarySI {
      var bits := BinaryUnit(q, opts);
      base, exponent := Two, bits;
      BinaryTableText(q, opts, bits);
      n := BinaryTableExact(q, bits);
    } else {
      var exp := DecimalUnit(q, opts);
      base, exponent := Ten, exp;
      DecimalTableText(q, opts, exp);
      n := DecimalTableExact(q, exp, DisplayFormat(q, opts));
    }
  }

  /** A forced exponent in exponent format prints that exponent. */
  lemma UnlimitedForcedText(q: Quantity, opts: DisplayOptions) returns (mantissa: string)
    requires IsNormal(q.amount) && q.amount.value != 0 && EffectiveDigits(opts) == Infinite && Display(q, opts).Success?
    requires opts.scale.Forced? && DisplayFormat(q, opts) == DecimalExponent
    ensures Display(q, opts) == Success(mantissa + if opts.scale.scale == 0 then "" else "e" + IntToString(opts.scale.scale))
  {
    DisplayOutcome(q, opts);
    var r := MantissaForDecimal(q.amount, opts.scale.scale);
    hide MantissaForDecimal, FormatRational, IntToString;
    mantissa := FormatRational(r.numer, r.denom, Infinite).value;
  }
}
