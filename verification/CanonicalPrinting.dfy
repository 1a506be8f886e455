/**
 * The canonical printer: integer mantissa and the largest suffix that loses nothing.
 * Its partner is the parser: what it prints always parses back to the same amount.
 */
module CanonicalPrinting {
  import opened IntegerMath
  import opened DecimalText
  import opened Results
  import opened Amounts
  import opened QuantityScanner
  import opened Quantities

  datatype CanonicalNumber = CanonicalNumber(mantissa: int, exponent: int)

  /** Lowers the exponent to a multiple of three, scaling the mantissa up. */
  function AlignToThousands(mantissa: int, exponent: int): CanonicalNumber
    decreases exponent % 3
  {
    if exponent % 3 != 0 then AlignToThousands(mantissa * 10, exponent - 1)
    else CanonicalNumber(mantissa, exponent)
  }

  function CanonicalDecimal(a: Amount): CanonicalNumber {
    if a.value == 0 then CanonicalNumber(0, 0)
    else
      var stripped := Normalized(a.value, a.scale);
      AlignToThousands(stripped.value, stripped.scale)
  }

  method AsCanonicalDecimal(a: Amount) returns (r: CanonicalNumber)
    ensures r == CanonicalDecimal(a)
  {
    if a.value == 0 {
      return CanonicalNumber(0, 0);
    }
    var mantissa, exponent := a.value, a.scale;
    while mantissa % 10 == 0
      invariant mantissa != 0 && Normalized(mantissa, exponent) == Normalized(a.value, a.scale)
      decreases Abs(mantissa)
    {
      mantissa, exponent := mantissa / 10, exponent + 1;
    }
    while exponent % 3 != 0
      invariant AlignToThousands(mantissa, exponent) == CanonicalDecimal(a)
      decreases exponent % 3
    {
      mantissa, exponent := mantissa * 10, exponent - 1;
    }
    return CanonicalNumber(mantissa, exponent);
  }

  /** Divides by 1024 as often as possible. */
  function Strip1024(v: nat, exponent: nat): (r: CanonicalNumber)
    ensures r.mantissa >= 0
  {
    if v != 0 && v % 1024 == 0 then Strip1024(v / 1024, exponent + 1) else CanonicalNumber(v, exponent)
  }

  function CanonicalBase1024(a: Amount): CanonicalNumber {
    if a.value == 0 then CanonicalNumber(0, 0)
    else
      var q := ScaleToInt(a, 0).q;
      var r := Strip1024(Abs(q), 0);
      CanonicalNumber(if q < 0 then -r.mantissa else r.mantissa, r.exponent)
  }

  method AsCanonicalBase1024(a: Amount) returns (r: CanonicalNumber)
    ensures r == CanonicalBase1024(a)
  {
    if a.value == 0 {
      return CanonicalNumber(0, 0);
    }
    var v, exponent := ScaleToInt(a, 0).q, 0;
    var negative := v < 0;
    if negative {
      v := -v;
    }
    while v != 0 && v % 1024 == 0
      invariant 0 <= v && 0 <= exponent
      invariant Strip1024(v, exponent) == Strip1024(Abs(ScaleToInt(a, 0).q), 0)
      decreases v
    {
      v, exponent := v / 1024, exponent + 1;
    }
    if negative {
      v := -v;
    }
    return CanonicalNumber(v, exponent);
  }

  /** BinarySI is kept only for whole numbers of magnitude at least 1024. */
  predicate PrintsAsBinary(q: Quantity) {
    && q.format == BinarySI
    && !(CompareAmounts(q.amount, Amount(-1024, 0)) > 0 && CompareAmounts(q.amount, Amount(1024, 0)) < 0)
    && ScaleToInt(q.amount, 0).exact
  }

  /** The suffix family canonical output uses. */
  function PrintedFormat(q: Quantity): Format {
    if PrintsAsBinary(q) then BinarySI else if q.format == BinarySI then DecimalSI else q.format
  }

  function Printed(q: Quantity): CanonicalNumber {
    if PrintsAsBinary(q) then
      var r := CanonicalBase1024(Amount(ScaleToInt(q.amount, 0).q, 0));
      CanonicalNumber(r.mantissa, r.exponent * 10)
    else CanonicalDecimal(q.amount)
  }

  function PrintedBase(q: Quantity): Base { if PrintsAsBinary(q) then Two else Ten }

  function ToString(q: Quantity): string {
    if q.amount.value == 0 then "0"
    else
      var p := Printed(q);
      IntToString(p.mantissa) + ConstructSuffix(PrintedBase(q), p.exponent, PrintedFormat(q))
  }

  // ----- the printed mantissa and exponent -----

  lemma NotAThousand(m: int)
    requires m % 10 != 0
    ensures m % 1000 != 0 && (m * 10) % 1000 != 0 && (m * 10 * 10) % 1000 != 0
  {
    DivModOf(m, 1000);
    DivModOf(m * 10, 1000);
    DivModOf(m * 10 * 10, 1000);
    if m % 1000 == 0 { MultipleMod(100 * (m / 1000), 10); }
    if (m * 10) % 1000 == 0 { MultipleMod(10 * (m * 10 / 1000), 10); }
    if (m * 10 * 10) % 1000 == 0 { MultipleMod(m * 10 * 10 / 1000, 10); }
  }

  lemma AlignFacts(mantissa: int, exponent: int)
    requires mantissa % 10 != 0
    ensures var r := AlignToThousands(mantissa, exponent);
      && r.exponent % 3 == 0 && exponent - 2 <= r.exponent <= exponent
      && r.mantissa == mantissa * Pow10(exponent - r.exponent)
      && r.mantissa % 1000 != 0
  {
    hide Pow10;
    NotAThousand(mantissa);
    Powers();
    var m, e := mantissa, exponent;
    var steps := e % 3;
    var r := AlignToThousands(m, e);
    if steps == 1 {
      assert r == AlignToThousands(m * 10, e - 1) == CanonicalNumber(m * 10, e - 1);
    } else if steps == 2 {
      assert r == AlignToThousands(m * 10, e - 1) == AlignToThousands(m * 10 * 10, e - 2) == CanonicalNumber(m * 10 * 10, e - 2);
    }
    hide AlignToThousands;
    assert r.exponent == e - steps;
    assert Pow10(e - r.exponent) == if steps == 0 then 1 else if steps == 1 then 10 else 100;
  }

  lemma {:induction false} Strip1024Facts(v: nat, exponent: nat)
    requires v != 0
    ensures var r := Strip1024(v, exponent);
      && r.exponent >= exponent && r.mantissa > 0 && r.mantissa % 1024 != 0
      && v == r.mantissa * Pow2(10 * (r.exponent - exponent))
  {
    if v % 1024 == 0 {
      Strip1024Facts(v / 1024, exponent + 1);
      var r := Strip1024(v, exponent);
      var k := 10 * (r.exponent - exponent - 1);
      Pow2Add(10, k);
      Powers();
      MulSwap(r.mantissa, Pow2(k), 1024);
    }
  }

  // A positive mantissa times a power of two within int64 keeps the exponent small.
  lemma Pow2InRange(m: int, e: nat)
    requires 0 < m && m * Pow2(10 * e) <= MAX_INT64
    ensures e <= 6
  {
    hide Pow2;
    MulMonotone(1, m, Pow2(10 * e));
    Pow2Seventy();
    if e > 6 { Pow2Monotone(70, 10 * e); }
  }

  lemma Pow2Seventy()
    ensures Pow2(70) > MAX_INT64
  {
    LargePowers();
    hide Pow2;
  }

  lemma PrintsAsBinaryInNanos(q: Quantity)
    requires IsNormal(q.amount)
    ensures var whole := ScaleToInt(q.amount, 0).q;
      PrintsAsBinary(q) <==>
        && q.format == BinarySI && Abs(Nanos(q.amount)) >= 1024 * 1_000_000_000
        && Nanos(q.amount) == whole * 1_000_000_000
  {
    Powers();
    hide Pow10;
    CompareIsNumeric(q.amount, Amount(-1024, 0));
    CompareIsNumeric(q.amount, Amount(1024, 0));
    ScaleToIntIsCeiling(q.amount, 0);
  }

  lemma NegatedProduct(v: int, k: int)
    ensures (-v) * k == -(v * k)
  {}

  // A whole number within int64 in powers of 1024.
  lemma WholeInBase1024(whole: int)
    requires 0 < Abs(whole) <= MAX_INT64
    ensures var r := Strip1024(Abs(whole), 0);
      var m := if whole < 0 then -r.mantissa else r.mantissa;
      InBinaryTable(r.exponent * 10) && m % 1024 != 0 && m * Pow2(r.exponent * 10) == whole
  {
    Strip1024Facts(Abs(whole), 0);
    var r := Strip1024(Abs(whole), 0);
    hide Pow2, Strip1024;
    Pow2InRange(r.mantissa, r.exponent);
    NegatedProduct(r.mantissa, Pow2(10 * r.exponent));
    NegatedRemainder(r.mantissa);
    assert 10 * r.exponent == r.exponent * 10;
  }

  lemma NegatedRemainder(m: int)
    ensures (-m) % 1024 != 0 <==> m % 1024 != 0
  {}

  lemma PrintedBinary(q: Quantity)
    requires IsNormal(q.amount) && PrintsAsBinary(q)
    ensures var p := Printed(q);
      && InBinaryTable(p.exponent) && p.mantissa % 1024 != 0
      && p.mantissa * Pow2(p.exponent) * 1_000_000_000 == Nanos(q.amount)
  {
    PrintsAsBinaryInNanos(q);
    PrintedBinaryIs(q);
    hide Pow2, Pow10, Strip1024, PrintsAsBinary, Printed, ScaleToInt, Nanos;
    var whole := ScaleToInt(q.amount, 0).q;
    assert 0 < Abs(whole) <= MAX_INT64;
    WholeInBase1024(whole);
  }

  lemma PrintedBinaryIs(q: Quantity)
    requires PrintsAsBinary(q)
    ensures var whole := ScaleToInt(q.amount, 0).q;
      var r := Strip1024(Abs(whole), 0);
      Printed(q) == CanonicalNumber(if whole < 0 then -r.mantissa else r.mantissa, r.exponent * 10)
  {
    hide Pow10, PrintsAsBinary;
  }

  lemma PrintedDecimal(q: Quantity)
    requires IsNormal(q.amount) && q.amount.value != 0 && !PrintsAsBinary(q)
    ensures var p := Printed(q);
      && InDecimalTable(p.exponent) && p.mantissa % 1000 != 0
      && p.mantissa * Pow10(p.exponent + 9) == Nanos(q.amount)
  {
    var a := q.amount;
    NormalizedId(a);
    NormalScaleBound(a);
    AlignFacts(a.value, a.scale);
    var p := Printed(q);
    NanosOfShift(a.value, p.exponent, a.scale - p.exponent);
  }

  /**
   * The printed exponent is in the suffix table, the mantissa cannot be shortened by another
   * suffix step, and mantissa times unit is exactly the quantity.
   */
  lemma PrintedIsCanonical(q: Quantity)
    requires IsNormal(q.amount) && q.amount.value != 0
    ensures var p := Printed(q);
      if PrintsAsBinary(q) then
        && InBinaryTable(p.exponent) && p.mantissa % 1024 != 0
        && p.mantissa * Pow2(p.exponent) * 1_000_000_000 == Nanos(q.amount)
      else
        && InDecimalTable(p.exponent) && p.mantissa % 1000 != 0
        && p.mantissa * Pow10(p.exponent + 9) == Nanos(q.amount)
  {
    if PrintsAsBinary(q) { PrintedBinary(q); } else { PrintedDecimal(q); }
  }

  // ----- round trip -----

  /** The text of a printed integer with a suffix, as a numeral. */
  function PrintedNumeral(mantissa: int, suffix: string): Numeral {
    Numeral(if mantissa < 0 then Minus else Unsigned, NatToString(Abs(mantissa)), false, "", suffix)
  }

  lemma PrintedNumeralFacts(mantissa: int, suffix: string)
    requires IsSuffixText(suffix) && StartsSuffix(suffix) && InterpretSuffix(suffix).Success?
    ensures var n := PrintedNumeral(mantissa, suffix);
      && IsQuantityText(n) && Text(n) == IntToString(mantissa) + suffix
      && var unit := InterpretSuffix(suffix).value;
         && DenotedValue(n) == (if unit.base == Two && unit.exponent >= 0 then mantissa * Pow2(unit.exponent) else mantissa)
         && DenotedScale(n) == (if unit.base == Two then 0 else unit.exponent)
  {
    hide NatToString, DigitsValue, Pow2, ParseExponent, DecimalLetter, BinaryLetter;
    var n := PrintedNumeral(mantissa, suffix);
    NatToStringValue(Abs(mantissa));
    assert n.whole + n.frac == n.whole;
    WithoutFraction(n.sign.Text(), n.whole, suffix);
  }

  lemma WithoutFraction(sign: string, whole: string, suffix: string)
    ensures sign + (whole + ("" + suffix)) == (sign + whole) + suffix
    ensures "" + whole == whole
  {}

  /** The format a printed quantity is read back with. */
  function ReparsedFormat(q: Quantity): Format {
    if q.amount.value == 0 || Printed(q).exponent == 0 then DecimalSI else PrintedFormat(q)
  }

  lemma PrintedTextMeaning(q: Quantity)
    requires IsNormal(q.amount) && q.amount.value != 0
    ensures var n := PrintedNumeral(Printed(q).mantissa, ConstructSuffix(PrintedBase(q), Printed(q).exponent, PrintedFormat(q)));
      && IsQuantityText(n) && Text(n) == ToString(q)
      && DenotedNanos(n) == Nanos(q.amount)
      && InterpretSuffix(n.suffix).value.format == ReparsedFormat(q)
  {
    var p := Printed(q);
    if PrintsAsBinary(q) {
      PrintedBinary(q);
      Powers();
    } else {
      PrintedDecimal(q);
    }
    SuffixRoundTrip(PrintedBase(q), p.exponent, PrintedFormat(q));
    var suffix := ConstructSuffix(PrintedBase(q), p.exponent, PrintedFormat(q));
    PrintedNumeralFacts(p.mantissa, suffix);
    var n := PrintedNumeral(p.mantissa, suffix);
    PrintedNanos(p, PrintedBase(q), n);
  }

  lemma PrintedNanos(p: CanonicalNumber, base: Base, n: Numeral)
    requires IsQuantityText(n) && p.exponent >= (if base == Two then 0 else -9)
    requires var unit := InterpretSuffix(n.suffix).value;
      && (p.exponent == 0 ==> unit.base == Ten && unit.exponent == 0)
      && (p.exponent != 0 ==> unit.base == base && unit.exponent == p.exponent)
      && DenotedValue(n) == (if unit.base == Two && unit.exponent >= 0 then p.mantissa * Pow2(unit.exponent) else p.mantissa)
      && DenotedScale(n) == (if unit.base == Two then 0 else unit.exponent)
    ensures DenotedNanos(n) == Clamp(
      if base == Two then p.mantissa * Pow2(p.exponent) * Pow10(9) else p.mantissa * Pow10(p.exponent + 9))
  {
    assert Pow2(0) == 1;
    hide Pow10, Pow2, InterpretSuffix, DenotedValue, DenotedScale, IsQuantityText;
  }

  /** Parsing what was printed gives back exactly the same amount, for every normal quantity. */
  lemma PrintThenParse(q: Quantity)
    requires IsNormal(q.amount)
    ensures Parse(ToString(q)) == Success(Quantity(q.amount, ReparsedFormat(q)))
  {
    if q.amount.value == 0 {
      assert !IsWhitespacePresent("0");
    } else {
      var p := Printed(q);
      var n := PrintedNumeral(p.mantissa, ConstructSuffix(PrintedBase(q), p.exponent, PrintedFormat(q)));
      PrintedTextMeaning(q);
      ParseMeaning(n);
      NormalFormIsUnique(Parse(ToString(q)).value.amount, q.amount);
      if PrintsAsBinary(q) { PrintsAsBinaryInNanos(q); }
    }
  }

  // ----- when the text itself survives -----

  /** The whole numbers a BinarySI quantity prints without a suffix but DecimalSI would shorten. */
  predicate LosesItsText(q: Quantity) {
    && q.format == BinarySI
    && Abs(Nanos0(q)) >= 1024 * 1_000_000_000 && Nanos0(q) % 1_000_000_000 == 0
    && (Nanos0(q) / 1_000_000_000) % 1024 != 0
    && (Nanos0(q) / 1_000_000_000) % 1000 == 0
  }

  function Nanos0(q: Quantity): int { if q.amount.scale >= MIN_SCALE then Nanos(q.amount) else 0 }

  lemma LosesItsTextMeans(q: Quantity)
    requires IsNormal(q.amount) && q.amount.value != 0
    ensures LosesItsText(q) <==>
      PrintsAsBinary(q) && Printed(q).exponent == 0 && Printed(q).mantissa % 1000 == 0
  {
    PrintsAsBinaryInNanos(q);
    var whole := ScaleToInt(q.amount, 0).q;
    if PrintsAsBinary(q) {
      MultipleMod(whole, 1_000_000_000);
      PrintedBinary(q);
      BinaryExponentZero(q);
    } else if LosesItsText(q) {
      DivModOf(Nanos(q.amount), 1_000_000_000);
      Powers();
      ScaleToIntIsCeiling(q.amount, 0);
      RoundAwayOfMultiple(Nanos(q.amount) / 1_000_000_000, 1_000_000_000);
    }
  }

  lemma BinaryExponentZero(q: Quantity)
    requires IsNormal(q.amount) && q.amount.value != 0 && PrintsAsBinary(q)
    ensures var whole := ScaleToInt(q.amount, 0).q;
      && (whole % 1024 != 0 <==> Printed(q).exponent == 0)
      && (Printed(q).exponent == 0 ==> Printed(q).mantissa == whole)
  {
    PrintsAsBinaryInNanos(q);
    PrintedBinary(q);
    var p := Printed(q);
    MulCancel(p.mantissa * Pow2(p.exponent), ScaleToInt(q.amount, 0).q, 1_000_000_000);
    if p.exponent > 0 { MultipleOf1024(p.mantissa, p.exponent); }
  }

  lemma MultipleOf1024(m: int, bits: nat)
    requires bits >= 10
    ensures (m * Pow2(bits)) % 1024 == 0
  {
    Powers();
    hide Pow2;
    Pow2Add(10, bits - 10);
    MulSwap(m, Pow2(bits - 10), 1024);
    MulAssoc(m, 1024, Pow2(bits - 10));
    MultipleMod(m * Pow2(bits - 10), 1024);
  }

  lemma MultipleOf1000(m: int, e: nat)
    requires e >= 3
    ensures (m * Pow10(e)) % 1000 == 0
  {
    Powers();
    hide Pow10;
    Pow10Add(3, e - 3);
    MulSwap(m, Pow10(e - 3), 1000);
    MulAssoc(m, 1000, Pow10(e - 3));
    MultipleMod(m * Pow10(e - 3), 1000);
  }

  // m * 10^e = whole with e a multiple of three and m not a multiple of 1000.
  lemma ThousandsExponent(m: int, e: int, whole: int)
    requires e >= -9 && e % 3 == 0 && m % 1000 != 0
    requires m * Pow10(e + 9) == whole * Pow10(9)
    ensures e >= 0 && (e == 0 <==> whole % 1000 != 0) && (e == 0 ==> m == whole)
  {
    if e >= 0 {
      NanosOfShift(m, 0, e);
      MulCancel(m * Pow10(e), whole, Pow10(9));
      if e > 0 { MultipleOf1000(m, e); }
    } else {
      var k := -e;
      NanosOfShift(whole, e, k);
      MulCancel(m, whole * Pow10(k), Pow10(e + 9));
      MultipleOf1000(whole, k);
    }
  }

  // The decimal form of a whole number has exponent zero exactly when 1000 does not divide it.
  lemma DecimalExponentZero(q: Quantity, whole: int)
    requires IsNormal(q.amount) && q.amount.value != 0 && !PrintsAsBinary(q)
    requires Nanos(q.amount) == whole * 1_000_000_000
    ensures var p := Printed(q);
      && InDecimalTable(p.exponent) && p.exponent >= 0
      && (p.exponent == 0 <==> whole % 1000 != 0) && (p.exponent == 0 ==> p.mantissa == whole)
  {
    PrintedDecimal(q);
    Powers();
    ThousandsExponent(Printed(q).mantissa, Printed(q).exponent, whole);
  }

  lemma SuffixChangesText(x: int, y: int, suffix: string)
    requires suffix != "" && !IsDigit(suffix[|suffix| - 1])
    ensures IntToString(x) != IntToString(y) + suffix
  {
    var s, t := IntToString(x), IntToString(y) + suffix;
    assert IsDigit(s[|s| - 1]);
    assert t[|t| - 1] == suffix[|suffix| - 1];
  }

  /**
   * Printing is not idempotent on text: "1.953125Ki" prints "2000", which prints "2k" when
   * read back. The text survives exactly when the quantity is not one of those whole numbers.
   */
  lemma TextIsStableExactly(q: Quantity)
    requires IsNormal(q.amount)
    ensures Parse(ToString(q)).Success?
    ensures ToString(Parse(ToString(q)).value) == ToString(q) <==> !LosesItsText(q)
  {
    PrintThenParse(q);
    if q.amount.value == 0 {
      assert Nanos(q.amount) == 0;
    } else {
      LosesItsTextMeans(q);
      if PrintsAsBinary(q) && Printed(q).exponent == 0 { BareBinaryText(q); } else { SuffixedText(q); }
    }
  }

  lemma SuffixedText(q: Quantity)
    requires IsNormal(q.amount) && q.amount.value != 0
    requires PrintsAsBinary(q) ==> Printed(q).exponent != 0
    ensures ToString(Quantity(q.amount, ReparsedFormat(q))) == ToString(q)
  {}

  lemma BareBinaryText(q: Quantity)
    requires IsNormal(q.amount) && q.amount.value != 0 && PrintsAsBinary(q) && Printed(q).exponent == 0
    ensures ToString(Quantity(q.amount, DecimalSI)) == ToString(q) <==> Printed(q).mantissa % 1000 != 0
  {
    var r := Quantity(q.amount, DecimalSI);
    var whole := Printed(q).mantissa;
    PrintsAsBinaryInNanos(q);
    BinaryExponentZero(q);
    DecimalExponentZero(r, whole);
    var suffix := ConstructSuffix(Ten, Printed(r).exponent, DecimalSI);
    assert ToString(q) == IntToString(whole) by { assert IntToString(whole) + "" == IntToString(whole); }
    if whole % 1000 == 0 {
      DecimalSuffixRoundTrip(Printed(r).exponent);
      assert IsSuffixLetter(suffix[0]) && !IsDigit(suffix[0]);
      SuffixChangesText(whole, Printed(r).mantissa, suffix);
    } else {
      assert IntToString(whole) + suffix == IntToString(whole);
    }
  }

  lemma TwoThousand(q: Quantity)
    requires q.amount.value == 2 && q.amount.scale == 3 && q.format == BinarySI
    ensures IsNormal(q.amount) && LosesItsText(q)
  {
    LargePowers();
    hide Pow10;
  }

  /** A concrete quantity whose text is lost: 2000 bytes in BinarySI. */
  lemma TextIsLostForTwoThousand(q: Quantity)
    requires q.amount.value == 2 && q.amount.scale == 3 && q.format == BinarySI
    ensures IsNormal(q.amount) && Parse(ToString(q)).Success?
    ensures ToString(Parse(ToString(q)).value) != ToString(q)
  {
    TwoThousand(q);
    TextIsStableExactly(q);
  }
}
