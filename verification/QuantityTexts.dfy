/**
 * Quantity texts read and printed character by character: what each suffix stands for in nanos,
 * which texts are quantities, and which suffix each format prints.
 */
module QuantityTexts {
  import opened IntegerMath
  import opened DecimalText
  import opened Results
  import opened Amounts
  import opened QuantityScanner
  import opened Quantities

  // ----- digits -----

  /** Digits read from left to right in base ten, each by its distance from '0'. */
  lemma DigitsReadLeftToRight(s: string, c: char)
    requires AllDigits(s)
    ensures AllDigits(s + [c]) <==> '0' <= c <= '9'
    ensures '0' <= c <= '9' ==> DigitsValue(s + [c]) == 10 * DigitsValue(s) + (c as int - 48)
    ensures DigitsValue("") == 0
  {
    assert (s + [c])[..|s|] == s;
    if '0' <= c <= '9' {
      assert AllDigits(s + [c]);
    } else {
      assert !IsDigit((s + [c])[|s|]);
    }
  }

  // ----- the suffix table -----

  /** The suffixes with a fixed unit, the unit in nanos, and the format they are remembered as. */
  predicate IsTableUnit(suffix: string, nanos: nat, format: Format) {
    || (format == DecimalSI && (
          || (suffix == "n" && nanos == 1)
          || (suffix == "u" && nanos == 1_000)
          || (suffix == "m" && nanos == 1_000_000)
          || (suffix == "" && nanos == 1_000_000_000)
          || (suffix == "k" && nanos == 1_000_000_000_000)
          || (suffix == "M" && nanos == 1_000_000_000_000_000)
          || (suffix == "G" && nanos == 1_000_000_000_000_000_000)
          || (suffix == "T" && nanos == 1_000_000_000_000_000_000_000)
          || (suffix == "P" && nanos == 1_000_000_000_000_000_000_000_000)
          || (suffix == "E" && nanos == 1_000_000_000_000_000_000_000_000_000)))
    || (format == BinarySI && (
          || (suffix == "Ki" && nanos == 1024 * 1_000_000_000)
          || (suffix == "Mi" && nanos == 1024 * 1024 * 1_000_000_000)
          || (suffix == "Gi" && nanos == 1024 * 1024 * 1024 * 1_000_000_000)
          || (suffix == "Ti" && nanos == 1024 * 1024 * 1024 * 1024 * 1_000_000_000)
          || (suffix == "Pi" && nanos == 1024 * 1024 * 1024 * 1024 * 1024 * 1_000_000_000)
          || (suffix == "Ei" && nanos == 1024 * 1024 * 1024 * 1024 * 1024 * 1024 * 1_000_000_000)))
  }

  /** Letter e or E, then maybe a sign, then digits. */
  predicate IsExponentSuffix(suffix: string, exponent: int) {
    && |suffix| > 1 && (suffix[0] == 'e' || suffix[0] == 'E')
    && (|| (suffix[1] == '-' && |suffix| > 2 && AllDigits(suffix[2..]) && exponent == 0 - DigitsValue(suffix[2..]))
        || (suffix[1] == '+' && |suffix| > 2 && AllDigits(suffix[2..]) && exponent == DigitsValue(suffix[2..]))
        || (suffix[1] != '-' && suffix[1] != '+' && AllDigits(suffix[1..]) && exponent == DigitsValue(suffix[1..])))
  }

  /** The bound of the clamp: 2^63 - 1 units, in nanos. */
  const LARGEST: int := 9_223_372_036_854_775_807 * 1_000_000_000

  function Bounded(nanos: int): int { if nanos > LARGEST then LARGEST else if nanos < -LARGEST then -LARGEST else nanos }

  /** The nanos of an amount, spelled out. */
  function NanosOf(a: Amount): int
    requires a.scale >= -9
  {
    a.value * Pow10(a.scale + 9)
  }

  /** The shape of any text of a quantity: sign, digits, maybe a point and digits, suffix. */
  predicate IsShaped(n: Numeral) {
    Text(n) != "" && AllDigits(n.whole) && AllDigits(n.frac) && (!n.dot ==> n.frac == "")
  }

  /** The digits of a text as one signed integer. */
  function SignedDigits(n: Numeral): int
    requires IsShaped(n)
  {
    assert AllDigits(n.whole + n.frac);
    if n.sign == Minus then 0 - DigitsValue(n.whole + n.frac) else DigitsValue(n.whole + n.frac)
  }

  lemma UnitsInNanos()
    ensures Pow10(0) == 1 && Pow10(3) == 1_000 && Pow10(6) == 1_000_000 && Pow10(9) == 1_000_000_000
    ensures Pow10(12) == 1_000_000_000_000 && Pow10(15) == 1_000_000_000_000_000
    ensures Pow10(18) == 1_000_000_000_000_000_000 && Pow10(21) == 1_000_000_000_000_000_000_000
    ensures Pow10(24) == 1_000_000_000_000_000_000_000_000 && Pow10(27) == 1_000_000_000_000_000_000_000_000_000
    ensures Pow2(0) == 1 && Pow2(10) == 1024 && Pow2(20) == 1024 * 1024 && Pow2(30) == 1024 * 1024 * 1024
    ensures Pow2(40) == 1024 * 1024 * 1024 * 1024 && Pow2(50) == 1024 * 1024 * 1024 * 1024 * 1024
    ensures Pow2(60) == 1024 * 1024 * 1024 * 1024 * 1024 * 1024
  {
    Powers();
    hide Pow10, Pow2;
    Pow10Add(3, 9);
    Pow10Add(6, 9);
    Pow10Add(9, 9);
    Pow10Add(3, 18);
    Pow10Add(6, 18);
    Pow10Add(9, 18);
    Pow2Add(10, 10);
    Pow2Add(10, 20);
    Pow2Add(10, 30);
    Pow2Add(10, 40);
    Pow2Add(10, 50);
  }

  // The unit a table suffix is interpreted as.
  lemma TableUnitRead(suffix: string, nanos: nat, format: Format)
    requires IsTableUnit(suffix, nanos, format)
    ensures IsSuffixText(suffix) && StartsSuffix(suffix) && InterpretSuffix(suffix).Success?
    ensures var unit := InterpretSuffix(suffix).value;
      && unit.format == format
      && if unit.base == Two then unit.exponent >= 0 && nanos == Pow2(unit.exponent) * 1_000_000_000
         else unit.exponent >= -9 && nanos == Pow10(unit.exponent + 9)
  {
    UnitsInNanos();
    hide Pow10, Pow2, ParseExponent, IsSuffixText;
    assert AllOf(suffix, Letter);
    LettersAreSuffixText(suffix);
  }

  lemma ExponentRead(suffix: string, exponent: int)
    requires IsExponentSuffix(suffix, exponent)
    ensures IsSuffixText(suffix) && StartsSuffix(suffix)
    ensures InterpretSuffix(suffix) == Success(Unit(Ten, exponent, DecimalExponent))
  {
    var tail := suffix[1..];
    var signed := IsSignChar(tail[0]);
    var digits := if signed then tail[1..] else tail;
    assert suffix[2..] == tail[1..];
    assert AllDigits(digits) && digits != "";
    RunFromIs(digits, Digit, 0, |digits|);
    assert !IsSuffixLetter(tail[0]) by { if !signed { assert IsDigit(tail[0]); } }
    RunFromIs(suffix, Letter, 0, 1);
  }

  // ----- what a text is worth -----

  // Any rounding of digits in a unit of nanos.
  lemma RoundedInUnit(v: int, exponent: int, digits: nat)
    requires exponent >= -9
    ensures RoundedNanos(v, exponent - digits) == RoundAway(v * Pow10(exponent + 9), Pow10(digits))
  {
    hide Pow10, RoundAway;
    var up := exponent + 9;
    if up >= digits {
      Pow10Add(up - digits, digits);
      MulAssoc(v, Pow10(up - digits), Pow10(digits));
      RoundAwayOfMultiple(v * Pow10(up - digits), Pow10(digits));
    } else {
      Pow10Add(digits - up, up);
      RoundAwayCancel(v, Pow10(digits - up), Pow10(up));
    }
  }

  lemma RoundedBinary(v: int, factor: nat, digits: nat)
    ensures RoundedNanos(v * factor, 0 - digits) == RoundAway(v * (factor * 1_000_000_000), Pow10(digits))
  {
    RoundedInUnit(v * factor, 0, digits);
    Powers();
    hide Pow10, RoundAway, RoundedNanos;
    MulAssoc(v, factor, 1_000_000_000);
  }

  // The digits, unit and scale a text denotes.
  lemma DenotedParts(n: Numeral, unit: Unit)
    requires IsShaped(n) && IsSuffixText(n.suffix) && StartsSuffix(n.suffix)
    requires InterpretSuffix(n.suffix) == Success(unit) && (unit.base == Two ==> unit.exponent >= 0)
    ensures IsQuantityText(n)
    ensures DenotedValue(n) == if unit.base == Two then SignedDigits(n) * Pow2(unit.exponent) else SignedDigits(n)
    ensures DenotedScale(n) == (if unit.base == Two then 0 else unit.exponent) - |n.frac|
  {
    hide Pow2, InterpretSuffix, IsSuffixText, StartsSuffix, Text, DigitsValue;
    assert AllDigits(n.whole + n.frac);
  }

  // Parsing in terms of the value and scale denoted.
  lemma ParsedParts(n: Numeral, value: int, scale: int, format: Format)
    requires IsQuantityText(n) && DenotedValue(n) == value && DenotedScale(n) == scale
    requires InterpretSuffix(n.suffix).value.format == format
    ensures var r := Parse(Text(n));
      var worth := Bounded(RoundedNanos(value, scale));
      && r.Success? && r.value.amount.scale >= -9 && NanosOf(r.value.amount) == worth
      && r.value.format == (if format == BinarySI && 0 < Abs(worth) < 1_000_000_000 then DecimalSI else format)
  {
    hide Parse, Text, InterpretSuffix, DenotedValue, DenotedScale, RoundedNanos, Pow10, IsQuantityText, IsNormal, Nanos, NanosOf,
      Bounded, Clamp;
    ParseMeaning(n);
    SameNanos(Parse(Text(n)).value.amount);
    SameBound(RoundedNanos(value, scale));
  }

  lemma SameNanos(a: Amount)
    requires IsNormal(a)
    ensures a.scale >= -9 && NanosOf(a) == Nanos(a)
  {}

  lemma SameBound(nanos: int)
    ensures Bounded(nanos) == Clamp(nanos)
  {}

  /** A text whose suffix is in the table is its digits times the literal unit, rounded away from zero to nano and clamped. */
  lemma ParsedInTableUnit(n: Numeral, nanos: nat, format: Format)
    requires IsShaped(n) && IsTableUnit(n.suffix, nanos, format)
    ensures var r := Parse(Text(n));
      var worth := Bounded(RoundAway(SignedDigits(n) * nanos, Pow10(|n.frac|)));
      && r.Success? && r.value.amount.scale >= -9 && NanosOf(r.value.amount) == worth
      && r.value.format == (if format == BinarySI && 0 < Abs(worth) < 1_000_000_000 then DecimalSI else format)
  {
    hide Parse, Text, Pow10, Pow2, RoundAway, RoundedNanos, InterpretSuffix, IsTableUnit, IsSuffixText, StartsSuffix, IsShaped,
      SignedDigits, DenotedValue, DenotedScale, IsQuantityText, NanosOf, Bounded;
    TableUnitRead(n.suffix, nanos, format);
    var unit := InterpretSuffix(n.suffix).value;
    DenotedParts(n, unit);
    if unit.base == Two {
      RoundedBinary(SignedDigits(n), Pow2(unit.exponent), |n.frac|);
      ParsedParts(n, SignedDigits(n) * Pow2(unit.exponent), 0 - |n.frac|, format);
    } else {
      RoundedInUnit(SignedDigits(n), unit.exponent, |n.frac|);
      ParsedParts(n, SignedDigits(n), unit.exponent - |n.frac|, format);
    }
  }

  /** In particular a whole number of a table unit. */
  lemma ParsedWhole(m: nat, suffix: string, nanos: nat, format: Format)
    requires IsTableUnit(suffix, nanos, format)
    ensures var r := Parse(NatToString(m) + suffix);
      r.Success? && r.value.amount.scale >= -9 && NanosOf(r.value.amount) == Bounded(m * nanos)
  {
    var n := Numeral(Unsigned, NatToString(m), false, "", suffix);
    NatToStringValue(m);
    Powers();
    hide NatToString, DigitsValue, IsTableUnit, Parse;
    assert Text(n) == NatToString(m) + suffix && n.whole + n.frac == n.whole;
    ParsedInTableUnit(n, nanos, format);
    RoundAwayOfMultiple(m * nanos, 1);
  }

  /** A text with an exponent suffix is its digits times that power of ten, rounded away from zero to nano and clamped. */
  lemma ParsedWithExponent(n: Numeral, exponent: int)
    requires IsShaped(n) && IsExponentSuffix(n.suffix, exponent)
    ensures var r, up := Parse(Text(n)), exponent - |n.frac| + 9;
      && r.Success? && r.value.format == DecimalExponent && r.value.amount.scale >= -9
      && NanosOf(r.value.amount) == Bounded(
           if up >= 0 then SignedDigits(n) * Pow10(up) else RoundAway(SignedDigits(n), Pow10(-up)))
  {
    hide Parse, Text, IsExponentSuffix, InterpretSuffix, Pow10, RoundAway, IsSuffixText, StartsSuffix, IsShaped, SignedDigits,
      DenotedValue, DenotedScale, IsQuantityText, NanosOf, Bounded;
    ExponentRead(n.suffix, exponent);
    DenotedParts(n, Unit(Ten, exponent, DecimalExponent));
    ParsedParts(n, SignedDigits(n), exponent - |n.frac|, DecimalExponent);
  }

  // ----- which texts are quantities -----

  predicate IsLiteralSuffix(suffix: string) {
    || suffix in ["", "n", "u", "m", "k", "M", "G", "T", "P", "E", "Ki", "Mi", "Gi", "Ti", "Pi", "Ei"]
    || (|suffix| > 1 && (suffix[0] == 'e' || suffix[0] == 'E')
        && var tail := suffix[1..];
           var digits := if tail[0] == '-' || tail[0] == '+' then tail[1..] else tail;
           digits != "" && AllDigits(digits))
  }

  lemma LiteralSuffixes(suffix: string)
    ensures InterpretSuffix(suffix).Success? <==> IsLiteralSuffix(suffix)
  {
    if |suffix| == 1 { assert suffix == [suffix[0]]; }
    if |suffix| == 2 { assert suffix == [suffix[0], suffix[1]]; }
    hide DigitsValue;
  }

  lemma LiteralSuffixIsText(suffix: string)
    requires InterpretSuffix(suffix).Success?
    ensures IsSuffixText(suffix) && StartsSuffix(suffix)
  {
    LiteralSuffixes(suffix);
    SuffixesStartWithLetters(suffix);
    hide InterpretSuffix, IsSuffixText;
    if |suffix| > 1 && (suffix[0] == 'e' || suffix[0] == 'E') && suffix != "Ei" {
      ExponentShape(suffix);
    } else {
      assert AllOf(suffix, Letter);
      LettersAreSuffixText(suffix);
    }
  }

  lemma ExponentShape(suffix: string)
    requires |suffix| > 1 && (suffix[0] == 'e' || suffix[0] == 'E') && suffix != "Ei" && IsLiteralSuffix(suffix)
    ensures IsSuffixText(suffix)
  {
    var tail := suffix[1..];
    var negative, signed := tail[0] == '-', tail[0] == '-' || tail[0] == '+';
    var digits := if signed then tail[1..] else tail;
    assert suffix[2..] == tail[1..];
    ExponentRead(suffix, if negative then 0 - DigitsValue(digits) else DigitsValue(digits));
  }

  /** A text is a quantity exactly when it has the shape and one of the literal suffixes. */
  lemma AcceptedTexts(input: string)
    ensures Parse(input).Success? <==> exists n :: Text(n) == input && IsShaped(n) && IsLiteralSuffix(n.suffix)
  {
    ParseOutcome(input);
    PiecesAreDigits(input);
    hide Parse, Pieces, IsLiteralSuffix, InterpretSuffix;
    if Parse(input).Success? {
      LiteralSuffixes(Pieces(input).suffix);
      assert IsShaped(Pieces(input));
    }
    if n :| Text(n) == input && IsShaped(n) && IsLiteralSuffix(n.suffix) {
      LiteralSuffixes(n.suffix);
      LiteralSuffixIsText(n.suffix);
      ParseMeaning(n);
    }
  }

  /** What is left over is shaped like a suffix when it is some of these letters, then maybe a sign, then digits. */
  lemma SuffixShape(suffix: string, letters: nat)
    requires letters <= |suffix| && forall i :: 0 <= i < letters ==> suffix[i] in "eEinumkKMGTP"
    requires letters < |suffix| ==> suffix[letters] !in "eEinumkKMGTP"
    ensures var tail := suffix[letters..];
      var digits := if tail != "" && (tail[0] == '-' || tail[0] == '+') then tail[1..] else tail;
      IsSuffixText(suffix) <==> AllDigits(digits)
  {
    LettersAre();
    hide IsSuffixLetter;
    RunFromIs(suffix, Letter, 0, letters);
    var tail := suffix[letters..];
    DigitsToTheEnd(tail);
    DigitsToTheEnd(if tail != "" && (tail[0] == '-' || tail[0] == '+') then tail[1..] else tail);
    hide Run;
  }

  lemma DigitsToTheEnd(s: string)
    ensures Run(s, Digit) == |s| <==> AllDigits(s)
  {
    RunFacts(s, Digit);
    if AllDigits(s) { RunFromIs(s, Digit, 0, |s|); }
  }

  lemma LettersAre()
    ensures forall c :: IsSuffixLetter(c) <==> c in "eEinumkKMGTP"
  {
    forall c ensures IsSuffixLetter(c) <==> c in "eEinumkKMGTP" {
      var s := "eEinumkKMGTP";
      assert s[0] == 'e' && s[1] == 'E' && s[2] == 'i' && s[3] == 'n' && s[4] == 'u' && s[5] == 'm';
      assert s[6] == 'k' && s[7] == 'K' && s[8] == 'M' && s[9] == 'G' && s[10] == 'T' && s[11] == 'P';
    }
  }

  /** The pieces are taken greedily: nothing that could have been a sign, a digit or the point is left to a later piece. */
  lemma GreedyCut(input: string)
    ensures var n := Pieces(input);
      && Text(n) == input && AllDigits(n.whole) && AllDigits(n.frac) && (!n.dot ==> n.frac == "")
      && (n.sign == Unsigned ==> input == "" || (input[0] != '+' && input[0] != '-'))
      && (n.suffix != "" ==> !('0' <= n.suffix[0] <= '9') && (n.dot || n.suffix[0] != '.'))
  {
    PiecesConcatenate(input);
    PiecesAreDigits(input);
    SuffixStart(input);
    SignTaken(input);
    hide Pieces, Text;
  }

  lemma SignTaken(input: string)
    ensures Pieces(input).sign == Unsigned ==> input == "" || (input[0] != '+' && input[0] != '-')
  {
    hide Run;
  }

  // The suffix begins where a run of digits ended.
  lemma SuffixStart(input: string)
    ensures var n := Pieces(input); n.suffix != "" ==> !('0' <= n.suffix[0] <= '9') && (n.dot || n.suffix[0] != '.')
  {
    var n := Pieces(input);
    var afterSign := input[|n.sign.Text()|..];
    RunFacts(afterSign, Digit);
    var rest := afterSign[Run(afterSign, Digit)..];
    if rest != "" && rest[0] == '.' { RunFacts(rest[1..], Digit); }
    hide Run;
  }

  // ----- what each format prints -----

  /** The suffix a table exponent is printed with, per format. */
  lemma PrintedSuffix(suffix: string, exponent: int)
    ensures ConstructSuffix(Ten, 0, DecimalExponent) == "" && ConstructSuffix(Ten, 0, DecimalSI) == ""
    ensures ConstructSuffix(Two, 0, BinarySI) == ""
    ensures exponent != 0 ==> ConstructSuffix(Ten, exponent, DecimalExponent) == "e" + IntToString(exponent)
    ensures (exponent, suffix) in [(-9, "n"), (-6, "u"), (-3, "m"), (3, "k"), (6, "M"), (9, "G"), (12, "T"), (15, "P"), (18, "E")]
      ==> ConstructSuffix(Ten, exponent, DecimalSI) == suffix
    ensures (exponent, suffix) in [(10, "Ki"), (20, "Mi"), (30, "Gi"), (40, "Ti"), (50, "Pi"), (60, "Ei")]
      ==> ConstructSuffix(Two, exponent, BinarySI) == suffix
  {}
}
