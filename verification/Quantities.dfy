/**
 * Quantities: suffixes, parsing, and the canonical printer, with the meaning of parsing
 * given by the grammar of numerals and the printer inverted by the parser.
 */
module Quantities {
  import opened IntegerMath
  import opened DecimalText
  import opened Results
  import opened Amounts
  import opened QuantityScanner

  datatype Format = DecimalExponent | BinarySI | DecimalSI

  /** An immutable quantity: its amount and the suffix family remembered for printing. */
  datatype Quantity = Quantity(amount: Amount, format: Format)

  const ZERO := Quantity(Amount(0, 0), DecimalSI)

  datatype Base = Ten | Two

  datatype Unit = Unit(base: Base, exponent: int, format: Format)

  // ----- suffixes -----

  /** Number(text) for the text after e or E, as the scanner can produce it: [sign] digits. */
  function ParseExponent(text: string): Option<int> {
    var signed := text != "" && IsSignChar(text[0]);
    var digits := if signed then text[1..] else text;
    if digits == "" || !AllDigits(digits) then None
    else if signed && text[0] == '-' then Some(0 - DigitsValue(digits))
    else Some(DigitsValue(digits))
  }

  /** One-letter suffixes and the power of ten each stands for. */
  function DecimalLetter(c: char): Option<int> {
    if c == 'n' then Some(-9)
    else if c == 'u' then Some(-6)
    else if c == 'm' then Some(-3)
    else if c == 'k' then Some(3)
    else if c == 'M' then Some(6)
    else if c == 'G' then Some(9)
    else if c == 'T' then Some(12)
    else if c == 'P' then Some(15)
    else if c == 'E' then Some(18)
    else None
  }

  /** The letter before i in a two-letter suffix and the power of two it stands for. */
  function BinaryLetter(c: char): Option<int> {
    if c == 'K' then Some(10)
    else if c == 'M' then Some(20)
    else if c == 'G' then Some(30)
    else if c == 'T' then Some(40)
    else if c == 'P' then Some(50)
    else if c == 'E' then Some(60)
    else None
  }

  function InterpretSuffix(suffix: string): Result<Unit, ErrorCode> {
    if suffix == "" then Success(Unit(Ten, 0, DecimalSI))
    else if |suffix| == 1 && DecimalLetter(suffix[0]).Some? then
      Success(Unit(Ten, DecimalLetter(suffix[0]).value, DecimalSI))
    else if |suffix| == 2 && suffix[1] == 'i' && BinaryLetter(suffix[0]).Some? then
      Success(Unit(Two, BinaryLetter(suffix[0]).value, BinarySI))
    else if |suffix| > 1 && (suffix[0] == 'e' || suffix[0] == 'E') then
      match ParseExponent(suffix[1..])
      case Some(exp) => Success(Unit(Ten, exp, DecimalExponent))
      case None => Failure(BadSuffix)
    else Failure(BadSuffix)
  }

  function ConstructSuffix(base: Base, exponent: int, format: Format): string {
    match format
    case DecimalSI =>
      if base == Two then ""
      else if exponent == -9 then "n"
      else if exponent == -6 then "u"
      else if exponent == -3 then "m"
      else if exponent == 3 then "k"
      else if exponent == 6 then "M"
      else if exponent == 9 then "G"
      else if exponent == 12 then "T"
      else if exponent == 15 then "P"
      else if exponent == 18 then "E"
      else ""
    case BinarySI =>
      if base == Ten then ""
      else if exponent == 10 then "Ki"
      else if exponent == 20 then "Mi"
      else if exponent == 30 then "Gi"
      else if exponent == 40 then "Ti"
      else if exponent == 50 then "Pi"
      else if exponent == 60 then "Ei"
      else ""
    case DecimalExponent =>
      if base == Two || exponent == 0 then "" else "e" + IntToString(exponent)
  }

  /** The exponents the decimal suffix table spells. */
  predicate InDecimalTable(exponent: int) { -9 <= exponent <= 18 && exponent % 3 == 0 }

  predicate InBinaryTable(bits: int) { 0 <= bits <= 60 && bits % 10 == 0 }

  lemma IntToStringIsExponent(x: int)
    ensures var t := IntToString(x);
      ParseExponent(t) == Some(x) && IsExponentText(t) && t != ""
  {
    var d := NatToString(Abs(x));
    NatToStringValue(Abs(x));
    RunFromIs(d, Digit, 0, |d|);
    var t := IntToString(x);
    if x < 0 { assert t[1..] == d; } else { assert IsDigit(t[0]); }
  }

  lemma DecimalSuffixRoundTrip(exponent: int)
    requires InDecimalTable(exponent) && exponent != 0
    ensures var s := ConstructSuffix(Ten, exponent, DecimalSI);
      |s| == 1 && IsSuffixLetter(s[0]) && DecimalLetter(s[0]) == Some(exponent)
  {}

  lemma BinarySuffixRoundTrip(bits: int)
    requires InBinaryTable(bits) && bits != 0
    ensures var s := ConstructSuffix(Two, bits, BinarySI);
      |s| == 2 && IsSuffixLetter(s[0]) && s[1] == 'i' && BinaryLetter(s[0]) == Some(bits)
  {}

  lemma ExponentSuffixRoundTrip(exponent: int)
    requires exponent != 0
    ensures var s := ConstructSuffix(Ten, exponent, DecimalExponent);
      && IsSuffixText(s) && StartsSuffix(s) && s != ""
      && InterpretSuffix(s) == Success(Unit(Ten, exponent, DecimalExponent))
  {
    var t := IntToString(exponent);
    var s := "e" + t;
    IntToStringIsExponent(exponent);
    assert s[1..] == t && s[1] == t[0];
    assert !IsSuffixLetter(t[0]);
    RunFromIs(s, Letter, 0, 1);
  }

  /** A table exponent survives printing and reading its suffix; an exponent suffix always does. */
  lemma SuffixRoundTrip(base: Base, exponent: int, format: Format)
    requires base == (if format == BinarySI then Two else Ten)
    requires format == DecimalSI ==> InDecimalTable(exponent)
    requires format == BinarySI ==> InBinaryTable(exponent)
    ensures var s := ConstructSuffix(base, exponent, format);
      && IsSuffixText(s) && StartsSuffix(s)
      && InterpretSuffix(s) == Success(
           if exponent == 0 then Unit(Ten, 0, DecimalSI) else Unit(base, exponent, format))
  {
    var s := ConstructSuffix(base, exponent, format);
    if exponent == 0 {
      EmptySuffix();
    } else if format == DecimalExponent {
      ExponentSuffixRoundTrip(exponent);
    } else {
      if format == DecimalSI { DecimalSuffixRoundTrip(exponent); } else { BinarySuffixRoundTrip(exponent); }
      LettersAreSuffixText(s);
    }
  }

  lemma LettersAreSuffixText(s: string)
    requires AllOf(s, Letter)
    ensures IsSuffixText(s)
  {
    RunFromIs(s, Letter, 0, |s|);
    assert s[|s|..] == "";
  }

  // ----- parsing -----

  /** The steps after the digits and the suffix are known. */
  function Build(value: int, scale: int, unitFormat: Format): Quantity {
    var rounded := RoundToMinScale(value, scale, MIN_SCALE).amount;
    var capped := CapToMaxAllowed(rounded.value, rounded.scale).amount;
    var format := if unitFormat == BinarySI && IsNonZeroAbsLessThanOne(capped) then DecimalSI else unitFormat;
    Quantity(Normalized(capped.value, capped.scale), format)
  }

  function ParseFromParts(parts: ParsedParts): Result<Quantity, ErrorCode> {
    var unit :- InterpretSuffix(parts.suffix);
    var shifted := parts.num + parts.denom;
    if !AllDigits(shifted) then Failure(Numeric)
    else
      var unscaled := if parts.positive then DigitsValue(shifted) else 0 - DigitsValue(shifted);
      if unit.base == Two && unit.exponent < 0 then Failure(BadSuffix)
      else
        var value := if unit.base == Two then unscaled * Pow2(unit.exponent) else unscaled;
        var scale := if unit.base == Two then -|parts.denom| else unit.exponent - |parts.denom|;
        Success(Build(value, scale, unit.format))
  }

  function Parse(input: string): Result<Quantity, ErrorCode> {
    if input == "" then Failure(FormatWrong)
    else if IsWhitespacePresent(input) then Failure(FormatWrong)
    else if input == "0" then Success(ZERO)
    else
      var parts :- Scan(input);
      ParseFromParts(parts)
  }

  // ----- what a text denotes -----

  /** A text of the grammar: a numeral whose suffix names a unit. */
  predicate IsQuantityText(n: Numeral) {
    IsNumeral(n) && Text(n) != "" && InterpretSuffix(n.suffix).Success?
  }

  /** The integer whose value * 10^DenotedScale is the number the text denotes. */
  function DenotedValue(n: Numeral): int
    requires IsQuantityText(n)
  {
    LeadingZeros("", n.whole);
    DigitsValueConcat(n.whole, n.frac);
    var unit := InterpretSuffix(n.suffix).value;
    var digits := if n.sign == Minus then 0 - DigitsValue(n.whole + n.frac) else DigitsValue(n.whole + n.frac);
    if unit.base == Two && unit.exponent >= 0 then digits * Pow2(unit.exponent) else digits
  }

  function DenotedScale(n: Numeral): int
    requires IsQuantityText(n)
  {
    var unit := InterpretSuffix(n.suffix).value;
    if unit.base == Two then -|n.frac| else unit.exponent - |n.frac|
  }

  /** Parsing means: the denoted number, rounded away from zero to nano, clamped to +-(2^63 - 1). */
  function DenotedNanos(n: Numeral): int
    requires IsQuantityText(n)
  {
    Clamp(RoundedNanos(DenotedValue(n), DenotedScale(n)))
  }

  lemma SuffixesStartWithLetters(suffix: string)
    requires InterpretSuffix(suffix).Success?
    ensures StartsSuffix(suffix)
    ensures var unit := InterpretSuffix(suffix).value;
      (unit.base == Two <==> unit.format == BinarySI) && (unit.base == Two ==> unit.exponent >= 0)
  {}

  /** Every text of the grammar parses, to a normal quantity with the denoted number. */
  lemma ParseMeaning(n: Numeral)
    requires IsQuantityText(n)
    ensures var r := Parse(Text(n));
      && r.Success? && IsNormal(r.value.amount)
      && Nanos(r.value.amount) == DenotedNanos(n)
      && var unit := InterpretSuffix(n.suffix).value;
         r.value.format == (
           if unit.format == BinarySI && 0 < Abs(DenotedNanos(n)) < 1_000_000_000 then DecimalSI else unit.format)
  {
    ScanAcceptsNumerals(n);
    assert IsNormal(ZERO.amount) && Nanos(ZERO.amount) == 0;
    hide Scan, Pieces, PartsOf, ParseFromParts, DenotedNanos, InterpretSuffix, Text, IsWhitespacePresent, IsNumeral, IsNormal, Nanos;
    if IsWhitespacePresent(Text(n)) { WhitespaceGuardIsRedundant(Text(n)); }
    if Text(n) == "0" { ZeroTextMeaning(n); } else { PartsMeaning(n); }
  }

  /** A text without a digit reads as zero, whatever its sign, point and suffix. */
  lemma DigitlessTextsAreZero(n: Numeral)
    requires IsQuantityText(n) && n.whole == "" && n.frac == ""
    ensures Parse(Text(n)).Success? && Parse(Text(n)).value.amount.value == 0
  {
    ParseMeaning(n);
    NothingDenotesZero(n);
    hide Parse, Text, IsQuantityText, DenotedNanos, IsNormal, Nanos;
    ZeroNanos(Parse(Text(n)).value.amount);
  }

  lemma ZeroNanos(a: Amount)
    requires IsNormal(a) && Nanos(a) == 0
    ensures a.value == 0
  {
    MulCancel(0, a.value, Pow10(a.scale + 9));
  }

  lemma NothingDenotesZero(n: Numeral)
    requires IsQuantityText(n) && n.whole == "" && n.frac == ""
    ensures DenotedNanos(n) == 0
  {
    hide InterpretSuffix, Text, IsNumeral, Pow2, Pow10;
    assert DenotedValue(n) == 0;
    if DenotedScale(n) < MIN_SCALE { RoundAwayOfMultiple(0, Pow10(-9 - DenotedScale(n))); }
  }

  lemma PlusPointAndSuffixAreZero()
    ensures Parse("+").Success? && Parse("+").value.amount.value == 0
    ensures Parse(".").Success? && Parse(".").value.amount.value == 0
    ensures Parse("Ki").Success? && Parse("Ki").value.amount.value == 0
  {
    var plus := Numeral(Plus, "", false, "", "");
    var point := Numeral(Unsigned, "", true, "", "");
    var kibi := Numeral(Unsigned, "", false, "", "Ki");
    assert IsQuantityText(plus) && IsQuantityText(point) && IsQuantityText(kibi);
    assert Text(plus) == "+" && Text(point) == "." && Text(kibi) == "Ki";
    hide Parse, Text, IsQuantityText;
    DigitlessTextsAreZero(plus);
    DigitlessTextsAreZero(point);
    DigitlessTextsAreZero(kibi);
  }

  lemma PartsMeaning(n: Numeral)
    requires IsQuantityText(n)
    ensures var r := ParseFromParts(PartsOf(n));
      && r.Success? && IsNormal(r.value.amount)
      && Nanos(r.value.amount) == DenotedNanos(n)
      && var unit := InterpretSuffix(n.suffix).value;
         r.value.format == (
           if unit.format == BinarySI && 0 < Abs(DenotedNanos(n)) < 1_000_000_000 then DecimalSI else unit.format)
  {
    SuffixesStartWithLetters(n.suffix);
    PartsDigits(n);
    BuildMeaning(DenotedValue(n), DenotedScale(n), InterpretSuffix(n.suffix).value.format);
    PartsBuild(n);
  }

  lemma BuildMeaning(value: int, scale: int, unitFormat: Format)
    ensures var q := Build(value, scale, unitFormat);
      var nanos := Clamp(RoundedNanos(value, scale));
      && IsNormal(q.amount) && Nanos(q.amount) == nanos
      && q.format == (if unitFormat == BinarySI && 0 < Abs(nanos) < 1_000_000_000 then DecimalSI else unitFormat)
  {
    ConstructedIsClampedRounding(value, scale);
    var rounded := RoundToMinScale(value, scale, MIN_SCALE).amount;
    var capped := CapToMaxAllowed(rounded.value, rounded.scale).amount;
    RoundToMinScaleNanos(value, scale);
    CapNanos(rounded);
    LessThanOneInNanos(capped);
  }

  lemma PartsBuild(n: Numeral)
    requires IsQuantityText(n)
    ensures ParseFromParts(PartsOf(n)) ==
      Success(Build(DenotedValue(n), DenotedScale(n), InterpretSuffix(n.suffix).value.format))
  {
    hide Build, Pow10, Pow2, InterpretSuffix, DigitsValue, StripZeros;
    SuffixesStartWithLetters(n.suffix);
    PartsDigits(n);
  }

  // The scanned digits, leading zeros gone, spell the same number as the text's own digits.
  lemma PartsDigits(n: Numeral)
    requires IsQuantityText(n)
    ensures var parts := PartsOf(n);
      && parts.suffix == n.suffix && parts.denom == n.frac && parts.positive == (n.sign != Minus)
      && AllDigits(parts.num + parts.denom) && AllDigits(n.whole + n.frac)
      && DigitsValue(parts.num + parts.denom) == DigitsValue(n.whole + n.frac)
  {
    StripZerosValue(n.whole, n.frac);
    if !n.dot && n.suffix == "" && AllZeros(n.whole) {
      ZerosValue("0" + "");
      ZerosValue(n.whole + n.frac);
    }
  }

  lemma ZeroTextMeaning(n: Numeral)
    requires IsQuantityText(n) && Text(n) == "0"
    ensures DenotedNanos(n) == 0 && InterpretSuffix(n.suffix).value.format == DecimalSI
  {
    PiecesOfText(n);
    ZeroPieces();
    hide Pieces, RunFrom, Pow10, Pow2;
    LeadingZeros("0", "");
    assert n.whole + n.frac == "0" + "";
  }

  lemma ScannedSuffix(input: string)
    requires input != "" && IsSuffixText(Pieces(input).suffix)
    ensures var n := Pieces(input);
      && Scan(input) == Success(PartsOf(n)) && PartsOf(n).suffix == n.suffix
      && (InterpretSuffix(n.suffix).Success? <==> IsQuantityText(n))
  {
    var n := Pieces(input);
    PiecesConcatenate(input);
    PiecesAreDigits(input);
    if InterpretSuffix(n.suffix).Success? { SuffixesStartWithLetters(n.suffix); }
  }

  lemma ZeroPieces()
    ensures Pieces("0") == Numeral(Unsigned, "0", false, "", "") && IsQuantityText(Pieces("0"))
  {
    RunFromIs("0", Digit, 0, 1);
    assert "0"[0..] == "0" && "0"[..1] == "0" && "0"[1..] == "";
    EmptySuffix();
  }

  lemma MalformedOutcome(input: string)
    requires input == "" || !IsSuffixText(Pieces(input).suffix)
    ensures Parse(input) == Failure(FormatWrong)
  {
    if input == "0" { ZeroPieces(); }
  }

  lemma ScannedOutcome(input: string)
    requires input != "" && IsSuffixText(Pieces(input).suffix)
    ensures Parse(input) == if input == "0" then Success(ZERO) else ParseFromParts(PartsOf(Pieces(input)))
  {
    if IsWhitespacePresent(input) { WhitespaceGuardIsRedundant(input); }
    ScannedSuffix(input);
  }

  /** Parse fails exactly on texts outside the grammar, with the code of the first thing wrong. */
  lemma ParseOutcome(input: string)
    ensures var n := Pieces(input);
      && Text(n) == input
      && (Parse(input).Success? <==> IsQuantityText(n))
      && (Parse(input) == Failure(FormatWrong) <==> input == "" || !IsSuffixText(n.suffix))
      && (Parse(input) == Failure(BadSuffix) <==>
            input != "" && IsSuffixText(n.suffix) && InterpretSuffix(n.suffix).Failure?)
      && Parse(input) != Failure(Numeric)
  {
    var n := Pieces(input);
    PiecesConcatenate(input);
    if input == "" || !IsSuffixText(n.suffix) {
      MalformedOutcome(input);
    } else {
      ScannedOutcome(input);
      ScannedSuffix(input);
      SuffixErrorCode(n.suffix);
      if IsQuantityText(n) { PartsMeaning(n); }
      if input == "0" { ZeroPieces(); }
    }
  }

  lemma SuffixErrorCode(suffix: string)
    ensures InterpretSuffix(suffix).Failure? ==> InterpretSuffix(suffix) == Failure(BadSuffix)
  {}
}
