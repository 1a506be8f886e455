/**
 * The quantity scanner: from text to sign, numerator digits, fraction digits and suffix,
 * and its partner, an independent grammar of numerals that says exactly what it accepts.
 */
module QuantityScanner {
  import opened DecimalText
  import opened Results

  datatype ErrorCode = FormatWrong | Numeric | BadSuffix

  datatype ParsedParts = ParsedParts(positive: bool, value: string, num: string, denom: string, suffix: string)

  predicate IsZeroChar(c: char) { c == '0' }

  predicate IsSignChar(c: char) { c == '-' || c == '+' }

  predicate IsSuffixLetter(c: char) {
    || c == 'e' || c == 'E' || c == 'i' || c == 'n' || c == 'u' || c == 'm'
    || c == 'k' || c == 'K' || c == 'M' || c == 'G' || c == 'T' || c == 'P'
  }

  /** The three kinds of character the scanner's loops run over. */
  datatype CharClass = Zero | Digit | Letter {
    predicate Has(c: char) {
      match this
      case Zero => IsZeroChar(c)
      case Digit => IsDigit(c)
      case Letter => IsSuffixLetter(c)
    }
  }

  /** The length of the longest prefix made of characters of one class. */
  function Run(s: string, p: CharClass): (n: nat)
    ensures n <= |s|
  {
    RunFrom(s, p, 0)
  }

  function RunFrom(s: string, p: CharClass, i: nat): (n: nat)
    requires i <= |s|
    ensures i <= n <= |s|
    decreases |s| - i
  {
    if i < |s| && p.Has(s[i]) then RunFrom(s, p, i + 1) else i
  }

  predicate AllOf(s: string, p: CharClass) { forall i :: 0 <= i < |s| ==> p.Has(s[i]) }

  predicate StopsRun(s: string, p: CharClass) { s == "" || !p.Has(s[0]) }

  lemma {:induction false} RunFromFacts(s: string, p: CharClass, i: nat)
    requires i <= |s|
    ensures var n := RunFrom(s, p, i);
      (forall j :: i <= j < n ==> p.Has(s[j])) && (n < |s| ==> !p.Has(s[n]))
    decreases |s| - i
  {
    if i < |s| && p.Has(s[i]) { RunFromFacts(s, p, i + 1); }
  }

  lemma RunFacts(s: string, p: CharClass)
    ensures AllOf(s[..Run(s, p)], p) && StopsRun(s[Run(s, p)..], p)
  {
    RunFromFacts(s, p, 0);
  }

  // A run stops at the first character of another class.
  lemma RunOfConcat(w: string, rest: string, p: CharClass)
    requires AllOf(w, p) && StopsRun(rest, p)
    ensures Run(w + rest, p) == |w| && (w + rest)[..|w|] == w && (w + rest)[|w|..] == rest
  {
    var s := w + rest;
    RunFromIs(s, p, 0, |w|);
  }

  lemma {:induction false} RunFromIs(s: string, p: CharClass, i: nat, n: nat)
    requires i <= n <= |s|
    requires forall j :: i <= j < n ==> p.Has(s[j])
    requires n < |s| ==> !p.Has(s[n])
    ensures RunFrom(s, p, i) == n
    decreases n - i
  {
    if i < n { RunFromIs(s, p, i + 1, n); }
  }

  // Cutting a text where a run of one class ends gives that run.
  lemma RunIs(s: string, p: CharClass, n: nat)
    requires n <= |s| && AllOf(s[..n], p) && StopsRun(s[n..], p)
    ensures Run(s, p) == n
  {
    RunOfConcat(s[..n], s[n..], p);
    assert s == s[..n] + s[n..];
  }

  // ----- the grammar -----

  /** [sign] digits [. digits] suffix, as five pieces of text. */
  datatype Numeral = Numeral(sign: SignMark, whole: string, dot: bool, frac: string, suffix: string)

  datatype SignMark = Unsigned | Plus | Minus {
    function Text(): string {
      match this
      case Unsigned => ""
      case Plus => "+"
      case Minus => "-"
    }
  }

  function DotFrac(n: Numeral): string { if n.dot then "." + n.frac else "" }

  function Text(n: Numeral): string { n.sign.Text() + (n.whole + (DotFrac(n) + n.suffix)) }

  /** Letters, then an optional sign, then digits, then the end. */
  predicate IsSuffixText(suffix: string) {
    IsExponentText(suffix[Run(suffix, Letter)..])
  }

  predicate IsExponentText(exponent: string) {
    if exponent != "" && IsSignChar(exponent[0]) then Run(exponent[1..], Digit) == |exponent| - 1
    else Run(exponent, Digit) == |exponent|
  }

  predicate IsNumeralBody(n: Numeral) {
    && AllDigits(n.whole) && AllDigits(n.frac)
    && (!n.dot ==> n.frac == "")
  }

  predicate StartsSuffix(suffix: string) { suffix == "" || IsSuffixLetter(suffix[0]) }

  /** A numeral whose suffix is empty or begins with a letter: its pieces are unambiguous. */
  predicate IsNumeral(n: Numeral) {
    IsNumeralBody(n) && IsSuffixText(n.suffix) && StartsSuffix(n.suffix)
  }

  /** Digits without their leading zeros, "0" when nothing is left. */
  function StripZeros(whole: string): string {
    var z := Run(whole, Zero);
    if z == |whole| then "0" else whole[z..]
  }

  lemma StripZerosValue(whole: string, frac: string)
    requires AllDigits(whole) && AllDigits(frac)
    ensures AllDigits(StripZeros(whole)) && AllDigits(StripZeros(whole) + frac) && AllDigits(whole + frac)
    ensures DigitsValue(StripZeros(whole) + frac) == DigitsValue(whole + frac)
  {
    var z := Run(whole, Zero);
    RunFacts(whole, Zero);
    assert whole[..z] + whole[z..] == whole;
    if z == |whole| {
      LeadingZeros("0", frac);
      LeadingZeros(whole, frac);
    } else {
      assert whole + frac == whole[..z] + (whole[z..] + frac);
      LeadingZeros(whole[..z], whole[z..] + frac);
    }
  }

  /** The parts a numeral is scanned into. */
  function PartsOf(n: Numeral): ParsedParts {
    if !n.dot && n.suffix == "" && AllZeros(n.whole) then ParsedParts(n.sign != Minus, "0", "0", "", "")
    else ParsedParts(n.sign != Minus, n.sign.Text() + (n.whole + DotFrac(n)), StripZeros(n.whole), n.frac, n.suffix)
  }

  /** A dot and its fraction digits, when the text begins with a dot, and whatever is left over. */
  function CutTail(sign: SignMark, whole: string, rest: string): Numeral {
    if rest != "" && rest[0] == '.' then
      var f := Run(rest[1..], Digit);
      Numeral(sign, whole, true, rest[1..][..f], rest[1..][f..])
    else
      Numeral(sign, whole, false, "", rest)
  }

  function SignOf(input: string): SignMark {
    if input == "" then Unsigned
    else if input[0] == '-' then Minus
    else if input[0] == '+' then Plus
    else Unsigned
  }

  /** The pieces of any text, taken greedily from the left; whatever is left over is the suffix. */
  function Pieces(input: string): Numeral {
    var sign := SignOf(input);
    var afterSign := input[|sign.Text()|..];
    var w := Run(afterSign, Digit);
    CutTail(sign, afterSign[..w], afterSign[w..])
  }

  /** What the scanner returns: the greedy pieces, unless the leftover is not shaped like a suffix. */
  function Scan(input: string): Result<ParsedParts, ErrorCode> {
    var n := Pieces(input);
    if IsSuffixText(n.suffix) then Success(PartsOf(n)) else Failure(FormatWrong)
  }

  lemma Glue(s: string, i: nat)
    requires i <= |s|
    ensures s == s[..i] + s[i..]
  {}

  lemma TailConcatenates(sign: SignMark, whole: string, rest: string)
    ensures var n := CutTail(sign, whole, rest);
      && DotFrac(n) + n.suffix == rest
      && AllDigits(n.frac) && (!n.dot ==> n.frac == "")
  {
    var n := CutTail(sign, whole, rest);
    if n.dot {
      Glue(rest[1..], |n.frac|);
      RunFacts(rest[1..], Digit);
    }
  }

  lemma SignConcatenates(input: string)
    ensures var k := |SignOf(input).Text()|;
      k <= |input| && input == SignOf(input).Text() + input[k..]
  {}

  /** The pieces concatenate back to the input. */
  lemma PiecesConcatenate(input: string)
    ensures Text(Pieces(input)) == input
  {
    var n := Pieces(input);
    SignConcatenates(input);
    var afterSign := input[|n.sign.Text()|..];
    Glue(afterSign, |n.whole|);
    TailConcatenates(n.sign, n.whole, afterSign[|n.whole|..]);
  }

  lemma PiecesAreDigits(input: string)
    ensures IsNumeralBody(Pieces(input))
  {
    var n := Pieces(input);
    var afterSign := input[|n.sign.Text()|..];
    RunFacts(afterSign, Digit);
    TailConcatenates(n.sign, n.whole, afterSign[|n.whole|..]);
  }

  lemma TailOfText(n: Numeral)
    requires IsNumeralBody(n) && StartsSuffix(n.suffix)
    ensures var rest := DotFrac(n) + n.suffix;
      && CutTail(n.sign, n.whole, rest) == n
      && (rest != "" ==> !IsDigit(rest[0]) && !IsSignChar(rest[0]))
  {
    var rest := DotFrac(n) + n.suffix;
    if n.dot {
      assert rest[1..] == n.frac + n.suffix;
      RunOfConcat(n.frac, n.suffix, Digit);
    } else {
      assert rest == n.suffix;
    }
  }

  lemma SignOfText(sign: SignMark, afterSign: string)
    requires afterSign != "" ==> !IsSignChar(afterSign[0])
    ensures SignOf(sign.Text() + afterSign) == sign
    ensures (sign.Text() + afterSign)[|sign.Text()|..] == afterSign
  {}

  /** A numeral is cut at its own seams. */
  lemma PiecesOfText(n: Numeral)
    requires IsNumeral(n)
    ensures Pieces(Text(n)) == n
  {
    var rest := DotFrac(n) + n.suffix;
    TailOfText(n);
    RunOfConcat(n.whole, rest, Digit);
    assert n.whole != "" ==> (n.whole + rest)[0] == n.whole[0];
    assert n.whole == "" ==> n.whole + rest == rest;
    SignOfText(n.sign, n.whole + rest);
  }

  /** Completeness: every numeral is accepted and split at its own seams. */
  lemma ScanAcceptsNumerals(n: Numeral)
    requires IsNumeral(n)
    ensures Scan(Text(n)) == Success(PartsOf(n))
  {
    PiecesOfText(n);
  }

  // ----- the scanner -----

  /** One scanning loop: moves the cursor past a run of one class. */
  method SkipRun(input: string, start: nat, p: CharClass) returns (pos: nat)
    requires start <= |input|
    ensures pos == start + Run(input[start..], p)
  {
    pos := start;
    while pos < |input| && p.Has(input[pos])
      invariant start <= pos <= |input|
      invariant forall i :: start <= i < pos ==> p.Has(input[i])
    {
      pos := pos + 1;
    }
    RunIs(input[start..], p, pos - start);
  }

  /** The last phase: letters, an optional sign and digits must reach the end. */
  method ScanSuffix(input: string, start: nat) returns (ok: bool)
    requires start <= |input|
    ensures ok == IsSuffixText(input[start..])
  {
    hide RunFrom;
    ghost var suffix := input[start..];
    var pos := SkipRun(input, start, Letter);
    assert input[pos..] == suffix[pos - start..];
    ghost var exponent := input[pos..];
    if pos < |input| && (input[pos] == '-' || input[pos] == '+') {
      pos := pos + 1;
      assert input[pos..] == exponent[1..];
    }
    var stop := SkipRun(input, pos, Digit);
    return stop >= |input|;
  }

  /** The fraction phase: a dot and the digits after it, if the cursor is at a dot. */
  method ScanFraction(input: string, start: nat, ghost n: Numeral) returns (denom: string, pos: nat)
    requires start <= |input| && n == CutTail(n.sign, n.whole, input[start..])
    ensures denom == n.frac && pos == start + |DotFrac(n)| <= |input|
    ensures input[pos..] == n.suffix
  {
    denom, pos := "", start;
    FractionPosition(input, start, n);
    if start < |input| && input[start] == '.' {
      pos := SkipRun(input, start + 1, Digit);
      denom := input[start + 1..pos];
    }
  }

  method ScanSign(input: string) returns (positive: bool, pos: nat)
    ensures positive == (SignOf(input) != Minus) && pos == |SignOf(input).Text()|
    ensures pos <= |input|
  {
    positive, pos := true, 0;
    if pos < |input| {
      if input[0] == '-' {
        positive, pos := false, pos + 1;
      } else if input[0] == '+' {
        pos := pos + 1;
      }
    }
  }

  /** Leading zeros, then the digits that count. */
  method ScanNumerator(input: string, start: nat) returns (onlyZeros: bool, num: string, pos: nat)
    requires start <= |input|
    ensures pos == start + Run(input[start..], Digit)
    ensures onlyZeros <==> start + Run(input[start..], Zero) == |input|
    ensures !onlyZeros ==> num == StripZeros(input[start..pos])
  {
    pos := SkipRun(input, start, Zero);
    ZerosThenDigits(input, start, pos);
    if pos >= |input| {
      return true, "0", pos;
    }
    onlyZeros := false;
    var numStart := pos;
    pos := SkipRun(input, numStart, Digit);
    num := input[numStart..pos];
    if |num| == 0 {
      num := "0";
    }
    StrippedSlice(input, start, numStart, pos);
  }

  /** The scanner: one cursor moving over the input, returning as soon as it reaches the end. */
  method ParseQuantityString(input: string) returns (r: Result<ParsedParts, ErrorCode>)
    ensures r == Scan(input)
  {
    hide RunFrom, Scan, Pieces, CutTail, PartsOf, StripZeros;
    var end := |input|;
    var positive, signEnd := ScanSign(input);
    var onlyZeros, num, pos := ScanNumerator(input, signEnd);
    if onlyZeros {
      ScanOnlyZeros(input);
      return Success(ParsedParts(positive, "0", "0", "", ""));
    }
    if pos >= end {
      ScanAtEnd(input);
      return Success(ParsedParts(positive, input[..end], num, "", ""));
    }
    r := ScanTail(input, positive, num, signEnd, pos);
  }

  /** Fraction and suffix, once the numerator has left something over. */
  method ScanTail(input: string, positive: bool, num: string, ghost signEnd: nat, pos: nat)
    returns (r: Result<ParsedParts, ErrorCode>)
    requires positive == (SignOf(input) != Minus) && signEnd == |SignOf(input).Text()| <= |input|
    requires pos == signEnd + Run(input[signEnd..], Digit) < |input|
    requires num == StripZeros(input[signEnd..pos])
    ensures r == Scan(input)
  {
    hide RunFrom, StripZeros, IsExponentText, Pieces, CutTail, PartsOf, DotFrac;
    ghost var n := Pieces(input);
    NumeratorPosition(input);
    ScanBeforeEnd(input);
    var denom, fracEnd := ScanFraction(input, pos, n);
    var ok := ScanSuffix(input, fracEnd);
    if !ok {
      return Failure(FormatWrong);
    }
    return Success(ParsedParts(positive, input[..fracEnd], num, denom, input[fracEnd..]));
  }

  lemma EmptySuffix()
    ensures IsSuffixText("")
  {}

  lemma PiecesAtEnd(input: string)
    requires var a := |SignOf(input).Text()|; a <= |input| && a + Run(input[a..], Digit) == |input|
    ensures var a := |SignOf(input).Text()|;
      Pieces(input) == Numeral(SignOf(input), input[a..], false, "", "")
  {
    var a := |SignOf(input).Text()|;
    assert input[a..][|input| - a..] == "";
    assert input[a..][..|input| - a] == input[a..];
  }

  lemma OnlyZeros(s: string)
    ensures AllZeros(s) <==> Run(s, Zero) == |s|
    ensures AllZeros(s) ==> Run(s, Digit) == |s|
  {
    RunFacts(s, Zero);
    assert s[..|s|] == s;
    if AllZeros(s) {
      RunFromIs(s, Zero, 0, |s|);
      RunFromIs(s, Digit, 0, |s|);
    }
  }

  // What the scanner owes when zeros reach the end of the input.
  lemma ScanOnlyZeros(input: string)
    requires var a := |SignOf(input).Text()|; a <= |input| && a + Run(input[a..], Zero) == |input|
    ensures Scan(input) == Success(ParsedParts(SignOf(input) != Minus, "0", "0", "", ""))
  {
    OnlyZeros(input[|SignOf(input).Text()|..]);
    PiecesAtEnd(input);
    EmptySuffix();
  }

  // What it owes when digits reach the end of the input.
  lemma ScanAtEnd(input: string)
    requires var a := |SignOf(input).Text()|;
      a <= |input| && a + Run(input[a..], Digit) == |input| && a + Run(input[a..], Zero) < |input|
    ensures var a := |SignOf(input).Text()|;
      Scan(input) == Success(ParsedParts(SignOf(input) != Minus, input[..|input|], StripZeros(input[a..|input|]), "", ""))
  {
    var a := |SignOf(input).Text()|;
    OnlyZeros(input[a..]);
    PiecesAtEnd(input);
    ValuePrefix(input);
    EmptySuffix();
    assert input[a..|input|] == input[a..];
  }

  // What it owes when something follows the numerator.
  lemma ScanBeforeEnd(input: string)
    requires var n := Pieces(input); |n.sign.Text()| + |n.whole| < |input|
    ensures var n := Pieces(input);
      var c := |n.sign.Text()| + |n.whole| + |DotFrac(n)|;
      && c <= |input|
      && PartsOf(n) == ParsedParts(n.sign != Minus, input[..c], StripZeros(n.whole), n.frac, n.suffix)
  {
    SomethingFollows(input);
    ValuePrefix(input);
    PartsWithTail(Pieces(input));
  }

  lemma SomethingFollows(input: string)
    requires var n := Pieces(input); |n.sign.Text()| + |n.whole| < |input|
    ensures var n := Pieces(input); n.dot || n.suffix != ""
  {
    hide RunFrom;
    var n := Pieces(input);
    var b := |n.sign.Text()| + |n.whole|;
    NumeratorPosition(input);
    FractionPosition(input, b, n);
    assert n.dot || input[b..] == n.suffix;
  }

  lemma PartsWithTail(n: Numeral)
    requires n.dot || n.suffix != ""
    ensures PartsOf(n) ==
      ParsedParts(n.sign != Minus, n.sign.Text() + (n.whole + DotFrac(n)), StripZeros(n.whole), n.frac, n.suffix)
  {}

  // Where the cursor stands after the numerator, in terms of the pieces.
  lemma NumeratorPosition(input: string)
    ensures var n := Pieces(input);
      var a := |n.sign.Text()|;
      var b := a + |n.whole|;
      && n.sign == SignOf(input)
      && b <= |input| && |n.whole| == Run(input[a..], Digit) && input[a..b] == n.whole
      && n == CutTail(n.sign, n.whole, input[b..])
  {
    var n := Pieces(input);
    var a := |n.sign.Text()|;
    SignConcatenates(input);
    assert input[a..][|n.whole|..] == input[a + |n.whole|..];
    assert input[a..][..|n.whole|] == input[a..a + |n.whole|];
  }

  // Where the cursor stands after the fraction.
  lemma FractionPosition(input: string, b: nat, n: Numeral)
    requires b <= |input| && n == CutTail(n.sign, n.whole, input[b..])
    ensures
      var c := b + |DotFrac(n)|;
      && c <= |input| && input[c..] == n.suffix
      && (n.dot <==> b < |input| && input[b] == '.')
      && (n.dot ==> c == b + 1 + Run(input[b + 1..], Digit) && input[b + 1..c] == n.frac)
  {
    var rest := input[b..];
    if rest != "" && rest[0] == '.' {
      assert rest[1..] == input[b + 1..];
      var f := Run(rest[1..], Digit);
      assert rest[1..][f..] == input[b + 1 + f..];
      assert rest[1..][..f] == input[b + 1..b + 1 + f];
    }
  }

  lemma Reassociate(a: string, b: string, c: string, d: string)
    ensures a + (b + (c + d)) == (a + (b + c)) + d
  {}

  // The text before the suffix.
  lemma ValuePrefix(input: string)
    ensures var n := Pieces(input);
      var value := n.sign.Text() + (n.whole + DotFrac(n));
      var c := |n.sign.Text()| + |n.whole| + |DotFrac(n)|;
      c <= |input| && input[..c] == value && input[c..] == n.suffix
  {
    var n := Pieces(input);
    PiecesConcatenate(input);
    Reassociate(n.sign.Text(), n.whole, DotFrac(n), n.suffix);
    PrefixOf(input, n.sign.Text() + (n.whole + DotFrac(n)), n.suffix);
  }

  lemma PrefixOf(s: string, p: string, rest: string)
    requires s == p + rest
    ensures |p| <= |s| && s[..|p|] == p && s[|p|..] == rest
  {}

  // Skipping zeros first and digits next covers the same run of digits.
  lemma ZerosThenDigits(input: string, start: nat, mid: nat)
    requires start <= |input| && mid == start + Run(input[start..], Zero)
    ensures var w := Run(input[start..], Digit);
      && mid <= start + w <= |input|
      && mid + Run(input[mid..], Digit) == start + w
      && Run(input[start..start + w], Zero) == mid - start
  {
    var s := input[start..];
    var w := Run(s, Digit);
    ZerosInDigits(s);
    assert input[mid..] == s[mid - start..];
    assert input[start..start + w] == s[..w];
  }

  lemma ZerosInDigits(s: string)
    ensures var z, w := Run(s, Zero), Run(s, Digit);
      z <= w && Run(s[z..], Digit) == w - z && Run(s[..w], Zero) == z
  {
    var z, w := Run(s, Zero), Run(s, Digit);
    RunFromFacts(s, Zero, 0);
    RunFromFacts(s, Digit, 0);
    assert w < z ==> Zero.Has(s[w]);
    assert forall i :: 0 <= i < |s| - z ==> s[z..][i] == s[z + i];
    RunFromIs(s[z..], Digit, 0, w - z);
    RunFromIs(s[..w], Zero, 0, z);
  }

  // The digits after the zeros are the stripped whole part.
  lemma StrippedSlice(input: string, start: nat, mid: nat, stop: nat)
    requires start <= mid <= stop <= |input|
    requires Run(input[start..stop], Zero) == mid - start
    ensures StripZeros(input[start..stop]) == if mid == stop then "0" else input[mid..stop]
  {
    assert input[start..stop][mid - start..] == input[mid..stop];
  }

  // ----- whitespace -----

  /** The characters String.prototype.trim removes. */
  predicate IsJsWhitespace(c: char) {
    || '\U{0009}' <= c <= '\U{000D}' || c == ' ' || c == '\U{00A0}' || c == '\U{1680}'
    || '\U{2000}' <= c <= '\U{200A}' || c == '\U{2028}' || c == '\U{2029}'
    || c == '\U{202F}' || c == '\U{205F}' || c == '\U{3000}' || c == '\U{FEFF}'
  }

  predicate IsWhitespacePresent(s: string) {
    s != "" && (IsJsWhitespace(s[0]) || IsJsWhitespace(s[|s| - 1]))
  }

  /** The scanner already refuses every text the whitespace guard refuses, with the same code. */
  lemma WhitespaceGuardIsRedundant(s: string)
    requires IsWhitespacePresent(s)
    ensures Scan(s) == Failure(FormatWrong)
  {
    PiecesConcatenate(s);
    PiecesAreDigits(s);
    var n := Pieces(s);
    if Scan(s).Success? {
      SuffixHasNoWhitespace(n.suffix);
      BodyHasNoWhitespace(n);
      NoWhitespaceConcat(n.sign.Text(), n.whole + (DotFrac(n) + n.suffix));
      NoWhitespaceConcat(n.whole, DotFrac(n) + n.suffix);
      NoWhitespaceConcat(DotFrac(n), n.suffix);
    }
  }

  predicate NoWhitespace(s: string) { forall i :: 0 <= i < |s| ==> !IsJsWhitespace(s[i]) }

  lemma NoWhitespaceConcat(a: string, b: string)
    ensures NoWhitespace(a) && NoWhitespace(b) ==> NoWhitespace(a + b)
  {}

  lemma BodyHasNoWhitespace(n: Numeral)
    requires IsNumeralBody(n)
    ensures NoWhitespace(n.sign.Text()) && NoWhitespace(n.whole) && NoWhitespace(DotFrac(n))
  {}

  lemma RunHasNoWhitespace(s: string, p: CharClass)
    ensures NoWhitespace(s[..Run(s, p)])
  {
    RunFromFacts(s, p, 0);
    forall i | 0 <= i < Run(s, p) ensures !IsJsWhitespace(s[i]) {
      assert p.Has(s[i]);
    }
  }

  lemma SuffixHasNoWhitespace(suffix: string)
    requires IsSuffixText(suffix)
    ensures NoWhitespace(suffix)
  {
    var l := Run(suffix, Letter);
    ExponentHasNoWhitespace(suffix[l..]);
    RunHasNoWhitespace(suffix, Letter);
    Glue(suffix, l);
    NoWhitespaceConcat(suffix[..l], suffix[l..]);
  }

  lemma ExponentHasNoWhitespace(exponent: string)
    requires IsExponentText(exponent)
    ensures NoWhitespace(exponent)
  {
    if exponent != "" && IsSignChar(exponent[0]) {
      RunHasNoWhitespace(exponent[1..], Digit);
      Glue(exponent, 1);
      NoWhitespaceConcat(exponent[..1], exponent[1..]);
    } else {
      RunHasNoWhitespace(exponent, Digit);
    }
  }
}
