/** Decimal numerals as text: reading digits, printing integers, trimming zeros. */
module DecimalText {
  import opened IntegerMath

  predicate IsDigit(c: char) { '0' <= c <= '9' }

  predicate AllDigits(s: string) { forall i :: 0 <= i < |s| ==> IsDigit(s[i]) }

  function DigitValue(c: char): (d: nat)
    requires IsDigit(c)
    ensures d <= 9
  {
    c as int - '0' as int
  }

  function DigitChar(d: nat): (c: char)
    requires d <= 9
    ensures IsDigit(c) && DigitValue(c) == d
    ensures c == '0' <==> d == 0
  {
    ('0' as int + d) as char
  }

  /** The number a digit string spells in base ten; the empty string spells 0. */
  function DigitsValue(s: string): nat
    requires AllDigits(s)
  {
    if s == [] then 0 else 10 * DigitsValue(s[..|s| - 1]) + DigitValue(s[|s| - 1])
  }

  lemma {:induction false} DigitsValueConcat(a: string, b: string)
    requires AllDigits(a) && AllDigits(b)
    ensures AllDigits(a + b)
    ensures DigitsValue(a + b) == DigitsValue(a) * Pow10(|b|) + DigitsValue(b)
    decreases |b|
  {
    if b == [] {
      assert a + b == a;
    } else {
      var init := b[..|b| - 1];
      DigitsValueConcat(a, init);
      assert (a + b)[..|a + b| - 1] == a + init;
      assert (a + b)[|a + b| - 1] == b[|b| - 1];
      assert Pow10(|b|) == 10 * Pow10(|init|);
      ShiftAlgebra(DigitsValue(a), Pow10(|init|), DigitsValue(init), DigitValue(b[|b| - 1]));
      hide Pow10, DigitValue;
    }
  }

  lemma ShiftAlgebra(x: int, p: int, v: int, d: int)
    ensures 10 * (x * p + v) + d == x * (10 * p) + (10 * v + d)
  {
    MulSwap(x, p, 10);
  }

  lemma {:induction false} DigitsValueBound(s: string)
    requires AllDigits(s)
    ensures DigitsValue(s) < Pow10(|s|)
  {
    if s != [] { DigitsValueBound(s[..|s| - 1]); }
  }

  predicate AllZeros(s: string) { forall i :: 0 <= i < |s| ==> s[i] == '0' }

  lemma {:induction false} ZerosValue(s: string)
    requires AllZeros(s)
    ensures AllDigits(s) && DigitsValue(s) == 0
  {
    if s != [] { ZerosValue(s[..|s| - 1]); }
  }

  lemma LeadingZeros(zeros: string, s: string)
    requires AllZeros(zeros) && AllDigits(s)
    ensures AllDigits(zeros + s) && DigitsValue(zeros + s) == DigitsValue(s)
  {
    ZerosValue(zeros);
    DigitsValueConcat(zeros, s);
  }

  lemma TrailingZeros(s: string, zeros: string)
    requires AllDigits(s) && AllZeros(zeros)
    ensures AllDigits(s + zeros)
    ensures DigitsValue(s + zeros) == DigitsValue(s) * Pow10(|zeros|)
  {
    ZerosValue(zeros);
    DigitsValueConcat(s, zeros);
  }

  /** n.toString(10) for n >= 0. */
  function NatToString(n: nat): (s: string)
    ensures s != [] && AllDigits(s)
  {
    if n < 10 then [DigitChar(n)] else NatToString(n / 10) + [DigitChar(n % 10)]
  }

  lemma {:induction false} NatToStringValue(n: nat)
    ensures DigitsValue(NatToString(n)) == n
  {
    if n >= 10 {
      NatToStringValue(n / 10);
      var s := NatToString(n);
      assert s[..|s| - 1] == NatToString(n / 10);
    } else {
      assert DigitsValue([]) == 0;
      assert NatToString(n)[..0] == [];
    }
  }

  lemma {:induction false} NatToStringLength(n: nat, k: nat)
    requires n < Pow10(k) && 0 < k
    ensures |NatToString(n)| <= k
  {
    if n >= 10 {
      assert k > 1;
      NatToStringLength(n / 10, k - 1);
    }
  }

  /** x.toString(10). */
  function IntToString(x: int): string {
    if x < 0 then "-" + NatToString(-x) else NatToString(x)
  }

  /** Removes the trailing zeros: s.replace(/0+$/g, ''). */
  function TrimTrailingZeros(s: string): (t: string)
    ensures |t| <= |s| && t == s[..|t|] && AllZeros(s[|t|..])
    ensures t != [] ==> t[|t| - 1] != '0'
  {
    if s != [] && s[|s| - 1] == '0' then
      var t := TrimTrailingZeros(s[..|s| - 1]);
      assert s[|t|..] == s[..|s| - 1][|t|..] + ['0'];
      t
    else s
  }
}
