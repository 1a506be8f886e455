/**
 * Constructors and arithmetic on quantities, shown to be saturating integer arithmetic in
 * nanos on unique normal forms.
 */
module QuantityArithmetic {
  import opened IntegerMath
  import opened Amounts
  import opened Quantities

  datatype Inexact = Inexact(result: Quantity, exact: bool)

  function NewQuantity(value: int, format: Format): Quantity {
    Quantity(NormalizeConstructed(value, 0), format)
  }

  function NewMilliQuantity(milliValue: int, format: Format): Quantity {
    Quantity(NormalizeConstructed(milliValue, -3), format)
  }

  function NewScaledQuantity(value: int, scale: int, format: Format): Quantity {
    Quantity(NormalizeConstructed(value, scale), format)
  }

  function NewBinaryScaledQuantity(value: int, bits: nat): Quantity {
    var capped := CapToMaxAllowed(value * Pow2(bits), 0).amount;
    Quantity(Normalized(capped.value, capped.scale), BinarySI)
  }

  function Cmp(a: Quantity, b: Quantity): int { CompareAmounts(a.amount, b.amount) }

  function Neg(q: Quantity): Quantity {
    if q.amount.value == 0 then q else Quantity(Amount(-q.amount.value, q.amount.scale), q.format)
  }

  /** Both values at the smaller of the two scales, added. */
  function AlignedSum(a: Amount, b: Amount): int {
    var s := Min(a.scale, b.scale);
    a.value * Pow10(a.scale - s) + b.value * Pow10(b.scale - s)
  }

  function Add(a: Quantity, b: Quantity): Quantity {
    if a.amount.value == 0 then b
    else
      var s := Min(a.amount.scale, b.amount.scale);
      Quantity(NormalizeConstructed(AlignedSum(a.amount, b.amount), s), a.format)
  }

  function Sub(a: Quantity, b: Quantity): Quantity { Add(a, Neg(b)) }

  function Mul(q: Quantity, y: int): Inexact {
    if y == 0 || q.amount.value == 0 then Inexact(Quantity(Amount(0, 0), q.format), true)
    else
      var rounded := RoundToMinScale(q.amount.value * y, q.amount.scale, MIN_SCALE);
      var capped := CapToMaxAllowed(rounded.amount.value, rounded.amount.scale);
      Inexact(Quantity(Normalized(capped.amount.value, capped.amount.scale), q.format),
              rounded.exact && !capped.capped)
  }

  function RoundUp(q: Quantity, scale: int): Inexact {
    if q.amount.value == 0 then Inexact(q, true)
    else if q.amount.scale >= scale then Inexact(q, true)
    else
      var d := Pow10(scale - q.amount.scale);
      var capped := CapToMaxAllowed(RoundAway(q.amount.value, d), scale);
      Inexact(Quantity(Normalized(capped.amount.value, capped.amount.scale), q.format),
              DividesExactly(q.amount.value, d) && !capped.capped)
  }

  function WithFormat(q: Quantity, format: Format): Quantity { Quantity(q.amount, format) }

  function ScaledValue(q: Quantity, scale: int): int { ScaleToInt(q.amount, scale).q }

  datatype Rational = Rational(numer: int, denom: nat)

  function MantissaForBinary(a: Amount, bits: nat): (r: Rational)
    ensures r.denom > 0
  {
    if a.value == 0 then Rational(0, 1)
    else if a.scale >= 0 then Rational(a.value * Pow10(a.scale), Pow2(bits))
    else
      MulStrict(0, Pow2(bits), Pow10(-a.scale));
      Rational(a.value, Pow2(bits) * Pow10(-a.scale))
  }

  function ScaledBinaryValue(q: Quantity, bits: nat): int {
    var r := MantissaForBinary(q.amount, bits);
    RoundAway(r.numer, r.denom)
  }

  // ----- in nanos -----

  predicate IsValid(q: Quantity) { IsNormal(q.amount) }

  function N(q: Quantity): int
    requires IsValid(q)
  {
    Nanos(q.amount)
  }

  /** value * 10^scale, rounded up to nano and clamped, whichever constructor is used. */
  lemma ConstructorsClamp(value: int, scale: int, bits: nat, format: Format)
    ensures var q := NewScaledQuantity(value, scale, format);
      IsValid(q) && N(q) == Clamp(RoundedNanos(value, scale))
    ensures var q := NewQuantity(value, format); IsValid(q) && N(q) == Clamp(value * 1_000_000_000)
    ensures var q := NewMilliQuantity(value, format); IsValid(q) && N(q) == Clamp(value * 1_000_000)
    ensures var q := NewBinaryScaledQuantity(value, bits);
      IsValid(q) && N(q) == Clamp(value * Pow2(bits) * 1_000_000_000) && q.format == BinarySI
    ensures NewScaledQuantity(value, scale, format).format == format
    ensures NewQuantity(value, format).format == format && NewMilliQuantity(value, format).format == format
  {
    ConstructedIsClampedRounding(value, scale);
    ConstructedIsClampedRounding(value, 0);
    ConstructedIsClampedRounding(value, -3);
    ConstructedIsClampedRounding(value * Pow2(bits), 0);
    Powers();
  }

  /** Comparison is the order of the nanos, and equality is equality of representations. */
  lemma CmpIsNumeric(a: Quantity, b: Quantity)
    requires IsValid(a) && IsValid(b)
    ensures Cmp(a, b) == Sign(N(a) - N(b))
    ensures Cmp(a, b) == 0 <==> a.amount == b.amount
  {
    CompareIsNumeric(a.amount, b.amount);
    NormalFormIsUnique(a.amount, b.amount);
  }

  lemma NegNanos(q: Quantity)
    requires IsValid(q)
    ensures IsValid(Neg(q)) && N(Neg(q)) == -N(q) && Neg(Neg(q)) == q && Neg(q).format == q.format
  {
    assert (-q.amount.value) * Pow10(q.amount.scale + 9) == -(q.amount.value * Pow10(q.amount.scale + 9));
  }

  lemma SumOfShifts(a: Amount, b: Amount)
    requires a.scale >= MIN_SCALE && b.scale >= MIN_SCALE
    ensures AlignedSum(a, b) * Pow10(Min(a.scale, b.scale) + 9) == Nanos(a) + Nanos(b)
  {
    var s := Min(a.scale, b.scale);
    var va, vb := a.value * Pow10(a.scale - s), b.value * Pow10(b.scale - s);
    NanosOfShift(a.value, s, a.scale - s);
    NanosOfShift(b.value, s, b.scale - s);
    Distribute(va, vb, Pow10(s + 9));
  }

  lemma Distribute(x: int, y: int, k: int)
    ensures (x + y) * k == x * k + y * k
  {}

  /** Addition is clamped addition of nanos; the first nonzero operand gives the format. */
  lemma AddNanos(a: Quantity, b: Quantity)
    requires IsValid(a) && IsValid(b)
    ensures var r := Add(a, b);
      && IsValid(r) && N(r) == Clamp(N(a) + N(b))
      && r.format == (if a.amount.value == 0 then b.format else a.format)
  {
    if a.amount.value != 0 {
      var s := Min(a.amount.scale, b.amount.scale);
      SumOfShifts(a.amount, b.amount);
      ConstructedIsClampedRounding(AlignedSum(a.amount, b.amount), s);
    }
  }

  lemma SubNanos(a: Quantity, b: Quantity)
    requires IsValid(a) && IsValid(b)
    ensures IsValid(Sub(a, b)) && N(Sub(a, b)) == Clamp(N(a) - N(b))
    ensures Sub(a, b).format == (if a.amount.value == 0 then b.format else a.format)
  {
    NegNanos(b);
    AddNanos(a, Neg(b));
  }

  lemma AddCommutes(a: Quantity, b: Quantity)
    requires IsValid(a) && IsValid(b)
    ensures Add(a, b).amount == Add(b, a).amount
  {
    AddNanos(a, b);
    AddNanos(b, a);
    NormalFormIsUnique(Add(a, b).amount, Add(b, a).amount);
  }

  lemma AddIsMonotone(a: Quantity, a': Quantity, b: Quantity)
    requires IsValid(a) && IsValid(a') && IsValid(b) && Cmp(a, a') <= 0
    ensures Cmp(Add(a, b), Add(a', b)) <= 0
  {
    CmpIsNumeric(a, a');
    AddNanos(a, b);
    AddNanos(a', b);
    CmpIsNumeric(Add(a, b), Add(a', b));
  }

  /** Subtracting what was added gives the first operand back exactly when the sum did not saturate. */
  lemma AddThenSub(a: Quantity, b: Quantity)
    requires IsValid(a) && IsValid(b)
    ensures IsValid(Add(a, b))
    ensures Sub(Add(a, b), b).amount == a.amount <==> Abs(N(a) + N(b)) <= MAX_NANOS
  {
    AddNanos(a, b);
    SubNanos(Add(a, b), b);
    NormalFormIsUnique(Sub(Add(a, b), b).amount, a.amount);
  }

  /** Multiplication is clamped, and its flag says exactly whether the product is the true one. */
  lemma MulNanos(q: Quantity, y: int)
    requires IsValid(q)
    ensures var r := Mul(q, y);
      && IsValid(r.result) && N(r.result) == Clamp(N(q) * y)
      && (r.exact <==> N(r.result) == N(q) * y)
      && r.result.format == q.format
  {
    hide Pow10;
    var v, s := q.amount.value, q.amount.scale;
    MulSwap(v, y, Pow10(s + 9));
    if y != 0 && v != 0 {
      var rounded := RoundToMinScale(v * y, s, MIN_SCALE);
      RoundToMinScaleNanos(v * y, s);
      CapNanos(rounded.amount);
      ConstructedIsClampedRounding(v * y, s);
    }
  }

  // ----- rounding up -----

  /** The multiple of 10^scale a number of nanos is rounded to, before clamping. */
  function RoundedUpNanos(nanos: int, scale: int): int {
    if scale < MIN_SCALE then nanos else RoundAway(nanos, Pow10(scale + 9)) * Pow10(scale + 9)
  }

  /**
   * Rounding up is one division of the nanos, clamped. The flag says exactly that the quantity
   * already was a multiple; at the cap it can be false although the quantity did not change.
   */
  lemma RoundUpNanos(q: Quantity, scale: int)
    requires IsValid(q)
    ensures var r := RoundUp(q, scale);
      && IsValid(r.result) && N(r.result) == Clamp(RoundedUpNanos(N(q), scale))
      && (r.exact <==> RoundedUpNanos(N(q), scale) == N(q))
      && (N(r.result) == N(q) <==> r.exact || Abs(N(q)) == MAX_NANOS)
      && r.result.format == q.format
  {
    var a := q.amount;
    if scale >= MIN_SCALE { RoundAwayGrows(N(q), Pow10(scale + 9)); }
    if a.value != 0 && scale >= MIN_SCALE {
      ScaleToIntIsCeiling(a, scale);
      if a.scale < scale {
        RoundUpSteps(q, scale);
      } else {
        NanosOfShift(a.value, scale, a.scale - scale);
        RoundAwayOfMultiple(a.value * Pow10(a.scale - scale), Pow10(scale + 9));
      }
    }
  }

  lemma RoundUpSteps(q: Quantity, scale: int)
    requires IsValid(q) && q.amount.value != 0 && MIN_SCALE <= scale && q.amount.scale < scale
    requires var r := ScaleToInt(q.amount, scale);
      r.q == RoundAway(N(q), Pow10(scale + 9)) && (r.exact <==> r.q * Pow10(scale + 9) == N(q))
    ensures var r := RoundUp(q, scale);
      && IsValid(r.result) && N(r.result) == Clamp(RoundedUpNanos(N(q), scale))
      && (r.exact <==> RoundedUpNanos(N(q), scale) == N(q))
  {
    hide Pow10;
    var v := ScaleToInt(q.amount, scale).q;
    CapNanos(Amount(v, scale));
    var capped := CapToMaxAllowed(v, scale).amount;
    NormalizedNanos(capped.value, capped.scale);
  }

  /** The largest quantity rounded to tens is unchanged, and yet reported as inexact. */
  lemma RoundUpAtTheCap(format: Format)
    ensures var q := Quantity(Amount(MAX_INT64, 0), format);
      IsValid(q) && RoundUp(q, 1) == Inexact(q, false)
  {
    var q := Quantity(Amount(MAX_INT64, 0), format);
    assert Pow10(1) == 10 && Pow10(9) == 1_000_000_000;
    assert Pow10(10) == 10 * Pow10(9);
    RoundUpNanos(q, 1);
    NormalFormIsUnique(RoundUp(q, 1).result.amount, q.amount);
  }

  // Rounding away from zero never shrinks the magnitude.
  lemma RoundAwayGrows(n: int, d: int)
    requires 0 < d
    ensures Abs(RoundAway(n, d) * d) >= Abs(n)
    ensures n < 0 ==> RoundAway(n, d) * d <= n
    ensures n >= 0 ==> RoundAway(n, d) * d >= n
  {
    CeilDivBounds(Abs(n), d);
  }

  /**
   * Rounding up returns the multiple of 10^scale of least magnitude at or beyond the quantity,
   * unless that multiple is out of range, when it returns the cap with the quantity's sign.
   */
  lemma RoundUpIsLeast(q: Quantity, scale: int, k: int)
    requires IsValid(q)
    ensures var r := RoundUp(q, scale).result;
      var unit := if scale >= MIN_SCALE then Pow10(scale + 9) else 1;
      && IsValid(r)
      && (N(r) == RoundAway(N(q), unit) * unit || Abs(N(r)) == MAX_NANOS < Abs(RoundAway(N(q), unit) * unit))
      && Abs(N(r)) >= Abs(N(q)) && Sign(N(r)) == Sign(N(q))
      && (Abs(k * unit) >= Abs(N(q)) ==> Abs(k * unit) >= Abs(N(r)))
  {
    var unit := if scale >= MIN_SCALE then Pow10(scale + 9) else 1;
    RoundUpNanos(q, scale);
    RoundAwayOfMultiple(N(q), 1);
    RoundAwayGrows(N(q), unit);
    SignOfRounded(N(q), unit);
    if Abs(k * unit) >= Abs(N(q)) { LeastMultiple(N(q), unit, k); }
  }

  // No smaller multiple reaches as far as the rounded one.
  lemma LeastMultiple(n: int, unit: int, k: int)
    requires 0 < unit && Abs(k * unit) >= Abs(n)
    ensures Abs(k * unit) >= Abs(RoundAway(n, unit) * unit)
  {
    var c := RoundAway(n, unit);
    AbsProduct(k, unit);
    AbsProduct(c, unit);
    CeilDivLeast(Abs(n), unit, Abs(k));
    SignOfCeil(n, unit);
    MulMonotone(Abs(c), Abs(k), unit);
  }

  lemma SignOfRounded(n: int, d: int)
    requires 0 < d
    ensures Sign(RoundAway(n, d) * d) == Sign(n)
  {
    RoundAwayGrows(n, d);
    CeilDivBounds(Abs(n), d);
  }

  lemma RoundedUpTwice(nanos: int, s1: int, s2: int)
    requires s1 <= s2
    ensures RoundedUpNanos(RoundedUpNanos(nanos, s1), s2) == RoundedUpNanos(nanos, s2)
  {
    if s1 >= MIN_SCALE {
      var d1, k := Pow10(s1 + 9), s2 - s1;
      var d2 := Pow10(k);
      Pow10Add(s1 + 9, k);
      var c := RoundAway(nanos, d1);
      RoundAwayCancel(c, d2, d1);
      assert d2 * d1 == d1 * d2 == Pow10(s2 + 9);
      CeilDivCompose(Abs(nanos), d1, d2);
      SignOfCeil(nanos, d1);
    }
  }

  lemma SignOfCeil(n: int, d: int)
    requires 0 < d
    ensures n < 0 ==> RoundAway(n, d) < 0
    ensures Abs(RoundAway(n, d)) == CeilDiv(Abs(n), d)
  {
    CeilDivBounds(Abs(n), d);
    if CeilDiv(Abs(n), d) == 0 { assert Abs(n) == 0; }
  }

  /** Rounding at s1 and then at a coarser s2 is rounding at s2, saturation included. */
  lemma RoundUpComposes(q: Quantity, s1: int, s2: int)
    requires IsValid(q) && s1 <= s2
    ensures RoundUp(RoundUp(q, s1).result, s2).result == RoundUp(q, s2).result
  {
    RoundUpNanos(q, s1);
    RoundUpNanos(q, s2);
    var first := RoundUp(q, s1).result;
    RoundUpNanos(first, s2);
    RoundedUpTwice(N(q), s1, s2);
    var n1 := RoundedUpNanos(N(q), s1);
    if Abs(n1) > MAX_NANOS { SaturatedStaysSaturated(N(q), s1, s2); }
    NormalFormIsUnique(RoundUp(first, s2).result.amount, RoundUp(q, s2).result.amount);
  }

  lemma SaturatedStaysSaturated(nanos: int, s1: int, s2: int)
    requires s1 <= s2 && Abs(nanos) <= MAX_NANOS && Abs(RoundedUpNanos(nanos, s1)) > MAX_NANOS
    ensures var cap := Clamp(RoundedUpNanos(nanos, s1));
      Clamp(RoundedUpNanos(cap, s2)) == cap == Clamp(RoundedUpNanos(nanos, s2))
  {
    var n1 := RoundedUpNanos(nanos, s1);
    var cap := Clamp(n1);
    RoundedUpTwice(nanos, s1, s2);
    var d := Pow10(s2 + 9);
    RoundAwayGrows(n1, d);
    RoundAwayGrows(cap, d);
    RoundAwayGrows(nanos, Pow10(s1 + 9));
  }

  // ----- integer conversions -----

  /** Conversion to an integer unit is one division of the nanos, rounded away from zero. */
  lemma ScaledValueIsCeiling(q: Quantity, scale: int)
    requires IsValid(q)
    ensures ScaledValue(q, scale) ==
      if scale >= MIN_SCALE then RoundAway(N(q), Pow10(scale + 9)) else N(q) * Pow10(-9 - scale)
  {
    ScaleToIntIsCeiling(q.amount, scale);
  }

  lemma ScaledBinaryValueIsCeiling(q: Quantity, bits: nat)
    requires IsValid(q)
    ensures 0 < Pow2(bits) * 1_000_000_000
    ensures ScaledBinaryValue(q, bits) == RoundAway(N(q), Pow2(bits) * 1_000_000_000)
  {
    var a := q.amount;
    var two := Pow2(bits);
    Powers();
    hide Pow10, Pow2;
    if a.value != 0 {
      if a.scale >= 0 {
        NanosOfShift(a.value, 0, a.scale);
        RoundAwayCancel(a.value * Pow10(a.scale), two, Pow10(9));
      } else {
        Pow10Add(-a.scale, a.scale + 9);
        MulStrict(0, two, Pow10(-a.scale));
        RoundAwayCancel(a.value, two * Pow10(-a.scale), Pow10(a.scale + 9));
        MulAssoc(two, Pow10(-a.scale), Pow10(a.scale + 9));
      }
    }
  }

  /** Both conversions are monotone in the quantity. */
  lemma ConversionsAreMonotone(a: Quantity, b: Quantity, scale: int, bits: nat)
    requires IsValid(a) && IsValid(b) && Cmp(a, b) <= 0
    ensures ScaledValue(a, scale) <= ScaledValue(b, scale)
    ensures ScaledBinaryValue(a, bits) <= ScaledBinaryValue(b, bits)
  {
    CmpIsNumeric(a, b);
    ScaledValueIsCeiling(a, scale);
    ScaledValueIsCeiling(b, scale);
    if scale >= MIN_SCALE {
      RoundAwayMonotone(N(a), N(b), Pow10(scale + 9));
    } else {
      MulMonotone(N(a), N(b), Pow10(-9 - scale));
    }
    ScaledBinaryValueIsCeiling(a, bits);
    ScaledBinaryValueIsCeiling(b, bits);
    RoundAwayMonotone(N(a), N(b), Pow2(bits) * 1_000_000_000);
  }
}
