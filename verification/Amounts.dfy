/**
 * Exact amounts value * 10^scale, and the three steps every construction goes through:
 * round away from zero to nano, clamp to +-(2^63 - 1), strip trailing zeros.
 *
 * The reference domain is the integer number of nanos, value * 10^(scale + 9).
 */
module Amounts {
  import opened IntegerMath
  import opened Results

  const MAX_INT64: int := 0x7FFF_FFFF_FFFF_FFFF
  const MIN_SCALE: int := -9
  const MAX_NANOS: int := MAX_INT64 * 1_000_000_000

  datatype Amount = Amount(value: int, scale: int)

  datatype Rounded = Rounded(amount: Amount, exact: bool)

  datatype Capped = Capped(amount: Amount, capped: bool)

  datatype ScaledInt = ScaledInt(q: int, exact: bool)

  /** The number of nanos of an amount that has no digits below nano. */
  function Nanos(a: Amount): int
    requires a.scale >= MIN_SCALE
  {
    a.value * Pow10(a.scale + 9)
  }

  /** value * 10^scale in nanos, rounded away from zero when it has digits below nano. */
  function RoundedNanos(value: int, scale: int): int {
    if scale >= MIN_SCALE then value * Pow10(scale + 9) else RoundAway(value, Pow10(-9 - scale))
  }

  function Clamp(nanos: int): int {
    if nanos > MAX_NANOS then MAX_NANOS else if nanos < -MAX_NANOS then -MAX_NANOS else nanos
  }

  /** The invariant of a quantity: representable, in range, no trailing zero, zero at scale 0. */
  predicate IsNormal(a: Amount) {
    && a.scale >= MIN_SCALE
    && (if a.value == 0 then a.scale == 0 else a.value % 10 != 0)
    && Abs(Nanos(a)) <= MAX_NANOS
  }

  // ----- the construction steps -----

  /** Square-and-multiply power of ten; a negative exponent is a RangeError. */
  method Pow10BigInt(exp: int) returns (r: Option<int>)
    ensures r == if exp < 0 then None else Some(Pow10(exp))
  {
    if exp < 0 {
      return None;
    }
    var result, base, e := 1, 10, exp;
    ghost var k := 1;
    while e > 0
      invariant 0 <= e && 0 < k && base == Pow10(k) && e * k >= 0
      invariant result * Pow10(e * k) == Pow10(exp)
      decreases e
    {
      var half := e / 2;
      ghost var before := result;
      SquareStep(e, k);
      if e % 2 == 1 {
        result := result * base;
        MulAssoc(before, base, Pow10(half * (2 * k)));
      }
      base := base * base;
      e, k := half, 2 * k;
    }
    assert e * k == 0;
    return Some(result);
  }

  // One square-and-multiply step: 10^(e*k) in terms of half the exponent and the squared base.
  lemma SquareStep(e: int, k: int)
    requires 0 < e && 0 < k
    ensures 0 <= e * k && 0 <= (e / 2) * (2 * k)
    ensures Pow10(2 * k) == Pow10(k) * Pow10(k)
    ensures e % 2 == 1 ==> Pow10(e * k) == Pow10(k) * Pow10((e / 2) * (2 * k))
    ensures e % 2 == 0 ==> Pow10(e * k) == Pow10((e / 2) * (2 * k))
  {
    Pow10Add(k, k);
    var h := e / 2;
    MulMonotone(0, h, 2 * k);
    if e % 2 == 1 {
      assert e == 2 * h + 1;
      assert e * k == k + h * (2 * k);
      Pow10Add(k, h * (2 * k));
    } else {
      assert e == 2 * h;
      assert e * k == h * (2 * k);
    }
  }

  /** What stripping trailing zeros yields. */
  function Normalized(value: int, scale: int): Amount
    decreases Abs(value)
  {
    if value == 0 then Amount(0, 0)
    else if value % 10 == 0 then Normalized(value / 10, scale + 1)
    else Amount(value, scale)
  }

  method NormalizeDecimal(value: int, scale: int) returns (r: Amount)
    ensures r == Normalized(value, scale)
  {
    if value == 0 {
      return Amount(0, 0);
    }
    var v, s := value, scale;
    while v % 10 == 0
      invariant v != 0 && Normalized(v, s) == Normalized(value, scale)
      decreases Abs(v)
    {
      v := v / 10;
      s := s + 1;
    }
    return Amount(v, s);
  }

  function RoundToMinScale(value: int, scale: int, minScale: int): Rounded {
    if value == 0 then Rounded(Amount(0, 0), true)
    else if scale >= minScale then Rounded(Amount(value, scale), true)
    else
      var d := Pow10(minScale - scale);
      Rounded(Amount(RoundAway(value, d), minScale), DividesExactly(value, d))
  }

  predicate ExceedsMaxAllowed(absUnscaled: nat, scale: int) {
    absUnscaled != 0
    && if scale >= 0 then absUnscaled * Pow10(scale) > MAX_INT64
       else absUnscaled > MAX_INT64 * Pow10(-scale)
  }

  function CapToMaxAllowed(value: int, scale: int): Capped {
    if value == 0 then Capped(Amount(0, 0), false)
    else if !ExceedsMaxAllowed(Abs(value), scale) then Capped(Amount(value, scale), false)
    else Capped(Amount(if value < 0 then -MAX_INT64 else MAX_INT64, 0), true)
  }

  /** Round, cap, normalize: the tail of parsing, of the constructors and of the arithmetic. */
  function NormalizeConstructed(value: int, scale: int): Amount {
    var rounded := RoundToMinScale(value, scale, MIN_SCALE).amount;
    var capped := CapToMaxAllowed(rounded.value, rounded.scale).amount;
    Normalized(capped.value, capped.scale)
  }

  function CompareAmounts(a: Amount, b: Amount): int {
    if a.scale == b.scale then
      (if a.value == b.value then 0 else if a.value < b.value then -1 else 1)
    else if a.scale > b.scale then
      var av := a.value * Pow10(a.scale - b.scale);
      if av == b.value then 0 else if av < b.value then -1 else 1
    else
      var bv := b.value * Pow10(b.scale - a.scale);
      if a.value == bv then 0 else if a.value < bv then -1 else 1
  }

  predicate IsNonZeroAbsLessThanOne(a: Amount) {
    a.value != 0 && a.scale < 0 && Abs(a.value) < Pow10(-a.scale)
  }

  function ScaleToInt(a: Amount, targetScale: int): ScaledInt {
    if a.value == 0 then ScaledInt(0, true)
    else if a.scale == targetScale then ScaledInt(a.value, true)
    else if a.scale > targetScale then ScaledInt(a.value * Pow10(a.scale - targetScale), true)
    else
      var d := Pow10(targetScale - a.scale);
      ScaledInt(RoundAway(a.value, d), DividesExactly(a.value, d))
  }

  // ----- the steps in nanos -----

  lemma NanosOfShift(value: int, scale: int, k: nat)
    requires scale >= MIN_SCALE
    ensures value * Pow10(k) * Pow10(scale + 9) == value * Pow10(scale + k + 9)
  {
    Pow10Add(k, scale + 9);
    MulAssoc(value, Pow10(k), Pow10(scale + 9));
  }

  lemma {:induction false} NormalizedNanos(value: int, scale: int)
    requires scale >= MIN_SCALE
    ensures var r := Normalized(value, scale);
      && r.scale >= MIN_SCALE
      && Nanos(r) == value * Pow10(scale + 9)
      && (if r.value == 0 then r.scale == 0 else r.value % 10 != 0)
      && (r.value == 0 <==> value == 0)
    decreases Abs(value)
  {
    if value != 0 && value % 10 == 0 {
      NormalizedNanos(value / 10, scale + 1);
      assert value == (value / 10) * 10;
      MulAssoc(value / 10, 10, Pow10(scale + 9));
    }
  }

  // The value that normalization returns divides the value it was given.
  lemma {:induction false} NormalizedShift(value: int, scale: int)
    requires value != 0
    ensures var r := Normalized(value, scale);
      r.value != 0 && r.scale >= scale && value == r.value * Pow10(r.scale - scale)
    decreases Abs(value)
  {
    if value % 10 == 0 {
      NormalizedShift(value / 10, scale + 1);
      var r := Normalized(value, scale);
      assert value == (value / 10) * 10;
      MulAssoc(r.value, Pow10(r.scale - scale - 1), 10);
    }
  }

  lemma NormalizedId(a: Amount)
    requires IsNormal(a)
    ensures Normalized(a.value, a.scale) == a
  {}

  lemma RoundToMinScaleNanos(value: int, scale: int)
    ensures var r := RoundToMinScale(value, scale, MIN_SCALE);
      && r.amount.scale >= MIN_SCALE
      && Nanos(r.amount) == RoundedNanos(value, scale)
      && (r.exact <==> scale >= MIN_SCALE || RoundedNanos(value, scale) * Pow10(-9 - scale) == value)
  {
    if value != 0 && scale < MIN_SCALE {
      var d := Pow10(MIN_SCALE - scale);
      RoundAwayExact(value, d);
    }
  }

  lemma ExceedsInNanos(value: int, scale: int)
    requires scale >= MIN_SCALE
    ensures ExceedsMaxAllowed(Abs(value), scale) <==> Abs(value * Pow10(scale + 9)) > MAX_NANOS
  {
    var a := Abs(value);
    Powers();
    hide Pow10;
    AbsProduct(value, Pow10(scale + 9));
    if scale >= 0 {
      Pow10Add(scale, 9);
      MulAssoc(a, Pow10(scale), Pow10(9));
    } else {
      Pow10Add(-scale, scale + 9);
      MulAssoc(MAX_INT64, Pow10(-scale), Pow10(scale + 9));
      MulCancel(MAX_INT64 * Pow10(-scale), a, Pow10(scale + 9));
    }
  }

  lemma AbsProduct(x: int, k: nat)
    ensures Abs(x * k) == Abs(x) * k
    ensures k > 0 ==> (x * k < 0 <==> x < 0)
  {
    if x < 0 { MulMonotone(x, -1, k); } else { MulMonotone(0, x, k); }
    assert (-x) * k == -(x * k);
  }

  lemma CapNanos(a: Amount)
    requires a.scale >= MIN_SCALE
    ensures var r := CapToMaxAllowed(a.value, a.scale);
      && r.amount.scale >= MIN_SCALE
      && Nanos(r.amount) == Clamp(Nanos(a))
      && (r.capped <==> Clamp(Nanos(a)) != Nanos(a))
  {
    Powers();
    hide Pow10;
    if a.value != 0 {
      ExceedsInNanos(a.value, a.scale);
      AbsProduct(a.value, Pow10(a.scale + 9));
    }
  }

  /** Every construction yields a normal amount: the exact number, rounded up to nano, clamped. */
  lemma ConstructedIsClampedRounding(value: int, scale: int)
    ensures var r := NormalizeConstructed(value, scale);
      IsNormal(r) && Nanos(r) == Clamp(RoundedNanos(value, scale))
  {
    RoundToMinScaleNanos(value, scale);
    var rounded := RoundToMinScale(value, scale, MIN_SCALE).amount;
    CapNanos(rounded);
    var capped := CapToMaxAllowed(rounded.value, rounded.scale).amount;
    NormalizedNanos(capped.value, capped.scale);
  }

  /** Numerically equal normal amounts are the same value at the same scale. */
  lemma NormalFormIsUnique(a: Amount, b: Amount)
    requires IsNormal(a) && IsNormal(b)
    ensures Nanos(a) == Nanos(b) <==> a == b
  {
    if Nanos(a) == Nanos(b) {
      if a.scale < b.scale { SameNumberOtherScale(a, b); }
      if b.scale < a.scale { SameNumberOtherScale(b, a); }
      MulCancel(a.value, b.value, Pow10(a.scale + 9));
    }
  }

  lemma SameNumberOtherScale(a: Amount, b: Amount)
    requires MIN_SCALE <= a.scale < b.scale && Nanos(a) == Nanos(b)
    ensures a.value % 10 == 0
    ensures a.value == 0 <==> b.value == 0
  {
    var k := b.scale - a.scale;
    NanosOfShift(b.value, a.scale, k);
    MulCancel(a.value, b.value * Pow10(k), Pow10(a.scale + 9));
    assert a.value == b.value * Pow10(k);
    assert a.value == 10 * (b.value * Pow10(k - 1));
    MulCancel(b.value, 0, Pow10(k));
  }

  /** Comparison is the sign of the difference in nanos. */
  lemma CompareIsNumeric(a: Amount, b: Amount)
    requires a.scale >= MIN_SCALE && b.scale >= MIN_SCALE
    ensures CompareAmounts(a, b) == Sign(Nanos(a) - Nanos(b))
  {
    if a.scale >= b.scale {
      NanosOfShift(a.value, b.scale, a.scale - b.scale);
      MulCancel(a.value * Pow10(a.scale - b.scale), b.value, Pow10(b.scale + 9));
    } else {
      NanosOfShift(b.value, a.scale, b.scale - a.scale);
      MulCancel(a.value, b.value * Pow10(b.scale - a.scale), Pow10(a.scale + 9));
    }
  }

  /** Scaling to an integer is one division of the nanos, rounded away from zero; below nano it is exact. */
  lemma ScaleToIntIsCeiling(a: Amount, target: int)
    requires IsNormal(a)
    ensures target >= MIN_SCALE ==>
      var r := ScaleToInt(a, target);
      r.q == RoundAway(Nanos(a), Pow10(target + 9)) && (r.exact <==> r.q * Pow10(target + 9) == Nanos(a))
    ensures target < MIN_SCALE ==> ScaleToInt(a, target) == ScaledInt(Nanos(a) * Pow10(-9 - target), true)
  {
    hide Pow10;
    if target < MIN_SCALE {
      Pow10Add(a.scale + 9, -9 - target);
      MulAssoc(a.value, Pow10(a.scale + 9), Pow10(-9 - target));
    } else if a.value == 0 {
      assert RoundAway(0, Pow10(target + 9)) == 0 by { RoundAwayOfMultiple(0, Pow10(target + 9)); }
    } else {
      if a.scale >= target {
        var k := a.scale - target;
        NanosOfShift(a.value, target, k);
        RoundAwayOfMultiple(a.value * Pow10(k), Pow10(target + 9));
      } else {
        var k := target - a.scale;
        Pow10Add(k, a.scale + 9);
        RoundAwayCancel(a.value, Pow10(k), Pow10(a.scale + 9));
        RoundAwayExact(a.value, Pow10(k));
        MulAssoc(RoundAway(a.value, Pow10(k)), Pow10(k), Pow10(a.scale + 9));
        MulCancel(RoundAway(a.value, Pow10(k)) * Pow10(k), a.value, Pow10(a.scale + 9));
      }
    }
  }

  lemma LessThanOneInNanos(a: Amount)
    requires a.scale >= MIN_SCALE
    ensures IsNonZeroAbsLessThanOne(a) <==> 0 < Abs(Nanos(a)) < 1_000_000_000
  {
    var s := a.scale;
    AbsProduct(a.value, Pow10(s + 9));
    assert Pow10(9) == 1_000_000_000;
    MulCancel(0, Abs(a.value), Pow10(s + 9));
    if s < 0 {
      Pow10Add(-s, s + 9);
      MulCancel(Abs(a.value), Pow10(-s), Pow10(s + 9));
    } else {
      Pow10Monotone(9, s + 9);
      if a.value != 0 { MulMonotone(1, Abs(a.value), Pow10(s + 9)); }
    }
  }

  // A nonzero value at a scale counts at least one unit of that scale.
  lemma NonZeroAtLeastUnit(value: int, k: nat)
    requires value != 0
    ensures Abs(value * Pow10(k)) >= Pow10(k)
  {
    AbsProduct(value, Pow10(k));
    MulMonotone(1, Abs(value), Pow10(k));
  }

  // A nonzero amount in range has a scale the suffix table can reach.
  lemma NormalScaleBound(a: Amount)
    requires IsNormal(a)
    ensures a.scale <= 18
  {
    if a.value != 0 {
      NonZeroAtLeastUnit(a.value, a.scale + 9);
      PowerInRange(a.scale + 9);
    }
  }

  lemma PowerInRange(k: nat)
    requires Pow10(k) <= MAX_NANOS
    ensures k <= 27
  {
    LargePowers();
    hide Pow10;
    if k > 27 { Pow10Monotone(28, k); }
  }
}
