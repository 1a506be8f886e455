/** Powers of ten and two, and division rounded up, over unbounded integers. */
module IntegerMath {

  function Abs(x: int): nat { if x < 0 then -x else x }

  function Min(x: int, y: int): int { if x <= y then x else y }

  function Sign(x: int): int { if x < 0 then -1 else if x == 0 then 0 else 1 }

  function Pow10(e: nat): (p: nat)
    ensures p >= 1
  {
    if e == 0 then 1 else 10 * Pow10(e - 1)
  }

  function Pow2(e: nat): (p: nat)
    ensures p >= 1
  {
    if e == 0 then 1 else 2 * Pow2(e - 1)
  }

  function Pow5(e: nat): (p: nat)
    ensures p >= 1
  {
    if e == 0 then 1 else 5 * Pow5(e - 1)
  }

  lemma {:induction false} Pow10Add(a: nat, b: nat)
    ensures Pow10(a + b) == Pow10(a) * Pow10(b)
  {
    if a > 0 {
      Pow10Add(a - 1, b);
      MulAssoc(10, Pow10(a - 1), Pow10(b));
    }
  }

  lemma {:induction false} Pow2Add(a: nat, b: nat)
    ensures Pow2(a + b) == Pow2(a) * Pow2(b)
  {
    if a > 0 {
      Pow2Add(a - 1, b);
      MulAssoc(2, Pow2(a - 1), Pow2(b));
    }
  }

  lemma {:induction false} Pow10Monotone(a: nat, b: nat)
    requires a <= b
    ensures Pow10(a) <= Pow10(b)
    decreases b
  {
    if a < b { Pow10Monotone(a, b - 1); }
  }

  lemma {:induction false} Pow2Monotone(a: nat, b: nat)
    requires a <= b
    ensures Pow2(a) <= Pow2(b)
    decreases b
  {
    if a < b { Pow2Monotone(a, b - 1); }
  }

  /** The powers the program names. */
  lemma Powers()
    ensures Pow10(0) == 1 && Pow10(1) == 10 && Pow10(2) == 100 && Pow10(3) == 1000
    ensures Pow10(6) == 1_000_000 && Pow10(9) == 1_000_000_000
    ensures Pow2(0) == 1 && Pow2(10) == 1024
  {}

  lemma LargePowers()
    ensures Pow10(12) == 1_000_000_000_000
    ensures Pow10(27) == 1_000_000_000_000_000_000_000_000_000
    ensures Pow10(28) == 10_000_000_000_000_000_000_000_000_000
    ensures Pow2(60) == 0x1000_0000_0000_0000 && Pow2(70) == 1024 * 0x1000_0000_0000_0000
  {
    Powers();
    hide Pow10, Pow2;
    Pow10Add(3, 9);
    Pow10Add(9, 9);
    Pow10Add(18, 9);
    Pow10Add(27, 1);
    Pow2Add(10, 10);
    Pow2Add(20, 20);
    Pow2Add(40, 20);
    Pow2Add(60, 10);
  }

  // 10^e = 2^e * 5^e
  lemma {:induction false} Pow10Factors(e: nat)
    ensures Pow10(e) == Pow2(e) * Pow5(e)
  {
    if e > 0 {
      Pow10Factors(e - 1);
      FactorStep(Pow2(e - 1), Pow5(e - 1));
    }
  }

  lemma FactorStep(a: int, b: int)
    ensures (2 * a) * (5 * b) == 10 * (a * b)
  {}

  lemma MulAssoc(x: int, y: int, z: int)
    ensures x * y * z == x * (y * z)
  {}

  lemma MulSwap(x: int, y: int, z: int)
    ensures (x * y) * z == (x * z) * y
  {}

  lemma MulMonotone(x: int, y: int, k: int)
    requires x <= y && 0 <= k
    ensures x * k <= y * k
  {}

  lemma MulStrict(x: int, y: int, k: int)
    requires x < y && 0 < k
    ensures x * k < y * k
    ensures x * k + k <= y * k
  {
    MulMonotone(x + 1, y, k);
  }

  // Multiplication by a positive number can be cancelled from comparisons.
  lemma MulCancel(x: int, y: int, k: int)
    requires 0 < k
    ensures x * k <= y * k <==> x <= y
    ensures x * k == y * k <==> x == y
    ensures x * k < y * k <==> x < y
  {
    if x < y { MulStrict(x, y, k); }
    if y < x { MulStrict(y, x, k); }
  }

  lemma DivModOf(a: int, d: int)
    requires 0 < d
    ensures a == (a / d) * d + a % d
    ensures 0 <= a % d < d
  {}

  /** Quotient and remainder of a natural number, with the facts every use needs. */
  function Quot(a: nat, d: int): (q: nat)
    requires 0 < d
    ensures q * d <= a < q * d + d
  {
    DivModOf(a, d);
    MulCancel(-1, a / d, d);
    a / d
  }

  function Rem(a: nat, d: int): (r: nat)
    requires 0 < d
    ensures r < d && a == Quot(a, d) * d + r
  {
    a % d
  }

  lemma QuotRemUnique(a: nat, d: int, q: nat, r: nat)
    requires 0 < d && a == q * d + r && r < d
    ensures Quot(a, d) == q && Rem(a, d) == r
  {
    DivModUnique(a, d, q, r);
  }

  // Quotient and remainder are the only pair with these properties.
  lemma DivModUnique(a: int, d: int, q: int, r: int)
    requires 0 < d && a == q * d + r && 0 <= r < d
    ensures a / d == q && a % d == r
  {
    var q', r' := a / d, a % d;
    assert a == q' * d + r';
    if q < q' { MulStrict(q, q', d); }
    if q' < q { MulStrict(q', q, d); }
  }

  lemma MultipleMod(q: int, d: int)
    requires 0 < d
    ensures (q * d) % d == 0 && (q * d) / d == q
  {
    DivModUnique(q * d, d, q, 0);
  }

  /** The quotient rounded up: the least c with a <= c * d. */
  function CeilDiv(a: nat, d: int): (c: nat)
    requires 0 < d
  {
    DivModOf(a, d);
    MulCancel(-1, a / d, d);
    if a % d == 0 then a / d else a / d + 1
  }

  lemma CeilDivBounds(a: nat, d: int)
    requires 0 < d
    ensures var c := CeilDiv(a, d); a <= c * d < a + d
    ensures a % d == 0 <==> CeilDiv(a, d) * d == a
  {
    DivModOf(a, d);
    var q := a / d;
    assert (q + 1) * d == q * d + d;
  }

  lemma CeilDivUnique(a: nat, d: int, c: nat)
    requires 0 < d && a <= c * d < a + d
    ensures c == CeilDiv(a, d)
  {
    CeilDivBounds(a, d);
    var c' := CeilDiv(a, d);
    if c < c' { MulStrict(c, c', d); }
    if c' < c { MulStrict(c', c, d); }
  }

  // CeilDiv(a, d) <= k exactly when k * d covers a.
  lemma CeilDivLeast(a: nat, d: int, k: int)
    requires 0 < d
    ensures CeilDiv(a, d) <= k <==> a <= k * d
  {
    CeilDivBounds(a, d);
    var c := CeilDiv(a, d);
    if c <= k { MulMonotone(c, k, d); } else { MulStrict(k, c, d); }
  }

  lemma CeilDivMonotone(a: nat, b: nat, d: int)
    requires 0 < d && a <= b
    ensures CeilDiv(a, d) <= CeilDiv(b, d)
  {
    CeilDivBounds(b, d);
    CeilDivLeast(a, d, CeilDiv(b, d));
  }

  lemma CeilDivOfMultiple(c: nat, d: int)
    requires 0 < d
    ensures 0 <= c * d && CeilDiv(c * d, d) == c
  {
    MulMonotone(0, c, d);
    CeilDivUnique(c * d, d, c);
  }

  // A common factor can be cancelled.
  lemma CeilDivCancel(a: nat, d: int, m: int)
    requires 0 < d && 0 < m
    ensures 0 <= a * m && 0 < d * m && CeilDiv(a * m, d * m) == CeilDiv(a, d)
  {
    MulMonotone(0, a, m);
    MulStrict(0, d, m);
    CeilDivBounds(a, d);
    var c := CeilDiv(a, d);
    MulCancel(a, c * d, m);
    MulCancel(c * d, a + d, m);
    assert (c * d) * m == c * (d * m);
    assert (a + d) * m == a * m + d * m;
    CeilDivUnique(a * m, d * m, c);
  }

  lemma CeilDivTwiceLeast(a: nat, d: int, e: int, k: int)
    requires 0 < d && 0 < e && 0 < d * e
    ensures CeilDiv(CeilDiv(a, d), e) <= k <==> CeilDiv(a, d * e) <= k
  {
    CeilDivLeast(CeilDiv(a, d), e, k);
    CeilDivLeast(a, d, k * e);
    CeilDivLeast(a, d * e, k);
    assert (k * e) * d == k * (d * e);
  }

  // Rounding up twice is rounding up once.
  lemma CeilDivCompose(a: nat, d: int, e: int)
    requires 0 < d && 0 < e
    ensures 0 < d * e && CeilDiv(CeilDiv(a, d), e) == CeilDiv(a, d * e)
  {
    MulStrict(0, d, e);
    CeilDivTwiceLeast(a, d, e, CeilDiv(CeilDiv(a, d), e));
    CeilDivTwiceLeast(a, d, e, CeilDiv(a, d * e));
  }

  /** Division rounded away from zero (divRoundAwayFromZero). */
  function RoundAway(n: int, d: int): int
    requires 0 < d
  {
    if n < 0 then 0 - CeilDiv(-n, d) else CeilDiv(n, d)
  }

  /** True iff the division above loses nothing. */
  predicate DividesExactly(n: int, d: int)
    requires 0 < d
  {
    Abs(n) % d == 0
  }

  lemma RoundAwayExact(n: int, d: int)
    requires 0 < d
    ensures DividesExactly(n, d) <==> RoundAway(n, d) * d == n
  {
    CeilDivBounds(Abs(n), d);
  }

  lemma RoundAwayOfMultiple(n: int, d: int)
    requires 0 < d
    ensures RoundAway(n * d, d) == n && DividesExactly(n * d, d)
  {
    CeilDivOfMultiple(Abs(n), d);
    if n < 0 { MulStrict(n, 0, d); } else { MulMonotone(0, n, d); }
    assert Abs(n) * d == Abs(n * d);
    CeilDivBounds(Abs(n * d), d);
  }

  lemma RoundAwayCancel(n: int, d: int, m: int)
    requires 0 < d && 0 < m
    ensures 0 < d * m && RoundAway(n * m, d * m) == RoundAway(n, d)
  {
    CeilDivCancel(Abs(n), d, m);
    if n < 0 { MulStrict(n, 0, m); } else { MulMonotone(0, n, m); }
    assert Abs(n) * m == Abs(n * m);
  }

  lemma RoundAwayMonotone(a: int, b: int, d: int)
    requires 0 < d && a <= b
    ensures RoundAway(a, d) <= RoundAway(b, d)
  {
    if 0 <= a { CeilDivMonotone(a, b, d); }
    if b < 0 { CeilDivMonotone(-b, -a, d); }
  }
}
