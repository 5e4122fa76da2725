/** Integer and decimal square roots (grug/math/src/exponentiate.rs). */
module MathSqrt {
  import opened Wrappers
  import opened MathWords

  /** The largest integer whose square is at most `n`. */
  predicate IsFloorRoot(r: int, n: int) {
    r >= 0 && r * r <= n < (r + 1) * (r + 1)
  }

  lemma SquaresGrow(x: int, y: int)
    requires 0 <= x < y
    ensures x * x < y * y
  {
    assert y * y - x * x == (y - x) * (y + x);
  }

  lemma FloorRootIsUnique(r: int, s: int, n: int)
    requires IsFloorRoot(r, n) && IsFloorRoot(s, n)
    ensures r == s
  {
    if r < s {
      if r + 1 < s { SquaresGrow(r + 1, s); }
    } else if s < r {
      if s + 1 < r { SquaresGrow(s + 1, r); }
    }
  }

  /** No step of the iteration falls below the root. */
  lemma StepStaysAbove(n: int, x: int)
    requires n > 0 && x > 0
    ensures var y := (x + n / x) / 2; n < (y + 1) * (y + 1)
  {
    var q := n / x;
    var y := (x + q) / 2;
    assert x * q + n % x == n;
    assert x * (q + 1) > n;
    assert 2 * (y + 1) >= x + (q + 1) > 0;
    ProductBelowSquare(x, q + 1, y + 1);
  }

  lemma ProductBelowSquare(a: int, b: int, c: int)
    requires a > 0 && b > 0 && 2 * c >= a + b
    ensures a * b <= c * c
  {
    var s := a + b;
    assert s * s - 4 * (a * b) == (a - b) * (a - b) >= 0;
    assert (2 * c) * (2 * c) >= s * s by { MulKeepsOrder(s, 2 * c, s); MulKeepsOrder(s, 2 * c, 2 * c); }
  }

  lemma SmallPowers()
    ensures Pow(2, 1) == 2 && Pow(2, 2) == 4 && Pow(2, 3) == 8 && Pow(2, 4) == 16
  {
    assert Pow(2, 0) == 1;
  }

  /** The first guess is above the root. */
  lemma FirstGuess(n: int, log: nat)
    requires n > 0 && log == Ilog2(n)
    ensures n < Pow(2, log / 2 + 1) * Pow(2, log / 2 + 1)
  {
    var k := log / 2 + 1;
    PowAdds(2, k, k);
    PowGrows(2, log + 1, 2 * k);
    assert Pow(2, log + 1) == 2 * Pow(2, log);
  }

  lemma DoubledGuess(log: nat)
    requires log >= 4
    ensures 2 * Pow(2, log / 2 + 1) <= Pow(2, log) && Pow(2, log) >= 16 && Pow(2, log / 2 + 1) >= 2
  {
    SmallPowers();
    PowGrows(2, 4, log);
    PowGrows(2, log / 2 + 2, log);
    PowGrows(2, 1, log / 2 + 1);
  }

  /** And no more than half the number unless that is tiny. */
  lemma FirstGuessIsSmall(n: int, log: nat)
    requires Pow(2, log) <= n < 2 * Pow(2, log)
    ensures var guess := Pow(2, log / 2 + 1);
            guess >= 2 && (n < 16 ==> guess <= 4) && (n >= 16 ==> 2 * guess <= n)
  {
    if log >= 4 {
      DoubledGuess(log);
    } else {
      SmallPowers();
      assert log == 0 || log == 1 || log == 2 || log == 3;
    }
  }

  lemma DivisionIsBounded(n: int, x: int)
    requires n >= 0 && x > 0
    ensures 0 <= n / x <= n
    ensures x >= 2 ==> n / x <= n / 2
  {
    var q := n / x;
    assert x * q <= n;
    if x >= 2 { MulKeepsOrder(2, x, q); } else { assert x == 1; }
    MulKeepsOrder(1, x, q);
  }

  /** The sums of the iteration fit any machine word that holds the number. */
  lemma SumFits(w: Word, n: int, x: int)
    requires w.IsMachineWord() && w.Holds(n) && n > 0
    requires x >= 1 && (n < 16 ==> x <= 4) && (n >= 16 ==> 2 * x <= n)
    requires n < (x + 1) * (x + 1)
    ensures w.Holds(x + n / x)
  {
    DivisionIsBounded(n, x);
    assert n >= 16 ==> x >= 2 by { assert x == 1 ==> (x + 1) * (x + 1) == 4; }
  }

  /** Where the iteration may be: not below the root, and where its sums fit. */
  predicate Converging(n: int, x: int) {
    x >= 1 && (n < 16 ==> x <= 4) && (n >= 16 ==> 2 * x <= n) && n < (x + 1) * (x + 1)
  }

  lemma NextIsPositive(n: int, x: int)
    requires n > 0 && Converging(n, x)
    ensures (x + n / x) / 2 >= 1
  {
    if x == 1 {
      assert n / x == n;
    }
  }

  /** The Babylonian method. No addition or shift in it overflows the word. */
  method CheckedSqrt(w: Word, n: int) returns (r: Result<int, MathError>)
    requires w.IsMachineWord() && w.Holds(n)
    ensures n < 0 ==> r == Err(NegativeSqrt)
    ensures n >= 0 ==> r.Ok? && IsFloorRoot(r.value, n) && w.Holds(r.value)
  {
    if n == 0 {
      return Ok(0);
    }
    if n < 0 {
      return Err(NegativeSqrt);
    }
    var log := Ilog2(n);
    var x0 := Pow(2, log / 2 + 1);
    FirstGuess(n, log);
    FirstGuessIsSmall(n, log);
    assert n < (x0 + 1) * (x0 + 1) by { SquaresGrow(x0, x0 + 1); }
    assert w.Holds(x0);
    SumFits(w, n, x0);
    NextIsPositive(n, x0);
    StepStaysAbove(n, x0);
    var x1 := w.Plus(x0, n / x0) / 2;
    while x1 < x0
      invariant Converging(n, x0)
      invariant x1 == (x0 + n / x0) / 2 >= 1
      invariant n < (x1 + 1) * (x1 + 1)
      decreases x0
    {
      x0 := x1;
      SumFits(w, n, x0);
      NextIsPositive(n, x0);
      StepStaysAbove(n, x0);
      x1 := w.Plus(x0, n / x0) / 2;
    }
    LastStepIsBelow(n, x0);
    return Ok(x0);
  }

  lemma LastStepIsBelow(n: int, x: int)
    requires n > 0 && x > 0 && (x + n / x) / 2 >= x
    ensures x * x <= n
  {
    assert n / x >= x;
    MulKeepsOrder(x, n / x, x);
    assert x * (n / x) <= n;
  }

  // ---- fixed-point decimals ----

  /** The most the argument can be scaled by: 100^i, for the largest i up to half the places. */
  predicate IsLargestScaling(w: Word, places: nat, raw: int, i: nat) {
    && i <= places / 2
    && w.Holds(raw * Pow(100, i))
    && (forall k | i < k <= places / 2 :: !w.Holds(raw * Pow(100, k)))
  }

  /** The square root of the scaled argument, scaled back. */
  predicate IsScaledRoot(w: Word, places: nat, raw: int, s: int, i: nat) {
    && IsLargestScaling(w, places, raw, i)
    && s % Pow(10, places / 2 - i) == 0
    && IsFloorRoot(s / Pow(10, places / 2 - i), raw * Pow(100, i))
  }

  lemma HundredsFit(w: Word, places: nat, i: nat)
    requires IsDecimal(w, places) && i <= places / 2
    ensures w.Holds(Pow(100, i)) && w.Holds(Pow(10, places / 2 - i))
    ensures w.Holds(Pow(10, 2)) && Pow(10, 2) == 100
  {
    PowOfSquare(10, i);
    PowGrows(10, 2 * i, places);
    PowGrows(10, places / 2 - i, places);
    assert Pow(10, 1) == 10 * Pow(10, 0);
  }

  /** In terms of the whole argument, the error is less than one unit of the scale. */
  lemma ScaledRootBounds(w: Word, places: nat, raw: int, s: int, i: nat)
    requires IsDecimal(w, places) && raw >= 0 && IsScaledRoot(w, places, raw, s, i)
    ensures var unit := Pow(10, places / 2 - i);
            s >= 0 && s * s <= raw * Pow(10, 2 * (places / 2)) < (s + unit) * (s + unit)
  {
    var j := places / 2 - i;
    var unit := Pow(10, j);
    var r := s / unit;
    var inner := raw * Pow(100, i);
    assert s == r * unit;
    PowOfSquare(10, i);
    PowAdds(10, 2 * i, 2 * j);
    PowAdds(10, j, j);
    MulAssociates(raw, Pow(10, 2 * i), Pow(10, 2 * j));
    assert raw * Pow(10, 2 * (places / 2)) == inner * (unit * unit);
    ScaleBounds(r, inner, unit);
  }

  lemma ScaleBounds(r: int, inner: int, unit: int)
    requires IsFloorRoot(r, inner) && unit > 0
    ensures (r * unit) * (r * unit) <= inner * (unit * unit) < (r * unit + unit) * (r * unit + unit)
    ensures r * unit >= 0
  {
    assert (r * unit) * (r * unit) == (r * r) * (unit * unit);
    MulKeepsOrder(r * r, inner, unit * unit);
    assert (r * unit + unit) * (r * unit + unit) == ((r + 1) * (r + 1)) * (unit * unit);
    MulKeepsOrder(inner + 1, (r + 1) * (r + 1), unit * unit);
    assert unit * unit > 0;
  }

  /** Scaling the root back never overflows. */
  lemma RootFits(w: Word, places: nat, raw: int, s: int, i: nat)
    requires IsDecimal(w, places) && raw >= 0 && w.Holds(raw) && IsScaledRoot(w, places, raw, s, i)
    ensures w.Holds(s)
  {
    ScaledRootBounds(w, places, raw, s, i);
    var whole := Pow(10, 2 * (places / 2));
    PowGrows(10, 2 * (places / 2), places);
    MulKeepsOrder(raw, w.max, whole);
    MulKeepsOrder(whole, w.max, w.max);
    if s > w.max { SquaresGrow(w.max, s); }
  }

  lemma ZeroScalingFits(w: Word, raw: int)
    requires w.Holds(raw)
    ensures w.Holds(raw * Pow(100, 0))
  {
    assert Pow(100, 0) == 1;
  }

  /** Tries scalings from the largest down. One always fits, and no power of a hundred on the way overflows. */
  method FindScaling(w: Word, places: nat, raw: int) returns (inner: int, i: nat, j: nat)
    requires IsDecimal(w, places) && w.Holds(raw)
    ensures IsLargestScaling(w, places, raw, i) && inner == raw * Pow(100, i) && j == places / 2 - i
  {
    HundredsFit(w, places, 0);
    var hundred := w.CheckedMul(10, 10).value;
    var k := places / 2;
    HundredsFit(w, places, k);
    ZeroScalingFits(w, raw);
    while w.CheckedMul(raw, w.CheckedPow(hundred, k).value).Err?
      invariant 0 <= k <= places / 2
      invariant w.CheckedPow(hundred, k).Ok?
      invariant forall l | k < l <= places / 2 :: !w.Holds(raw * Pow(100, l))
      decreases k
    {
      k := k - 1;
      HundredsFit(w, places, k);
    }
    inner := w.CheckedMul(raw, w.CheckedPow(hundred, k).value).value;
    i, j := k, places / 2 - k;
  }

  lemma ScaledRootIs(w: Word, places: nat, raw: int, i: nat, root: int)
    requires IsLargestScaling(w, places, raw, i) && IsFloorRoot(root, raw * Pow(100, i))
    ensures IsScaledRoot(w, places, raw, root * Pow(10, places / 2 - i), i)
  {
    ScaledBack(root, Pow(10, places / 2 - i));
  }

  /** Fails on a negative argument only; otherwise finds the root at the largest scaling that fits. */
  method DecimalCheckedSqrt(w: Word, places: nat, raw: int) returns (r: Result<int, MathError>)
    requires IsDecimal(w, places) && w.Holds(raw)
    ensures raw < 0 ==> r == Err(NegativeSqrt)
    ensures raw >= 0 ==> r.Ok? && w.Holds(r.value)
    ensures raw >= 0 ==> exists i: nat :: IsScaledRoot(w, places, raw, r.value, i)
  {
    if raw < 0 {
      return Err(NegativeSqrt);
    }
    var inner, i, j := FindScaling(w, places, raw);
    InnerIsNotNegative(raw, Pow(100, i));
    var root := CheckedSqrt(w, inner);
    HundredsFit(w, places, i);
    var unit := w.CheckedPow(10, j).value;
    ScaledRootIs(w, places, raw, i, root.value);
    RootFits(w, places, raw, root.value * unit, i);
    r := w.CheckedMul(root.value, unit);
  }

  lemma InnerIsNotNegative(x: int, y: int)
    requires x >= 0 && y >= 0
    ensures x * y >= 0
  {
  }

  lemma ScaledBack(x: int, unit: int)
    requires unit > 0 && x >= 0
    ensures (x * unit) % unit == 0 && (x * unit) / unit == x
  {
    var y := x * unit;
    var q := y / unit;
    assert y == unit * q + y % unit;
    if q > x {
      MulKeepsOrder(x + 1, q, unit);
    } else if q < x {
      MulKeepsOrder(q + 1, x, unit);
    }
  }

  /** The square root of the decimal itself, to within one unit of the scale. */
  predicate IsDecimalRoot(places: nat, raw: int, s: int, unit: int) {
    s * s <= raw * Pow(10, places) < (s + unit) * (s + unit)
  }

  /** With an even number of places the result is the decimal's square root. */
  lemma EvenPlacesGiveTheRoot(w: Word, places: nat, raw: int, s: int, i: nat)
    requires IsDecimal(w, places) && raw >= 0 && IsScaledRoot(w, places, raw, s, i)
    requires places % 2 == 0
    ensures IsDecimalRoot(places, raw, s, Pow(10, places / 2 - i))
    ensures w.Holds(raw * Pow(10, places)) ==> IsFloorRoot(s, raw * Pow(10, places))
  {
    ScaledRootBounds(w, places, raw, s, i);
    PowOfSquare(10, places / 2);
    if i < places / 2 {
      assert !w.Holds(raw * Pow(100, places / 2));
    } else {
      assert Pow(10, 0) == 1;
    }
  }

  /** With an odd number it is the root of a tenth of it, and so wrong except at zero. */
  lemma RootIsRightIff(w: Word, places: nat, raw: int, s: int, i: nat)
    requires IsDecimal(w, places) && raw >= 0 && IsScaledRoot(w, places, raw, s, i)
    ensures IsDecimalRoot(places, raw, s, Pow(10, places / 2 - i)) <==> places % 2 == 0 || raw == 0
  {
    ScaledRootBounds(w, places, raw, s, i);
    var unit := Pow(10, places / 2 - i);
    if places % 2 == 0 {
      EvenPlacesGiveTheRoot(w, places, raw, s, i);
    } else {
      OddPower(raw, places);
      if raw > 0 {
        RootIsAtLeastUnit(w, places, raw, s, i);
        TenSquares(s, unit);
      }
    }
  }

  lemma OddPower(raw: int, places: nat)
    requires places % 2 == 1
    ensures raw * Pow(10, places) == 10 * (raw * Pow(10, 2 * (places / 2)))
  {
    assert 2 * (places / 2) == places - 1;
    assert Pow(10, places) == 10 * Pow(10, places - 1);
    MulAssociates(raw, 10, Pow(10, places - 1));
  }

  lemma RootIsAtLeastUnit(w: Word, places: nat, raw: int, s: int, i: nat)
    requires IsDecimal(w, places) && raw > 0 && IsScaledRoot(w, places, raw, s, i)
    ensures s >= Pow(10, places / 2 - i)
  {
    var unit := Pow(10, places / 2 - i);
    var r := s / unit;
    MulPositive(raw, Pow(100, i));
    assert r >= 1;
    MulKeepsOrder(1, r, unit);
  }

  lemma TenSquares(s: int, unit: int)
    requires s >= unit > 0
    ensures (s + unit) * (s + unit) < 10 * (s * s)
  {
    MulKeepsOrder(s + unit, 2 * s, s + unit);
    MulKeepsOrder(s + unit, 2 * s, 2 * s);
    assert (2 * s) * (2 * s) == 4 * (s * s);
    assert s * s > 0;
  }

  /** One decimal place in a word of 128 bits: the root of 0.1 comes out as 0.1. */
  lemma OddPlacesExample()
    ensures var w := Word(0, 0xFFFF_FFFF_FFFF_FFFF_FFFF_FFFF_FFFF_FFFF);
            IsDecimal(w, 1) && IsScaledRoot(w, 1, 1, 1, 0) && !IsDecimalRoot(1, 1, 1, 1)
  {
    assert Pow(10, 0) == 1 && Pow(10, 1) == 10 && Pow(100, 0) == 1;
  }
}
