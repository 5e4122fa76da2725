/** Machine integers, powers and logarithms (grug/math/src/int.rs, integer.rs). */
module MathWords {
  import opened Wrappers

  datatype MathError = NegativeSqrt | OverflowPow | OverflowMul

  /** An integer type. The narrowest ones, of 8 bits, reach at least 127. */
  datatype Word = Word(min: int, max: int) {
    predicate IsMachineWord() {
      max >= 127 && (min == 0 || min == -max - 1)
    }

    predicate Holds(x: int) {
      min <= x <= max
    }

    /** Arithmetic whose overflow would be a panic. */
    function Plus(x: int, y: int): int
      requires Holds(x + y)
    {
      x + y
    }

    function CheckedMul(x: int, y: int): Result<int, MathError> {
      if Holds(x * y) then Ok(x * y) else Err(OverflowMul)
    }

    function CheckedPow(x: nat, exp: nat): Result<int, MathError> {
      if Holds(Pow(x, exp)) then Ok(Pow(x, exp)) else Err(OverflowPow)
    }
  }

  function Pow(base: nat, exp: nat): (r: nat)
    ensures base > 0 ==> r > 0
  {
    if exp == 0 then 1 else MulPositive(base, Pow(base, exp - 1)); base * Pow(base, exp - 1)
  }

  lemma MulPositive(x: nat, y: nat)
    ensures x > 0 && y > 0 ==> x * y > 0
  {
  }

  lemma MulAssociates(x: int, y: int, z: int)
    ensures x * (y * z) == (x * y) * z
  {
  }

  lemma MulKeepsOrder(x: int, y: int, z: int)
    requires x <= y && z >= 0
    ensures x * z <= y * z
  {
  }

  lemma {:induction false} PowAdds(base: nat, x: nat, y: nat)
    ensures Pow(base, x + y) == Pow(base, x) * Pow(base, y)
  {
    if x == 0 {
    } else {
      PowAdds(base, x - 1, y);
      MulAssociates(base, Pow(base, x - 1), Pow(base, y));
    }
  }

  lemma {:induction false} PowOfSquare(base: nat, exp: nat)
    ensures Pow(base * base, exp) == Pow(base, 2 * exp)
  {
    if exp == 0 {
    } else {
      PowOfSquare(base, exp - 1);
      PowAdds(base, 2, 2 * exp - 2);
      assert Pow(base, 2) == base * base by {
        assert Pow(base, 1) == base * Pow(base, 0);
      }
    }
  }

  lemma {:induction false} PowGrows(base: nat, x: nat, y: nat)
    requires base > 0 && x <= y
    ensures Pow(base, x) <= Pow(base, y)
  {
    PowAdds(base, x, y - x);
    MulKeepsOrder(1, Pow(base, y - x), Pow(base, x));
  }

  /** The position of the highest bit. */
  function Ilog2(n: int): (r: nat)
    requires n > 0
    ensures Pow(2, r) <= n < 2 * Pow(2, r)
  {
    if n == 1 then 0 else 1 + Ilog2(n / 2)
  }

  /** 10^places fits, which the constant PRECISION of a decimal type needs. */
  predicate IsDecimal(w: Word, places: nat) {
    w.IsMachineWord() && w.Holds(Pow(10, places))
  }

  /** Division with remainder of natural numbers, for use with divisors that are not constants. */
  function Div(n: nat, d: nat): (q: nat)
    requires d > 0
    ensures d * q <= n < d * q + d
  {
    n / d
  }

  function Mod(n: nat, d: nat): (m: nat)
    requires d > 0
    ensures m < d && d * Div(n, d) + m == n
  {
    n - d * Div(n, d)
  }
}
