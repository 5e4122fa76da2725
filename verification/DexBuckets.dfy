/** The price bucket of an order (dango/dex/src/liquidity_depth.rs). Prices are atomics of 24-place decimals. */
module DexBuckets {
  import opened Wrappers
  import opened MathWords

  const MAX_U128: nat := 0xFFFF_FFFF_FFFF_FFFF_FFFF_FFFF_FFFF_FFFF

  /** One, as a decimal of 24 places. */
  const ONE: nat := 1_000_000_000_000_000_000_000_000

  datatype Direction = Bid | Ask

  function Fitting(x: nat): Option<nat> {
    if x <= MAX_U128 then Some(x) else None
  }

  /** Product with a price, rounded down. */
  function Times(x: nat, price: nat): Option<nat> {
    Fitting(x * price / ONE)
  }

  /** Quotient of two prices, rounded down. */
  function Over(x: nat, y: nat): Option<nat>
    requires y > 0
  {
    Fitting(Div(x * ONE, y))
  }

  function Floor(x: nat): nat {
    x - x % ONE
  }

  function SaturatingAdd(x: nat, y: nat): nat {
    if x + y <= MAX_U128 then x + y else MAX_U128
  }

  /** Fails only when the quotient does not fit. */
  function GetBucket(size: nat, direction: Direction, price: nat): Option<nat>
    requires size > 0
  {
    var ratio := Over(price, size);
    if ratio.None? then None
    else
      var lower := Times(Floor(ratio.value), size);
      if lower.None? then None
      else if direction.Ask? && price > lower.value then Some(SaturatingAdd(lower.value, size))
      else lower
  }

  predicate IsMultiple(x: nat, size: nat)
    requires size > 0
  {
    Mod(x, size) == 0
  }

  lemma MultipleOf(n: nat, size: nat)
    requires size > 0
    ensures Div(size * n, size) == n && IsMultiple(size * n, size)
  {
    var q := Div(size * n, size);
    if q < n {
      MulKeepsOrder(q + 1, n, size);
    } else if q > n {
      MulKeepsOrder(n + 1, q, size);
    }
  }

  /** Flooring the quotient of the atomics gives the quotient of the prices. */
  lemma FlooredRatio(price: nat, size: nat)
    requires size > 0
    ensures Floor(Div(price * ONE, size)) == Div(price, size) * ONE
  {
    var q := Div(price * ONE, size);
    var n := q / ONE;
    assert n * ONE <= q < (n + 1) * ONE;
    MulKeepsOrder(n * ONE, q, size);
    MulKeepsOrder(q + 1, (n + 1) * ONE, size);
    assert (n * ONE) * size == (n * size) * ONE;
    assert ((n + 1) * ONE) * size == ((n + 1) * size) * ONE;
    assert q * size == size * q && (q + 1) * size == size * q + size;
    assert n * size <= price < (n + 1) * size;
    DivIsUnique(price, size, n);
  }

  lemma DivIsUnique(x: nat, d: nat, n: nat)
    requires d > 0 && n * d <= x < (n + 1) * d
    ensures Div(x, d) == n
  {
    var q := Div(x, d);
    if q < n {
      MulKeepsOrder(q + 1, n, d);
    } else if q > n {
      MulKeepsOrder(n + 1, q, d);
    }
  }

  lemma LowerBucket(price: nat, size: nat)
    requires size > 0 && price <= MAX_U128
    ensures var lower := size * Div(price, size);
            Times(Floor(Div(price * ONE, size)), size) == Some(lower) && lower <= price < lower + size
  {
    FlooredRatio(price, size);
    var n := Div(price, size);
    assert (n * ONE) * size == (size * n) * ONE;
  }

  /**
   * For a bid the bucket is the largest multiple of the size that is at most the price, for an ask
   * the smallest that is at least the price, or the largest number if every such multiple is beyond it.
   */
  lemma BucketIsNearest(size: nat, direction: Direction, price: nat)
    requires size > 0 && price <= MAX_U128
    ensures GetBucket(size, direction, price).Some? <==> Div(price * ONE, size) <= MAX_U128
    ensures GetBucket(size, direction, price).Some? ==>
      var bucket := GetBucket(size, direction, price).value;
      match direction
      case Bid => IsMultiple(bucket, size) && bucket <= price < bucket + size
      case Ask =>
        if IsMultiple(bucket, size) && bucket < price + size then price <= bucket
        else bucket == MAX_U128 && forall m: nat | IsMultiple(m, size) && m >= price :: m > MAX_U128
  {
    LowerBucket(price, size);
    var n := Div(price, size);
    MultipleOf(n, size);
    MultipleOf(n + 1, size);
    assert size * (n + 1) == size * n + size;
    forall m: nat | IsMultiple(m, size) && m > size * n
      ensures m >= size * n + size
    {
      NextMultiple(m, size, n);
    }
  }

  lemma NextMultiple(m: nat, size: nat, n: nat)
    requires size > 0 && IsMultiple(m, size) && m > size * n
    ensures m >= size * n + size
  {
    var k := Div(m, size);
    assert m == size * k;
    if k <= n {
      MulKeepsOrder(k, n, size);
    } else {
      MulKeepsOrder(n + 1, k, size);
    }
  }

  /** What rounding two parts down loses against rounding the whole. */
  function Lost(x: nat, y: nat, price: nat): nat {
    if x * price % ONE + y * price % ONE >= ONE then 1 else 0
  }

  /** That is one unit exactly if the remainders of the parts together make up one. */
  lemma SplitProduct(x: nat, y: nat, price: nat)
    ensures (x + y) * price / ONE == x * price / ONE + y * price / ONE + Lost(x, y, price)
  {
    assert (x + y) * price == x * price + y * price;
  }
}
