/** The sizes of orders, which are whole coins (dango/dex/src/execute/order_creation.rs). */
module DexSizes {
  import opened Wrappers
  import opened DexBuckets
  import opened MathWords

  // ---- whole coins ----

  /** The atomics of one coin in a decimal of six places. */
  const COIN: nat := 1_000_000

  predicate IsWhole(amount: nat) {
    amount % COIN == 0
  }

  /** What a price must be a multiple of for whole coins to be worth a whole number of atomics. */
  const COARSE: nat := 1_000_000_000_000_000_000

  lemma RemainderIsUnique(x: int, q: int, r: nat, d: nat)
    requires r < d && x == d * q + r
    ensures x % d == r
  {
    var other := x / d;
    if other < q {
      MulKeepsOrder(other + 1, q, d);
    } else if other > q {
      MulKeepsOrder(q + 1, other, d);
    }
  }

  lemma ScaledRemainder(worth: nat)
    ensures worth * COIN % ONE == COIN * (worth % COARSE)
  {
    var q, r := worth / COARSE, worth % COARSE;
    assert worth == COARSE * q + r;
    RemainderIsUnique(worth * COIN, q, COIN * r, ONE);
  }

  /** For whole coins it is enough to look at as many digits of the price as a coin does not have. */
  lemma LostCoins(x: nat, y: nat, price: nat)
    ensures Lost(x * COIN, y * COIN, price) == if x * price % COARSE + y * price % COARSE >= COARSE then 1 else 0
  {
    ScaledRemainder(x * price);
    ScaledRemainder(y * price);
    assert x * COIN * price == x * price * COIN && y * COIN * price == y * price * COIN;
  }

  lemma CoarseWorth(coins: nat, price: nat)
    requires price % COARSE == 0
    ensures coins * price % COARSE == 0
  {
    var q := price / COARSE;
    assert price == COARSE * q;
    MulAssociates(coins, COARSE, q);
    MulAssociates(COARSE, coins, q);
    RemainderIsUnique(coins * price, coins * q, 0, COARSE);
  }

  /** A coarse price loses nothing for whole coins. */
  lemma NothingLostIfCoarse(x: nat, y: nat, price: nat)
    requires price % COARSE == 0 && IsWhole(x) && IsWhole(y)
    ensures Lost(x, y, price) == 0
  {
    LostCoins(x / COIN, y / COIN, price);
    CoarseWorth(x / COIN, price);
    CoarseWorth(y / COIN, price);
  }

  lemma OneCoinFirst(price: nat)
    requires price % COARSE != 0
    ensures Lost(COIN, (COARSE - 1) * COIN, price) == 1
  {
    LostCoins(1, COARSE - 1, price);
    AllButOne(price);
  }

  lemma AllButOne(price: nat)
    requires price % COARSE != 0
    ensures (COARSE - 1) * price % COARSE == COARSE - price % COARSE
  {
    var q, r := price / COARSE, price % COARSE;
    assert price == COARSE * q + r;
    RemainderIsUnique((COARSE - 1) * price, price - q - 1, COARSE - r, COARSE);
  }

  /** Some order of whole coins loses a unit when it is filled in two parts exactly if the price is not coarse. */
  lemma SomeSplitLosesIff(price: nat)
    ensures (exists x: nat, y: nat :: IsWhole(x) && IsWhole(y) && Lost(x, y, price) > 0) <==> price % COARSE != 0
  {
    if price % COARSE == 0 {
      forall x: nat, y: nat | IsWhole(x) && IsWhole(y)
        ensures Lost(x, y, price) == 0
      {
        NothingLostIfCoarse(x, y, price);
      }
    } else {
      OneCoinFirst(price);
      assert IsWhole(COIN) && IsWhole((COARSE - 1) * COIN);
    }
  }

  // ---- the size of a new order ----

  type Positive = n: nat | n > 0 witness 1

  /** A bid names what it spends, an ask what it sells; neither can be nothing. */
  datatype Given = BidFor(quote: Positive) | AskOf(base: Positive) {
    function Direction(): Direction {
      if BidFor? then Bid else Ask
    }
  }

  function RoundedUp(worth: nat): nat {
    (worth + ONE - 1) / ONE
  }

  /** The coins of an order, in base and in quote. */
  function Sized(given: Given, price: nat): Option<(nat, nat)> {
    match given
    case BidFor(quote) =>
      if price == 0 || quote * ONE / price > MAX_U128 then None
      else
        var amount := quote * ONE / price;
        var spent := RoundedUp(amount * price);
        if spent > MAX_U128 then None else Some((amount, spent))
    case AskOf(base) =>
      if base * price / ONE > MAX_U128 then None else Some((base, base * price / ONE))
  }

  /** What a new order has to trade, unless it is too large or too small. */
  function NewOrder(given: Given, price: nat, minOrderSize: nat): Option<nat> {
    var sized := Sized(given, price);
    if sized.None? || sized.value.0 * COIN > MAX_U128 || sized.value.1 < minOrderSize then None
    else Some(sized.value.0 * COIN)
  }

  /** A bid gets as many coins as what it names can pay for, and no more. */
  lemma BidIsLargest(quote: Positive, price: nat, coins: nat)
    requires Sized(BidFor(quote), price).Some?
    ensures RoundedUp(coins * price) <= quote <==> coins <= Sized(BidFor(quote), price).value.0
    ensures Sized(BidFor(quote), price).value.1 <= quote
  {
    var amount := quote * ONE / price;
    assert amount * price <= quote * ONE < (amount + 1) * price;
    if coins <= amount {
      MulKeepsOrder(coins, amount, price);
    } else {
      MulKeepsOrder(amount + 1, coins, price);
    }
  }

  /** What an order is worth in the quote asset: a bid's coins rounded up, an ask's rounded down. */
  lemma SizedByWorth(given: Given, price: nat)
    ensures Sized(given, price).Some? ==>
      var (coins, worth) := Sized(given, price).value;
      match given
      case BidFor(_) => worth * ONE >= coins * price && (worth > 0 ==> (worth - 1) * ONE < coins * price)
      case AskOf(base) => coins == base && worth * ONE <= coins * price < (worth + 1) * ONE
    ensures given.AskOf? ==> (Sized(given, price).Some? <==> given.base * price < (MAX_U128 + 1) * ONE)
  {
  }

  /** An order is placed with all its coins, if its worth is not below the minimum and neither is too large. */
  lemma NewOrderIff(given: Given, price: nat, minOrderSize: nat, remaining: nat)
    ensures NewOrder(given, price, minOrderSize) == Some(remaining) <==>
      && Sized(given, price).Some? && Sized(given, price).value.1 >= minOrderSize
      && remaining == Sized(given, price).value.0 * COIN && remaining <= MAX_U128
  {
  }

  lemma EmptyBidIff(quote: Positive, price: nat)
    requires price > 0
    ensures quote * ONE / price == 0 <==> quote * ONE < price
  {
  }

  /** An order is of size zero exactly if it is a bid for less than one coin costs and nothing forbids that. */
  lemma SizeIsZeroIff(given: Given, price: nat, minOrderSize: nat)
    ensures NewOrder(given, price, minOrderSize) == Some(0)
            <==> given.BidFor? && given.quote * ONE < price && minOrderSize == 0
  {
    if given.BidFor? && price > 0 {
      EmptyBidIff(given.quote, price);
      assert 0 * price == 0;
    }
  }

  /** An order of size zero can be placed if and only if there is no minimum size and one coin costs more than one. */
  lemma ZeroSizePassesIff(price: nat, minOrderSize: nat)
    ensures (exists given :: NewOrder(given, price, minOrderSize) == Some(0)) <==> minOrderSize == 0 && price > ONE
  {
    forall given
      ensures NewOrder(given, price, minOrderSize) == Some(0)
              <==> given.BidFor? && given.quote * ONE < price && minOrderSize == 0
    {
      SizeIsZeroIff(given, price, minOrderSize);
    }
    if minOrderSize == 0 && price > ONE {
      assert NewOrder(BidFor(1), price, minOrderSize) == Some(0);
    }
  }
}
