/** One pair's order book with its depth index (dango/dex/src/cron.rs, dango/dex/src/execute). */
module DexBook {
  import opened Wrappers
  import opened MapSums
  import opened DexBuckets
  import opened DexSizes
  import opened DexMatching
  import opened DexDepths
  import opened DexQueue

  /** What a user gets back, in base and in quote. */
  datatype Refunds = Refunds(base: nat, quote: nat)

  /** A canceled bid gives back the worth of what remains of it, a canceled ask what remains itself. */
  function Refunded(refunds: Refunds, k: OrderKey, o: Order): Refunds {
    match k.direction
    case Bid => refunds.(quote := refunds.quote + QuoteOf(o.remaining, k.price))
    case Ask => refunds.(base := refunds.base + o.remaining)
  }

  predicate RefundFits(refunds: Refunds) {
    refunds.base <= MAX_U128 && refunds.quote <= MAX_U128
  }

  /** To cancel a new order gives back an ask's coins, and of what a bid took all but what rounding keeps. */
  lemma CancelingUndoesPlacing(given: Given, price: nat, minOrderSize: nat, k: OrderKey, o: Order)
    requires NewOrder(given, price, minOrderSize) == Some(o.remaining)
    requires k.direction == given.Direction() && k.price == price
    ensures var refunds := Refunded(Refunds(0, 0), k, o);
            match given
            case AskOf(base) => refunds == Refunds(base * COIN, 0)
            case BidFor(quote) =>
              var spent := Sized(given, price).value.1;
              refunds.base == 0 && (spent - 1) * COIN <= refunds.quote <= spent * COIN <= quote * COIN
  {
    if given.BidFor? {
      var (coins, spent) := Sized(given, price).value;
      BidIsLargest(given.quote, price, coins);
      SizedByWorth(given, price);
      RefundOfBid(coins, spent, price);
    }
  }

  lemma RefundOfBid(coins: nat, spent: nat, price: nat)
    requires spent * ONE >= coins * price && (spent > 0 ==> (spent - 1) * ONE < coins * price)
    ensures (spent - 1) * COIN <= QuoteOf(coins * COIN, price) <= spent * COIN
  {
    var worth := coins * price;
    assert coins * COIN * price == worth * COIN;
  }

  /** No resting order has size zero. */
  ghost predicate AllPositive(orders: Orders) {
    forall k | k in orders && orders[k].goodTilCanceled :: orders[k].remaining > 0
  }

  ghost predicate AllWhole(orders: Orders) {
    forall k | k in orders :: IsWhole(orders[k].remaining)
  }

  /** At such prices whole coins are worth a whole number of atomics. */
  ghost predicate AllCoarse(orders: Orders) {
    forall k | k in orders :: k.price % COARSE == 0
  }

  lemma FillKeepsWhole(orders: Orders, k: OrderKey, filled: nat)
    requires AllWhole(orders) && k in orders && filled <= orders[k].remaining && IsWhole(filled)
    ensures AllWhole(AfterFill(orders, k, filled))
  {
  }

  ghost predicate SameDust(before: Dust, after: Dust) {
    forall key {:trigger DustAt(after, key)} :: DustAt(after, key) == DustAt(before, key)
  }

  lemma NoMoreDust(dust: Dust, sizes: Sizes, orders: Orders, k: OrderKey, filled: nat)
    requires k in orders && filled <= orders[k].remaining && IsWhole(filled) && IsWhole(orders[k].remaining)
    requires k.price % COARSE == 0
    ensures SameDust(dust, DustAfterFill(dust, sizes, orders, k, filled))
  {
    var rest := orders[k].remaining - filled;
    NothingLostIfCoarse(filled, rest, k.price);
    forall key
      ensures DustAt(DustAfterFill(dust, sizes, orders, k, filled), key) == DustAt(dust, key)
    {
      DustedAt(dust, sizes, k.direction, k.price, Lost(filled, rest, k.price), key);
    }
  }

  // ---- filling several orders ----

  function OrderAt(orders: Orders, k: OrderKey): Option<Order> {
    if k in orders then Some(orders[k]) else None
  }

  type Fills = seq<(OrderKey, nat)>

  /** One fill for each of some orders, of whole coins and no more than remains of the order. */
  ghost predicate ValidFills(orders: Orders, fills: Fills) {
    && (forall i | 0 <= i < |fills| ::
          fills[i].0 in orders && fills[i].1 <= orders[fills[i].0].remaining && IsWhole(fills[i].1))
    && (forall i, j | 0 <= i < j < |fills| :: fills[i].0 != fills[j].0)
  }

  ghost predicate Skipped(fills: Fills, n: nat, k: OrderKey)
    requires n <= |fills|
  {
    forall i | 0 <= i < n :: fills[i].0 != k
  }

  /** The first fills have been made, and nothing else. */
  ghost predicate AllFilled(before: Orders, after: Orders, fills: Fills, n: nat)
    requires n <= |fills| && ValidFills(before, fills)
  {
    && (forall i | 0 <= i < n :: OrderAt(after, fills[i].0) == Leftover(before[fills[i].0], fills[i].1))
    && (forall k {:trigger OrderAt(after, k)} | Skipped(fills, n, k) :: OrderAt(after, k) == OrderAt(before, k))
  }

  lemma FilledOneMore(before: Orders, now: Orders, fills: Fills, n: nat)
    requires n < |fills| && ValidFills(before, fills) && AllFilled(before, now, fills, n)
    ensures var (k, filled) := fills[n];
            && k in now && now[k] == before[k]
            && AllFilled(before, AfterFill(now, k, filled), fills, n + 1)
  {
    var (k, filled) := fills[n];
    assert Skipped(fills, n, k);
    assert OrderAt(now, k) == OrderAt(before, k);
    var after := AfterFill(now, k, filled);
    forall l | Skipped(fills, n + 1, l)
      ensures OrderAt(after, l) == OrderAt(before, l)
    {
      assert Skipped(fills, n, l) && l != k;
      assert OrderAt(now, l) == OrderAt(before, l);
    }
  }

  lemma FilledStaysPositive(before: Orders, after: Orders, fills: Fills)
    requires ValidFills(before, fills) && AllFilled(before, after, fills, |fills|)
    ensures AllPositive(before) ==> AllPositive(after)
    ensures forall k | k in after :: k in before
    ensures AllCoarse(before) ==> AllCoarse(after)
  {
    forall k | k in after
      ensures k in before && (before[k].remaining > 0 || !before[k].goodTilCanceled ==>
                                after[k].remaining > 0 || !after[k].goodTilCanceled)
    {
      if Skipped(fills, |fills|, k) {
        assert OrderAt(after, k) == OrderAt(before, k);
      } else {
        var i :| 0 <= i < |fills| && fills[i].0 == k;
        assert OrderAt(after, k) == Leftover(before[k], fills[i].1);
      }
    }
  }

  // ---- clearing ----

  /** Every order is given its part of the volume. */
  ghost predicate Serves(orders: Orders, fills: Fills, volume: nat) {
    && (forall i | 0 <= i < |fills| :: fills[i].0 in orders && fills[i].1 == Filled(orders, fills[i].0, volume))
    && (forall k | k in orders && Skipped(fills, |fills|, k) :: Filled(orders, k, volume) == 0)
  }

  /** What is left of an order after the book is cleared with this volume. */
  ghost function Kept(orders: Orders, k: OrderKey, volume: nat): Option<Order>
    requires k in orders
  {
    if !orders[k].goodTilCanceled then None else Leftover(orders[k], Filled(orders, k, volume))
  }

  /** Orders of size zero may stay or go. */
  ghost predicate Cleared(before: Orders, after: Orders, volume: nat) {
    && (forall k | k in after :: k in before && after[k].goodTilCanceled)
    && (forall k | k in before && before[k].remaining > 0 :: OrderAt(after, k) == Kept(before, k, volume))
    && (forall k | k in after && before[k].remaining == 0 :: after[k] == before[k])
  }

  ghost predicate OnlyResting(before: Orders, after: Orders) {
    && (forall k :: k in after <==> k in before && before[k].goodTilCanceled)
    && forall k | k in after :: after[k] == before[k]
  }

  lemma FilledIsCleared(before: Orders, between: Orders, after: Orders, fills: Fills, volume: nat)
    requires ValidFills(before, fills) && AllFilled(before, between, fills, |fills|)
    requires Serves(before, fills, volume) && OnlyResting(between, after)
    ensures Cleared(before, after, volume)
  {
    forall k | k in before
      ensures before[k].remaining > 0 ==> OrderAt(after, k) == Kept(before, k, volume)
      ensures k in after && before[k].remaining == 0 ==> after[k] == before[k]
    {
      if Skipped(fills, |fills|, k) {
        assert OrderAt(between, k) == OrderAt(before, k);
      } else {
        var i :| 0 <= i < |fills| && fills[i].0 == k;
        assert OrderAt(between, k) == Leftover(before[k], fills[i].1);
      }
    }
    FilledStaysPositive(before, between, fills);
  }

  /** No bid that is left would trade with an ask that is left. */
  ghost predicate Uncrossed(orders: Orders) {
    forall k, l | k in orders && l in orders && !orders[k].passive && !orders[l].passive && k.direction == Bid
                  && l.direction == Ask :: k.price < l.price
  }

  lemma StaysIfKept(before: Orders, after: Orders, volume: nat, k: OrderKey)
    requires AllPositive(before) && Cleared(before, after, volume) && k in after
    ensures k in before && after[k].goodTilCanceled && after[k].remaining > 0
    ensures !after[k].passive ==> Filled(before, k, volume) < before[k].remaining
  {
    if before[k].remaining > 0 {
      assert OrderAt(after, k) == Kept(before, k, volume);
    }
  }

  lemma ClearedIsUncrossed(before: Orders, after: Orders, bids: seq<OrderKey>, asks: seq<OrderKey>)
    requires IsQueue(before, Bid, bids) && IsQueue(before, Ask, asks) && AllPositive(before)
    requires Cleared(before, after, MatchedVolume(Limits(before, bids), Limits(before, asks)))
    ensures Uncrossed(after) && AllPositive(after)
  {
    var volume := MatchedVolume(Limits(before, bids), Limits(before, asks));
    forall k | k in after
      ensures k in before && after[k].remaining > 0
      ensures !after[k].passive ==> Filled(before, k, volume) < before[k].remaining
    {
      StaysIfKept(before, after, volume, k);
    }
    forall k, l | k in after && l in after && !after[k].passive && !after[l].passive && k.direction == Bid
                  && l.direction == Ask
      ensures k.price < l.price
    {
      KeptDoNotCross(before, bids, asks, k, l);
    }
  }

  /** The first orders of a queue get their part, and no part is left for the others. */
  ghost predicate ServesSide(orders: Orders, queue: seq<OrderKey>, fills: Fills, volume: nat)
    requires forall i | 0 <= i < |queue| :: queue[i] in orders
  {
    && |fills| <= |queue|
    && (forall i | 0 <= i < |fills| :: fills[i] == (queue[i], Filled(orders, queue[i], volume)))
    && (forall i | |fills| <= i < |queue| :: Filled(orders, queue[i], volume) == 0)
  }

  lemma FilledIsWhole(orders: Orders, direction: Direction, queue: seq<OrderKey>, volume: nat, i: nat)
    requires AllWhole(orders) && IsWhole(volume) && IsQueue(orders, direction, queue) && i < |queue|
    ensures IsWhole(Filled(orders, queue[i], volume))
  {
    FilledIsFillAt(orders, direction, queue, volume, i);
    FillsAreWhole(Limits(orders, queue), volume, i);
  }

  lemma SideIsValid(orders: Orders, direction: Direction, queue: seq<OrderKey>, fills: Fills, volume: nat)
    requires AllWhole(orders) && IsWhole(volume) && IsQueue(orders, direction, queue)
    requires ServesSide(orders, queue, fills, volume)
    ensures ValidFills(orders, fills)
    ensures forall i | 0 <= i < |fills| :: fills[i].0.direction == direction
  {
    QueueIsDistinct(orders, direction, queue);
    forall i | 0 <= i < |fills|
      ensures IsWhole(fills[i].1)
    {
      FilledIsWhole(orders, direction, queue, volume, i);
    }
  }

  lemma SideServes(orders: Orders, direction: Direction, queue: seq<OrderKey>, fills: Fills, volume: nat, k: OrderKey)
    requires IsQueue(orders, direction, queue) && ServesSide(orders, queue, fills, volume)
    requires k in orders && k.direction == direction && Filled(orders, k, volume) > 0
    ensures !Skipped(fills, |fills|, k)
  {
    var i :| 0 <= i < |queue| && queue[i] == k;
    assert fills[i].0 == k;
  }

  lemma NotSkippedByBoth(bought: Fills, sold: Fills, k: OrderKey)
    requires !Skipped(bought, |bought|, k) || !Skipped(sold, |sold|, k)
    ensures !Skipped(bought + sold, |bought + sold|, k)
  {
    if !Skipped(bought, |bought|, k) {
      var i :| 0 <= i < |bought| && bought[i].0 == k;
      assert (bought + sold)[i].0 == k;
    } else {
      var i :| 0 <= i < |sold| && sold[i].0 == k;
      assert (bought + sold)[|bought| + i].0 == k;
    }
  }

  /** The fills of both sides of the book together. */
  lemma BothSidesServe(
    orders: Orders, bids: seq<OrderKey>, asks: seq<OrderKey>, bought: Fills, sold: Fills, volume: nat)
    requires AllWhole(orders) && IsWhole(volume)
    requires IsQueue(orders, Bid, bids) && IsQueue(orders, Ask, asks)
    requires ServesSide(orders, bids, bought, volume) && ServesSide(orders, asks, sold, volume)
    ensures ValidFills(orders, bought + sold) && Serves(orders, bought + sold, volume)
  {
    SideIsValid(orders, Bid, bids, bought, volume);
    SideIsValid(orders, Ask, asks, sold, volume);
    forall k | k in orders && Filled(orders, k, volume) > 0
      ensures !Skipped(bought + sold, |bought + sold|, k)
    {
      if k.direction == Bid {
        SideServes(orders, Bid, bids, bought, volume, k);
      } else {
        SideServes(orders, Ask, asks, sold, volume, k);
      }
      NotSkippedByBoth(bought, sold, k);
    }
  }

  // ---- passive orders ----

  /** What the pool offers; it offers nothing rather than an order of size zero. */
  datatype Quoted = Quoted(direction: Direction, price: nat, coins: Positive)

  /** The key and the order of what the pool offers at this place, if numbers are drawn from `first` on. */
  function QuotedKey(quoted: seq<Quoted>, first: nat, i: nat): OrderKey
    requires i < |quoted|
  {
    OrderKey(quoted[i].direction, quoted[i].price, first + i)
  }

  function QuotedOrder(dex: Addr, quoted: Quoted): Order {
    Order(dex, quoted.coins * COIN, true, true)
  }

  ghost predicate IsQuoted(quoted: seq<Quoted>, first: nat, n: nat, k: OrderKey)
    requires n <= |quoted|
  {
    exists i :: 0 <= i < n && k == QuotedKey(quoted, first, i)
  }

  /** The first offers of the pool have been added to the orders, and nothing else has changed. */
  ghost predicate Offered(before: Orders, after: Orders, quoted: seq<Quoted>, first: nat, n: nat, dex: Addr)
    requires n <= |quoted|
  {
    && (forall k | k in before :: k in after && after[k] == before[k])
    && (forall i | 0 <= i < n ::
          QuotedKey(quoted, first, i) in after
          && after[QuotedKey(quoted, first, i)] == QuotedOrder(dex, quoted[i]))
    && (forall k | k in after :: k in before || IsQuoted(quoted, first, n, k))
  }

  lemma OneMoreOffered(
    before: Orders, now: Orders, after: Orders, quoted: seq<Quoted>, first: nat, n: nat, dex: Addr)
    requires n < |quoted| && Offered(before, now, quoted, first, n, dex)
    requires QuotedKey(quoted, first, n) !in now
    requires after == now[QuotedKey(quoted, first, n) := QuotedOrder(dex, quoted[n])]
    ensures Offered(before, after, quoted, first, n + 1, dex)
  {
    forall k | k in after
      ensures k in before || IsQuoted(quoted, first, n + 1, k)
    {
      if k == QuotedKey(quoted, first, n) {
      } else if k !in before {
        assert IsQuoted(quoted, first, n, k);
        var i :| 0 <= i < n && k == QuotedKey(quoted, first, i);
      }
    }
  }

  ghost predicate WithoutPassive(before: Orders, after: Orders) {
    && (forall k :: k in after <==> k in before && !before[k].passive)
    && forall k | k in after :: after[k] == before[k]
  }

  /** The passive orders are exactly what the pool offers now, and the others are what they were. */
  ghost predicate Refreshed(before: Orders, after: Orders, quoted: seq<Quoted>, first: nat, dex: Addr) {
    exists others :: WithoutPassive(before, others) && Offered(others, after, quoted, first, |quoted|, dex)
  }

  // ---- operations ----

  datatype Operation =
    | Placing(user: Addr, given: Given, price: nat, minOrderSize: nat, goodTilCanceled: bool)
    | Canceling(user: Addr, key: OrderKey, refunds: Refunds)
    | Clearing(quoted: seq<Quoted>, mid: Option<nat>)
  {
    predicate WellFormed() {
      Canceling? ==> RefundFits(refunds)
    }

    /** Neither the pair nor the price lets an order of size zero pass. */
    predicate PlacesNoZero() {
      Placing? ==> minOrderSize > 0 || price <= ONE
    }

    predicate IsCoarse() {
      match this
      case Placing(_, _, price, _, _) => price % COARSE == 0
      case Canceling(_, _, _) => true
      case Clearing(quoted, _) => forall i | 0 <= i < |quoted| :: quoted[i].price % COARSE == 0
    }
  }

  lemma RefreshedStays(
    before: Orders, after: Orders, quoted: seq<Quoted>, first: nat, dex: Addr, mid: Option<nat>)
    requires Refreshed(before, after, quoted, first, dex)
    ensures AllPositive(before) ==> AllPositive(after)
    ensures AllCoarse(before) && Clearing(quoted, mid).IsCoarse() ==> AllCoarse(after)
  {
    var others :| WithoutPassive(before, others) && Offered(others, after, quoted, first, |quoted|, dex);
    forall k | k in after
      ensures AllPositive(before) && after[k].goodTilCanceled ==> after[k].remaining > 0
      ensures AllCoarse(before) && Clearing(quoted, mid).IsCoarse() ==> k.price % COARSE == 0
    {
      if k !in others {
        var i :| 0 <= i < |quoted| && k == QuotedKey(quoted, first, i);
      }
    }
  }

  /** How far an auction got. */
  datatype Step = Done | AtRemoval | AtPlacing | AtMatching | AtFilling

  /** Matching cannot fail on account of numbers that are too large. */
  ghost predicate FitsForMatching(orders: Orders, mid: Option<nat>) {
    && Total(orders, Bid) <= MAX_U128 && Total(orders, Ask) <= MAX_U128
    && (mid.None? ==> forall k, l | k in orders && l in orders :: k.price + l.price <= MAX_U128)
  }

  class Book {
    const sizes: Sizes
    const dex: Addr
    var orders: Orders
    var depths: Depths
    var nextId: nat
    ghost var dust: Dust

    ghost predicate Valid()
      reads this
    {
      && Indexed(sizes, orders, depths, dust)
      && AllPlaced(sizes, orders)
      && AllWhole(orders)
      && AllFit(depths)
      && (forall k | k in orders :: k.id < nextId)
    }

    constructor (sizes: Sizes, dex: Addr)
      ensures this.sizes == sizes && this.dex == dex
      ensures orders == map[] && depths == map[] && dust == map[] && nextId == 1
      ensures Valid()
    {
      this.sizes, this.dex, orders, depths, nextId, dust := sizes, dex, map[], map[], 1, map[];
    }

    method IncreaseDepth(size: nat, direction: Direction, price: nat, base: nat, quote: nat) returns (ok: bool)
      requires size > 0 && quote == QuoteOf(base, price)
      modifies this`depths
      ensures ok <==> HasRoom(old(depths), size, direction, price, base)
      ensures ok ==>
        var key := KeyFor(size, direction, price);
        depths == Raised(old(depths), key, base, quote)
    {
      var bucket := GetBucket(size, direction, price);
      if bucket.None? {
        return false;
      }
      var key := DepthKey(size, direction, bucket.value);
      var depth := DepthAt(depths, key);
      if depth.base + base > MAX_U128 || depth.quote + quote > MAX_U128 {
        return false;
      }
      depths := depths[key := Depth(depth.base + base, depth.quote + quote)];
      return true;
    }

    /** One more size, after the ones done. */
    method IncreaseNext(
      size: nat, direction: Direction, price: nat, base: nat, quote: nat, ghost before: Depths, ghost done: Sizes)
      returns (ok: bool)
      requires size > 0 && size !in done && quote == QuoteOf(base, price)
      requires Increased(before, depths, done, direction, price, base, quote)
      modifies this`depths
      ensures ok <==> HasRoom(before, size, direction, price, base)
      ensures ok ==> Increased(before, depths, done + {size}, direction, price, base, quote)
    {
      SameRoom(before, depths, done, size, direction, price, base, quote);
      ok := IncreaseDepth(size, direction, price, base, quote);
      if ok {
        IncreasedOneMore(before, old(depths), done, size, direction, price, base, quote);
      }
    }

    method IncreaseAll(direction: Direction, price: nat, base: nat, quote: nat) returns (ok: bool)
      requires quote == QuoteOf(base, price)
      modifies this`depths
      ensures ok ==> Increased(old(depths), depths, sizes, direction, price, base, quote)
      ensures !ok ==> exists size :: size in sizes && !HasRoom(old(depths), size, direction, price, base)
    {
      var left: Sizes := sizes;
      ghost var done: Sizes := {};
      NothingIncreased(depths, direction, price, base, quote);
      while left != {}
        invariant done !! left && done + left == sizes
        invariant Increased(old(depths), depths, done, direction, price, base, quote)
        decreases |left|
      {
        var size :| size in left;
        ok := IncreaseNext(size, direction, price, base, quote, old(depths), done);
        if !ok {
          return;
        }
        left, done := left - {size}, done + {size};
      }
      assert done == sizes;
      return true;
    }

    /** Fails only where a bucket cannot be computed or a number becomes too large. */
    method IncreaseDepths(direction: Direction, price: nat, amount: nat) returns (ok: bool)
      modifies this`depths
      ensures ok ==> Increased(old(depths), depths, sizes, direction, price, amount, QuoteOf(amount, price))
      ensures ok <==> CanIncrease(old(depths), sizes, direction, price, amount)
    {
      var quote := Times(amount, price);
      if quote.None? {
        return false;
      }
      ok := IncreaseAll(direction, price, amount, quote.value);
      if ok {
        RoomForAll(old(depths), depths, sizes, direction, price, amount);
      }
    }

    /** Fails where there is no entry, or one that is too small. An entry that becomes empty is deleted. */
    method DecreaseDepth(size: nat, direction: Direction, price: nat, base: nat, quote: nat) returns (ok: bool)
      requires size > 0
      modifies this`depths
      ensures var key := KeyFor(size, direction, price);
              && (ok <==> GetBucket(size, direction, price).Some? && key in old(depths)
                          && base <= old(depths)[key].base && quote <= old(depths)[key].quote)
              && depths == if ok then Lowered(old(depths), key, base, quote) else old(depths)
    {
      var bucket := GetBucket(size, direction, price);
      if bucket.None? {
        return false;
      }
      var key := DepthKey(size, direction, bucket.value);
      if key !in depths || base > depths[key].base || quote > depths[key].quote {
        return false;
      }
      var depth := Depth(depths[key].base - base, depths[key].quote - quote);
      if depth.base != 0 || depth.quote != 0 {
        depths := depths[key := depth];
      } else {
        depths := depths - {key};
      }
      return true;
    }

    /**
     * If the index holds this much for an order, it can be taken out again just when there are
     * entries to take it from.
     */
    method DecreaseDepths(direction: Direction, price: nat, amount: nat) returns (ok: bool)
      modifies this`depths
      ensures ok ==> Decreased(old(depths), depths, sizes, direction, price, amount, QuoteOf(amount, price))
      ensures CanDecrease(old(depths), sizes, direction, price, amount) ==>
        (ok <==> HasEntries(old(depths), sizes, direction, price))
    {
      var quote := Times(amount, price);
      if quote.None? {
        return false;
      }
      var left: Sizes := sizes;
      ghost var done: Sizes := {};
      NothingChanged(depths, direction, price, -(amount as int), -(quote.value as int));
      while left != {}
        invariant done !! left && done + left == sizes
        invariant Decreased(old(depths), depths, done, direction, price, amount, quote.value)
        decreases |left|
      {
        var size :| size in left;
        ghost var before := depths;
        ok := DecreaseDepth(size, direction, price, amount, quote.value);
        if !ok {
          if CanDecrease(old(depths), sizes, direction, price, amount) {
            StoppedByMissingEntry(old(depths), before, sizes, done, direction, size, price, amount, quote.value);
          }
          return;
        }
        OneMoreDecreased(
          old(depths), before, done, direction, KeyFor(size, direction, price), price, amount, quote.value);
        left, done := left - {size}, done + {size};
      }
      assert done == sizes;
      return true;
    }

    /** Places an order of so many coins under a number of its own. */
    method CreateOrder(user: Addr, direction: Direction, price: nat, coins: nat, goodTilCanceled: bool, passive: bool)
      returns (ok: bool)
      requires Valid()
      modifies this
      ensures ok ==> Valid() && dust == old(dust) && nextId == old(nextId) + 1
      ensures ok ==>
        var k := OrderKey(direction, price, old(nextId));
        k !in old(orders) && orders == old(orders)[k := Order(user, coins * COIN, goodTilCanceled, passive)]
      ensures ok && goodTilCanceled ==>
        Increased(old(depths), depths, sizes, direction, price, coins * COIN, QuoteOf(coins * COIN, price))
      ensures !goodTilCanceled ==> depths == old(depths)
      ensures ok <==>
        && coins * COIN <= MAX_U128 && old(nextId) < MAX_U64
        && (goodTilCanceled ==> CanIncrease(old(depths), sizes, direction, price, coins * COIN))
    {
      var amount := coins * COIN;
      if amount > MAX_U128 || nextId >= MAX_U64 {
        return false;
      }
      var k := OrderKey(direction, price, nextId);
      var o := Order(user, amount, goodTilCanceled, passive);
      nextId := nextId + 1;
      ok := true;
      if goodTilCanceled {
        ok := IncreaseDepths(direction, price, amount);
        if ok {
          IncreasedFits(old(depths), depths, sizes, direction, price, amount);
        }
      }
      if ok {
        PlacedIsIndexed(sizes, orders, old(depths), depths, dust, k, o);
        orders := orders[k := o];
      }
    }

    /** A user's order, as large as what is given for it allows. */
    method PlaceOrder(user: Addr, given: Given, price: nat, minOrderSize: nat, goodTilCanceled: bool)
      returns (ok: bool)
      requires Valid()
      modifies this
      ensures ok ==> Valid() && dust == old(dust) && nextId == old(nextId) + 1
      ensures ok ==>
        var k := OrderKey(given.Direction(), price, old(nextId));
        var remaining := NewOrder(given, price, minOrderSize);
        remaining.Some? && orders == old(orders)[k := Order(user, remaining.value, goodTilCanceled, false)]
      ensures ok && goodTilCanceled ==>
        var remaining := NewOrder(given, price, minOrderSize).value;
        Increased(old(depths), depths, sizes, given.Direction(), price, remaining, QuoteOf(remaining, price))
      ensures ok <==>
        && NewOrder(given, price, minOrderSize).Some? && old(nextId) < MAX_U64
        && (goodTilCanceled ==>
              CanIncrease(old(depths), sizes, given.Direction(), price, NewOrder(given, price, minOrderSize).value))
    {
      var sized := Sized(given, price);
      if sized.None? || sized.value.1 < minOrderSize {
        return false;
      }
      ok := CreateOrder(user, given.Direction(), price, sized.value.0, goodTilCanceled, false);
    }

    /** Takes a part of a resting order out of the index. */
    method TakeOut(k: OrderKey, amount: nat) returns (ok: bool)
      requires Valid() && k in orders && orders[k].goodTilCanceled && amount <= orders[k].remaining
      modifies this`depths
      ensures ok ==> Decreased(old(depths), depths, sizes, k.direction, k.price, amount, QuoteOf(amount, k.price))
      ensures ok ==> AllFit(depths)
      ensures ok <==> HasEntries(old(depths), sizes, k.direction, k.price)
      ensures orders[k].remaining > 0 ==> ok
    {
      OrderIsBacked(sizes, orders, depths, dust, k, amount);
      ok := DecreaseDepths(k.direction, k.price, amount);
      if ok {
        DecreasedFits(old(depths), depths, sizes, k.direction, k.price, amount, QuoteOf(amount, k.price));
      }
    }

    /** Takes an order out of the index and the book, as canceling does and the next auction does with passive ones. */
    method RemoveOrder(k: OrderKey) returns (ok: bool)
      requires Valid() && k in orders
      modifies this`orders, this`depths
      ensures ok ==> Valid() && orders == old(orders) - {k}
      ensures ok ==>
        var o := old(orders)[k];
        if o.goodTilCanceled
        then Decreased(old(depths), depths, sizes, k.direction, k.price, o.remaining, QuoteOf(o.remaining, k.price))
        else depths == old(depths)
      ensures ok <==> (old(orders)[k].goodTilCanceled ==> HasEntries(old(depths), sizes, k.direction, k.price))
      ensures old(orders)[k].remaining > 0 ==> ok
    {
      ok := true;
      if orders[k].goodTilCanceled {
        ok := TakeOut(k, orders[k].remaining);
      }
      if ok {
        RemovedIsIndexed(sizes, orders, old(depths), depths, dust, k);
        orders := orders - {k};
      }
    }

    /** Only the owner cancels an order, and gets back what remains of it. */
    method CancelOrder(user: Addr, k: OrderKey, refunds: Refunds) returns (ok: bool, more: Refunds)
      requires Valid() && RefundFits(refunds)
      modifies this`orders, this`depths
      ensures ok ==> Valid() && k in old(orders) && orders == old(orders) - {k}
      ensures ok ==> more == Refunded(refunds, k, old(orders)[k]) && RefundFits(more)
      ensures ok ==> more.base <= MAX_U128 && more.quote <= MAX_U128
      ensures ok && k.direction == Ask ==>
        more.base == refunds.base + old(orders)[k].remaining && more.quote == refunds.quote
      ensures ok && k.direction == Bid ==>
        && more.base == refunds.base && refunds.quote <= more.quote
        && var worth := more.quote - refunds.quote;
           worth * ONE <= old(orders)[k].remaining * k.price < (worth + 1) * ONE
      ensures ok <==>
        && k in old(orders) && old(orders)[k].user == user
        && Times(old(orders)[k].remaining, k.price).Some?
        && (old(orders)[k].goodTilCanceled ==> HasEntries(old(depths), sizes, k.direction, k.price))
        && RefundFits(Refunded(refunds, k, old(orders)[k]))
      ensures k in old(orders) && old(orders)[k].remaining > 0 && old(orders)[k].goodTilCanceled ==>
        (ok <==> old(orders)[k].user == user && RefundFits(Refunded(refunds, k, old(orders)[k])))
    {
      more := refunds;
      if k !in orders || orders[k].user != user || Times(orders[k].remaining, k.price).None? {
        return false, refunds;
      }
      more := Refunded(refunds, k, orders[k]);
      ok := RemoveOrder(k);
      ok := ok && RefundFits(more);
    }

    /**
     * What the auction does with an order it has filled, wholly or in part: the filled amount and
     * its rounded worth leave the index, and the order leaves the book if nothing remains.
     */
    method FillOrder(k: OrderKey, filled: nat) returns (ok: bool)
      requires Valid() && k in orders && filled <= orders[k].remaining && IsWhole(filled)
      modifies this`orders, this`depths, this`dust
      ensures ok ==> Valid()
      ensures ok ==> orders == AfterFill(old(orders), k, filled)
      ensures ok ==>
        if old(orders)[k].goodTilCanceled && !old(orders)[k].passive then
          && Decreased(old(depths), depths, sizes, k.direction, k.price, filled, QuoteOf(filled, k.price))
          && dust == DustAfterFill(old(dust), sizes, old(orders), k, filled)
        else
          depths == old(depths) && dust == old(dust)
      ensures ok && k.price % COARSE == 0 ==> SameDust(old(dust), dust)
      ensures old(orders)[k].remaining > 0 || !old(orders)[k].goodTilCanceled ==> ok
    {
      if orders[k].passive {
        assert orders == orders[k := orders[k]];
        return true;
      }
      if !orders[k].goodTilCanceled {
        RemovedIsIndexed(sizes, orders, depths, depths, dust, k);
        orders := orders - {k};
        return true;
      }
      if k.price % COARSE == 0 {
        NoMoreDust(dust, sizes, orders, k, filled);
      }
      ok := FillResting(k, filled);
    }

    /** Takes what was filled out of the index, and the order out of the book if nothing is left. */
    method FillResting(k: OrderKey, filled: nat) returns (ok: bool)
      requires Valid() && k in orders && filled <= orders[k].remaining && IsWhole(filled)
      requires orders[k].goodTilCanceled && !orders[k].passive
      modifies this`orders, this`depths, this`dust
      ensures ok ==> Valid()
      ensures ok ==> orders == AfterFill(old(orders), k, filled)
      ensures ok ==> Decreased(old(depths), depths, sizes, k.direction, k.price, filled, QuoteOf(filled, k.price))
      ensures ok ==> dust == DustAfterFill(old(dust), sizes, old(orders), k, filled)
      ensures old(orders)[k].remaining > 0 ==> ok
    {
      ok := TakeOut(k, filled);
      if !ok {
        return;
      }
      FillKeepsIndex(sizes, orders, old(depths), depths, dust, k, filled);
      FillKeepsWhole(orders, k, filled);
      dust := DustAfterFill(dust, sizes, orders, k, filled);
      if filled == orders[k].remaining {
        orders := orders - {k};
      } else {
        orders := orders[k := orders[k].(remaining := orders[k].remaining - filled)];
      }
    }

    /** The start of an auction: the passive orders of the last one are removed, in any order. */
    method RemovePassiveOrders() returns (ok: bool)
      requires Valid()
      modifies this`orders, this`depths
      ensures ok ==> Valid()
      ensures ok ==> WithoutPassive(old(orders), orders)
      ensures AllPositive(old(orders)) ==> ok && AllPositive(orders)
    {
      var left := set k | k in orders && orders[k].passive;
      while left != {}
        invariant Valid()
        invariant forall k | k in left :: k in orders && orders[k].passive
        invariant forall k :: k in orders <==> k in old(orders) && (!old(orders)[k].passive || k in left)
        invariant forall k | k in orders :: orders[k] == old(orders)[k]
        decreases |left|
      {
        var k :| k in left;
        ok := RemoveOrder(k);
        if !ok {
          return;
        }
        left := left - {k};
      }
      return true;
    }

    /** The pool places new passive orders. */
    method CreatePassiveOrders(quoted: seq<Quoted>) returns (ok: bool)
      requires Valid()
      modifies this
      ensures ok ==> Valid() && dust == old(dust) && nextId == old(nextId) + |quoted|
      ensures ok ==> Offered(old(orders), orders, quoted, old(nextId), |quoted|, dex)
    {
      for i := 0 to |quoted|
        invariant Valid() && dust == old(dust) && nextId == old(nextId) + i
        invariant Offered(old(orders), orders, quoted, old(nextId), i, dex)
      {
        ghost var before := orders;
        ok := CreateOrder(dex, quoted[i].direction, quoted[i].price, quoted[i].coins, true, true);
        if !ok {
          return;
        }
        OneMoreOffered(old(orders), before, orders, quoted, old(nextId), i, dex);
      }
      return true;
    }

    /** Every order that was matched is filled. */
    method FillOrders(fills: Fills) returns (ok: bool)
      requires Valid() && ValidFills(orders, fills)
      modifies this`orders, this`depths, this`dust
      ensures ok ==> Valid() && AllFilled(old(orders), orders, fills, |fills|)
      ensures AllPositive(old(orders)) ==> ok
      ensures ok && AllCoarse(old(orders)) ==> SameDust(old(dust), dust)
    {
      for i := 0 to |fills|
        invariant Valid() && AllFilled(old(orders), orders, fills, i)
        invariant AllCoarse(old(orders)) ==> SameDust(old(dust), dust)
      {
        FilledOneMore(old(orders), orders, fills, i);
        ok := FillOrder(fills[i].0, fills[i].1);
        if !ok {
          return;
        }
      }
      return true;
    }

    /** The end of an auction for this pair: what is left of the orders that do not rest is removed. */
    method CancelImmediateOrders()
      requires Valid()
      modifies this`orders
      ensures Valid()
      ensures OnlyResting(old(orders), orders)
    {
      var left := set k | k in orders && !orders[k].goodTilCanceled;
      while left != {}
        invariant Valid()
        invariant forall k | k in left :: k in orders && !orders[k].goodTilCanceled
        invariant forall k :: k in orders <==> k in old(orders) && (old(orders)[k].goodTilCanceled || k in left)
        invariant forall k | k in orders :: orders[k] == old(orders)[k]
        decreases |left|
      {
        var k :| k in left;
        RemovedIsIndexed(sizes, orders, depths, depths, dust, k);
        orders := orders - {k};
        left := left - {k};
      }
    }

    /** The fills of one side of the book, whose first `n` orders are matched. */
    method ServeSide(direction: Direction, queue: seq<OrderKey>, n: nat, volume: nat) returns (fills: Fills)
      requires IsQueue(orders, direction, queue) && n <= |queue|
      requires volume <= Volume(Limits(orders, queue), n)
      ensures ServesSide(orders, queue, fills, volume)
    {
      var limits := Limits(orders, queue);
      var amounts := FillSide(limits[..n], volume);
      fills := seq(|amounts|, i requires 0 <= i < |amounts| <= |queue| => (queue[i], amounts[i]));
      forall i | 0 <= i < |queue|
        ensures Filled(orders, queue[i], volume) == if i < |amounts| then amounts[i] else 0
      {
        FilledIsFillAt(orders, direction, queue, volume, i);
        if i < n {
          FillAtPrefix(limits, n, volume, i);
        } else {
          VolumeGrows(limits, n, i);
        }
      }
    }

    /**
     * The orders trade as much as they can at one price, first those with the better price and then
     * the older ones, and what does not rest is removed.
     */
    method Clear(mid: Option<nat>) returns (step: Step, volume: nat, price: Option<nat>)
      requires Valid()
      modifies this`orders, this`depths, this`dust
      ensures step.Done? ==> Valid() && Cleared(old(orders), orders, volume) && IsBestVolume(old(orders), volume)
      ensures step.Done? ==> if price.Some? then Clears(old(orders), volume, price.value) else volume == 0
      ensures step.Done? ==>
        && SumBy(old(orders), FillTerm(old(orders), Bid, volume)) == volume
        && SumBy(old(orders), FillTerm(old(orders), Ask, volume)) == volume
      ensures step.Done? && AllPositive(old(orders)) ==> AllPositive(orders) && Uncrossed(orders)
      ensures step.Done? && AllCoarse(old(orders)) ==> SameDust(old(dust), dust) && AllCoarse(orders)
      ensures step.Done? || step.AtMatching? || step.AtFilling?
      ensures step.AtMatching? ==> !FitsForMatching(old(orders), mid)
      ensures AllPositive(old(orders)) ==> !step.AtFilling?
    {
      var bids := Iterate(orders, Bid);
      var asks := Iterate(orders, Ask);
      var fills;
      step, volume, price, fills := MatchBook(mid, bids, asks);
      if !step.Done? {
        return;
      }
      var ok := FillOrders(fills);
      if !ok {
        return AtFilling, volume, price;
      }
      ghost var between := orders;
      CancelImmediateOrders();
      FilledIsCleared(old(orders), between, orders, fills, volume);
      FilledStaysPositive(old(orders), between, fills);
      if AllPositive(old(orders)) {
        ClearedIsUncrossed(old(orders), orders, bids, asks);
      }
    }

    /** Matching and filling, which change nothing yet. */
    method MatchBook(mid: Option<nat>, bids: seq<OrderKey>, asks: seq<OrderKey>)
      returns (step: Step, volume: nat, price: Option<nat>, fills: Fills)
      requires Valid() && IsQueue(orders, Bid, bids) && IsQueue(orders, Ask, asks)
      ensures step.Done? || step.AtMatching?
      ensures step.Done? ==> volume == MatchedVolume(Limits(orders, bids), Limits(orders, asks))
      ensures step.Done? ==> ValidFills(orders, fills) && Serves(orders, fills, volume)
      ensures step.Done? ==> IsBestVolume(orders, volume)
      ensures step.Done? ==> if price.Some? then Clears(orders, volume, price.value) else volume == 0
      ensures step.Done? ==>
        SumBy(orders, FillTerm(orders, Bid, volume)) == volume == SumBy(orders, FillTerm(orders, Ask, volume))
      ensures step.AtMatching? ==> !FitsForMatching(orders, mid)
    {
      var bidLimits, askLimits := Limits(orders, bids), Limits(orders, asks);
      var ok, range, n, m;
      ok, range, volume, n, m := MatchOrders(bidLimits, askLimits);
      price, fills := None, [];
      if !ok {
        TotalsDoNotFit(orders, bids, asks);
        return AtMatching, volume, price, fills;
      }
      if range.Some? {
        price := ClearingPrice(mid, range.value.0, range.value.1);
        RangeIsWithin(orders, bids, asks);
        ClearingPriceIsInRange(mid, range.value.0, range.value.1);
        if price.None? {
          return AtMatching, volume, price, fills;
        }
        RangeClears(orders, bids, asks, price.value);
      }
      step := Done;
      MatchedVolumeIsBest(orders, bids, asks);
      FillsBalance(orders, bids, asks);
      VolumeIsWhole(orders, bids, asks);
      var bought := ServeSide(Bid, bids, n, volume);
      var sold := ServeSide(Ask, asks, m, volume);
      BothSidesServe(orders, bids, asks, bought, sold, volume);
      fills := bought + sold;
    }

    /** The passive orders of the last auction are replaced by new ones. */
    method ReplacePassiveOrders(quoted: seq<Quoted>) returns (step: Step)
      requires Valid()
      modifies this
      ensures step.Done? ==> Valid() && dust == old(dust) && nextId == old(nextId) + |quoted|
      ensures step.Done? || step.AtRemoval? || step.AtPlacing?
      ensures step.Done? ==> Refreshed(old(orders), orders, quoted, old(nextId), dex)
      ensures AllPositive(old(orders)) ==> !step.AtRemoval?
    {
      var ok := RemovePassiveOrders();
      if !ok {
        return AtRemoval;
      }
      ok := CreatePassiveOrders(quoted);
      step := if ok then Done else AtPlacing;
    }

    /**
     * One auction: the passive orders are replaced, and the book that results is cleared. As long as
     * no size is zero it fails only in placing passive orders, or in matching where numbers are too
     * large.
     */
    method Auction(quoted: seq<Quoted>, mid: Option<nat>)
      returns (step: Step, ghost book: Orders, volume: nat, price: Option<nat>)
      requires Valid()
      modifies this
      ensures step.Done? ==> Valid() && nextId == old(nextId) + |quoted|
      ensures step.Done? ==> Refreshed(old(orders), book, quoted, old(nextId), dex)
      ensures step.Done? ==> Cleared(book, orders, volume) && IsBestVolume(book, volume)
      ensures step.Done? ==> if price.Some? then Clears(book, volume, price.value) else volume == 0
      ensures step.Done? ==> forall k | k in orders :: orders[k].goodTilCanceled
      ensures AllPositive(old(orders)) ==>
        && (step.Done? || step.AtPlacing? || step.AtMatching?)
        && (step.Done? ==> AllPositive(orders) && Uncrossed(orders))
      ensures step.Done? && AllCoarse(old(orders)) && Clearing(quoted, mid).IsCoarse() ==>
        AllCoarse(orders) && SameDust(old(dust), dust)
    {
      volume, price := 0, None;
      step := ReplacePassiveOrders(quoted);
      book := orders;
      if step.Done? {
        RefreshedStays(old(orders), orders, quoted, old(nextId), dex, mid);
        step, volume, price := Clear(mid);
      }
    }

    method Perform(op: Operation) returns (ok: bool)
      requires Valid() && op.WellFormed()
      modifies this
      ensures ok ==> Valid()
      ensures ok && AllPositive(old(orders)) && op.PlacesNoZero() ==> AllPositive(orders)
      ensures ok && AllCoarse(old(orders)) && op.IsCoarse() ==> AllCoarse(orders) && SameDust(old(dust), dust)
    {
      match op {
        case Placing(user, given, price, minOrderSize, goodTilCanceled) =>
          SizeIsZeroIff(given, price, minOrderSize);
          ok := PlaceOrder(user, given, price, minOrderSize, goodTilCanceled);
        case Canceling(user, key, refunds) =>
          var more;
          ok, more := CancelOrder(user, key, refunds);
        case Clearing(quoted, mid) =>
          var step, _, _, _ := Auction(quoted, mid);
          ok := step.Done?;
      }
    }

    /** An operation as the chain executes it: a failed one leaves nothing behind. */
    method Execute(op: Operation) returns (ok: bool)
      requires Valid() && op.WellFormed()
      modifies this
      ensures Valid()
      ensures !ok ==>
        orders == old(orders) && depths == old(depths) && nextId == old(nextId) && dust == old(dust)
      ensures AllPositive(old(orders)) && op.PlacesNoZero() ==> AllPositive(orders)
      ensures AllCoarse(old(orders)) && op.IsCoarse() ==> AllCoarse(orders) && SameDust(old(dust), dust)
    {
      var before := (orders, depths, nextId);
      ghost var lost := dust;
      ok := Perform(op);
      if !ok {
        orders, depths, nextId := before.0, before.1, before.2;
        dust := lost;
      }
    }

    /**
     * Any run keeps the index exact, and all orders of whole coins. If no order of size zero is ever
     * placed, then at any time any part of any resting order can be taken out of the index. If all
     * prices are coarse, then rounding never loses anything.
     */
    method ExecuteAll(ops: seq<Operation>)
      requires Valid() && forall i | 0 <= i < |ops| :: ops[i].WellFormed()
      modifies this
      ensures Valid()
      ensures AllPositive(old(orders)) && (forall i | 0 <= i < |ops| :: ops[i].PlacesNoZero()) ==>
        && AllPositive(orders)
        && forall k | k in orders && orders[k].goodTilCanceled ::
             && HasEntries(depths, sizes, k.direction, k.price)
             && CanDecrease(depths, sizes, k.direction, k.price, orders[k].remaining)
      ensures AllCoarse(old(orders)) && (forall i | 0 <= i < |ops| :: ops[i].IsCoarse()) ==>
        SameDust(old(dust), dust)
    {
      for i := 0 to |ops|
        invariant Valid()
        invariant AllPositive(old(orders)) && (forall j | 0 <= j < i :: ops[j].PlacesNoZero()) ==> AllPositive(orders)
        invariant AllCoarse(old(orders)) && (forall j | 0 <= j < i :: ops[j].IsCoarse()) ==>
          AllCoarse(orders) && SameDust(old(dust), dust)
      {
        var _ := Execute(ops[i]);
      }
      forall k | k in orders && orders[k].goodTilCanceled
        ensures CanDecrease(depths, sizes, k.direction, k.price, orders[k].remaining)
        ensures orders[k].remaining > 0 ==> HasEntries(depths, sizes, k.direction, k.price)
      {
        OrderIsBacked(sizes, orders, depths, dust, k, orders[k].remaining);
      }
    }
  }

  // ---- two runs ----

  /** A price that is not coarse: a half of 10^-6. */
  const FINE: nat := 500_000_000_000_000_000

  lemma FineBucket()
    ensures GetBucket(ONE, Bid, FINE) == Some(0)
  {
    DivIsUnique(FINE * ONE, ONE, FINE);
    BucketIsNearest(ONE, Bid, FINE);
    DivIsUnique(0, ONE, 0);
  }

  lemma FineSize()
    ensures NewOrder(BidFor(1), FINE, 1) == Some(2_000_000 * COIN)
  {
    assert 1 * ONE / FINE == 2_000_000;
    assert RoundedUp(2_000_000 * FINE) == 1;
  }

  lemma FineWorth()
    ensures QuoteOf(2_000_000 * COIN, FINE) == COIN && QuoteOf(COIN, FINE) == 0
    ensures QuoteOf(1_999_999 * COIN, FINE) == COIN - 1
  {
  }

  /** A bid of two million coins at that price is filled by one coin and by the others: an entry stays. */
  method EntryOutlivesOrder() returns (book: Book)
    ensures fresh(book) && book.Valid() && book.orders == map[]
    ensures var key := DepthKey(ONE, Bid, 0);
            key in book.depths && book.depths[key] == Depth(0, 1)
  {
    book := new Book({ONE}, "dex");
    var key, k := DepthKey(ONE, Bid, 0), OrderKey(Bid, FINE, 1);
    var all, most := 2_000_000 * COIN, 1_999_999 * COIN;
    FineBucket();
    FineSize();
    FineWorth();
    assert Hits(book.sizes, key, Bid, FINE);
    assert DepthAt(book.depths, key) == Depth(0, 0);
    var ok := book.PlaceOrder("user", BidFor(1), FINE, 1, true);
    assert DepthAt(book.depths, key) == Depth(all, COIN);
    ok := book.FillOrder(k, COIN);
    assert DepthAt(book.depths, key) == Depth(most, COIN);
    ok := book.FillOrder(k, most);
    assert DepthAt(book.depths, key) == Depth(0, 1);
  }

  /** A price at which one coin costs two. */
  const HIGH: nat := 2_000_000_000_000_000_000_000_000

  const HIGH_KEY := DepthKey(ONE, Bid, HIGH)

  lemma HighPrice()
    ensures GetBucket(ONE, Bid, HIGH) == Some(HIGH)
    ensures NewOrder(BidFor(1), HIGH, 0) == Some(0)
    ensures QuoteOf(0, HIGH) == 0
  {
    DivIsUnique(HIGH * ONE, ONE, HIGH);
    BucketIsNearest(ONE, Bid, HIGH);
    DivIsUnique(HIGH, ONE, 2);
  }

  /** A bid of one for what costs two. */
  method BidForNothing(book: Book)
    requires book.Valid() && book.sizes == {ONE} && book.nextId < MAX_U64
    requires DepthAt(book.depths, HIGH_KEY) == Depth(0, 0)
    modifies book
    ensures book.Valid() && book.nextId == old(book.nextId) + 1
    ensures book.orders == old(book.orders)[OrderKey(Bid, HIGH, old(book.nextId)) := Order("user", 0, true, false)]
    ensures DepthAt(book.depths, HIGH_KEY) == Depth(0, 0) && HIGH_KEY in book.depths
  {
    HighPrice();
    assert Hits(book.sizes, HIGH_KEY, Bid, HIGH);
    var ok := book.PlaceOrder("user", BidFor(1), HIGH, 0, true);
  }

  /** Two bids of one for what costs two share an empty entry; the first to go deletes it, and the second is stuck. */
  method ZeroSizeIsStuck() returns (book: Book, stuck: OrderKey)
    ensures fresh(book) && book.Valid() && stuck in book.orders
    ensures !HasEntries(book.depths, book.sizes, stuck.direction, stuck.price)
  {
    book := new Book({ONE}, "dex");
    stuck := OrderKey(Bid, HIGH, 2);
    BidForNothing(book);
    BidForNothing(book);
    HighPrice();
    assert Hits(book.sizes, HIGH_KEY, Bid, HIGH);
    var ok := book.RemoveOrder(OrderKey(Bid, HIGH, 1));
    assert DepthAt(book.depths, HIGH_KEY) == Depth(0, 0);
  }
}
