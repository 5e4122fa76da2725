/** The liquidity depth index beside one pair's order book (dango/dex/src/liquidity_depth.rs, cron.rs, execute). */
module DexDepths {
  import opened Wrappers
  import opened MapSums
  import opened DexBuckets

  const MAX_U64: nat := 0xFFFF_FFFF_FFFF_FFFF

  /** Orders of both directions draw their number from one counter. */
  datatype OrderKey = OrderKey(direction: Direction, price: nat, id: nat)

  type Addr = string

  /** Only good-til-canceled orders, which the pool's passive ones are too, are in the index. */
  datatype Order = Order(user: Addr, remaining: nat, goodTilCanceled: bool, passive: bool)

  datatype DepthKey = DepthKey(size: nat, direction: Direction, bucket: nat)

  datatype Depth = Depth(base: nat, quote: nat)

  type Orders = map<OrderKey, Order>

  type Depths = map<DepthKey, Depth>

  type Sizes = s: set<nat> | 0 !in s

  function DepthAt(depths: Depths, key: DepthKey): Depth {
    if key in depths then depths[key] else Depth(0, 0)
  }

  /** Whether an order of this direction and price belongs under the key. */
  predicate Hits(sizes: Sizes, key: DepthKey, direction: Direction, price: nat) {
    key.size in sizes && key.direction == direction && GetBucket(key.size, direction, price) == Some(key.bucket)
  }

  function QuoteOf(amount: nat, price: nat): nat {
    amount * price / ONE
  }

  /** What an order contributes under the key. */
  function BaseShare(sizes: Sizes, key: DepthKey, k: OrderKey, o: Order): nat {
    if o.goodTilCanceled && Hits(sizes, key, k.direction, k.price) then o.remaining else 0
  }

  function QuoteShare(sizes: Sizes, key: DepthKey, k: OrderKey, o: Order): nat {
    if o.goodTilCanceled && Hits(sizes, key, k.direction, k.price) then QuoteOf(o.remaining, k.price) else 0
  }

  ghost function BaseTerm(sizes: Sizes, key: DepthKey): (OrderKey, Order) -> int {
    (k: OrderKey, o: Order) => BaseShare(sizes, key, k, o)
  }

  ghost function QuoteTerm(sizes: Sizes, key: DepthKey): (OrderKey, Order) -> int {
    (k: OrderKey, o: Order) => QuoteShare(sizes, key, k, o)
  }

  /** What remains of the orders under the key. */
  ghost function Base(sizes: Sizes, orders: Orders, key: DepthKey): int {
    SumBy(orders, BaseTerm(sizes, key))
  }

  /** What each of them is worth, rounded down one by one. */
  ghost function Quote(sizes: Sizes, orders: Orders, key: DepthKey): int {
    SumBy(orders, QuoteTerm(sizes, key))
  }

  /** The key of a price, if it has one. */
  function KeyFor(size: nat, direction: Direction, price: nat): DepthKey
    requires size > 0
  {
    var bucket := GetBucket(size, direction, price);
    DepthKey(size, direction, if bucket.Some? then bucket.value else 0)
  }

  /** How often rounding lost a unit under a key. */
  type Dust = map<DepthKey, nat>

  function DustAt(dust: Dust, key: DepthKey): nat {
    if key in dust then dust[key] else 0
  }

  /** The keys that an order of this direction and price belongs under. */
  function KeysOf(sizes: Sizes, direction: Direction, price: nat): set<DepthKey> {
    set size | size in sizes && GetBucket(size, direction, price).Some? :: KeyFor(size, direction, price)
  }

  /** A unit more, or none, under each of the order's keys. */
  function Dusted(dust: Dust, sizes: Sizes, direction: Direction, price: nat, lost: nat): Dust {
    map key | key in dust.Keys + KeysOf(sizes, direction, price) ::
      DustAt(dust, key) + if Hits(sizes, key, direction, price) then lost else 0
  }

  lemma DustedAt(dust: Dust, sizes: Sizes, direction: Direction, price: nat, lost: nat, key: DepthKey)
    ensures DustAt(Dusted(dust, sizes, direction, price, lost), key)
            == DustAt(dust, key) + if Hits(sizes, key, direction, price) then lost else 0
  {
    if Hits(sizes, key, direction, price) {
      assert key == KeyFor(key.size, direction, price);
    }
  }

  /** The index tells exactly what remains of the orders, and in the quote asset also what rounding has lost. */
  ghost predicate Indexed(sizes: Sizes, orders: Orders, depths: Depths, dust: Dust) {
    forall key {:trigger DepthAt(depths, key)} ::
      && DepthAt(depths, key).base == Base(sizes, orders, key)
      && DepthAt(depths, key).quote == Quote(sizes, orders, key) + DustAt(dust, key)
  }

  /** The order's worth and its buckets could be computed when it was placed. */
  ghost predicate Placed(sizes: Sizes, k: OrderKey, o: Order) {
    o.goodTilCanceled ==>
      Times(o.remaining, k.price).Some? && forall size | size in sizes :: GetBucket(size, k.direction, k.price).Some?
  }

  ghost predicate AllPlaced(sizes: Sizes, orders: Orders) {
    forall k | k in orders :: Placed(sizes, k, orders[k])
  }

  // ---- how the sums change ----

  lemma SumsWithout(sizes: Sizes, orders: Orders, key: DepthKey, k: OrderKey)
    requires k in orders
    ensures Base(sizes, orders - {k}, key) == Base(sizes, orders, key) - BaseShare(sizes, key, k, orders[k])
    ensures Quote(sizes, orders - {k}, key) == Quote(sizes, orders, key) - QuoteShare(sizes, key, k, orders[k])
  {
    SumWithout(orders, k, BaseTerm(sizes, key));
    SumWithout(orders, k, QuoteTerm(sizes, key));
  }

  lemma SumsWith(sizes: Sizes, orders: Orders, key: DepthKey, k: OrderKey, o: Order)
    ensures Base(sizes, orders[k := o], key)
            == Base(sizes, orders, key) + BaseShare(sizes, key, k, o)
               - (if k in orders then BaseShare(sizes, key, k, orders[k]) else 0)
    ensures Quote(sizes, orders[k := o], key)
            == Quote(sizes, orders, key) + QuoteShare(sizes, key, k, o)
               - (if k in orders then QuoteShare(sizes, key, k, orders[k]) else 0)
  {
    SumWith(orders, k, o, BaseTerm(sizes, key));
    SumWith(orders, k, o, QuoteTerm(sizes, key));
  }

  lemma SharesAreWithinSums(sizes: Sizes, orders: Orders, key: DepthKey, k: OrderKey)
    requires k in orders
    ensures BaseShare(sizes, key, k, orders[k]) <= Base(sizes, orders, key)
    ensures QuoteShare(sizes, key, k, orders[k]) <= Quote(sizes, orders, key)
  {
    forall k: OrderKey, o: Order
      ensures BaseTerm(sizes, key)(k, o) >= 0 && QuoteTerm(sizes, key)(k, o) >= 0
    {
    }
    SumCoversTerm(orders, k, BaseTerm(sizes, key));
    SumCoversTerm(orders, k, QuoteTerm(sizes, key));
  }

  // ---- how the index changes ----

  /** The depths under the order's buckets of these sizes went up or down, and no others changed. */
  ghost predicate Changed(
    before: Depths, after: Depths, sizes: Sizes, direction: Direction, price: nat, base: int, quote: int) {
    forall key {:trigger DepthAt(after, key)} ::
      var hit := Hits(sizes, key, direction, price);
      && DepthAt(after, key).base == DepthAt(before, key).base + (if hit then base else 0)
      && DepthAt(after, key).quote == DepthAt(before, key).quote + (if hit then quote else 0)
  }

  lemma NothingChanged(depths: Depths, direction: Direction, price: nat, base: int, quote: int)
    ensures Changed(depths, depths, {}, direction, price, base, quote)
  {
    forall key
      ensures !Hits({}, key, direction, price)
    {
    }
  }

  lemma ChangedOneMore(
    before: Depths, between: Depths, after: Depths, done: Sizes, size: nat, direction: Direction, price: nat,
    base: int, quote: int)
    requires Changed(before, between, done, direction, price, base, quote)
    requires size > 0 && size !in done && GetBucket(size, direction, price).Some?
    requires var key := DepthKey(size, direction, GetBucket(size, direction, price).value);
             && (forall other | other != key :: DepthAt(after, other) == DepthAt(between, other))
             && DepthAt(after, key).base == DepthAt(between, key).base + base
             && DepthAt(after, key).quote == DepthAt(between, key).quote + quote
    ensures Changed(before, after, done + {size}, direction, price, base, quote)
  {
    forall key
      ensures var hit := Hits(done + {size}, key, direction, price);
              && DepthAt(after, key).base == DepthAt(before, key).base + (if hit then base else 0)
              && DepthAt(after, key).quote == DepthAt(before, key).quote + (if hit then quote else 0)
    {
    }
  }

  /** Every depth under the order's buckets is at least this much. */
  ghost predicate Backed(
    depths: Depths, sizes: Sizes, direction: Direction, price: nat, base: nat, quote: nat) {
    forall key {:trigger DepthAt(depths, key)} | Hits(sizes, key, direction, price) ::
      base <= DepthAt(depths, key).base && quote <= DepthAt(depths, key).quote
  }

  /** Everything needed to take an order's amount out again was computed when it was put in, and is held. */
  ghost predicate CanDecrease(depths: Depths, sizes: Sizes, direction: Direction, price: nat, amount: nat) {
    && Times(amount, price).Some?
    && (forall size | size in sizes :: GetBucket(size, direction, price).Some?)
    && Backed(depths, sizes, direction, price, amount, QuoteOf(amount, price))
  }

  ghost predicate HasEntries(depths: Depths, sizes: Sizes, direction: Direction, price: nat) {
    forall key {:trigger Hits(sizes, key, direction, price)} | Hits(sizes, key, direction, price) :: key in depths
  }

  ghost predicate NoneEmpty(depths: Depths, sizes: Sizes, direction: Direction, price: nat) {
    forall key {:trigger DepthAt(depths, key)} | Hits(sizes, key, direction, price) ::
      key in depths <==> DepthAt(depths, key) != Depth(0, 0)
  }

  function Lowered(depths: Depths, key: DepthKey, base: nat, quote: nat): Depths
    requires key in depths && base <= depths[key].base && quote <= depths[key].quote
  {
    var depth := Depth(depths[key].base - base, depths[key].quote - quote);
    if depth.base != 0 || depth.quote != 0 then depths[key := depth] else depths - {key}
  }

  /** The decrease has been made for some of the sizes. */
  ghost predicate Decreased(
    before: Depths, now: Depths, done: Sizes, direction: Direction, price: nat, base: nat, quote: nat) {
    && Changed(before, now, done, direction, price, -(base as int), -(quote as int))
    && (forall key: DepthKey | key.size !in done :: key in now <==> key in before)
    && HasEntries(before, done, direction, price)
    && NoneEmpty(now, done, direction, price)
  }

  lemma Untouched(
    before: Depths, now: Depths, done: Sizes, direction: Direction, key: DepthKey, price: nat, base: nat, quote: nat)
    requires Decreased(before, now, done, direction, price, base, quote) && key.size !in done
    ensures key in now <==> key in before
    ensures DepthAt(now, key) == DepthAt(before, key)
  {
    assert !Hits(done, key, direction, price);
  }

  lemma OneMoreEntry(before: Depths, done: Sizes, direction: Direction, key: DepthKey, price: nat)
    requires HasEntries(before, done, direction, price)
    requires key.size > 0 && key == KeyFor(key.size, direction, price) && key in before
    ensures HasEntries(before, done + {key.size}, direction, price)
  {
    forall other | Hits(done + {key.size}, other, direction, price)
      ensures other in before
    {
      assert other.size != key.size ==> Hits(done, other, direction, price);
    }
  }

  lemma OneMoreDecreased(
    before: Depths, now: Depths, done: Sizes, direction: Direction, key: DepthKey, price: nat, base: nat, quote: nat)
    requires Decreased(before, now, done, direction, price, base, quote)
    requires key.size > 0 && key.size !in done && GetBucket(key.size, direction, price) == Some(key.bucket)
    requires key.direction == direction
    requires key in now && base <= now[key].base && quote <= now[key].quote
    ensures Decreased(before, Lowered(now, key, base, quote), done + {key.size}, direction, price, base, quote)
  {
    var after := Lowered(now, key, base, quote);
    Untouched(before, now, done, direction, key, price, base, quote);
    ChangedOneMore(before, now, after, done, key.size, direction, price, -(base as int), -(quote as int));
    OneMoreEntry(before, done, direction, key, price);
    NoneEmptyOneMore(now, after, done, direction, key, price);
  }

  lemma NoneEmptyOneMore(
    now: Depths, after: Depths, done: Sizes, direction: Direction, key: DepthKey, price: nat)
    requires NoneEmpty(now, done, direction, price) && key.direction == direction
    requires key.size > 0 && key.size !in done && GetBucket(key.size, direction, price) == Some(key.bucket)
    requires forall other | other != key ::
      (other in after <==> other in now) && DepthAt(after, other) == DepthAt(now, other)
    requires key in after <==> DepthAt(after, key) != Depth(0, 0)
    ensures NoneEmpty(after, done + {key.size}, direction, price)
  {
    forall other | Hits(done + {key.size}, other, direction, price)
      ensures other in after <==> DepthAt(after, other) != Depth(0, 0)
    {
      if other != key {
        assert Hits(done, other, direction, price);
      }
    }
  }

  /** If an order can be taken out at all, what stops it is a missing entry. */
  lemma StoppedByMissingEntry(
    before: Depths, now: Depths, sizes: Sizes, done: Sizes, direction: Direction, size: nat, price: nat,
    base: nat, quote: nat)
    requires Decreased(before, now, done, direction, price, base, quote)
    requires size in sizes && size !in done
    requires CanDecrease(before, sizes, direction, price, base) && quote == QuoteOf(base, price)
    requires var key := KeyFor(size, direction, price);
             !(key in now && base <= now[key].base && quote <= now[key].quote)
    ensures !HasEntries(before, sizes, direction, price)
  {
    var key := KeyFor(size, direction, price);
    assert Hits(sizes, key, direction, price);
    Untouched(before, now, done, direction, key, price, base, quote);
    assert base <= DepthAt(before, key).base && quote <= DepthAt(before, key).quote;
  }

  // ---- orders and index together ----

  lemma PlacedIsIndexed(
    sizes: Sizes, orders: Orders, before: Depths, after: Depths, dust: Dust, k: OrderKey, o: Order)
    requires Indexed(sizes, orders, before, dust) && k !in orders
    requires if o.goodTilCanceled
             then Changed(before, after, sizes, k.direction, k.price, o.remaining, QuoteOf(o.remaining, k.price))
             else after == before
    ensures Indexed(sizes, orders[k := o], after, dust)
  {
    forall key
      ensures DepthAt(after, key).base == Base(sizes, orders[k := o], key)
      ensures DepthAt(after, key).quote == Quote(sizes, orders[k := o], key) + DustAt(dust, key)
    {
      SumsWith(sizes, orders, key, k, o);
      assert DepthAt(before, key).base == Base(sizes, orders, key);
    }
  }

  lemma RemovedIsIndexed(sizes: Sizes, orders: Orders, before: Depths, after: Depths, dust: Dust, k: OrderKey)
    requires Indexed(sizes, orders, before, dust) && k in orders
    requires if orders[k].goodTilCanceled
             then Changed(before, after, sizes, k.direction, k.price,
                          -(orders[k].remaining as int), -(QuoteOf(orders[k].remaining, k.price) as int))
             else after == before
    ensures Indexed(sizes, orders - {k}, after, dust)
  {
    forall key
      ensures DepthAt(after, key).base == Base(sizes, orders - {k}, key)
      ensures DepthAt(after, key).quote == Quote(sizes, orders - {k}, key) + DustAt(dust, key)
    {
      SumsWithout(sizes, orders, key, k);
      assert DepthAt(before, key).base == Base(sizes, orders, key);
    }
  }

  /** How the sums under one key change with a fill. */
  lemma SumsAfterFill(sizes: Sizes, orders: Orders, key: DepthKey, k: OrderKey, filled: nat)
    requires k in orders && orders[k].goodTilCanceled && filled <= orders[k].remaining
    ensures var rest := orders[k].remaining - filled;
            var after := orders[k := orders[k].(remaining := rest)];
            var hit := Hits(sizes, key, k.direction, k.price);
            && Base(sizes, after, key) == Base(sizes, orders, key) - (if hit then filled else 0)
            && Quote(sizes, after, key)
               == Quote(sizes, orders, key)
                  - (if hit then QuoteOf(filled, k.price) + Lost(filled, rest, k.price) else 0)
  {
    var rest := orders[k].remaining - filled;
    SplitProduct(filled, rest, k.price);
    SumsWith(sizes, orders, key, k, orders[k].(remaining := rest));
  }

  /**
   * A fill takes the rounded worth of what is filled out of the index. Where that and the rounded
   * worth of what is left do not add up to the order's worth, the difference stays behind.
   */
  lemma FilledIsIndexed(
    sizes: Sizes, orders: Orders, before: Depths, after: Depths, dust: Dust, k: OrderKey, filled: nat)
    requires Indexed(sizes, orders, before, dust) && k in orders
    requires orders[k].goodTilCanceled && filled <= orders[k].remaining
    requires Changed(before, after, sizes, k.direction, k.price, -(filled as int), -(QuoteOf(filled, k.price) as int))
    ensures var rest := orders[k].remaining - filled;
            Indexed(sizes, orders[k := orders[k].(remaining := rest)], after,
                    Dusted(dust, sizes, k.direction, k.price, Lost(filled, rest, k.price)))
  {
    var o := orders[k].(remaining := orders[k].remaining - filled);
    var lost := Lost(filled, o.remaining, k.price);
    var more := Dusted(dust, sizes, k.direction, k.price, lost);
    forall key
      ensures DepthAt(after, key).base == Base(sizes, orders[k := o], key)
      ensures DepthAt(after, key).quote == Quote(sizes, orders[k := o], key) + DustAt(more, key)
    {
      SumsAfterFill(sizes, orders, key, k, filled);
      DustedAt(dust, sizes, k.direction, k.price, lost, key);
      assert DepthAt(before, key).base == Base(sizes, orders, key);
    }
  }

  /**
   * Without orders under a key, the index tells what rounding has lost there: the entry outlives
   * them if that is not zero.
   */
  lemma WhatOutlivesOrders(sizes: Sizes, orders: Orders, depths: Depths, dust: Dust, key: DepthKey)
    requires Indexed(sizes, orders, depths, dust)
    requires forall k | k in orders && orders[k].goodTilCanceled :: !Hits(sizes, key, k.direction, k.price)
    ensures DepthAt(depths, key) == Depth(0, DustAt(dust, key))
  {
    SumOfZeros(orders, BaseTerm(sizes, key));
    SumOfZeros(orders, QuoteTerm(sizes, key));
    assert DepthAt(depths, key).base == Base(sizes, orders, key);
  }

  lemma WorthIsMonotone(x: nat, y: nat, price: nat)
    requires x <= y
    ensures QuoteOf(x, price) <= QuoteOf(y, price)
  {
    SplitProduct(x, y - x, price);
    assert QuoteOf(y - x, price) >= 0;
  }

  lemma StillPlaced(sizes: Sizes, k: OrderKey, o: Order, filled: nat)
    requires Placed(sizes, k, o) && filled <= o.remaining
    ensures Placed(sizes, k, o.(remaining := o.remaining - filled))
  {
    WorthIsMonotone(o.remaining - filled, o.remaining, k.price);
  }

  /** Whatever part of an order is filled or canceled, the index holds it: rounding never makes it underflow. */
  lemma OrderIsBacked(sizes: Sizes, orders: Orders, depths: Depths, dust: Dust, k: OrderKey, amount: nat)
    requires Indexed(sizes, orders, depths, dust) && k in orders && Placed(sizes, k, orders[k])
    requires orders[k].goodTilCanceled && amount <= orders[k].remaining
    ensures CanDecrease(depths, sizes, k.direction, k.price, amount)
    ensures orders[k].remaining > 0 ==> HasEntries(depths, sizes, k.direction, k.price)
  {
    WorthIsMonotone(amount, orders[k].remaining, k.price);
    forall key | Hits(sizes, key, k.direction, k.price)
      ensures amount <= DepthAt(depths, key).base && QuoteOf(amount, k.price) <= DepthAt(depths, key).quote
      ensures orders[k].remaining > 0 ==> key in depths
    {
      SharesAreWithinSums(sizes, orders, key, k);
      assert DepthAt(depths, key).base == Base(sizes, orders, key);
    }
  }

  /**
   * What a fill leaves of an order: a passive one stays as it is until the next auction, one that
   * does not rest goes, and so does one that is filled wholly.
   */
  function Leftover(o: Order, filled: nat): Option<Order>
    requires filled <= o.remaining
  {
    if o.passive then Some(o)
    else if !o.goodTilCanceled || filled == o.remaining then None
    else Some(o.(remaining := o.remaining - filled))
  }

  function AfterFill(orders: Orders, k: OrderKey, filled: nat): Orders
    requires k in orders && filled <= orders[k].remaining
  {
    var left := Leftover(orders[k], filled);
    if left.Some? then orders[k := left.value] else orders - {k}
  }

  /** What rounding has lost after a fill. An order that is filled wholly leaves nothing. */
  function DustAfterFill(dust: Dust, sizes: Sizes, orders: Orders, k: OrderKey, filled: nat): Dust
    requires k in orders && filled <= orders[k].remaining
  {
    Dusted(dust, sizes, k.direction, k.price, Lost(filled, orders[k].remaining - filled, k.price))
  }

  /** An order's amount can be put in for every size. */
  ghost predicate CanIncrease(depths: Depths, sizes: Sizes, direction: Direction, price: nat, amount: nat) {
    && Times(amount, price).Some?
    && forall size | size in sizes :: HasRoom(depths, size, direction, price, amount)
  }

  predicate HasRoom(depths: Depths, size: nat, direction: Direction, price: nat, amount: nat)
    requires size > 0
  {
    var depth := DepthAt(depths, KeyFor(size, direction, price));
    && GetBucket(size, direction, price).Some?
    && depth.base + amount <= MAX_U128 && depth.quote + QuoteOf(amount, price) <= MAX_U128
  }

  function Raised(depths: Depths, key: DepthKey, base: nat, quote: nat): Depths {
    depths[key := Depth(DepthAt(depths, key).base + base, DepthAt(depths, key).quote + quote)]
  }

  /** The increase has been made for some of the sizes. */
  ghost predicate Increased(
    before: Depths, now: Depths, done: Sizes, direction: Direction, price: nat, base: nat, quote: nat) {
    && Changed(before, now, done, direction, price, base, quote)
    && HasEntries(now, done, direction, price)
    && forall size | size in done :: HasRoom(before, size, direction, price, base)
  }

  lemma NothingIncreased(depths: Depths, direction: Direction, price: nat, base: nat, quote: nat)
    ensures Increased(depths, depths, {}, direction, price, base, quote)
  {
    NothingChanged(depths, direction, price, base, quote);
  }

  lemma RoomForAll(before: Depths, now: Depths, sizes: Sizes, direction: Direction, price: nat, amount: nat)
    requires Increased(before, now, sizes, direction, price, amount, QuoteOf(amount, price))
    requires Times(amount, price).Some?
    ensures CanIncrease(before, sizes, direction, price, amount)
  {
  }

  /** No depth is larger than its type can hold. */
  ghost predicate AllFit(depths: Depths) {
    forall key {:trigger DepthAt(depths, key)} ::
      DepthAt(depths, key).base <= MAX_U128 && DepthAt(depths, key).quote <= MAX_U128
  }

  lemma IncreasedFits(before: Depths, after: Depths, sizes: Sizes, direction: Direction, price: nat, amount: nat)
    requires AllFit(before) && Increased(before, after, sizes, direction, price, amount, QuoteOf(amount, price))
    ensures AllFit(after)
  {
    forall key
      ensures DepthAt(after, key).base <= MAX_U128 && DepthAt(after, key).quote <= MAX_U128
    {
      assert DepthAt(before, key).base <= MAX_U128 && DepthAt(before, key).quote <= MAX_U128;
      if Hits(sizes, key, direction, price) {
        assert key == KeyFor(key.size, direction, price) && HasRoom(before, key.size, direction, price, amount);
      }
    }
  }

  lemma DecreasedFits(
    before: Depths, after: Depths, sizes: Sizes, direction: Direction, price: nat, base: nat, quote: nat)
    requires AllFit(before) && Decreased(before, after, sizes, direction, price, base, quote)
    ensures AllFit(after)
  {
    forall key
      ensures DepthAt(after, key).base <= MAX_U128 && DepthAt(after, key).quote <= MAX_U128
    {
      assert DepthAt(before, key).base <= MAX_U128 && DepthAt(before, key).quote <= MAX_U128;
    }
  }

  lemma IncreasedOneMore(
    before: Depths, now: Depths, done: Sizes, size: nat, direction: Direction, price: nat, base: nat, quote: nat)
    requires Increased(before, now, done, direction, price, base, quote)
    requires size > 0 && size !in done && HasRoom(before, size, direction, price, base)
    ensures var after := Raised(now, KeyFor(size, direction, price), base, quote);
            Increased(before, after, done + {size}, direction, price, base, quote)
  {
    var after := Raised(now, KeyFor(size, direction, price), base, quote);
    ChangedOneMore(before, now, after, done, size, direction, price, base, quote);
    OneMoreEntry(after, done, direction, KeyFor(size, direction, price), price);
  }

  lemma SameRoom(
    before: Depths, now: Depths, done: Sizes, size: nat, direction: Direction, price: nat, amount: nat, quote: nat)
    requires Increased(before, now, done, direction, price, amount, quote) && size > 0 && size !in done
    ensures HasRoom(now, size, direction, price, amount) <==> HasRoom(before, size, direction, price, amount)
  {
    assert !Hits(done, KeyFor(size, direction, price), direction, price);
  }

  lemma NothingInIt(sizes: Sizes, k: OrderKey)
    ensures QuoteOf(0, k.price) == 0
  {
    assert 0 * k.price == 0;
  }

  lemma FillKeepsIndex(
    sizes: Sizes, orders: Orders, before: Depths, after: Depths, dust: Dust, k: OrderKey, filled: nat)
    requires Indexed(sizes, orders, before, dust) && AllPlaced(sizes, orders) && k in orders
    requires orders[k].goodTilCanceled && !orders[k].passive && filled <= orders[k].remaining
    requires Changed(before, after, sizes, k.direction, k.price, -(filled as int), -(QuoteOf(filled, k.price) as int))
    ensures AllPlaced(sizes, AfterFill(orders, k, filled))
    ensures Indexed(sizes, AfterFill(orders, k, filled), after, DustAfterFill(dust, sizes, orders, k, filled))
  {
    var rest := orders[k].remaining - filled;
    FilledIsIndexed(sizes, orders, before, after, dust, k, filled);
    if rest == 0 {
      var reduced := orders[k := orders[k].(remaining := 0)];
      NothingInIt(sizes, k);
      RemovedIsIndexed(sizes, reduced, after, after, DustAfterFill(dust, sizes, orders, k, filled), k);
      assert reduced - {k} == orders - {k};
    } else {
      StillPlaced(sizes, k, orders[k], filled);
    }
  }
}
