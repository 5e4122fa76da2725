/** The orders of a book in the order in which the storage is iterated, and what that means for matching. */
module DexQueue {
  import opened Wrappers
  import opened MapSums
  import opened DexBuckets
  import opened DexSizes
  import opened DexMatching
  import opened DexDepths

  // ---- the order of iteration ----

  /** The number in an order's storage key: that of a bid is inverted. */
  function StoredId(k: OrderKey): int {
    match k.direction
    case Bid => MAX_U64 - k.id
    case Ask => k.id
  }

  predicate KeyLess(k: OrderKey, l: OrderKey) {
    k.price < l.price || (k.price == l.price && StoredId(k) < StoredId(l))
  }

  /** Bids are iterated in descending order, asks in ascending order. */
  predicate Before(k: OrderKey, l: OrderKey) {
    k.direction == l.direction && if k.direction.Bid? then KeyLess(l, k) else KeyLess(k, l)
  }

  /** The better price comes first, and at the same price the older order. */
  lemma PriceTimePriority(k: OrderKey, l: OrderKey)
    requires k.direction == l.direction
    ensures Before(k, l) <==> if k.price == l.price then k.id < l.id else Accepts(k.direction, k.price, l.price)
  {
  }

  lemma BeforeIsTotal(k: OrderKey, l: OrderKey)
    requires k.direction == l.direction && k != l
    ensures Before(k, l) || Before(l, k)
  {
    assert k == OrderKey(k.direction, k.price, k.id) && l == OrderKey(l.direction, l.price, l.id);
  }

  /** All orders of one direction as they are iterated. */
  predicate IsQueue(orders: Orders, direction: Direction, queue: seq<OrderKey>) {
    && (forall i | 0 <= i < |queue| :: queue[i] in orders && queue[i].direction == direction)
    && (forall k | k in orders && k.direction == direction :: k in queue)
    && (forall i, j | 0 <= i < j < |queue| :: Before(queue[i], queue[j]))
  }

  /** The first of some orders of one direction. */
  method First(keys: set<OrderKey>, direction: Direction) returns (first: OrderKey)
    requires keys != {} && forall k | k in keys :: k.direction == direction
    ensures first in keys && forall k | k in keys && k != first :: Before(first, k)
  {
    first :| first in keys;
    var left := keys - {first};
    while left != {}
      invariant left <= keys && first in keys
      invariant forall k | k in keys && k !in left && k != first :: Before(first, k)
      decreases |left|
    {
      var k :| k in left;
      if k != first {
        BeforeIsTotal(k, first);
      }
      if Before(k, first) {
        first := k;
      }
      left := left - {k};
    }
  }

  method Iterate(orders: Orders, direction: Direction) returns (queue: seq<OrderKey>)
    ensures IsQueue(orders, direction, queue)
  {
    var left := set k | k in orders && k.direction == direction;
    queue := [];
    while left != {}
      invariant forall k | k in left :: k in orders && k.direction == direction
      invariant forall i | 0 <= i < |queue| :: queue[i] in orders && queue[i].direction == direction
      invariant forall k | k in orders && k.direction == direction :: k in queue || k in left
      invariant forall i, j | 0 <= i < j < |queue| :: Before(queue[i], queue[j])
      invariant forall i, k | 0 <= i < |queue| && k in left :: Before(queue[i], k)
      decreases |left|
    {
      var k := First(left, direction);
      queue, left := queue + [k], left - {k};
    }
  }

  // ---- what matching sees ----

  function Limits(orders: Orders, queue: seq<OrderKey>): (s: seq<Limit>)
    requires forall i | 0 <= i < |queue| :: queue[i] in orders
    ensures |s| == |queue|
    ensures forall i | 0 <= i < |queue| :: s[i] == Limit(queue[i].price, orders[queue[i]].remaining)
  {
    seq(|queue|, i requires 0 <= i < |queue| => Limit(queue[i].price, orders[queue[i]].remaining))
  }

  lemma LimitsAreInOrder(orders: Orders, direction: Direction, queue: seq<OrderKey>)
    requires IsQueue(orders, direction, queue)
    ensures InOrder(direction, Limits(orders, queue))
  {
    forall i, j | 0 <= i < j < |queue|
      ensures Accepts(direction, queue[i].price, queue[j].price)
    {
      assert Before(queue[i], queue[j]);
    }
  }

  function AheadShare(k: OrderKey, l: OrderKey, o: Order): nat {
    if Before(l, k) then o.remaining else 0
  }

  ghost function AheadTerm(k: OrderKey): (OrderKey, Order) -> int {
    (l: OrderKey, o: Order) => AheadShare(k, l, o)
  }

  /** What is to be served before this order. */
  ghost function Ahead(orders: Orders, k: OrderKey): int {
    SumBy(orders, AheadTerm(k))
  }

  ghost function WillingTerm(direction: Direction, price: nat): (OrderKey, Order) -> int {
    (k: OrderKey, o: Order) => if k.direction == direction && Accepts(direction, k.price, price) then o.remaining else 0
  }

  /** What the orders of one direction trade at a price. */
  ghost function WillingAt(orders: Orders, direction: Direction, price: nat): int {
    SumBy(orders, WillingTerm(direction, price))
  }

  /** What changes hands if the whole book trades at a price. */
  ghost function TradedAt(orders: Orders, price: nat): int {
    var bought, sold := WillingAt(orders, Bid, price), WillingAt(orders, Ask, price);
    if bought <= sold then bought else sold
  }

  /** How much of an order is filled when this volume is served. */
  ghost function Filled(orders: Orders, k: OrderKey, volume: nat): nat
    requires k in orders
  {
    AheadIsNotNegative(orders, k);
    Fill(orders[k].remaining, volume, Ahead(orders, k))
  }

  lemma AheadIsNotNegative(orders: Orders, k: OrderKey)
    ensures Ahead(orders, k) >= 0
  {
    forall l: OrderKey, o: Order
      ensures AheadTerm(k)(l, o) >= 0
    {
    }
    SumIsNotNegative(orders, AheadTerm(k));
  }

  ghost function FillTerm(orders: Orders, direction: Direction, volume: nat): (OrderKey, Order) -> int {
    (k: OrderKey, o: Order) => if k.direction == direction && k in orders then Filled(orders, k, volume) else 0
  }

  // ---- sums over the book as sums along the queue ----

  /** The sum of the first `n` terms. */
  function Sum(terms: seq<int>, n: nat): int
    requires n <= |terms|
  {
    if n == 0 then 0 else Sum(terms, n - 1) + terms[n - 1]
  }

  predicate Among(queue: seq<OrderKey>, n: nat, k: OrderKey)
    requires n <= |queue|
  {
    exists i :: 0 <= i < n && queue[i] == k
  }

  /** Orders that are not among the first of the queue count for nothing. */
  lemma {:induction false} SumAlongQueue(
    orders: Orders, queue: seq<OrderKey>, n: nat, f: (OrderKey, Order) -> int, terms: seq<int>)
    requires n <= |queue| == |terms|
    requires forall i, j | 0 <= i < j < n :: queue[i] != queue[j]
    requires forall i | 0 <= i < n :: queue[i] in orders && f(queue[i], orders[queue[i]]) == terms[i]
    requires forall k | k in orders && !Among(queue, n, k) :: f(k, orders[k]) == 0
    ensures SumBy(orders, f) == Sum(terms, n)
  {
    if n == 0 {
      SumOfZeros(orders, f);
    } else {
      var last := queue[n - 1];
      SumWithout(orders, last, f);
      SumAlongQueue(orders - {last}, queue, n - 1, f, terms);
    }
  }

  lemma {:induction false} VolumeIsSum(s: seq<Limit>, n: nat, terms: seq<int>)
    requires n <= |s| == |terms| && forall i | 0 <= i < n :: terms[i] == s[i].remaining
    ensures Volume(s, n) == Sum(terms, n)
  {
    if n == 0 {
    } else {
      VolumeIsSum(s, n - 1, terms);
    }
  }

  lemma {:induction false} WillingIsSum(direction: Direction, s: seq<Limit>, n: nat, price: nat, terms: seq<int>)
    requires n <= |s| == |terms|
    requires forall i | 0 <= i < n ::
      terms[i] == if Accepts(direction, s[i].price, price) then s[i].remaining else 0
    ensures Willing(direction, s, n, price) == Sum(terms, n)
  {
    if n == 0 {
    } else {
      WillingIsSum(direction, s, n - 1, price, terms);
    }
  }

  lemma {:induction false} FillsAddUp(s: seq<Limit>, volume: nat, n: nat, terms: seq<int>)
    requires n <= |s| == |terms| && forall i | 0 <= i < n :: terms[i] == FillAt(s, volume, i)
    ensures Sum(terms, n) == Min(volume, Volume(s, n))
  {
    if n == 0 {
    } else {
      FillsAddUp(s, volume, n - 1, terms);
    }
  }

  lemma QueueIsDistinct(orders: Orders, direction: Direction, queue: seq<OrderKey>)
    requires IsQueue(orders, direction, queue)
    ensures forall i, j | 0 <= i < j < |queue| :: queue[i] != queue[j]
  {
    forall i, j | 0 <= i < j < |queue|
      ensures queue[i] != queue[j]
    {
      assert Before(queue[i], queue[j]);
    }
  }

  /** What is ahead of an order is what comes before it in the queue. */
  lemma AheadIsPrefix(orders: Orders, direction: Direction, queue: seq<OrderKey>, i: nat)
    requires IsQueue(orders, direction, queue) && i < |queue|
    ensures Ahead(orders, queue[i]) == Volume(Limits(orders, queue), i)
  {
    var s := Limits(orders, queue);
    var terms := seq(|s|, j requires 0 <= j < |s| => s[j].remaining as int);
    AheadAlongQueue(orders, direction, queue, i, terms);
    VolumeIsSum(s, i, terms);
  }

  lemma AheadAlongQueue(orders: Orders, direction: Direction, queue: seq<OrderKey>, i: nat, terms: seq<int>)
    requires IsQueue(orders, direction, queue) && i < |queue| == |terms|
    requires forall j | 0 <= j < |queue| :: terms[j] == orders[queue[j]].remaining
    ensures Ahead(orders, queue[i]) == Sum(terms, i)
  {
    var f := AheadTerm(queue[i]);
    forall k | k in orders && !Among(queue, i, k)
      ensures f(k, orders[k]) == 0
    {
      NotAhead(orders, direction, queue, i, k);
    }
    forall j | 0 <= j < i
      ensures f(queue[j], orders[queue[j]]) == terms[j]
    {
      assert Before(queue[j], queue[i]);
    }
    QueueIsDistinct(orders, direction, queue);
    SumAlongQueue(orders, queue, i, f, terms);
  }

  lemma NotAhead(orders: Orders, direction: Direction, queue: seq<OrderKey>, i: nat, k: OrderKey)
    requires IsQueue(orders, direction, queue) && i < |queue| && k in orders && !Among(queue, i, k)
    ensures !Before(k, queue[i])
  {
    if k.direction == direction {
      var j :| 0 <= j < |queue| && queue[j] == k;
      assert j > i ==> Before(queue[i], queue[j]);
    }
  }

  lemma WillingAlongQueue(orders: Orders, direction: Direction, queue: seq<OrderKey>, price: nat)
    requires IsQueue(orders, direction, queue)
    ensures WillingAt(orders, direction, price) == Willing(direction, Limits(orders, queue), |queue|, price)
  {
    var s := Limits(orders, queue);
    var terms := seq(|s|, j requires 0 <= j < |s| =>
      if Accepts(direction, s[j].price, price) then s[j].remaining as int else 0);
    SumAlongQueue(orders, queue, |queue|, WillingTerm(direction, price), terms);
    WillingIsSum(direction, s, |s|, price, terms);
  }

  lemma FilledIsFillAt(orders: Orders, direction: Direction, queue: seq<OrderKey>, volume: nat, i: nat)
    requires IsQueue(orders, direction, queue) && i < |queue|
    ensures Filled(orders, queue[i], volume) == FillAt(Limits(orders, queue), volume, i)
  {
    AheadIsPrefix(orders, direction, queue, i);
  }

  /** The fills of one side add up to the volume, if there is so much. */
  lemma FilledAddsUp(orders: Orders, direction: Direction, queue: seq<OrderKey>, volume: nat)
    requires IsQueue(orders, direction, queue)
    ensures SumBy(orders, FillTerm(orders, direction, volume))
         == Min(volume, Volume(Limits(orders, queue), |queue|))
  {
    var s := Limits(orders, queue);
    var terms := seq(|s|, j requires 0 <= j < |s| => FillAt(s, volume, j) as int);
    FilledAlongQueue(orders, direction, queue, volume, s, terms);
    FillsAddUp(s, volume, |s|, terms);
  }

  lemma FilledAlongQueue(
    orders: Orders, direction: Direction, queue: seq<OrderKey>, volume: nat, s: seq<Limit>, terms: seq<int>)
    requires IsQueue(orders, direction, queue) && s == Limits(orders, queue) && |terms| == |s|
    requires forall j | 0 <= j < |s| :: terms[j] == FillAt(s, volume, j)
    ensures SumBy(orders, FillTerm(orders, direction, volume)) == Sum(terms, |s|)
  {
    var f := FillTerm(orders, direction, volume);
    forall i | 0 <= i < |queue|
      ensures f(queue[i], orders[queue[i]]) == terms[i]
    {
      FilledIsFillAt(orders, direction, queue, volume, i);
    }
    QueueIsDistinct(orders, direction, queue);
    SumAlongQueue(orders, queue, |queue|, f, terms);
  }

  /** Nobody is served before those ahead of him have all they can get. */
  lemma NoOvertaking(
    orders: Orders, direction: Direction, queue: seq<OrderKey>, volume: nat, k: OrderKey, l: OrderKey)
    requires IsQueue(orders, direction, queue) && k in orders && l in orders
    requires k.direction == direction && Before(k, l)
    requires Filled(orders, k, volume) < orders[k].remaining
    ensures Filled(orders, l, volume) == 0
  {
    var i :| 0 <= i < |queue| && queue[i] == k;
    var j :| 0 <= j < |queue| && queue[j] == l;
    assert j < i ==> Before(l, k);
    FilledIsFillAt(orders, direction, queue, volume, i);
    FilledIsFillAt(orders, direction, queue, volume, j);
    NothingBehindKept(Limits(orders, queue), volume, i, j);
  }

  // ---- matching the book ----

  /** As much as the book can trade at any one price. */
  ghost predicate IsBestVolume(orders: Orders, volume: nat) {
    && (exists price: nat :: TradedAt(orders, price) == volume)
    && forall price: nat :: TradedAt(orders, price) <= volume
  }

  /** As much is traded at the price, and by orders that accept it. */
  ghost predicate Clears(orders: Orders, volume: nat, price: nat) {
    && TradedAt(orders, price) == volume
    && forall k | k in orders && Filled(orders, k, volume) > 0 :: Accepts(k.direction, k.price, price)
  }

  lemma TradedAlongQueues(orders: Orders, bids: seq<OrderKey>, asks: seq<OrderKey>, price: nat)
    requires IsQueue(orders, Bid, bids) && IsQueue(orders, Ask, asks)
    ensures TradedAt(orders, price) == Traded(Limits(orders, bids), Limits(orders, asks), price)
  {
    WillingAlongQueue(orders, Bid, bids, price);
    WillingAlongQueue(orders, Ask, asks, price);
  }

  lemma MatchedVolumeIsBest(orders: Orders, bids: seq<OrderKey>, asks: seq<OrderKey>)
    requires IsQueue(orders, Bid, bids) && IsQueue(orders, Ask, asks)
    ensures IsBestVolume(orders, MatchedVolume(Limits(orders, bids), Limits(orders, asks)))
  {
    var (b, a) := (Limits(orders, bids), Limits(orders, asks));
    LimitsAreInOrder(orders, Bid, bids);
    LimitsAreInOrder(orders, Ask, asks);
    RangeIsOptimal(b, a);
    forall price: nat
      ensures TradedAt(orders, price) == Traded(b, a, price)
    {
      TradedAlongQueues(orders, bids, asks, price);
    }
    var price := if Range(b, a).Some? then Range(b, a).value.0 else 0;
    assert TradedAt(orders, price) == MatchedVolume(b, a);
  }

  lemma RangeClears(orders: Orders, bids: seq<OrderKey>, asks: seq<OrderKey>, price: nat)
    requires IsQueue(orders, Bid, bids) && IsQueue(orders, Ask, asks)
    requires var range := Range(Limits(orders, bids), Limits(orders, asks));
             range.Some? && range.value.0 <= price <= range.value.1
    ensures Clears(orders, MatchedVolume(Limits(orders, bids), Limits(orders, asks)), price)
  {
    var (b, a) := (Limits(orders, bids), Limits(orders, asks));
    LimitsAreInOrder(orders, Bid, bids);
    LimitsAreInOrder(orders, Ask, asks);
    RangeIsOptimal(b, a);
    TradedAlongQueues(orders, bids, asks, price);
    forall k | k in orders && Filled(orders, k, MatchedVolume(b, a)) > 0
      ensures Accepts(k.direction, k.price, price)
    {
      var queue := if k.direction.Bid? then bids else asks;
      var i :| 0 <= i < |queue| && queue[i] == k;
      FilledIsFillAt(orders, k.direction, queue, MatchedVolume(b, a), i);
      FilledAccepts(b, a, k.direction, i, price);
    }
  }

  /** As much is bought as is sold. */
  lemma FillsBalance(orders: Orders, bids: seq<OrderKey>, asks: seq<OrderKey>)
    requires IsQueue(orders, Bid, bids) && IsQueue(orders, Ask, asks)
    ensures var volume := MatchedVolume(Limits(orders, bids), Limits(orders, asks));
            && SumBy(orders, FillTerm(orders, Bid, volume)) == volume
            && SumBy(orders, FillTerm(orders, Ask, volume)) == volume
  {
    var (b, a) := (Limits(orders, bids), Limits(orders, asks));
    var volume := MatchedVolume(b, a);
    FilledAddsUp(orders, Bid, bids, volume);
    FilledAddsUp(orders, Ask, asks, volume);
    VolumeGrows(b, Matched(b, a).0, |b|);
    VolumeGrows(a, Matched(b, a).1, |a|);
  }

  /** Orders that keep something do not trade with each other. */
  lemma KeptDoNotCross(orders: Orders, bids: seq<OrderKey>, asks: seq<OrderKey>, bid: OrderKey, ask: OrderKey)
    requires IsQueue(orders, Bid, bids) && IsQueue(orders, Ask, asks)
    requires bid in orders && ask in orders && bid.direction == Bid && ask.direction == Ask
    requires var volume := MatchedVolume(Limits(orders, bids), Limits(orders, asks));
             && Filled(orders, bid, volume) < orders[bid].remaining
             && Filled(orders, ask, volume) < orders[ask].remaining
    ensures bid.price < ask.price
  {
    var (b, a) := (Limits(orders, bids), Limits(orders, asks));
    var i :| 0 <= i < |bids| && bids[i] == bid;
    var j :| 0 <= j < |asks| && asks[j] == ask;
    FilledIsFillAt(orders, Bid, bids, MatchedVolume(b, a), i);
    FilledIsFillAt(orders, Ask, asks, MatchedVolume(b, a), j);
    LimitsAreInOrder(orders, Bid, bids);
    LimitsAreInOrder(orders, Ask, asks);
    LeftDoesNotCross(b, a, i, j);
  }

  /** All that one side has to trade. */
  ghost function Total(orders: Orders, direction: Direction): int {
    SumBy(orders, TotalTerm(direction))
  }

  ghost function TotalTerm(direction: Direction): (OrderKey, Order) -> int {
    (k: OrderKey, o: Order) => if k.direction == direction then o.remaining else 0
  }

  lemma TotalAlongQueue(orders: Orders, direction: Direction, queue: seq<OrderKey>)
    requires IsQueue(orders, direction, queue)
    ensures Total(orders, direction) == Volume(Limits(orders, queue), |queue|)
  {
    var s := Limits(orders, queue);
    var terms := seq(|s|, j requires 0 <= j < |s| => s[j].remaining as int);
    QueueIsDistinct(orders, direction, queue);
    SumAlongQueue(orders, queue, |queue|, TotalTerm(direction), terms);
    VolumeIsSum(s, |s|, terms);
  }

  lemma TotalsDoNotFit(orders: Orders, bids: seq<OrderKey>, asks: seq<OrderKey>)
    requires IsQueue(orders, Bid, bids) && IsQueue(orders, Ask, asks)
    requires !CanMatch(Limits(orders, bids), Limits(orders, asks))
    ensures Total(orders, Bid) > MAX_U128 || Total(orders, Ask) > MAX_U128
  {
    var (b, a) := (Limits(orders, bids), Limits(orders, asks));
    TotalAlongQueue(orders, Bid, bids);
    TotalAlongQueue(orders, Ask, asks);
    VolumeGrows(b, Matched(b, a).0, |b|);
    VolumeGrows(a, Matched(b, a).1, |a|);
  }

  /** The range of prices is between the prices of two orders. */
  lemma RangeIsWithin(orders: Orders, bids: seq<OrderKey>, asks: seq<OrderKey>)
    requires IsQueue(orders, Bid, bids) && IsQueue(orders, Ask, asks)
    requires Range(Limits(orders, bids), Limits(orders, asks)).Some?
    ensures var (lower, upper) := Range(Limits(orders, bids), Limits(orders, asks)).value;
            lower <= upper && exists k, l :: k in orders && l in orders && k.price == lower && l.price == upper
  {
    var (n, m) := Matched(Limits(orders, bids), Limits(orders, asks));
    assert asks[m - 1] in orders && bids[n - 1] in orders;
  }

  lemma VolumeIsWhole(orders: Orders, bids: seq<OrderKey>, asks: seq<OrderKey>)
    requires IsQueue(orders, Bid, bids) && IsQueue(orders, Ask, asks)
    requires forall k | k in orders :: IsWhole(orders[k].remaining)
    ensures IsWhole(MatchedVolume(Limits(orders, bids), Limits(orders, asks)))
  {
    MatchedVolumeIsWhole(Limits(orders, bids), Limits(orders, asks));
  }
}
