/** Matching and filling of limit orders (dango/dex/src/core/order_matching.rs, order_filling.rs). */
module DexMatching {
  import opened Wrappers
  import opened DexBuckets
  import opened DexSizes

  /** What matching sees of an order. */
  datatype Limit = Limit(price: nat, remaining: nat)

  function Min(x: nat, y: nat): nat {
    if x <= y then x else y
  }

  /** What the first `n` of the orders have to trade. */
  function Volume(s: seq<Limit>, n: nat): nat
    requires n <= |s|
  {
    if n == 0 then 0 else Volume(s, n - 1) + s[n - 1].remaining
  }

  /** Whether an order with this limit trades at the price. */
  predicate Accepts(direction: Direction, limit: nat, price: nat) {
    match direction
    case Bid => price <= limit
    case Ask => limit <= price
  }

  /** The best limit comes first. */
  predicate InOrder(direction: Direction, s: seq<Limit>) {
    forall i, j | 0 <= i < j < |s| :: Accepts(direction, s[i].price, s[j].price)
  }

  predicate NoneIsEmpty(s: seq<Limit>) {
    forall i | 0 <= i < |s| :: s[i].remaining > 0
  }

  /** How much of the first `n` orders trades at the price. */
  function Willing(direction: Direction, s: seq<Limit>, n: nat, price: nat): nat
    requires n <= |s|
  {
    if n == 0 then 0
    else
      Willing(direction, s, n - 1, price)
      + if Accepts(direction, s[n - 1].price, price) then s[n - 1].remaining else 0
  }

  /** How much changes hands if everything trades at this price. */
  function Traded(bids: seq<Limit>, asks: seq<Limit>, price: nat): nat {
    Min(Willing(Bid, bids, |bids|, price), Willing(Ask, asks, |asks|, price))
  }

  // ---- volumes of prefixes ----

  lemma {:induction false} VolumeGrows(s: seq<Limit>, i: nat, j: nat)
    requires i <= j <= |s|
    ensures Volume(s, i) <= Volume(s, j)
  {
    if i == j {
    } else {
      VolumeGrows(s, i, j - 1);
    }
  }

  lemma {:induction false} AllAreWilling(direction: Direction, s: seq<Limit>, n: nat, price: nat)
    requires n <= |s| && forall i | 0 <= i < n :: Accepts(direction, s[i].price, price)
    ensures Willing(direction, s, n, price) == Volume(s, n)
  {
    if n == 0 {
    } else {
      AllAreWilling(direction, s, n - 1, price);
    }
  }

  lemma {:induction false} MoreAreWilling(direction: Direction, s: seq<Limit>, n: nat, i: nat, price: nat)
    requires n <= i <= |s|
    ensures Willing(direction, s, n, price) <= Willing(direction, s, i, price)
    ensures Willing(direction, s, n, price) <= Volume(s, n)
    ensures (forall j | n <= j < i :: !Accepts(direction, s[j].price, price)) ==>
              Willing(direction, s, i, price) == Willing(direction, s, n, price)
    decreases i
  {
    if n < i {
      MoreAreWilling(direction, s, n, i - 1, price);
    } else if n > 0 {
      MoreAreWilling(direction, s, n - 1, n - 1, price);
    } else {
    }
  }

  /** If the last of a prefix accepts the price, all of it does. */
  lemma AtLeast(direction: Direction, s: seq<Limit>, n: nat, price: nat)
    requires InOrder(direction, s) && 0 < n <= |s| && Accepts(direction, s[n - 1].price, price)
    ensures Volume(s, n) <= Willing(direction, s, |s|, price)
  {
    forall i | 0 <= i < n
      ensures Accepts(direction, s[i].price, price)
    {
      assert i < n - 1 ==> Accepts(direction, s[i].price, s[n - 1].price);
    }
    AllAreWilling(direction, s, n, price);
    MoreAreWilling(direction, s, n, |s|, price);
  }

  /** If the first after a prefix does not accept the price, nothing after it does. */
  lemma AtMost(direction: Direction, s: seq<Limit>, n: nat, price: nat)
    requires InOrder(direction, s) && n <= |s| && (n < |s| ==> !Accepts(direction, s[n].price, price))
    ensures Willing(direction, s, |s|, price) <= Volume(s, n)
  {
    forall i | n <= i < |s|
      ensures !Accepts(direction, s[i].price, price)
    {
      assert n < i ==> Accepts(direction, s[n].price, s[i].price);
    }
    MoreAreWilling(direction, s, n, |s|, price);
  }

  // ---- matching ----

  /** The order to be looked at next on a side: the last one again if it is not yet exhausted. */
  function Next(s: seq<Limit>, n: nat, other: nat): nat
    requires n <= |s|
  {
    if Volume(s, n) <= other then n else n - 1
  }

  /** No two orders are left to be matched. */
  predicate IsDone(bids: seq<Limit>, asks: seq<Limit>, n: nat, m: nat)
    requires n <= |bids| && m <= |asks|
  {
    var b, a := Next(bids, n, Volume(asks, m)), Next(asks, m, Volume(bids, n));
    b == |bids| || a == |asks| || bids[b].price < asks[a].price
  }

  /** How many orders of each side are matched, if this many already are. */
  function Match(bids: seq<Limit>, asks: seq<Limit>, n: nat, m: nat): ((nat, nat))
    requires n <= |bids| && m <= |asks|
    decreases |bids| - n + |asks| - m
  {
    if IsDone(bids, asks, n, m) then (n, m)
    else Match(bids, asks, Next(bids, n, Volume(asks, m)) + 1, Next(asks, m, Volume(bids, n)) + 1)
  }

  /** The last orders matched trade with each other. */
  predicate Reached(bids: seq<Limit>, asks: seq<Limit>, n: nat, m: nat) {
    && n <= |bids| && m <= |asks| && (n == 0 <==> m == 0)
    && (n > 0 ==> asks[m - 1].price <= bids[n - 1].price)
  }

  /** Neither side could do without its last order. */
  predicate Balanced(bids: seq<Limit>, asks: seq<Limit>, n: nat, m: nat)
    requires n <= |bids| && m <= |asks| && (n == 0 <==> m == 0)
  {
    && (n > 0 ==> Volume(bids, n - 1) <= Volume(asks, m) && Volume(asks, m - 1) <= Volume(bids, n))
    && (n > 0 && NoneIsEmpty(bids) && NoneIsEmpty(asks) ==>
          Volume(bids, n - 1) < Volume(asks, m) && Volume(asks, m - 1) < Volume(bids, n))
  }

  lemma BalancedNext(bids: seq<Limit>, asks: seq<Limit>, n: nat, m: nat)
    requires Reached(bids, asks, n, m) && Balanced(bids, asks, n, m) && !IsDone(bids, asks, n, m)
    ensures Balanced(bids, asks, Next(bids, n, Volume(asks, m)) + 1, Next(asks, m, Volume(bids, n)) + 1)
  {
  }

  lemma {:induction false} MatchIsBalanced(bids: seq<Limit>, asks: seq<Limit>, n: nat, m: nat)
    requires Reached(bids, asks, n, m) && Balanced(bids, asks, n, m)
    ensures Reached(bids, asks, Match(bids, asks, n, m).0, Match(bids, asks, n, m).1)
    ensures Balanced(bids, asks, Match(bids, asks, n, m).0, Match(bids, asks, n, m).1)
    decreases |bids| - n + |asks| - m
  {
    MatchReaches(bids, asks, n, m);
    if IsDone(bids, asks, n, m) {
    } else {
      BalancedNext(bids, asks, n, m);
      MatchIsBalanced(bids, asks, Next(bids, n, Volume(asks, m)) + 1, Next(asks, m, Volume(bids, n)) + 1);
    }
  }

  lemma {:induction false} MatchReaches(bids: seq<Limit>, asks: seq<Limit>, n: nat, m: nat)
    requires Reached(bids, asks, n, m)
    ensures var (i, j) := Match(bids, asks, n, m);
            Reached(bids, asks, i, j) && IsDone(bids, asks, i, j) && n <= i && m <= j
    decreases |bids| - n + |asks| - m
  {
    if IsDone(bids, asks, n, m) {
    } else {
      MatchReaches(bids, asks, Next(bids, n, Volume(asks, m)) + 1, Next(asks, m, Volume(bids, n)) + 1);
    }
  }

  function Matched(bids: seq<Limit>, asks: seq<Limit>): (r: (nat, nat))
    ensures Reached(bids, asks, r.0, r.1) && IsDone(bids, asks, r.0, r.1)
  {
    MatchReaches(bids, asks, 0, 0);
    Match(bids, asks, 0, 0)
  }

  lemma MatchedIsBalanced(bids: seq<Limit>, asks: seq<Limit>)
    ensures Balanced(bids, asks, Matched(bids, asks).0, Matched(bids, asks).1)
  {
    MatchIsBalanced(bids, asks, 0, 0);
  }

  function MatchedVolume(bids: seq<Limit>, asks: seq<Limit>): nat {
    var (n, m) := Matched(bids, asks);
    Min(Volume(bids, n), Volume(asks, m))
  }

  /** The limits of the last two orders matched. */
  function Range(bids: seq<Limit>, asks: seq<Limit>): Option<(nat, nat)> {
    var (n, m) := Matched(bids, asks);
    if n == 0 then None else Some((asks[m - 1].price, bids[n - 1].price))
  }

  /** The volume of the matched orders fits on both sides. */
  predicate CanMatch(bids: seq<Limit>, asks: seq<Limit>) {
    var (n, m) := Matched(bids, asks);
    Volume(bids, n) <= MAX_U128 && Volume(asks, m) <= MAX_U128
  }

  lemma NothingTradesMore(bids: seq<Limit>, asks: seq<Limit>, price: nat)
    requires InOrder(Bid, bids) && InOrder(Ask, asks)
    ensures Traded(bids, asks, price) <= MatchedVolume(bids, asks)
  {
    MatchedIsBalanced(bids, asks);
    var (n, m) := Matched(bids, asks);
    var b, a := Next(bids, n, Volume(asks, m)), Next(asks, m, Volume(bids, n));
    if b == |bids| || bids[b].price < price {
      AtMost(Bid, bids, b, price);
    } else {
      AtMost(Ask, asks, a, price);
    }
  }

  /**
   * The range of prices found is one at which as much is traded as at any price. No other price
   * achieves that unless there are orders of size zero.
   */
  lemma RangeIsOptimal(bids: seq<Limit>, asks: seq<Limit>)
    requires InOrder(Bid, bids) && InOrder(Ask, asks)
    ensures forall price: nat :: Traded(bids, asks, price) <= MatchedVolume(bids, asks)
    ensures Range(bids, asks).None? ==> MatchedVolume(bids, asks) == 0
    ensures Range(bids, asks).Some? ==>
      var (lower, upper) := Range(bids, asks).value;
      && lower <= upper
      && (forall price | lower <= price <= upper :: Traded(bids, asks, price) == MatchedVolume(bids, asks))
      && (NoneIsEmpty(bids) && NoneIsEmpty(asks) ==>
            forall price: nat | Traded(bids, asks, price) == MatchedVolume(bids, asks) :: lower <= price <= upper)
  {
    forall price: nat
      ensures Traded(bids, asks, price) <= MatchedVolume(bids, asks)
      ensures Range(bids, asks).Some? && Range(bids, asks).value.0 <= price <= Range(bids, asks).value.1 ==>
        Traded(bids, asks, price) == MatchedVolume(bids, asks)
      ensures
        Range(bids, asks).Some? && NoneIsEmpty(bids) && NoneIsEmpty(asks)
        && Traded(bids, asks, price) == MatchedVolume(bids, asks) ==>
          Range(bids, asks).value.0 <= price <= Range(bids, asks).value.1
    {
      NothingTradesMore(bids, asks, price);
      if Range(bids, asks).Some? {
        InsideRange(bids, asks, price);
        if NoneIsEmpty(bids) && NoneIsEmpty(asks) {
          OutsideRange(bids, asks, price);
        }
      }
    }
  }

  lemma InsideRange(bids: seq<Limit>, asks: seq<Limit>, price: nat)
    requires InOrder(Bid, bids) && InOrder(Ask, asks) && Range(bids, asks).Some?
    ensures Range(bids, asks).value.0 <= price <= Range(bids, asks).value.1 ==>
      Traded(bids, asks, price) >= MatchedVolume(bids, asks)
  {
    var (n, m) := Matched(bids, asks);
    if asks[m - 1].price <= price <= bids[n - 1].price {
      AtLeast(Bid, bids, n, price);
      AtLeast(Ask, asks, m, price);
    }
  }

  lemma OutsideRange(bids: seq<Limit>, asks: seq<Limit>, price: nat)
    requires InOrder(Bid, bids) && InOrder(Ask, asks) && Range(bids, asks).Some?
    requires NoneIsEmpty(bids) && NoneIsEmpty(asks)
    ensures !(Range(bids, asks).value.0 <= price <= Range(bids, asks).value.1) ==>
      Traded(bids, asks, price) < MatchedVolume(bids, asks)
  {
    MatchedIsBalanced(bids, asks);
    var (n, m) := Matched(bids, asks);
    if price > bids[n - 1].price {
      AtMost(Bid, bids, n - 1, price);
    } else if price < asks[m - 1].price {
      AtMost(Ask, asks, m - 1, price);
    }
  }

  /** One more round of matching: where it leads to, and that the end is not before that. */
  lemma OneRound(bids: seq<Limit>, asks: seq<Limit>, n: nat, m: nat, b: nat, a: nat, end: (nat, nat))
    requires Reached(bids, asks, n, m) && Match(bids, asks, n, m) == end
    requires b == Next(bids, n, Volume(asks, m)) < |bids| && a == Next(asks, m, Volume(bids, n)) < |asks|
    requires bids[b].price >= asks[a].price
    ensures Reached(bids, asks, b + 1, a + 1) && Match(bids, asks, b + 1, a + 1) == end
    ensures b + 1 <= end.0 <= |bids| && a + 1 <= end.1 <= |asks|
    ensures Volume(bids, b + 1) <= Volume(bids, end.0) && Volume(asks, a + 1) <= Volume(asks, end.1)
  {
    assert !IsDone(bids, asks, n, m);
    MatchReaches(bids, asks, b + 1, a + 1);
    VolumeGrows(bids, b + 1, end.0);
    VolumeGrows(asks, a + 1, end.1);
  }

  /** The order looked at is matched, unless it already is. */
  method Push(s: seq<Limit>, n: nat, at: nat, isNew: bool, volume: nat) returns (more: nat, sum: nat)
    requires at < |s| && n == (if isNew then at else at + 1) && volume == Volume(s, n)
    ensures more == at + 1 && sum == Volume(s, at + 1)
  {
    more, sum := n, volume;
    if isNew {
      more, sum := n + 1, volume + s[at].remaining;
    }
  }

  /** Walks down both sides; fails only if the volume of the matched orders becomes too large. */
  method WalkDown(bids: seq<Limit>, asks: seq<Limit>, ghost end: (nat, nat))
    returns (ok: bool, n: nat, m: nat, bidVolume: nat, askVolume: nat)
    requires Match(bids, asks, 0, 0) == end && end.0 <= |bids| && end.1 <= |asks|
    ensures ok ==> (n, m) == end && bidVolume == Volume(bids, n) && askVolume == Volume(asks, m)
    ensures ok <==> Volume(bids, end.0) <= MAX_U128 && Volume(asks, end.1) <= MAX_U128
  {
    var b, a := 0, 0;
    var bidIsNew, askIsNew := true, true;
    n, m, bidVolume, askVolume := 0, 0, 0, 0;
    while b < |bids| && a < |asks| && bids[b].price >= asks[a].price
      invariant Reached(bids, asks, n, m) && Match(bids, asks, n, m) == end
      invariant bidVolume == Volume(bids, n) <= MAX_U128 && askVolume == Volume(asks, m) <= MAX_U128
      invariant bidIsNew == (bidVolume <= askVolume) && askIsNew == (askVolume <= bidVolume)
      invariant n == (if bidIsNew then b else b + 1) && m == if askIsNew then a else a + 1
      decreases |bids| - n + |asks| - m
    {
      OneRound(bids, asks, n, m, b, a, end);
      n, bidVolume := Push(bids, n, b, bidIsNew, bidVolume);
      m, askVolume := Push(asks, m, a, askIsNew, askVolume);
      if bidVolume > MAX_U128 || askVolume > MAX_U128 {
        return false, 0, 0, 0, 0;
      }
      bidIsNew, askIsNew := bidVolume <= askVolume, askVolume <= bidVolume;
      b, a := if bidIsNew then b + 1 else b, if askIsNew then a + 1 else a;
    }
    assert IsDone(bids, asks, n, m);
    ok := true;
  }

  method MatchOrders(bids: seq<Limit>, asks: seq<Limit>)
    returns (ok: bool, range: Option<(nat, nat)>, volume: nat, n: nat, m: nat)
    ensures ok ==> (n, m) == Matched(bids, asks)
    ensures ok ==> range == Range(bids, asks) && volume == MatchedVolume(bids, asks)
    ensures ok <==> CanMatch(bids, asks)
  {
    var bidVolume, askVolume;
    ok, n, m, bidVolume, askVolume := WalkDown(bids, asks, Matched(bids, asks));
    range, volume := None, Min(bidVolume, askVolume);
    if ok && n > 0 {
      range := Some((asks[m - 1].price, bids[n - 1].price));
    }
  }

  // ---- filling ----

  /** What an order gets of a volume after those in front of it have been served. */
  function Fill(remaining: nat, volume: nat, ahead: nat): nat {
    Min(remaining, if volume <= ahead then 0 else volume - ahead)
  }

  function FillAt(s: seq<Limit>, volume: nat, i: nat): nat
    requires i < |s|
  {
    Fill(s[i].remaining, volume, Volume(s, i))
  }

  lemma {:induction false} VolumeOfPrefix(s: seq<Limit>, n: nat, i: nat)
    requires i <= n <= |s|
    ensures Volume(s[..n], i) == Volume(s, i)
  {
    if i == 0 {
    } else {
      VolumeOfPrefix(s, n, i - 1);
    }
  }

  lemma FillAtPrefix(s: seq<Limit>, n: nat, volume: nat, i: nat)
    requires i < n <= |s|
    ensures FillAt(s[..n], volume, i) == FillAt(s, volume, i)
  {
    VolumeOfPrefix(s, n, i);
  }

  /** Serves the orders one after another until nothing of the volume is left. */
  method FillSide(s: seq<Limit>, volume: nat) returns (fills: seq<nat>)
    ensures |fills| <= |s| && forall i | 0 <= i < |fills| :: fills[i] == FillAt(s, volume, i)
    ensures forall i | |fills| <= i < |s| :: FillAt(s, volume, i) == 0
  {
    fills := [];
    var left := volume;
    for i := 0 to |s|
      invariant |fills| == i && left == volume - Min(volume, Volume(s, i))
      invariant forall j | 0 <= j < i :: fills[j] == FillAt(s, volume, j)
    {
      var filled := Min(s[i].remaining, left);
      left := left - filled;
      fills := fills + [filled];
      if left == 0 {
        forall j | |fills| <= j < |s|
          ensures FillAt(s, volume, j) == 0
        {
          VolumeGrows(s, i + 1, j);
        }
        return;
      }
    }
  }

  /** Behind an order that keeps something nobody gets anything. */
  lemma NothingBehindKept(s: seq<Limit>, volume: nat, i: nat, j: nat)
    requires i < j < |s| && FillAt(s, volume, i) < s[i].remaining
    ensures FillAt(s, volume, j) == 0
  {
    VolumeGrows(s, i + 1, j);
  }

  /** What is left on the two sides does not trade with each other any more. */
  lemma LeftDoesNotCross(bids: seq<Limit>, asks: seq<Limit>, k: nat, l: nat)
    requires InOrder(Bid, bids) && InOrder(Ask, asks) && k < |bids| && l < |asks|
    requires var volume := MatchedVolume(bids, asks);
             FillAt(bids, volume, k) < bids[k].remaining && FillAt(asks, volume, l) < asks[l].remaining
    ensures bids[k].price < asks[l].price
  {
    MatchedIsBalanced(bids, asks);
    var (n, m) := Matched(bids, asks);
    var b, a := Next(bids, n, Volume(asks, m)), Next(asks, m, Volume(bids, n));
    NotServed(bids, n, k, Volume(asks, m), MatchedVolume(bids, asks));
    NotServed(asks, m, l, Volume(bids, n), MatchedVolume(bids, asks));
    assert b < k ==> Accepts(Bid, bids[b].price, bids[k].price);
    assert a < l ==> Accepts(Ask, asks[a].price, asks[l].price);
  }

  /** An order that keeps something is at or behind the next one of its side. */
  lemma NotServed(s: seq<Limit>, n: nat, k: nat, other: nat, volume: nat)
    requires n <= |s| && k < |s| && volume == Min(Volume(s, n), other)
    requires n > 0 ==> Volume(s, n - 1) <= other
    requires FillAt(s, volume, k) < s[k].remaining
    ensures Next(s, n, other) <= k
  {
    if k < Next(s, n, other) {
      VolumeGrows(s, k + 1, Next(s, n, other));
      assert false;
    }
  }

  /** An order that gets something trades at every price of the range. */
  lemma FilledAccepts(bids: seq<Limit>, asks: seq<Limit>, direction: Direction, k: nat, price: nat)
    requires InOrder(Bid, bids) && InOrder(Ask, asks) && Range(bids, asks).Some?
    requires Range(bids, asks).value.0 <= price <= Range(bids, asks).value.1
    requires var s := if direction.Bid? then bids else asks;
             k < |s| && FillAt(s, MatchedVolume(bids, asks), k) > 0
    ensures Accepts(direction, (if direction.Bid? then bids else asks)[k].price, price)
  {
    var (n, m) := Matched(bids, asks);
    var s, i := if direction.Bid? then bids else asks, if direction.Bid? then n else m;
    if k >= i {
      VolumeGrows(s, i, k);
      assert false;
    }
    assert k < i - 1 ==> Accepts(direction, s[k].price, s[i - 1].price);
  }

  // ---- whole coins ----

  predicate LimitsAreWhole(s: seq<Limit>) {
    forall i | 0 <= i < |s| :: IsWhole(s[i].remaining)
  }

  lemma {:induction false} WholeVolume(s: seq<Limit>, n: nat)
    requires LimitsAreWhole(s) && n <= |s|
    ensures IsWhole(Volume(s, n))
  {
    if n == 0 {
    } else {
      WholeVolume(s, n - 1);
    }
  }

  /** Whole coins are filled by whole coins. */
  lemma FillsAreWhole(s: seq<Limit>, volume: nat, i: nat)
    requires LimitsAreWhole(s) && IsWhole(volume) && i < |s|
    ensures IsWhole(FillAt(s, volume, i))
  {
    WholeVolume(s, i);
  }

  lemma MatchedVolumeIsWhole(bids: seq<Limit>, asks: seq<Limit>)
    requires LimitsAreWhole(bids) && LimitsAreWhole(asks)
    ensures IsWhole(MatchedVolume(bids, asks))
  {
    var (n, m) := Matched(bids, asks);
    WholeVolume(bids, n);
    WholeVolume(asks, m);
  }

  // ---- the clearing price ----

  /** The middle of the resting book, moved into the range, or else the middle of the range. */
  function ClearingPrice(mid: Option<nat>, lower: nat, upper: nat): Option<nat> {
    if mid.Some? then Some(if mid.value < lower then lower else if mid.value > upper then upper else mid.value)
    else if lower + upper > MAX_U128 then None
    else Times(lower + upper, ONE / 2)
  }

  /** It is in the range, and so as much is traded at it as at any price. */
  lemma ClearingPriceIsInRange(mid: Option<nat>, lower: nat, upper: nat)
    requires lower <= upper
    ensures ClearingPrice(mid, lower, upper).Some? ==> lower <= ClearingPrice(mid, lower, upper).value <= upper
    ensures ClearingPrice(mid, lower, upper).None? <==> mid.None? && lower + upper > MAX_U128
  {
    assert (lower + upper) * (ONE / 2) / ONE == (lower + upper) / 2;
  }

  /** It is the price of the range closest to the middle of the resting book, or else the middle of the range. */
  lemma ClearingPriceIsNearest(mid: Option<nat>, lower: nat, upper: nat, other: nat)
    requires lower <= other <= upper && ClearingPrice(mid, lower, upper).Some?
    ensures var price := ClearingPrice(mid, lower, upper).value;
            match mid
            case Some(m) => if m <= price then price - m <= (if m <= other then other - m else m - other)
                            else m - price <= (if m <= other then other - m else m - other)
            case None => 2 * price <= lower + upper < 2 * price + 2
  {
    assert (lower + upper) * (ONE / 2) / ONE == (lower + upper) / 2;
  }
}
