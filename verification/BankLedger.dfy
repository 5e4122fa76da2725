/** The bank contract's ledger (dango/bank/src/execute.rs). */
module BankLedger {
  import opened Wrappers
  import opened MapSums

  type Addr = string

  type Denom = string

  const MAX_AMOUNT: nat := 0xFFFF_FFFF_FFFF_FFFF_FFFF_FFFF_FFFF_FFFF

  /** Amounts of coins. The coins of a message are not checked, so there may be zeros among them. */
  type Coins = c: map<Denom, nat> | forall d | d in c :: c[d] <= MAX_AMOUNT

  function AmountOf(coins: map<Denom, nat>, d: Denom): nat {
    if d in coins then coins[d] else 0
  }

  /** An amount that is not stored is zero. */
  function Amount<K>(m: map<K, nat>, k: K): nat {
    if k in m then m[k] else 0
  }

  /** An amount is stored, or deleted if it has become zero. */
  function Stored<K>(m: map<K, nat>, k: K, amount: nat): map<K, nat> {
    if amount == 0 then m - {k} else m[k := amount]
  }

  ghost predicate NoZeros<K(!new)>(m: map<K, nat>) {
    forall k | k in m :: m[k] != 0
  }

  ghost predicate Fits<K(!new)>(m: map<K, nat>) {
    forall k | k in m :: m[k] <= MAX_AMOUNT
  }

  /** Every zero that is stored was stored before. */
  ghost predicate NoNewZeros<K(!new)>(before: map<K, nat>, after: map<K, nat>) {
    forall k {:trigger k in after} | k in after && after[k] == 0 :: k in before && before[k] == 0
  }

  ghost function Holding(d: Denom): ((Addr, Denom), nat) -> int {
    (k: (Addr, Denom), amount: nat) => if k.1 == d then amount else 0
  }

  ghost function Held(d: Denom): ((Addr, Addr), Coins) -> int {
    (k: (Addr, Addr), coins: Coins) => AmountOf(coins, d)
  }

  type Balances = map<(Addr, Denom), nat>

  type Orphans = map<(Addr, Addr), Coins>

  /** All balances of a denomination together. */
  ghost function Total(balances: Balances, d: Denom): int {
    SumBy(balances, Holding(d))
  }

  /** All transfers of a denomination that wait to be recovered. */
  ghost function Waiting(orphans: Orphans, d: Denom): int {
    SumBy(orphans, Held(d))
  }

  lemma TotalAfter(balances: Balances, who: Addr, c: Denom, amount: nat, d: Denom)
    ensures Total(Stored(balances, (who, c), amount), d)
            == Total(balances, d) + if c == d then amount - Amount(balances, (who, c)) else 0
  {
    SumWithout(balances, (who, c), Holding(d));
    SumWith(balances, (who, c), amount, Holding(d));
  }

  lemma BalanceIsWithinTotal(balances: Balances, who: Addr, d: Denom)
    ensures 0 <= Amount(balances, (who, d)) <= Total(balances, d)
  {
    assert NeverNegative(Holding(d));
    SumCoversTerm(balances, (who, d), Holding(d));
  }

  lemma WaitingAfter(orphans: Orphans, k: (Addr, Addr), coins: Coins, d: Denom)
    ensures Waiting(orphans[k := coins], d)
            == Waiting(orphans, d) + AmountOf(coins, d) - (if k in orphans then AmountOf(orphans[k], d) else 0)
    ensures Waiting(orphans - {k}, d)
            == Waiting(orphans, d) - (if k in orphans then AmountOf(orphans[k], d) else 0)
  {
    SumWith(orphans, k, coins, Held(d));
    SumWithout(orphans, k, Held(d));
  }

  lemma WaitingCovers(orphans: Orphans, k: (Addr, Addr), d: Denom)
    requires k in orphans
    ensures AmountOf(orphans[k], d) <= Waiting(orphans, d)
  {
    assert NeverNegative(Held(d));
    SumCoversTerm(orphans, k, Held(d));
  }

  /** The balances of every denomination add up to its supply. */
  ghost predicate Conserved(balances: Balances, supplies: map<Denom, nat>) {
    forall d {:trigger Total(balances, d)} :: Total(balances, d) == Amount(supplies, d)
  }

  /** The bank's own balance covers what waits to be recovered. */
  ghost predicate Covered(bank: Addr, balances: Balances, orphans: Orphans) {
    forall d {:trigger Waiting(orphans, d)} :: Waiting(orphans, d) <= Amount(balances, (bank, d))
  }

  /** By how much a transfer changes a balance. */
  function Change(who: Addr, from: Option<Addr>, to: Option<Addr>, amount: nat): int {
    (if to == Some(who) then amount else 0) - (if from == Some(who) then amount else 0)
  }

  /**
   * The coins have moved, except for the denominations left. Minted coins come from nobody, burned
   * ones go to nobody.
   */
  ghost predicate Moved(
    before: Balances, after: Balances, from: Option<Addr>, to: Option<Addr>, coins: Coins, left: set<Denom>) {
    forall who, d {:trigger Amount(after, (who, d))} ::
      Amount(after, (who, d))
      == Amount(before, (who, d)) + if d in left then 0 else Change(who, from, to, AmountOf(coins, d))
  }

  lemma NothingMoved(balances: Balances, from: Option<Addr>, to: Option<Addr>, coins: Coins)
    ensures Moved(balances, balances, from, to, coins, coins.Keys)
  {
    forall who, d
      ensures Amount(balances, (who, d))
              == Amount(balances, (who, d)) + if d in coins.Keys then 0 else Change(who, from, to, AmountOf(coins, d))
    {
    }
  }

  lemma MovedOneMore(
    before: Balances, between: Balances, after: Balances, from: Option<Addr>, to: Option<Addr>, coins: Coins,
    left: set<Denom>, d: Denom)
    requires Moved(before, between, from, to, coins, left)
    requires d in left && d in coins
    requires OneMoved(between, after, from, to, d, coins[d])
    ensures Moved(before, after, from, to, coins, left - {d})
  {
    forall who, e
      ensures Amount(after, (who, e))
              == Amount(before, (who, e)) + if e in left - {d} then 0 else Change(who, from, to, AmountOf(coins, e))
    {
    }
  }

  ghost predicate OneMoved(
    before: Balances, after: Balances, from: Option<Addr>, to: Option<Addr>, d: Denom, amount: nat) {
    forall who, e {:trigger Amount(after, (who, e))} ::
      Amount(after, (who, e)) == Amount(before, (who, e)) + if e == d then Change(who, from, to, amount) else 0
  }

  function Taken(balances: Balances, from: Addr, d: Denom, amount: nat): Balances
    requires amount <= Amount(balances, (from, d))
  {
    Stored(balances, (from, d), Amount(balances, (from, d)) - amount)
  }

  function Given(balances: Balances, to: Addr, d: Denom, amount: nat): Balances {
    Stored(balances, (to, d), Amount(balances, (to, d)) + amount)
  }

  /** Taking from one account and adding to another conserves, and cannot overflow since the supply does not. */
  lemma MovingConserves(balances: Balances, supplies: map<Denom, nat>, from: Addr, to: Addr, d: Denom, amount: nat)
    requires Conserved(balances, supplies) && Fits(supplies)
    requires amount <= Amount(balances, (from, d))
    ensures var taken := Taken(balances, from, d, amount);
            && Amount(taken, (to, d)) + amount <= MAX_AMOUNT
            && Conserved(Given(taken, to, d, amount), supplies)
  {
    var taken := Taken(balances, from, d, amount);
    var after := Given(taken, to, d, amount);
    forall e
      ensures Total(after, e) == Amount(supplies, e)
    {
      TotalAfter(balances, from, d, Amount(balances, (from, d)) - amount, e);
      TotalAfter(taken, to, d, Amount(taken, (to, d)) + amount, e);
    }
    BalanceIsWithinTotal(after, to, d);
  }

  lemma MintingConserves(balances: Balances, supplies: map<Denom, nat>, to: Addr, d: Denom, amount: nat)
    requires Conserved(balances, supplies)
    requires Amount(supplies, d) + amount <= MAX_AMOUNT
    ensures Amount(balances, (to, d)) + amount <= MAX_AMOUNT
    ensures Conserved(Given(balances, to, d, amount), Stored(supplies, d, Amount(supplies, d) + amount))
  {
    forall e
      ensures Total(Given(balances, to, d, amount), e) == Amount(Stored(supplies, d, Amount(supplies, d) + amount), e)
    {
      TotalAfter(balances, to, d, Amount(balances, (to, d)) + amount, e);
    }
    BalanceIsWithinTotal(balances, to, d);
  }

  lemma BurningConserves(balances: Balances, supplies: map<Denom, nat>, from: Addr, d: Denom, amount: nat)
    requires Conserved(balances, supplies)
    requires amount <= Amount(balances, (from, d))
    ensures amount <= Amount(supplies, d)
    ensures Conserved(Taken(balances, from, d, amount), Stored(supplies, d, Amount(supplies, d) - amount))
  {
    BalanceIsWithinTotal(balances, from, d);
    forall e
      ensures Total(Taken(balances, from, d, amount), e) == Amount(Stored(supplies, d, Amount(supplies, d) - amount), e)
    {
      TotalAfter(balances, from, d, Amount(balances, (from, d)) - amount, e);
    }
  }

  function SupplyChange(up: bool, amount: nat): int {
    if up then amount else 0 - amount
  }

  /** The supplies have grown or shrunk by the coins, except for the denominations left. */
  ghost predicate Supplied(
    before: map<Denom, nat>, after: map<Denom, nat>, coins: Coins, up: bool, left: set<Denom>) {
    forall d {:trigger Amount(after, d)} ::
      Amount(after, d)
      == Amount(before, d) + if d in left then 0 else SupplyChange(up, AmountOf(coins, d))
  }

  lemma NothingSupplied(supplies: map<Denom, nat>, coins: Coins, up: bool)
    ensures Supplied(supplies, supplies, coins, up, coins.Keys)
  {
    forall d
      ensures Amount(supplies, d)
              == Amount(supplies, d) + if d in coins.Keys then 0 else SupplyChange(up, AmountOf(coins, d))
    {
    }
  }

  lemma SuppliedOneMore(
    before: map<Denom, nat>, between: map<Denom, nat>, after: map<Denom, nat>, coins: Coins, up: bool,
    left: set<Denom>, d: Denom)
    requires Supplied(before, between, coins, up, left)
    requires d in left && d in coins
    requires forall e ::
      Amount(after, e) == Amount(between, e) + if e == d then SupplyChange(up, coins[d]) else 0
    ensures Supplied(before, after, coins, up, left - {d})
  {
    forall e
      ensures Amount(after, e)
              == Amount(before, e) + if e in left - {d} then 0 else SupplyChange(up, AmountOf(coins, e))
    {
    }
  }

  /** The supplies can grow by the coins. */
  ghost predicate CanGrow(supplies: map<Denom, nat>, coins: Coins, which: set<Denom>) {
    forall d {:trigger AmountOf(coins, d)} | d in which && d in coins ::
      Amount(supplies, d) + AmountOf(coins, d) <= MAX_AMOUNT
  }

  ghost predicate CanPay(balances: Balances, from: Addr, coins: Coins, which: set<Denom>) {
    forall d {:trigger AmountOf(coins, d)} | d in which && d in coins ::
      AmountOf(coins, d) <= Amount(balances, (from, d))
  }

  /** Both amounts of every denomination together, unless one is too large. No zero is added as a new entry. */
  function AddCoins(coins: Coins, more: Coins): (sum: Option<Coins>)
    ensures sum.Some? <==>
      forall d | d in coins.Keys + more.Keys :: AmountOf(coins, d) + AmountOf(more, d) <= MAX_AMOUNT
    ensures sum.Some? ==> forall d :: AmountOf(sum.value, d) == AmountOf(coins, d) + AmountOf(more, d)
    ensures sum.Some? ==> forall d | d in sum.value && sum.value[d] == 0 :: d in coins && coins[d] == 0
  {
    if forall d | d in coins.Keys + more.Keys :: AmountOf(coins, d) + AmountOf(more, d) <= MAX_AMOUNT then
      Some(map d | d in coins.Keys + more.Keys && (d in coins || more[d] != 0) ::
        AmountOf(coins, d) + AmountOf(more, d))
    else
      None
  }

  ghost predicate NoZeroOrphans(orphans: Orphans) {
    forall k | k in orphans :: NoZeros(orphans[k])
  }

  function WaitingFor(orphans: Orphans, k: (Addr, Addr)): Coins {
    if k in orphans then orphans[k] else map[]
  }

  /** Moving coins that are not the bank's own leaves what waits covered. */
  lemma StillCovered(
    bank: Addr, before: Balances, after: Balances, orphans: Orphans, from: Option<Addr>, to: Option<Addr>, coins: Coins)
    requires Covered(bank, before, orphans) && Moved(before, after, from, to, coins, {})
    requires from != Some(bank)
    ensures Covered(bank, after, orphans)
  {
    forall d
      ensures Waiting(orphans, d) <= Amount(after, (bank, d))
    {
    }
  }

  /** A transfer nobody can receive is held by the bank and covered. */
  lemma OrphanIsCovered(
    bank: Addr, before: Balances, after: Balances, orphans: Orphans, k: (Addr, Addr), sum: Coins,
    from: Option<Addr>, coins: Coins)
    requires Covered(bank, before, orphans) && Moved(before, after, from, Some(bank), coins, {})
    requires from != Some(bank)
    requires AddCoins(WaitingFor(orphans, k), coins) == Some(sum)
    ensures Covered(bank, after, orphans[k := sum])
  {
    forall d
      ensures Waiting(orphans[k := sum], d) <= Amount(after, (bank, d))
    {
      WaitingAfter(orphans, k, sum, d);
      assert AmountOf(sum, d) == AmountOf(WaitingFor(orphans, k), d) + AmountOf(coins, d);
    }
  }

  /** What waits can be paid out of the bank's balance, and the rest stays covered. */
  lemma OrphanCanBePaid(bank: Addr, balances: Balances, orphans: Orphans, k: (Addr, Addr))
    requires Covered(bank, balances, orphans) && k in orphans
    ensures CanPay(balances, bank, orphans[k], orphans[k].Keys)
  {
    forall d | d in orphans[k]
      ensures AmountOf(orphans[k], d) <= Amount(balances, (bank, d))
    {
      WaitingCovers(orphans, k, d);
    }
  }

  lemma CoveredWithoutPaid(
    bank: Addr, before: Balances, after: Balances, orphans: Orphans, k: (Addr, Addr), to: Addr)
    requires Covered(bank, before, orphans) && k in orphans
    requires Moved(before, after, Some(bank), Some(to), orphans[k], {})
    ensures Covered(bank, after, orphans - {k})
  {
    forall d
      ensures Waiting(orphans - {k}, d) <= Amount(after, (bank, d))
    {
      WaitingAfter(orphans, k, orphans[k], d);
    }
  }

  /** What waits after coins were sent to an address that may not have a contract. */
  function OrphansAfter(orphans: Orphans, from: Addr, to: Addr, coins: Coins, known: Addr -> bool): Orphans {
    var sum := AddCoins(WaitingFor(orphans, (from, to)), coins);
    if known(to) || sum.None? then orphans else orphans[(from, to) := sum.value]
  }

  lemma CoveredAfterReceiving(
    bank: Addr, before: Balances, after: Balances, orphans: Orphans, from: Option<Addr>, sender: Addr, to: Addr,
    coins: Coins, known: Addr -> bool)
    requires Covered(bank, before, orphans) && from != Some(bank)
    requires Moved(before, after, from, Some(if known(to) then to else bank), coins, {})
    requires known(to) || AddCoins(WaitingFor(orphans, (sender, to)), coins).Some?
    ensures Covered(bank, after, OrphansAfter(orphans, sender, to, coins, known))
  {
    if known(to) {
      StillCovered(bank, before, after, orphans, from, Some(to), coins);
    } else {
      var sum := AddCoins(WaitingFor(orphans, (sender, to)), coins).value;
      OrphanIsCovered(bank, before, after, orphans, (sender, to), sum, from, coins);
    }
  }

  function OrphansAfterAll(
    orphans: Orphans, from: Addr, transfers: seq<(Addr, Coins)>, known: Addr -> bool): Orphans {
    if |transfers| == 0 then orphans
    else
      var last := transfers[|transfers| - 1];
      OrphansAfter(OrphansAfterAll(orphans, from, transfers[..|transfers| - 1], known), from, last.0, last.1, known)
  }

  /** The net change of a balance by several transfers. */
  function NetChange(
    bank: Addr, from: Addr, transfers: seq<(Addr, Coins)>, known: Addr -> bool, who: Addr, d: Denom): int {
    if |transfers| == 0 then 0
    else
      var (to, coins) := transfers[|transfers| - 1];
      NetChange(bank, from, transfers[..|transfers| - 1], known, who, d)
      + Change(who, Some(from), Some(if known(to) then to else bank), AmountOf(coins, d))
  }

  ghost predicate AllMoved(
    before: Balances, after: Balances, bank: Addr, from: Addr, transfers: seq<(Addr, Coins)>, known: Addr -> bool) {
    forall who, d {:trigger Amount(after, (who, d))} ::
      Amount(after, (who, d)) == Amount(before, (who, d)) + NetChange(bank, from, transfers, known, who, d)
  }

  lemma NoneMoved(balances: Balances, bank: Addr, from: Addr, known: Addr -> bool)
    ensures AllMoved(balances, balances, bank, from, [], known)
  {
    forall who, d
      ensures Amount(balances, (who, d)) == Amount(balances, (who, d)) + NetChange(bank, from, [], known, who, d)
    {
    }
  }

  /** One transfer can be made. */
  ghost predicate CanSend(
    balances: Balances, orphans: Orphans, from: Addr, to: Addr, coins: Coins, known: Addr -> bool) {
    && CanPay(balances, from, coins, coins.Keys)
    && (known(to) || AddCoins(WaitingFor(orphans, (from, to)), coins).Some?)
  }

  /** The transfer at this place of the list can be made after those before it. */
  ghost predicate CanSendNext(
    balances: Balances, orphans: Orphans, bank: Addr, from: Addr, transfers: seq<(Addr, Coins)>, known: Addr -> bool,
    i: nat)
    requires i < |transfers|
  {
    var ((to, coins), earlier) := (transfers[i], transfers[..i]);
    && (forall d {:trigger AmountOf(coins, d)} | d in coins ::
          AmountOf(coins, d) <= Amount(balances, (from, d)) + NetChange(bank, from, earlier, known, from, d))
    && (known(to) || AddCoins(WaitingFor(OrphansAfterAll(orphans, from, earlier, known), (from, to)), coins).Some?)
  }

  lemma CanSendAfter(
    before: Balances, orphans: Orphans, now: Balances, bank: Addr, from: Addr, transfers: seq<(Addr, Coins)>,
    known: Addr -> bool, i: nat)
    requires i < |transfers| && AllMoved(before, now, bank, from, transfers[..i], known)
    ensures CanSendNext(before, orphans, bank, from, transfers, known, i)
            <==> CanSend(now, OrphansAfterAll(orphans, from, transfers[..i], known),
                         from, transfers[i].0, transfers[i].1, known)
  {
    var coins := transfers[i].1;
    forall d | d in coins
      ensures Amount(now, (from, d))
           == Amount(before, (from, d)) + NetChange(bank, from, transfers[..i], known, from, d)
    {
    }
  }

  lemma AllMovedOneMore(
    before: Balances, between: Balances, after: Balances, bank: Addr, from: Addr, transfers: seq<(Addr, Coins)>,
    known: Addr -> bool)
    requires |transfers| > 0
    requires AllMoved(before, between, bank, from, transfers[..|transfers| - 1], known)
    requires var (to, coins) := transfers[|transfers| - 1];
             Moved(between, after, Some(from), Some(if known(to) then to else bank), coins, {})
    ensures AllMoved(before, after, bank, from, transfers, known)
  {
    forall who, d
      ensures Amount(after, (who, d))
              == Amount(before, (who, d)) + NetChange(bank, from, transfers, known, who, d)
    {
    }
  }

  ghost function Granted(d: Denom): (Addr, Coins) -> int {
    (who: Addr, coins: Coins) => AmountOf(coins, d)
  }

  /** All coins of a denomination handed out at genesis. */
  ghost function AtGenesis(initial: map<Addr, Coins>, d: Denom): int {
    SumBy(initial, Granted(d))
  }

  lemma GrantedOneMore(initial: map<Addr, Coins>, left: map<Addr, Coins>, who: Addr, d: Denom)
    requires who in left
    ensures AtGenesis(left - {who}, d) == AtGenesis(left, d) - AmountOf(left[who], d)
    ensures 0 <= AmountOf(left[who], d) <= AtGenesis(left, d)
  {
    assert NeverNegative(Granted(d));
    SumWithout(left, who, Granted(d));
    SumCoversTerm(left, who, Granted(d));
  }

  /** The entries saved for the accounts that are not `left` any more: every coin of theirs, also a zero. */
  ghost predicate SavedSoFar(
    balances: Balances, supplies: map<Denom, nat>, initial: map<Addr, Coins>, left: map<Addr, Coins>) {
    && (forall who | who in left :: who in initial && left[who] == initial[who])
    && (forall who, d {:trigger (who, d) in balances} ::
          (who, d) in balances <==> who in initial && who !in left && d in initial[who])
    && (forall who, d {:trigger (who, d) in balances} ::
          (who, d) in balances ==> balances[(who, d)] == initial[who][d])
    && (forall d {:trigger Amount(supplies, d)} ::
          Amount(supplies, d) == AtGenesis(initial, d) - AtGenesis(left, d))
    && (forall d | d in supplies :: Named(initial, d))
  }

  /** Somebody is given coins of the denomination, be it none. */
  ghost predicate Named(initial: map<Addr, Coins>, d: Denom) {
    exists who :: who in initial && d in initial[who]
  }

  ghost predicate NoZeroGiven(initial: map<Addr, Coins>) {
    forall who | who in initial :: NoZeros(initial[who])
  }

  /** One account after the other. */
  lemma SavedNext(
    b0: Balances, s0: map<Denom, nat>, b1: Balances, s1: map<Denom, nat>,
    initial: map<Addr, Coins>, left: map<Addr, Coins>, who: Addr)
    requires SavedSoFar(b0, s0, initial, left) && who in left
    requires SavedFor(b0, b1, who, initial[who], {}) && Supplied(s0, s1, initial[who], true, {})
    requires forall d | d in s1 :: d in s0 || d in initial[who]
    ensures SavedSoFar(b1, s1, initial, left - {who})
  {
    forall d
      ensures Amount(s1, d) == AtGenesis(initial, d) - AtGenesis(left - {who}, d)
    {
      GrantedOneMore(initial, left, who, d);
    }
    forall d | d in s1
      ensures Named(initial, d)
    {
      assert who in initial;
    }
  }

  /** The coins of one account are saved, except for the denominations left. */
  ghost predicate SavedFor(before: Balances, after: Balances, who: Addr, coins: Coins, left: set<Denom>) {
    && (forall other, d {:trigger (other, d) in after} ::
          (other, d) in after <==> (other, d) in before || (other == who && d in coins && d !in left))
    && (forall other, d {:trigger (other, d) in after} | (other, d) in after ::
          after[(other, d)]
          == if other == who && d in coins && d !in left then coins[d] else before[(other, d)])
  }

  lemma TooMuchAtGenesis(
    balances: Balances, supplies: map<Denom, nat>, initial: map<Addr, Coins>, left: map<Addr, Coins>, who: Addr)
    requires SavedSoFar(balances, supplies, initial, left) && who in left
    requires !CanGrow(supplies, initial[who], initial[who].Keys)
    ensures exists d :: AtGenesis(initial, d) > MAX_AMOUNT
  {
    var d :| d in initial[who] && Amount(supplies, d) + AmountOf(initial[who], d) > MAX_AMOUNT;
    GrantedOneMore(initial, left, who, d);
    assert AtGenesis(initial, d) > MAX_AMOUNT;
  }

  lemma GenesisFits(balances: Balances, supplies: map<Denom, nat>, initial: map<Addr, Coins>)
    requires SavedSoFar(balances, supplies, initial, map[]) && Fits(supplies)
    ensures forall d :: AtGenesis(initial, d) <= MAX_AMOUNT
  {
    forall d
      ensures AtGenesis(initial, d) <= MAX_AMOUNT
    {
      assert Amount(supplies, d) == AtGenesis(initial, d) - AtGenesis(map[], d);
      assert AtGenesis(map[], d) == 0;
    }
  }

  /** A zero is stored at genesis if and only if one is given. */
  lemma ZerosAtGenesisIff(balances: Balances, supplies: map<Denom, nat>, initial: map<Addr, Coins>)
    requires SavedSoFar(balances, supplies, initial, map[])
    ensures NoZeros(balances) && NoZeros(supplies) <==> NoZeroGiven(initial)
  {
    if NoZeroGiven(initial) {
      forall k | k in balances
        ensures balances[k] != 0
      {
        assert k == (k.0, k.1) && NoZeros(initial[k.0]);
      }
      forall d | d in supplies
        ensures supplies[d] != 0
      {
        var who :| who in initial && d in initial[who];
        GrantedOneMore(initial, initial, who, d);
        assert Amount(supplies, d) == AtGenesis(initial, d) - AtGenesis(map[], d);
        assert AtGenesis(map[], d) == 0;
      }
    } else {
      var who :| who in initial && !NoZeros(initial[who]);
      var d :| d in initial[who] && initial[who][d] == 0;
      assert (who, d) in balances;
    }
  }

  /** A save conserves where nothing was stored. */
  lemma SavingConserves(balances: Balances, supplies: map<Denom, nat>, who: Addr, d: Denom, amount: nat)
    requires Conserved(balances, supplies) && (who, d) !in balances
    ensures Conserved(balances[(who, d) := amount], supplies[d := Amount(supplies, d) + amount])
  {
    var saved, more := balances[(who, d) := amount], supplies[d := Amount(supplies, d) + amount];
    forall e
      ensures Total(saved, e) == Amount(more, e)
    {
      SumWith(balances, (who, d), amount, Holding(e));
      assert Total(balances, e) == Amount(supplies, e);
    }
  }

  /** The first transfers of a list have been made. */
  ghost predicate Sent(
    b0: Balances, o0: Orphans, b: Balances, o: Orphans, bank: Addr, from: Addr, transfers: seq<(Addr, Coins)>,
    known: Addr -> bool, n: nat)
    requires n <= |transfers|
  {
    && o == OrphansAfterAll(o0, from, transfers[..n], known)
    && AllMoved(b0, b, bank, from, transfers[..n], known)
    && forall i | 0 <= i < n :: CanSendNext(b0, o0, bank, from, transfers, known, i)
  }

  lemma NoneSent(
    balances: Balances, orphans: Orphans, bank: Addr, from: Addr, transfers: seq<(Addr, Coins)>, known: Addr -> bool)
    ensures Sent(balances, orphans, balances, orphans, bank, from, transfers, known, 0)
  {
    NoneMoved(balances, bank, from, known);
    assert transfers[..0] == [];
  }

  lemma OneMoreOrphan(orphans: Orphans, from: Addr, transfers: seq<(Addr, Coins)>, known: Addr -> bool, i: nat)
    requires i < |transfers|
    ensures OrphansAfterAll(orphans, from, transfers[..i + 1], known)
         == OrphansAfter(OrphansAfterAll(orphans, from, transfers[..i], known),
                         from, transfers[i].0, transfers[i].1, known)
  {
    assert transfers[..i + 1][..i] == transfers[..i];
  }

  lemma OneMoreMoved(
    b0: Balances, b: Balances, after: Balances, bank: Addr, from: Addr, transfers: seq<(Addr, Coins)>,
    known: Addr -> bool, i: nat)
    requires i < |transfers| && AllMoved(b0, b, bank, from, transfers[..i], known)
    requires var (to, coins) := transfers[i];
             Moved(b, after, Some(from), Some(if known(to) then to else bank), coins, {})
    ensures AllMoved(b0, after, bank, from, transfers[..i + 1], known)
  {
    assert transfers[..i + 1][..i] == transfers[..i];
    AllMovedOneMore(b0, b, after, bank, from, transfers[..i + 1], known);
  }

  lemma OneMoreSent(
    b0: Balances, o0: Orphans, b: Balances, o: Orphans, after: Balances, bank: Addr, from: Addr,
    transfers: seq<(Addr, Coins)>, known: Addr -> bool, i: nat)
    requires i < |transfers| && Sent(b0, o0, b, o, bank, from, transfers, known, i)
    requires CanSendNext(b0, o0, bank, from, transfers, known, i)
    requires var (to, coins) := transfers[i];
             Moved(b, after, Some(from), Some(if known(to) then to else bank), coins, {})
    ensures var more := OrphansAfter(o, from, transfers[i].0, transfers[i].1, known);
            Sent(b0, o0, after, more, bank, from, transfers, known, i + 1)
  {
    OneMoreOrphan(o0, from, transfers, known, i);
    OneMoreMoved(b0, b, after, bank, from, transfers, known, i);
  }

  /** What the bank asks the chain about. */
  datatype Host = Host(known: Addr -> bool, owns: (Addr, Denom) -> bool, taxman: Addr)

  datatype Operation =
    | Minting(sender: Addr, to: Addr, coins: Coins)
    | Burning(sender: Addr, from: Addr, coins: Coins)
    | Forcing(sender: Addr, from: Addr, to: Addr, coins: Coins)
    | Recovering(sender: Addr, from: Addr, to: Addr)
    | Transferring(from: Addr, transfers: seq<(Addr, Coins)>)
  {
    /** Whether somebody takes coins out of this account, other than by recovering a transfer. */
    predicate Spends(who: Addr) {
      (Burning? || Forcing? || Transferring?) && from == who
    }
  }

  /** Who may do what: an operation succeeds exactly if its sender may ask for it and the amounts allow it. */
  ghost predicate Permitted(
    op: Operation, host: Host, bank: Addr, balances: Balances, supplies: map<Denom, nat>, orphans: Orphans) {
    match op
    case Minting(sender, to, coins) =>
      && (forall d | d in coins :: host.owns(sender, d))
      && CanGrow(supplies, coins, coins.Keys)
      && (host.known(to) || AddCoins(WaitingFor(orphans, (sender, to)), coins).Some?)
    case Burning(sender, from, coins) =>
      (forall d | d in coins :: host.owns(sender, d)) && CanPay(balances, from, coins, coins.Keys)
    case Forcing(sender, from, _, coins) =>
      sender == host.taxman && CanPay(balances, from, coins, coins.Keys)
    case Recovering(sender, from, to) =>
      var coins := WaitingFor(orphans, (from, to));
      (sender == from || sender == to) && CanPay(balances, bank, coins, coins.Keys)
    case Transferring(from, transfers) =>
      forall i | 0 <= i < |transfers| :: CanSendNext(balances, orphans, bank, from, transfers, host.known, i)
  }

  /** What a successful operation does to balances, supplies and orphaned transfers. */
  ghost predicate Effect(
    op: Operation, host: Host, bank: Addr, b0: Balances, s0: map<Denom, nat>, o0: Orphans,
    b1: Balances, s1: map<Denom, nat>, o1: Orphans) {
    match op
    case Minting(sender, to, coins) =>
      && Moved(b0, b1, None, Some(if host.known(to) then to else bank), coins, {})
      && Supplied(s0, s1, coins, true, {})
      && o1 == OrphansAfter(o0, sender, to, coins, host.known)
    case Burning(_, from, coins) =>
      Moved(b0, b1, Some(from), None, coins, {}) && Supplied(s0, s1, coins, false, {}) && o1 == o0
    case Forcing(_, from, to, coins) =>
      Moved(b0, b1, Some(from), Some(to), coins, {}) && s1 == s0 && o1 == o0
    case Recovering(sender, from, to) =>
      && Moved(b0, b1, Some(bank), Some(sender), WaitingFor(o0, (from, to)), {})
      && s1 == s0 && o1 == o0 - {(from, to)}
    case Transferring(from, transfers) =>
      && AllMoved(b0, b1, bank, from, transfers, host.known)
      && s1 == s0 && o1 == OrphansAfterAll(o0, from, transfers, host.known)
  }

  class Bank {
    const address: Addr
    var balances: Balances
    var supplies: map<Denom, nat>
    var orphans: Orphans

    /** Balances add up to supplies, which are not too large. */
    ghost predicate Valid()
      reads this
    {
      Fits(supplies) && Conserved(balances, supplies)
    }

    /** Nothing is stored that is zero. */
    ghost predicate NoZeroStored()
      reads this
    {
      NoZeros(balances) && NoZeros(supplies) && NoZeroOrphans(orphans)
    }

    ghost predicate CoversOrphans()
      reads this
    {
      Covered(address, balances, orphans)
    }

    method IncreaseBalance(who: Addr, d: Denom, amount: nat) returns (ok: bool)
      modifies this`balances
      ensures ok <==> Amount(old(balances), (who, d)) + amount <= MAX_AMOUNT
      ensures balances == if ok then Given(old(balances), who, d, amount) else old(balances)
      ensures NoNewZeros(old(balances), balances)
    {
      ok := Amount(balances, (who, d)) + amount <= MAX_AMOUNT;
      if ok {
        balances := Stored(balances, (who, d), Amount(balances, (who, d)) + amount);
      }
    }

    method DecreaseBalance(who: Addr, d: Denom, amount: nat) returns (ok: bool)
      modifies this`balances
      ensures ok <==> amount <= Amount(old(balances), (who, d))
      ensures balances == if ok then Taken(old(balances), who, d, amount) else old(balances)
      ensures NoNewZeros(old(balances), balances)
    {
      ok := amount <= Amount(balances, (who, d));
      if ok {
        balances := Stored(balances, (who, d), Amount(balances, (who, d)) - amount);
      }
    }

    /** Takes from one account and adds to another. */
    method MoveCoin(from: Addr, to: Addr, d: Denom, amount: nat) returns (ok: bool)
      requires Valid()
      modifies this`balances
      ensures ok <==> amount <= Amount(old(balances), (from, d))
      ensures ok ==> OneMoved(old(balances), balances, Some(from), Some(to), d, amount)
      ensures Valid() && NoNewZeros(old(balances), balances)
    {
      ok := DecreaseBalance(from, d, amount);
      if ok {
        MovingConserves(old(balances), supplies, from, to, d, amount);
        ok := IncreaseBalance(to, d, amount);
      }
    }

    /** Moves the coins one denomination at a time, in any order, and stops where a balance does not allow it. */
    method MoveCoins(from: Addr, to: Addr, coins: Coins) returns (ok: bool)
      requires Valid()
      modifies this`balances
      ensures Valid() && NoNewZeros(old(balances), balances)
      ensures ok ==> Moved(old(balances), balances, Some(from), Some(to), coins, {})
      ensures ok <==> CanPay(old(balances), from, coins, coins.Keys)
    {
      var left := coins.Keys;
      NothingMoved(balances, Some(from), Some(to), coins);
      while left != {}
        invariant Valid() && NoNewZeros(old(balances), balances)
        invariant left <= coins.Keys
        invariant CanPay(old(balances), from, coins, coins.Keys - left)
        invariant Moved(old(balances), balances, Some(from), Some(to), coins, left)
        decreases |left|
      {
        var d :| d in left;
        ghost var before := balances;
        assert Amount(before, (from, d)) == Amount(old(balances), (from, d));
        ok := MoveCoin(from, to, d, coins[d]);
        if !ok {
          assert AmountOf(coins, d) > Amount(old(balances), (from, d));
          return;
        }
        MovedOneMore(old(balances), before, balances, Some(from), Some(to), coins, left, d);
        left := left - {d};
      }
      assert coins.Keys - left == coins.Keys;
      return true;
    }

    method IncreaseSupply(d: Denom, amount: nat) returns (ok: bool)
      modifies this`supplies
      ensures ok <==> Amount(old(supplies), d) + amount <= MAX_AMOUNT
      ensures supplies == if ok then Stored(old(supplies), d, Amount(old(supplies), d) + amount) else old(supplies)
      ensures NoNewZeros(old(supplies), supplies)
    {
      ok := Amount(supplies, d) + amount <= MAX_AMOUNT;
      if ok {
        supplies := Stored(supplies, d, Amount(supplies, d) + amount);
      }
    }

    method DecreaseSupply(d: Denom, amount: nat) returns (ok: bool)
      modifies this`supplies
      ensures ok <==> amount <= Amount(old(supplies), d)
      ensures supplies == if ok then Stored(old(supplies), d, Amount(old(supplies), d) - amount) else old(supplies)
      ensures NoNewZeros(old(supplies), supplies)
    {
      ok := amount <= Amount(supplies, d);
      if ok {
        supplies := Stored(supplies, d, Amount(supplies, d) - amount);
      }
    }

    /** Adds to the supply and to an account. If the supply does not overflow, the balance does not either. */
    method MintCoin(to: Addr, d: Denom, amount: nat) returns (ok: bool)
      requires Valid()
      modifies this`balances, this`supplies
      ensures ok <==> Amount(old(supplies), d) + amount <= MAX_AMOUNT
      ensures ok ==> Valid() && OneMoved(old(balances), balances, None, Some(to), d, amount)
      ensures ok ==> NoNewZeros(old(balances), balances) && NoNewZeros(old(supplies), supplies)
      ensures ok ==> supplies == Stored(old(supplies), d, Amount(old(supplies), d) + amount)
    {
      ok := IncreaseSupply(d, amount);
      if ok {
        MintingConserves(old(balances), old(supplies), to, d, amount);
        ok := IncreaseBalance(to, d, amount);
      }
    }

    /** Mints the coins in any order, and stops where the sender may not mint or the supply overflows. */
    method MintCoins(to: Addr, coins: Coins, owns: Denom -> bool) returns (ok: bool)
      requires Valid()
      modifies this`balances, this`supplies
      ensures ok ==> Valid() && Moved(old(balances), balances, None, Some(to), coins, {})
      ensures ok ==> NoNewZeros(old(balances), balances) && NoNewZeros(old(supplies), supplies)
      ensures ok ==> Supplied(old(supplies), supplies, coins, true, {})
      ensures ok <==> CanGrow(old(supplies), coins, coins.Keys) && forall d | d in coins :: owns(d)
    {
      var left := coins.Keys;
      NothingMoved(balances, None, Some(to), coins);
      NothingSupplied(supplies, coins, true);
      while left != {}
        invariant Valid() && NoNewZeros(old(balances), balances) && NoNewZeros(old(supplies), supplies)
        invariant left <= coins.Keys
        invariant CanGrow(old(supplies), coins, coins.Keys - left)
        invariant forall d | d in coins.Keys - left :: owns(d)
        invariant Moved(old(balances), balances, None, Some(to), coins, left)
        invariant Supplied(old(supplies), supplies, coins, true, left)
        decreases |left|
      {
        var d :| d in left;
        ghost var before := (balances, supplies);
        assert Amount(before.1, d) == Amount(old(supplies), d);
        ok := owns(d);
        if ok {
          ok := MintCoin(to, d, coins[d]);
        }
        if !ok {
          assert !owns(d) || Amount(old(supplies), d) + AmountOf(coins, d) > MAX_AMOUNT;
          return;
        }
        MovedOneMore(old(balances), before.0, balances, None, Some(to), coins, left, d);
        SuppliedOneMore(old(supplies), before.1, supplies, coins, true, left, d);
        left := left - {d};
      }
      assert coins.Keys - left == coins.Keys;
      return true;
    }

    method BurnCoin(from: Addr, d: Denom, amount: nat) returns (ok: bool)
      requires Valid()
      modifies this`balances, this`supplies
      ensures ok <==> amount <= Amount(old(balances), (from, d))
      ensures ok ==> Valid() && OneMoved(old(balances), balances, Some(from), None, d, amount)
      ensures ok ==> NoNewZeros(old(balances), balances) && NoNewZeros(old(supplies), supplies)
      ensures ok ==> amount <= Amount(old(supplies), d)
      ensures ok ==> supplies == Stored(old(supplies), d, Amount(old(supplies), d) - amount)
    {
      if amount <= Amount(balances, (from, d)) {
        BurningConserves(balances, supplies, from, d, amount);
      }
      ok := DecreaseSupply(d, amount);
      if ok {
        ok := DecreaseBalance(from, d, amount);
      }
    }

    method BurnCoins(from: Addr, coins: Coins, owns: Denom -> bool) returns (ok: bool)
      requires Valid()
      modifies this`balances, this`supplies
      ensures ok ==> Valid() && Moved(old(balances), balances, Some(from), None, coins, {})
      ensures ok ==> NoNewZeros(old(balances), balances) && NoNewZeros(old(supplies), supplies)
      ensures ok ==> Supplied(old(supplies), supplies, coins, false, {})
      ensures ok <==> CanPay(old(balances), from, coins, coins.Keys) && forall d | d in coins :: owns(d)
    {
      var left := coins.Keys;
      NothingMoved(balances, Some(from), None, coins);
      NothingSupplied(supplies, coins, false);
      while left != {}
        invariant Valid() && NoNewZeros(old(balances), balances) && NoNewZeros(old(supplies), supplies)
        invariant left <= coins.Keys
        invariant CanPay(old(balances), from, coins, coins.Keys - left)
        invariant forall d | d in coins.Keys - left :: owns(d)
        invariant Moved(old(balances), balances, Some(from), None, coins, left)
        invariant Supplied(old(supplies), supplies, coins, false, left)
        decreases |left|
      {
        var d :| d in left;
        ghost var before := (balances, supplies);
        assert Amount(before.0, (from, d)) == Amount(old(balances), (from, d));
        ok := owns(d);
        if ok {
          ok := BurnCoin(from, d, coins[d]);
        }
        if !ok {
          assert !owns(d) || AmountOf(coins, d) > Amount(old(balances), (from, d));
          return;
        }
        MovedOneMore(old(balances), before.0, balances, Some(from), None, coins, left, d);
        SuppliedOneMore(old(supplies), before.1, supplies, coins, false, left, d);
        left := left - {d};
      }
      assert coins.Keys - left == coins.Keys;
      return true;
    }

    /** Records a transfer to an address without a contract. */
    method RecordOrphan(from: Addr, to: Addr, coins: Coins) returns (ok: bool)
      modifies this`orphans
      ensures var sum := AddCoins(WaitingFor(old(orphans), (from, to)), coins);
              && ok == sum.Some?
              && orphans == if ok then old(orphans)[(from, to) := sum.value] else old(orphans)
    {
      var sum := AddCoins(WaitingFor(orphans, (from, to)), coins);
      ok := sum.Some?;
      if ok {
        orphans := orphans[(from, to) := sum.value];
      }
    }

    method Mint(sender: Addr, to: Addr, coins: Coins, known: Addr -> bool, owns: Denom -> bool) returns (ok: bool)
      requires Valid()
      modifies this
      ensures ok ==> Valid() && Supplied(old(supplies), supplies, coins, true, {})
      ensures ok ==> Moved(old(balances), balances, None, Some(if known(to) then to else address), coins, {})
      ensures ok ==> orphans == OrphansAfter(old(orphans), sender, to, coins, known)
      ensures ok && old(CoversOrphans()) ==> CoversOrphans()
      ensures ok && old(NoZeroStored()) ==> NoZeroStored()
      ensures ok <==>
        && CanGrow(old(supplies), coins, coins.Keys) && (forall d | d in coins :: owns(d))
        && (known(to) || AddCoins(WaitingFor(old(orphans), (sender, to)), coins).Some?)
    {
      var recipient := to;
      if !known(to) {
        ok := RecordOrphan(sender, to, coins);
        if !ok {
          return;
        }
        recipient := address;
      }
      ok := MintCoins(recipient, coins, owns);
      if ok && old(CoversOrphans()) {
        CoveredAfterReceiving(
          address, old(balances), balances, old(orphans), None, sender, to, coins, known);
      }
    }

    method Burn(from: Addr, coins: Coins, owns: Denom -> bool) returns (ok: bool)
      requires Valid()
      modifies this`balances, this`supplies
      ensures ok ==> Valid() && Supplied(old(supplies), supplies, coins, false, {})
      ensures ok ==> Moved(old(balances), balances, Some(from), None, coins, {})
      ensures ok && from != address && old(CoversOrphans()) ==> CoversOrphans()
      ensures ok && old(NoZeroStored()) ==> NoZeroStored()
      ensures ok <==> CanPay(old(balances), from, coins, coins.Keys) && forall d | d in coins :: owns(d)
    {
      ok := BurnCoins(from, coins, owns);
      if ok && from != address && old(CoversOrphans()) {
        StillCovered(address, old(balances), balances, orphans, Some(from), None, coins);
      }
    }

    method ForceTransfer(from: Addr, to: Addr, coins: Coins, byTaxman: bool) returns (ok: bool)
      requires Valid()
      modifies this`balances
      ensures Valid()
      ensures ok ==> Moved(old(balances), balances, Some(from), Some(to), coins, {})
      ensures ok && from != address && old(CoversOrphans()) ==> CoversOrphans()
      ensures ok && old(NoZeroStored()) ==> NoZeroStored()
      ensures ok <==> byTaxman && CanPay(old(balances), from, coins, coins.Keys)
    {
      if !byTaxman {
        return false;
      }
      ok := MoveCoins(from, to, coins);
      if ok && from != address && old(CoversOrphans()) {
        StillCovered(address, old(balances), balances, orphans, Some(from), Some(to), coins);
      }
    }

    /** While what waits is covered, only someone who is neither sender nor recipient is refused. */
    method RecoverTransfer(caller: Addr, sender: Addr, recipient: Addr) returns (ok: bool)
      requires Valid()
      modifies this`balances, this`orphans
      ensures Valid()
      ensures old(CoversOrphans()) ==> CoversOrphans()
      ensures old(NoZeroStored()) ==> NoZeroStored()
      ensures old(CoversOrphans()) ==> (ok <==> caller == sender || caller == recipient)
      ensures var coins := WaitingFor(old(orphans), (sender, recipient));
              ok <==> (caller == sender || caller == recipient) && CanPay(old(balances), address, coins, coins.Keys)
      ensures ok ==> orphans == old(orphans) - {(sender, recipient)}
      ensures ok ==> Moved(old(balances), balances, Some(address), Some(caller),
                           WaitingFor(old(orphans), (sender, recipient)), {})
    {
      if caller != sender && caller != recipient {
        return false;
      }
      var k := (sender, recipient);
      if k !in orphans {
        NothingMoved(balances, Some(address), Some(caller), map[]);
        assert orphans - {k} == orphans;
        return true;
      }
      var coins := orphans[k];
      if CoversOrphans() {
        OrphanCanBePaid(address, balances, orphans, k);
      }
      orphans := orphans - {k};
      ok := MoveCoins(address, caller, coins);
      if ok && old(CoversOrphans()) {
        CoveredWithoutPaid(address, old(balances), balances, old(orphans), k, caller);
      }
    }

    /** One transfer of a message, to the bank itself if the recipient has no contract. */
    method Send(from: Addr, to: Addr, coins: Coins, known: Addr -> bool) returns (ok: bool)
      requires Valid()
      modifies this`balances, this`orphans
      ensures ok ==> Valid() && orphans == OrphansAfter(old(orphans), from, to, coins, known)
      ensures ok ==> Moved(old(balances), balances, Some(from), Some(if known(to) then to else address), coins, {})
      ensures ok && from != address && old(CoversOrphans()) ==> CoversOrphans()
      ensures ok && old(NoZeroStored()) ==> NoZeroStored()
      ensures ok <==> CanSend(old(balances), old(orphans), from, to, coins, known)
    {
      var recipient := to;
      if !known(to) {
        ok := RecordOrphan(from, to, coins);
        if !ok {
          return;
        }
        recipient := address;
      }
      ok := MoveCoins(from, recipient, coins);
      if ok && from != address && old(CoversOrphans()) {
        CoveredAfterReceiving(
          address, old(balances), balances, old(orphans), Some(from), from, to, coins, known);
      }
    }

    /** The bank's part of a message that transfers coins to several recipients. */
    method BankExecute(from: Addr, transfers: seq<(Addr, Coins)>, known: Addr -> bool) returns (ok: bool)
      requires Valid()
      modifies this`balances, this`orphans
      ensures ok ==> Valid()
      ensures ok ==> orphans == OrphansAfterAll(old(orphans), from, transfers, known)
      ensures ok ==> AllMoved(old(balances), balances, address, from, transfers, known)
      ensures ok <==> forall i | 0 <= i < |transfers| ::
        CanSendNext(old(balances), old(orphans), address, from, transfers, known, i)
      ensures ok && from != address && old(CoversOrphans()) ==> CoversOrphans()
      ensures ok && old(NoZeroStored()) ==> NoZeroStored()
    {
      NoneSent(balances, orphans, address, from, transfers, known);
      for i := 0 to |transfers|
        invariant Valid()
        invariant Sent(old(balances), old(orphans), balances, orphans, address, from, transfers, known, i)
        invariant from != address && old(CoversOrphans()) ==> CoversOrphans()
        invariant old(NoZeroStored()) ==> NoZeroStored()
      {
        ghost var (b, o) := (balances, orphans);
        CanSendAfter(old(balances), old(orphans), b, address, from, transfers, known, i);
        ok := Send(from, transfers[i].0, transfers[i].1, known);
        if !ok {
          return;
        }
        OneMoreSent(old(balances), old(orphans), b, o, balances, address, from, transfers, known, i);
      }
      assert transfers[..|transfers|] == transfers;
      return true;
    }

    method Perform(op: Operation, host: Host) returns (ok: bool)
      requires Valid()
      modifies this
      ensures ok ==> Valid()
      ensures ok <==> Permitted(op, host, address, old(balances), old(supplies), old(orphans))
      ensures ok ==> Effect(op, host, address, old(balances), old(supplies), old(orphans), balances, supplies, orphans)
      ensures old(CoversOrphans()) && op.Recovering? ==> (ok <==> op.sender == op.from || op.sender == op.to)
      ensures ok && old(CoversOrphans()) && !op.Spends(address) ==> CoversOrphans()
      ensures ok && old(NoZeroStored()) ==> NoZeroStored()
    {
      match op {
        case Minting(sender, to, coins) =>
          ok := Mint(sender, to, coins, host.known, d => host.owns(sender, d));
        case Burning(sender, from, coins) =>
          ok := Burn(from, coins, d => host.owns(sender, d));
        case Forcing(sender, from, to, coins) =>
          ok := ForceTransfer(from, to, coins, sender == host.taxman);
        case Recovering(sender, from, to) =>
          ok := RecoverTransfer(sender, from, to);
        case Transferring(from, transfers) =>
          ok := BankExecute(from, transfers, host.known);
      }
    }

    /** An operation as the chain executes it: a failed one leaves nothing behind. */
    method Execute(op: Operation, host: Host) returns (ok: bool)
      requires Valid()
      modifies this
      ensures Valid()
      ensures ok <==> Permitted(op, host, address, old(balances), old(supplies), old(orphans))
      ensures old(CoversOrphans()) && op.Recovering? ==> (ok <==> op.sender == op.from || op.sender == op.to)
      ensures ok ==> Effect(op, host, address, old(balances), old(supplies), old(orphans), balances, supplies, orphans)
      ensures !ok ==> balances == old(balances) && supplies == old(supplies) && orphans == old(orphans)
      ensures old(CoversOrphans()) && !op.Spends(address) ==> CoversOrphans()
      ensures old(NoZeroStored()) ==> NoZeroStored()
    {
      var before := (balances, supplies, orphans);
      ok := Perform(op, host);
      if !ok {
        balances, supplies, orphans := before.0, before.1, before.2;
      }
    }

    /**
     * Any run keeps the supplies conserved and stores no zero where none was stored; unless the
     * bank's own coins are spent, it covers what waits.
     */
    method ExecuteAll(ops: seq<(Operation, Host)>)
      requires Valid()
      modifies this
      ensures Valid()
      ensures old(CoversOrphans()) && (forall i | 0 <= i < |ops| :: !ops[i].0.Spends(address)) ==> CoversOrphans()
      ensures old(NoZeroStored()) ==> NoZeroStored()
    {
      for i := 0 to |ops|
        invariant Valid()
        invariant old(NoZeroStored()) ==> NoZeroStored()
        invariant old(CoversOrphans()) && (forall j | 0 <= j < i :: !ops[j].0.Spends(address)) ==> CoversOrphans()
      {
        var _ := Execute(ops[i].0, ops[i].1);
      }
    }

    /** A bank without any entries. */
    constructor (address: Addr)
      ensures this.address == address && balances == map[] && supplies == map[] && orphans == map[]
      ensures Valid() && CoversOrphans() && NoZeroStored()
    {
      this.address, balances, supplies, orphans := address, map[], map[], map[];
    }

    /** Saves the coins of an account that has no entries, in any order, and adds them to the supplies. */
    method SaveCoins(who: Addr, coins: Coins, sums: map<Denom, nat>) returns (ok: bool, more: map<Denom, nat>)
      requires Conserved(balances, sums) && Fits(sums)
      requires forall d :: (who, d) !in balances
      modifies this`balances
      ensures ok ==> Conserved(balances, more) && Fits(more)
      ensures ok ==> SavedFor(old(balances), balances, who, coins, {})
      ensures ok ==> Supplied(sums, more, coins, true, {}) && forall d | d in more :: d in sums || d in coins
      ensures ok <==> CanGrow(sums, coins, coins.Keys)
    {
      var left := coins.Keys;
      more := sums;
      NothingSupplied(sums, coins, true);
      while left != {}
        invariant left <= coins.Keys
        invariant Conserved(balances, more) && Fits(more)
        invariant SavedFor(old(balances), balances, who, coins, left)
        invariant CanGrow(sums, coins, coins.Keys - left)
        invariant Supplied(sums, more, coins, true, left)
        invariant forall d | d in more :: d in sums || d in coins
        decreases |left|
      {
        var d :| d in left;
        ghost var before := more;
        assert Amount(more, d) == Amount(sums, d);
        SavingConserves(balances, more, who, d, coins[d]);
        balances := balances[(who, d) := coins[d]];
        if Amount(more, d) + coins[d] > MAX_AMOUNT {
          assert Amount(sums, d) + AmountOf(coins, d) > MAX_AMOUNT;
          return false, more;
        }
        more := more[d := Amount(more, d) + coins[d]];
        SuppliedOneMore(sums, before, more, coins, true, left, d);
        left := left - {d};
      }
      assert coins.Keys - left == coins.Keys;
      ok := true;
    }

    /**
     * The balances at genesis are saved as they are given, and then the supplies that they add up
     * to. It fails only if those do not fit, and stores a zero only if one is given.
     */
    method Instantiate(initial: map<Addr, Coins>) returns (ok: bool)
      requires balances == map[] && supplies == map[] && orphans == map[]
      modifies this`balances, this`supplies
      ensures ok ==> Valid() && CoversOrphans()
      ensures ok ==> forall who, d {:trigger (who, d) in balances} ::
        ((who, d) in balances <==> who in initial && d in initial[who])
        && ((who, d) in balances ==> balances[(who, d)] == initial[who][d])
      ensures ok ==> (NoZeroStored() <==> NoZeroGiven(initial))
      ensures ok <==> forall d :: AtGenesis(initial, d) <= MAX_AMOUNT
    {
      var left, sums: map<Denom, nat> := initial, map[];
      while left != map[]
        invariant Conserved(balances, sums) && Fits(sums) && orphans == map[]
        invariant SavedSoFar(balances, sums, initial, left)
        decreases |left|
      {
        var who :| who in left;
        RemovedIsSmaller(left, who);
        ghost var before := (balances, sums);
        var more;
        ok, more := SaveCoins(who, initial[who], sums);
        if !ok {
          TooMuchAtGenesis(before.0, before.1, initial, left, who);
          return;
        }
        SavedNext(before.0, before.1, balances, more, initial, left, who);
        left, sums := left - {who}, more;
      }
      GenesisFits(balances, sums, initial);
      ZerosAtGenesisIff(balances, sums, initial);
      supplies := sums;
      return true;
    }

    /** One account that is given nothing of one denomination: the bank starts with a zero balance and a zero supply. */
    method ZeroAtGenesis(who: Addr, d: Denom)
      requires balances == map[] && supplies == map[] && orphans == map[]
      modifies this`balances, this`supplies
      ensures Valid() && (who, d) in balances && balances[(who, d)] == 0
    {
      var nothing: Coins := map[d := 0];
      var initial: map<Addr, Coins> := map[who := nothing];
      forall e
        ensures AtGenesis(initial, e) == 0
      {
        SumWithout(initial, who, Granted(e));
        assert initial - {who} == map[];
      }
      var ok := Instantiate(initial);
      assert ok;
    }
  }
}
