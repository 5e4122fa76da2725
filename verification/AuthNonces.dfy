/**
 * The window of seen nonces (dango/auth/src/lib.rs), and the client that picks the next one
 * (dango/client/src/signer.rs).
 */
module AuthNonces {
  import opened Wrappers

  const MAX_SEEN_NONCES: nat := 20

  const MAX_NONCE_INCREASE: nat := 100

  const U32_MAX: nat := 0xFFFF_FFFF

  type Nonce = n: nat | n <= U32_MAX

  datatype NonceError = AlreadySeen | TooOld | FirstTooBig | TooFarAhead | Overflowed | Refused

  // ---- sorted sets of nonces ----

  ghost predicate Ascending(s: seq<Nonce>) {
    forall i, j | 0 <= i < j < |s| :: s[i] < s[j]
  }

  function Insert(s: seq<Nonce>, x: Nonce): seq<Nonce> {
    if s == [] then [x]
    else if x < s[0] then [x] + s
    else if x == s[0] then s
    else [s[0]] + Insert(s[1..], x)
  }

  lemma {:induction false} InsertMembers(s: seq<Nonce>, x: Nonce, y: Nonce)
    ensures y in Insert(s, x) <==> y in s || y == x
  {
    if s != [] && x > s[0] {
      InsertMembers(s[1..], x, y);
      assert y in s <==> y == s[0] || y in s[1..];
    }
  }

  lemma RestOf(seen: seq<Nonce>)
    requires Ascending(seen) && seen != []
    ensures Ascending(seen[1..])
    ensures forall x | x in seen[1..] :: x in seen && seen[0] < x
    ensures forall x | x in seen :: x in seen[1..] || x == seen[0]
  {
  }

  lemma ConsIsAscending(x: Nonce, t: seq<Nonce>)
    requires Ascending(t)
    requires t == [] || x < t[0]
    ensures Ascending([x] + t)
  {
  }

  lemma {:induction false} InsertIsAscending(s: seq<Nonce>, x: Nonce)
    requires Ascending(s)
    ensures Ascending(Insert(s, x))
    ensures x !in s ==> |Insert(s, x)| == |s| + 1
  {
    if s == [] {
      ConsIsAscending(x, s);
    } else if x < s[0] {
      ConsIsAscending(x, s);
    } else if x > s[0] {
      RestOf(s);
      InsertIsAscending(s[1..], x);
      var t := Insert(s[1..], x);
      assert t != [] && t[0] in t;
      InsertMembers(s[1..], x, t[0]);
      ConsIsAscending(s[0], t);
    }
  }

  lemma InsertIsSorted(s: seq<Nonce>, x: Nonce)
    requires Ascending(s)
    ensures Ascending(Insert(s, x))
    ensures forall y :: y in Insert(s, x) <==> y in s || y == x
    ensures x !in s ==> |Insert(s, x)| == |s| + 1
  {
    InsertIsAscending(s, x);
    forall y
      ensures y in Insert(s, x) <==> y in s || y == x
    {
      InsertMembers(s, x, y);
    }
  }

  function Last(s: seq<Nonce>): Nonce
    requires s != []
  {
    s[|s| - 1]
  }

  lemma InsertMovesLast(s: seq<Nonce>, x: Nonce)
    requires Ascending(s) && s != []
    ensures Insert(s, x) != [] && Last(Insert(s, x)) == if x > Last(s) then x else Last(s)
  {
    InsertIsSorted(s, x);
    var t := Insert(s, x);
    assert Last(s) in t && x in t;
    assert forall y | y in s :: y <= Last(s);
    assert Last(t) in t;
  }

  // ---- the check ----

  /** The window after the nonce, if it is accepted. */
  function Checked(seen: seq<Nonce>, nonce: Nonce): Result<seq<Nonce>, NonceError> {
    if seen == [] then
      if nonce < MAX_NONCE_INCREASE then Ok([nonce]) else Err(FirstTooBig)
    else if nonce in seen then Err(AlreadySeen)
    else if nonce <= seen[0] then Err(TooOld)
    else if Last(seen) + MAX_NONCE_INCREASE > U32_MAX then Err(Overflowed)
    else if nonce > Last(seen) + MAX_NONCE_INCREASE then Err(TooFarAhead)
    else Ok(Insert(if |seen| == MAX_SEEN_NONCES then seen[1..] else seen, nonce))
  }

  /**
   * What a window has to do with the nonces accepted so far: it holds the largest of them, up to
   * its capacity, and none was accepted twice.
   */
  ghost predicate IsWindowOf(seen: seq<Nonce>, accepted: seq<Nonce>) {
    && Ascending(seen)
    && (forall x | x in seen :: x in accepted)
    && (forall x | x in accepted :: x in seen || (seen != [] && x < seen[0]))
    && Distinct(accepted)
    && |seen| == (if |accepted| < MAX_SEEN_NONCES then |accepted| else MAX_SEEN_NONCES)
    && (seen != [] ==> Last(seen) < MAX_NONCE_INCREASE * |accepted|)
  }

  ghost predicate Distinct(s: seq<Nonce>) {
    forall i, j | 0 <= i < j < |s| :: s[i] != s[j]
  }

  /** The rule in terms of everything accepted so far instead of the window. */
  ghost predicate Acceptable(seen: seq<Nonce>, accepted: seq<Nonce>, nonce: Nonce) {
    && nonce !in accepted
    && (accepted == [] ==> nonce < MAX_NONCE_INCREASE)
    && (accepted != [] ==>
        && seen != [] && seen[0] < nonce
        && (exists x :: x in accepted && nonce <= x + MAX_NONCE_INCREASE)
        && (forall x | x in accepted :: x + MAX_NONCE_INCREASE <= U32_MAX))
  }

  lemma CheckedIffAcceptable(seen: seq<Nonce>, accepted: seq<Nonce>, nonce: Nonce)
    requires IsWindowOf(seen, accepted)
    ensures Checked(seen, nonce).Ok? <==> Acceptable(seen, accepted, nonce)
  {
    if seen != [] {
      assert Last(seen) in seen && Last(seen) in accepted;
      assert forall x | x in accepted :: x <= Last(seen);
    } else {
      assert accepted == [];
    }
  }

  /** A nonce is refused for the reason given. */
  lemma RefusedBecause(seen: seq<Nonce>, accepted: seq<Nonce>, nonce: Nonce)
    requires IsWindowOf(seen, accepted) && Checked(seen, nonce).Err?
    ensures match Checked(seen, nonce).error
            case AlreadySeen => nonce in accepted
            case TooOld => nonce !in seen && accepted != [] && forall x | x in seen :: nonce < x
            case FirstTooBig => accepted == [] && nonce >= MAX_NONCE_INCREASE
            case TooFarAhead => accepted != [] && forall x | x in accepted :: nonce > x + MAX_NONCE_INCREASE
            case Overflowed => exists x :: x in accepted && x + MAX_NONCE_INCREASE > U32_MAX
            case Refused => false
  {
    if seen != [] {
      assert Last(seen) in seen && Last(seen) in accepted && seen[0] in accepted;
      assert forall x | x in accepted :: x <= Last(seen);
      assert forall x | x in seen :: seen[0] <= x;
    }
  }

  /** What the check does to the window alone: it adds the nonce, and drops only what is older than all it keeps. */
  lemma WindowChange(seen: seq<Nonce>, nonce: Nonce)
    requires Ascending(seen) && |seen| <= MAX_SEEN_NONCES && Checked(seen, nonce).Ok?
    ensures var after := Checked(seen, nonce).value;
            && Ascending(after) && nonce in after
            && |after| == (if |seen| < MAX_SEEN_NONCES then |seen| + 1 else MAX_SEEN_NONCES)
            && (forall x | x in after :: x in seen || x == nonce)
            && (forall x | x in seen :: x in after || (x == seen[0] && x < after[0]))
            && (|seen| < MAX_SEEN_NONCES ==> forall x | x in seen :: x in after)
  {
    if seen != [] {
      var rest := if |seen| == MAX_SEEN_NONCES then seen[1..] else seen;
      RestOf(seen);
      InsertIsSorted(rest, nonce);
      var after := Insert(rest, nonce);
      assert after[0] in after;
    }
  }

  lemma LastAfter(seen: seq<Nonce>, nonce: Nonce)
    requires Ascending(seen) && |seen| <= MAX_SEEN_NONCES && Checked(seen, nonce).Ok?
    ensures var after := Checked(seen, nonce).value;
            && after != []
            && Last(after) == if seen == [] || nonce > Last(seen) then nonce else Last(seen)
  {
    if seen != [] {
      InsertMovesLast(if |seen| == MAX_SEEN_NONCES then seen[1..] else seen, nonce);
    }
  }

  /** The window stays that of the nonces accepted. */
  lemma WindowAfter(seen: seq<Nonce>, accepted: seq<Nonce>, nonce: Nonce)
    requires IsWindowOf(seen, accepted) && Checked(seen, nonce).Ok?
    ensures nonce !in accepted
    ensures IsWindowOf(Checked(seen, nonce).value, accepted + [nonce])
    ensures seen != [] ==> Last(Checked(seen, nonce).value) <= Last(seen) + MAX_NONCE_INCREASE
  {
    CheckedIffAcceptable(seen, accepted, nonce);
    WindowChange(seen, nonce);
    LastAfter(seen, nonce);
    var after := Checked(seen, nonce).value;
    forall x | x in accepted + [nonce]
      ensures x in after || x < after[0]
    {
      if x in accepted && x !in seen {
        assert x < seen[0];
        FirstOnlyGrows(seen, nonce);
      }
    }
  }

  lemma FirstOnlyGrows(seen: seq<Nonce>, nonce: Nonce)
    requires Ascending(seen) && 0 < |seen| <= MAX_SEEN_NONCES && Checked(seen, nonce).Ok?
    ensures Checked(seen, nonce).value != [] && Checked(seen, nonce).value[0] >= seen[0]
  {
    WindowChange(seen, nonce);
    var after := Checked(seen, nonce).value;
    assert after[0] in after;
    assert forall x | x in seen :: x >= seen[0];
  }

  // ---- runs ----

  /** A nonce, and whether the transaction passes everything checked besides it. */
  datatype Attempt = Attempt(nonce: Nonce, otherwiseValid: bool)

  /** The window after the attempts; a refused one leaves it as it is. */
  function WindowAfterAll(attempts: seq<Attempt>): seq<Nonce> {
    if |attempts| == 0 then []
    else
      var before := WindowAfterAll(attempts[..|attempts| - 1]);
      var last := attempts[|attempts| - 1];
      var r := Checked(before, last.nonce);
      if last.otherwiseValid && r.Ok? then r.value else before
  }

  /** The nonces of the accepted attempts. */
  function AcceptedOf(attempts: seq<Attempt>): seq<Nonce> {
    if |attempts| == 0 then []
    else
      var earlier := attempts[..|attempts| - 1];
      var last := attempts[|attempts| - 1];
      AcceptedOf(earlier) +
      if last.otherwiseValid && Checked(WindowAfterAll(earlier), last.nonce).Ok? then [last.nonce] else []
  }

  /** However the attempts are chosen, no nonce is accepted twice and the window holds the latest. */
  lemma {:induction false} NoNonceTwice(attempts: seq<Attempt>)
    ensures Distinct(AcceptedOf(attempts))
    ensures IsWindowOf(WindowAfterAll(attempts), AcceptedOf(attempts))
  {
    if |attempts| == 0 {
    } else {
      var earlier := attempts[..|attempts| - 1];
      var last := attempts[|attempts| - 1];
      NoNonceTwice(earlier);
      if last.otherwiseValid && Checked(WindowAfterAll(earlier), last.nonce).Ok? {
        WindowAfter(WindowAfterAll(earlier), AcceptedOf(earlier), last.nonce);
      } else {
        assert AcceptedOf(earlier) + [] == AcceptedOf(earlier);
      }
    }
  }

  // ---- the client ----

  /** One more than the largest nonce seen, or zero; fails when that does not fit. */
  function NextNonce(seen: seq<Nonce>): Option<Nonce> {
    if seen == [] then Some(0)
    else if Last(seen) == U32_MAX then None
    else Some(Last(seen) + 1)
  }

  /** The client's nonce passes exactly while anything does. */
  lemma NextNoncePassesIff(seen: seq<Nonce>, accepted: seq<Nonce>)
    requires IsWindowOf(seen, accepted)
    ensures (NextNonce(seen).Some? && Checked(seen, NextNonce(seen).value).Ok?)
            <==> (seen == [] || Last(seen) + MAX_NONCE_INCREASE <= U32_MAX)
    ensures (exists n: Nonce :: Checked(seen, n).Ok?) <==> (seen == [] || Last(seen) + MAX_NONCE_INCREASE <= U32_MAX)
  {
    if seen == [] {
      assert Checked(seen, 0).Ok?;
    } else {
      assert forall x | x in seen :: x <= Last(seen);
      if Last(seen) < U32_MAX {
        assert Last(seen) + 1 !in seen;
        assert Last(seen) + MAX_NONCE_INCREASE <= U32_MAX ==> Checked(seen, Last(seen) + 1).Ok?;
      }
    }
  }

  /** An account, with what it has accepted. */
  class Account {
    var seenNonces: seq<Nonce>
    ghost var accepted: seq<Nonce>

    ghost predicate Valid()
      reads this
    {
      IsWindowOf(seenNonces, accepted)
    }

    constructor ()
      ensures Valid() && seenNonces == [] && accepted == []
    {
      seenNonces, accepted := [], [];
    }

    /** Checks and records the nonce. The window changes only if the transaction passes the other checks too. */
    method Authenticate(nonce: Nonce, otherwiseValid: bool) returns (r: Result<(), NonceError>)
      requires Valid()
      modifies this
      ensures Valid()
      ensures r.Ok? <==> otherwiseValid && Acceptable(old(seenNonces), old(accepted), nonce)
      ensures accepted == if r.Ok? then old(accepted) + [nonce] else old(accepted)
      ensures var checked := Checked(old(seenNonces), nonce);
              && (checked.Err? ==> r == Err(checked.error))
              && (checked.Ok? && !otherwiseValid ==> r == Err(Refused))
              && seenNonces == if checked.Ok? && otherwiseValid then checked.value else old(seenNonces)
    {
      CheckedIffAcceptable(seenNonces, accepted, nonce);
      var nonces := seenNonces;
      if nonces != [] {
        if nonce in nonces {
          return Err(AlreadySeen);
        }
        if nonce <= nonces[0] {
          return Err(TooOld);
        }
        if |nonces| == MAX_SEEN_NONCES {
          nonces := nonces[1..];
        }
      } else if nonce >= MAX_NONCE_INCREASE {
        return Err(FirstTooBig);
      }
      if nonces != [] {
        if Last(nonces) + MAX_NONCE_INCREASE > U32_MAX {
          return Err(Overflowed);
        }
        if nonce > Last(nonces) + MAX_NONCE_INCREASE {
          return Err(TooFarAhead);
        }
      }
      nonces := Insert(nonces, nonce);
      if !otherwiseValid {
        return Err(Refused);
      }
      WindowAfter(seenNonces, accepted, nonce);
      seenNonces, accepted := nonces, accepted + [nonce];
      return Ok(());
    }
  }

  /** A client that counts up from a nonce it asked for. */
  class Signer {
    var nonce: Nonce

    constructor (nonce: Nonce)
      ensures this.nonce == nonce
    {
      this.nonce := nonce;
    }

    /** Counts up; the addition overflows after the last 32-bit number. */
    method Sign() returns (used: Option<Nonce>)
      modifies this
      ensures used == if old(nonce) == U32_MAX then None else Some(old(nonce))
      ensures nonce == if used.Some? then old(nonce) + 1 else old(nonce)
    {
      if nonce == U32_MAX {
        return None;
      }
      used := Some(nonce);
      nonce := nonce + 1;
    }
  }

  // ---- a client and its account ----

  /** How many more nonces can be accepted one after the other before the addition in the check overflows. */
  function Room(seen: seq<Nonce>): nat {
    if seen == [] then U32_MAX - MAX_NONCE_INCREASE + 2
    else if Last(seen) + MAX_NONCE_INCREASE <= U32_MAX then U32_MAX - MAX_NONCE_INCREASE - Last(seen) + 1
    else 0
  }

  /** The numbers from `first` on. */
  function Range(first: nat, n: nat): (s: seq<Nonce>)
    requires n == 0 || first + n - 1 <= U32_MAX
    ensures |s| == n
  {
    if n == 0 then [] else Range(first, n - 1) + [first + n - 1]
  }

  lemma OneMoreInRange(before: seq<Nonce>, first: nat, n: nat)
    requires first + n <= U32_MAX
    ensures before + Range(first, n) + [first + n] == before + Range(first, n + 1)
  {
    assert Range(first, n + 1) == Range(first, n) + [first + n];
  }

  function FirstOf(seen: seq<Nonce>): nat {
    if seen == [] then 0 else Last(seen) + 1
  }

  /** The nonce after the last is accepted exactly while there is room, and uses up one place. */
  lemma NextInLine(seen: seq<Nonce>, accepted: seq<Nonce>, nonce: Nonce)
    requires IsWindowOf(seen, accepted) && nonce == FirstOf(seen)
    ensures Acceptable(seen, accepted, nonce) <==> Room(seen) > 0
    ensures Room(seen) > 0 ==>
      var after := Checked(seen, nonce);
      after.Ok? && FirstOf(after.value) == nonce + 1 && Room(after.value) == Room(seen) - 1
  {
    CheckedIffAcceptable(seen, accepted, nonce);
    assert forall x | x in seen :: x <= Last(seen);
    if Checked(seen, nonce).Ok? {
      LastAfter(seen, nonce);
    }
  }

  /** Without room nothing is accepted, whatever the nonce. */
  lemma NoRoomForAny(seen: seq<Nonce>, accepted: seq<Nonce>, nonce: Nonce)
    requires IsWindowOf(seen, accepted) && Room(seen) == 0
    ensures !Acceptable(seen, accepted, nonce)
  {
    CheckedIffAcceptable(seen, accepted, nonce);
  }

  /** Signs a transaction that is otherwise valid, and sends it. */
  method SendOne(account: Account, signer: Signer) returns (ok: bool)
    requires account.Valid()
    requires Room(account.seenNonces) > 0 ==> signer.nonce == FirstOf(account.seenNonces)
    modifies account, signer
    ensures account.Valid()
    ensures ok <==> Room(old(account.seenNonces)) > 0
    ensures ok ==>
      && FirstOf(account.seenNonces) == FirstOf(old(account.seenNonces)) + 1 == signer.nonce
      && Room(account.seenNonces) == Room(old(account.seenNonces)) - 1
      && account.accepted == old(account.accepted) + [FirstOf(old(account.seenNonces))]
    ensures !ok ==> account.seenNonces == old(account.seenNonces) && account.accepted == old(account.accepted)
  {
    if Room(account.seenNonces) > 0 {
      NextInLine(account.seenNonces, account.accepted, signer.nonce);
    }
    var nonce := signer.Sign();
    if nonce.None? {
      return false;
    }
    if Room(account.seenNonces) == 0 {
      NoRoomForAny(account.seenNonces, account.accepted, nonce.value);
    }
    var r := account.Authenticate(nonce.value, true);
    ok := r.Ok?;
  }

  /**
   * A client asks for its next nonce once, and then signs and sends `n` transactions that are
   * otherwise valid: exactly the first ones for which there is room are accepted, under successive
   * nonces. A new account has room for 2^32 - 99.
   */
  method SendAll(account: Account, n: nat) returns (sent: nat)
    requires account.Valid()
    modifies account
    ensures account.Valid()
    ensures sent == if n <= Room(old(account.seenNonces)) then n else Room(old(account.seenNonces))
    ensures sent == 0 || FirstOf(old(account.seenNonces)) + sent - 1 <= U32_MAX
    ensures account.accepted == old(account.accepted) + Range(FirstOf(old(account.seenNonces)), sent)
  {
    ghost var first, room, before := FirstOf(account.seenNonces), Room(account.seenNonces), account.accepted;
    sent := 0;
    assert Range(first, 0) == [] && before + [] == before;
    var next := NextNonce(account.seenNonces);
    if next.None? {
      return;
    }
    var signer := new Signer(next.value);
    for i := 0 to n
      invariant account.Valid() && fresh(signer)
      invariant sent == if i <= room then i else room
      invariant Room(account.seenNonces) == room - sent
      invariant Room(account.seenNonces) > 0 ==> signer.nonce == FirstOf(account.seenNonces)
      invariant FirstOf(account.seenNonces) == first + sent
      invariant sent == 0 || first + sent - 1 <= U32_MAX
      invariant account.accepted == before + Range(first, sent)
    {
      var ok := SendOne(account, signer);
      if ok {
        OneMoreInRange(before, first, sent);
        sent := sent + 1;
      }
    }
  }

  /** The attempts of a client that counts up from zero. */
  function Counting(n: nat): (attempts: seq<Attempt>)
    requires n <= U32_MAX + 1
    ensures |attempts| == n
  {
    if n == 0 then [] else Counting(n - 1) + [Attempt(n - 1, true)]
  }

  lemma OneMoreAttempt(attempts: seq<Attempt>, last: Attempt)
    ensures var seen := WindowAfterAll(attempts);
            var r := Checked(seen, last.nonce);
            && WindowAfterAll(attempts + [last]) == (if last.otherwiseValid && r.Ok? then r.value else seen)
            && AcceptedOf(attempts + [last])
               == AcceptedOf(attempts) + if last.otherwiseValid && r.Ok? then [last.nonce] else []
  {
    assert (attempts + [last])[..|attempts|] == attempts;
  }

  /** The room of a new account. */
  const LIFETIME: nat := U32_MAX - MAX_NONCE_INCREASE + 2

  function Lesser(x: nat, y: nat): nat {
    if x <= y then x else y
  }

  /** Of attempts with the numbers up to `n`, as many as a new account has room for were accepted. */
  ghost predicate CountedTo(attempts: seq<Attempt>, n: nat) {
    && AcceptedOf(attempts) == Range(0, Lesser(n, LIFETIME))
    && Room(WindowAfterAll(attempts)) == LIFETIME - Lesser(n, LIFETIME)
    && FirstOf(WindowAfterAll(attempts)) == Lesser(n, LIFETIME)
  }

  lemma CountNext(earlier: seq<Attempt>, nonce: Nonce)
    requires CountedTo(earlier, nonce)
    ensures CountedTo(earlier + [Attempt(nonce, true)], nonce + 1)
  {
    var seen := WindowAfterAll(earlier);
    NoNonceTwice(earlier);
    OneMoreAttempt(earlier, Attempt(nonce, true));
    CheckedIffAcceptable(seen, AcceptedOf(earlier), nonce);
    if Room(seen) > 0 {
      NextInLine(seen, AcceptedOf(earlier), nonce);
      assert Range(0, nonce + 1) == Range(0, nonce) + [nonce];
    } else {
      NoRoomForAny(seen, AcceptedOf(earlier), nonce);
      assert AcceptedOf(earlier) + [] == AcceptedOf(earlier);
    }
  }

  /** As many as a new account has room for are accepted, and none after. */
  lemma {:induction false} CountingIsAccepted(n: nat)
    requires n <= U32_MAX + 1
    ensures CountedTo(Counting(n), n)
  {
    if n == 0 {
      assert WindowAfterAll(Counting(0)) == [];
    } else {
      CountingIsAccepted(n - 1);
      CountNext(Counting(n - 1), n - 1);
    }
  }
}
