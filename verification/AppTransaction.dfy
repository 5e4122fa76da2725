/** What a transaction does to the store, by value (grug/app/src/app.rs). */
module AppTransaction {
  import opened Wrappers
  import opened Sequences
  import opened AppStore
  import opened AppSemantics

  const LIMITLESS := Meter(None, 0)

  /** The taxman takes the most the transaction may cost, on a meter of its own. */
  function Withhold(env: Env, store: Store, tx: Tx): (r: Run)
    ensures Explained(env, 0, store, r) && (r.error.None? ==> Sound(env, 0, store, r))
  {
    match env.taxman(store)
    case Err(error) => Failed(store, LIMITLESS, error)
    case Ok(taxman) => RunCall(env, 0, store, LIMITLESS, Call(taxman, WithholdFee(tx)))
  }

  function AuthenticateRun(env: Env, store: Store, tx: Tx): (r: Run)
    ensures Sound(env, 0, store, r)
  {
    RunCall(env, 0, store, Meter(Some(tx.gasLimit), 0), Call(tx.sender, Authenticate(tx)))
  }

  /** Whether the sender's account asked to be called again after the messages. */
  predicate WantsBackrun(env: Env, store: Store, tx: Tx) {
    var a := env.call(store, Meter(Some(tx.gasLimit), 0), Call(tx.sender, Authenticate(tx)));
    a.returned.Ok? && a.returned.value.requestBackrun
  }

  function RunMessages(env: Env, store: Store, meter: Meter, sender: Addr, msgs: seq<Message>): (r: Run)
    ensures Sound(env, 0, store, r)
    decreases |msgs|
  {
    if msgs == [] then
      Nothing(store, meter)
    else
      var first := RunMessage(env, 0, store, meter, sender, msgs[0]);
      if first.error.Some? then
        first
      else
        var rest := RunMessages(env, first.store, first.meter, sender, msgs[1..]);
        ThenIsExplained(env, 0, store, first, 0, rest);
        Then(first, rest)
  }

  function RunMessagesThenBackrun(env: Env, store: Store, meter: Meter, tx: Tx, backrun: bool): (r: Run)
    ensures Sound(env, 0, store, r)
  {
    var all := RunMessages(env, store, meter, tx.sender, tx.msgs);
    if all.error.Some? || !backrun then
      all
    else
      var last := RunCall(env, 0, all.store, all.meter, Call(tx.sender, Backrun(tx)));
      ThenIsExplained(env, 0, store, all, 0, last);
      Then(all, last)
  }

  /** The taxman settles the fee, knowing how the rest went. */
  function Finalize(
    env: Env, store: Store, tx: Tx, spent: Meter, soFar: seq<Event>, failure: Option<Error>): (r: Run)
    ensures Explained(env, 0, store, r) && (r.error.None? ==> Sound(env, 0, store, r))
  {
    match env.taxman(store)
    case Err(error) => Failed(store, LIMITLESS, error)
    case Ok(taxman) => RunCall(env, 0, store, LIMITLESS, Call(taxman, FinalizeFee(tx, spent, soFar, failure)))
  }

  /** How a transaction ended and which calls' writes are in the store. */
  datatype Outcome = Outcome(error: Option<Error>, store: Store, trace: seq<Event>, kept: seq<Event>)

  /** Settles the fee on what an execution left behind, and gives up everything when that fails. */
  function Settle(env: Env, base: Store, tx: Tx, meter: Meter, soFar: Run, failure: Option<Error>): (o: Outcome)
    requires Explained(env, 0, base, soFar) && Clean(soFar.kept)
    requires failure.None? && Clean(soFar.trace) ==> soFar.kept == soFar.trace
    ensures Accounted(env, base, o)
    ensures Finalize(env, soFar.store, tx, meter, soFar.trace, failure).error.Some? ==> o.kept == [] && o.error.Some?
  {
    var settled := Finalize(env, soFar.store, tx, meter, soFar.trace, failure);
    if settled.error.Some? then
      Outcome(settled.error, base, soFar.trace + settled.trace, [])
    else
      ThenIsExplained(env, 0, base, soFar, 0, settled);
      Outcome(failure, settled.store, soFar.trace + settled.trace, soFar.kept + settled.kept)
  }

  /** Authentication, messages and backrun: a failure takes back what follows the authentication, or all of it. */
  function RunInside(env: Env, store: Store, tx: Tx): (r: Run)
    ensures Explained(env, 0, store, r) && Clean(r.kept)
    ensures r.error.None? && Clean(r.trace) ==> r.kept == r.trace
  {
    var auth := AuthenticateRun(env, store, tx);
    if auth.error.Some? then
      Undone(store, auth)
    else
      var work := RunMessagesThenBackrun(env, auth.store, auth.meter, tx, WantsBackrun(env, store, tx));
      if work.error.Some? then
        ThenIsExplained(env, 0, store, auth, 0, Undone(auth.store, work));
        Then(auth, Undone(auth.store, work))
      else
        ThenIsExplained(env, 0, store, auth, 0, work);
        Then(auth, work)
  }

  function RunTx(env: Env, base: Store, tx: Tx): (o: Outcome)
    ensures Accounted(env, base, o)
  {
    var withheld := Withhold(env, base, tx);
    if withheld.error.Some? then
      Outcome(withheld.error, base, withheld.trace, [])
    else
      var inside := RunInside(env, withheld.store, tx);
      ThenIsExplained(env, 0, base, withheld, 0, inside);
      Settle(env, base, tx, inside.meter, Then(withheld, inside), inside.error)
  }

  /**
   * The store is what a list of the calls made leaves behind, all of them successful; making
   * them alone, one after another, they answer the same. If the transaction succeeded and no call
   * failed on the way, these are all calls.
   */
  ghost predicate Accounted(env: Env, base: Store, o: Outcome) {
    && o.store == Replayed(base, o.kept)
    && Replays(env, base, o.kept)
    && Clean(o.kept)
    && IsSubsequence(o.kept, o.trace)
    && (o.error.None? && Clean(o.trace) ==> o.kept == o.trace)
  }

  /** How far a transaction's writes got. */
  datatype Stage = Unchanged | FeeOnly | FeeAndAuthentication | Everything

  /** The executions a transaction consists of, each on the store the ones before it left. */
  datatype Steps = Steps(withheld: Run, auth: Run, work: Run, settled: Run)

  ghost function StepsOf(env: Env, base: Store, tx: Tx): Steps {
    var withheld := Withhold(env, base, tx);
    var auth := AuthenticateRun(env, withheld.store, tx);
    var work := RunMessagesThenBackrun(env, auth.store, auth.meter, tx, WantsBackrun(env, withheld.store, tx));
    var inside := RunInside(env, withheld.store, tx);
    var settled :=
      Finalize(env, inside.store, tx, inside.meter, withheld.trace + inside.trace, inside.error);
    Steps(withheld, auth, work, settled)
  }

  /** Which stage it is follows from which step failed, and the stage tells what is kept. */
  ghost predicate StageFits(base: Store, o: Outcome, stage: Stage, steps: Steps) {
    var Steps(withheld, auth, work, settled) := steps;
    match stage
    case Unchanged =>
      && (withheld.error.Some? || settled.error.Some?)
      && o.error == (if withheld.error.Some? then withheld.error else settled.error)
      && o.store == base && o.kept == []
    case FeeOnly =>
      && withheld.error.None? && auth.error.Some? && settled.error.None?
      && o.error == auth.error
      && o.store == settled.store && o.kept == withheld.kept + settled.kept
    case FeeAndAuthentication =>
      && withheld.error.None? && auth.error.None? && work.error.Some? && settled.error.None?
      && o.error == work.error
      && o.store == settled.store && o.kept == withheld.kept + auth.kept + settled.kept
    case Everything =>
      && withheld.error.None? && auth.error.None? && work.error.None? && settled.error.None?
      && o.error == None
      && o.store == settled.store && o.kept == withheld.kept + auth.kept + work.kept + settled.kept
  }

  /** What authentication, messages and backrun keep together. */
  lemma KeptInside(env: Env, store: Store, tx: Tx)
    ensures var auth := AuthenticateRun(env, store, tx);
            var work := RunMessagesThenBackrun(env, auth.store, auth.meter, tx, WantsBackrun(env, store, tx));
            var inside := RunInside(env, store, tx);
            if auth.error.Some? then inside.kept == [] && inside.error == auth.error
            else if work.error.Some? then inside.kept == auth.kept && inside.error == work.error
            else inside.kept == auth.kept + work.kept && inside.error == None
  {
    assert AuthenticateRun(env, store, tx).kept + [] == AuthenticateRun(env, store, tx).kept;
  }

  /** Nothing is kept unless the fee could be both withheld and settled. */
  lemma KeptAfterwards(env: Env, base: Store, tx: Tx)
    ensures var steps := StepsOf(env, base, tx);
            var inside := RunInside(env, steps.withheld.store, tx);
            var o := RunTx(env, base, tx);
            if steps.withheld.error.Some? then o.error == steps.withheld.error && o.store == base && o.kept == []
            else if steps.settled.error.Some? then o.error == steps.settled.error && o.store == base && o.kept == []
            else
              && o.error == inside.error && o.store == steps.settled.store
              && o.kept == steps.withheld.kept + inside.kept + steps.settled.kept
  {
  }

  /** There is nothing between the four stages, and only the last is a success. */
  lemma EndsInOneOfFourStages(env: Env, base: Store, tx: Tx) returns (stage: Stage)
    ensures StageFits(base, RunTx(env, base, tx), stage, StepsOf(env, base, tx))
    ensures stage.Everything? <==> RunTx(env, base, tx).error.None?
  {
    var steps := StepsOf(env, base, tx);
    KeptInside(env, steps.withheld.store, tx);
    KeptAfterwards(env, base, tx);
    stage := StageOf(steps);
    StageOfFits(base, RunTx(env, base, tx), steps, RunInside(env, steps.withheld.store, tx).kept);
  }

  function StageOf(steps: Steps): Stage {
    if steps.withheld.error.Some? || steps.settled.error.Some? then Unchanged
    else if steps.auth.error.Some? then FeeOnly
    else if steps.work.error.Some? then FeeAndAuthentication
    else Everything
  }

  lemma StageOfFits(base: Store, o: Outcome, steps: Steps, inside: seq<Event>)
    requires inside == (if steps.auth.error.Some? then []
                        else if steps.work.error.Some? then steps.auth.kept
                        else steps.auth.kept + steps.work.kept)
    requires var error := if steps.auth.error.Some? then steps.auth.error else steps.work.error;
             if steps.withheld.error.Some? then o.error == steps.withheld.error && o.store == base && o.kept == []
             else if steps.settled.error.Some? then o.error == steps.settled.error && o.store == base && o.kept == []
             else
               && o.error == error && o.store == steps.settled.store
               && o.kept == steps.withheld.kept + inside + steps.settled.kept
    ensures StageFits(base, o, StageOf(steps), steps)
    ensures StageOf(steps).Everything? <==> o.error.None?
  {
    assert steps.withheld.kept + [] == steps.withheld.kept;
    assert (steps.withheld.kept + steps.auth.kept) + steps.work.kept
        == steps.withheld.kept + (steps.auth.kept + steps.work.kept);
  }
}
