/** What is called, in which order and on which store (grug/app/src/submessage.rs, app.rs, execute). */
module AppOrder {
  import opened Wrappers
  import opened AppStore
  import opened AppSemantics
  import opened AppTransaction

  // ---- steps in turn ----

  /** One of some steps, on the store and the meter that it finds. */
  type Step = (nat, Store, Meter) -> Run

  function StoreBefore(store: Store, runs: seq<Run>, i: nat): Store
    requires i <= |runs|
  {
    if i == 0 then store else runs[i - 1].store
  }

  function MeterBefore(meter: Meter, runs: seq<Run>, i: nat): Meter
    requires i <= |runs|
  {
    if i == 0 then meter else runs[i - 1].meter
  }

  /** The steps are taken one after another, each on what the one before it left, up to the first that fails. */
  ghost predicate InTurn(step: Step, n: nat, store: Store, meter: Meter, runs: seq<Run>) {
    && |runs| <= n
    && (forall i | 0 <= i < |runs| :: runs[i] == step(i, StoreBefore(store, runs, i), MeterBefore(meter, runs, i)))
    && (forall i | 0 <= i < |runs| - 1 :: runs[i].error.None?)
    && (|runs| < n ==> |runs| > 0 && runs[|runs| - 1].error.Some?)
  }

  function Traces(runs: seq<Run>): seq<Event> {
    if runs == [] then [] else runs[0].trace + Traces(runs[1..])
  }

  function AllKept(runs: seq<Run>): seq<Event> {
    if runs == [] then [] else runs[0].kept + AllKept(runs[1..])
  }

  /** What the steps come to: they end as the last of them does. */
  ghost predicate ComesTo(store: Store, meter: Meter, runs: seq<Run>, r: Run) {
    && r.error == (if runs == [] then None else runs[|runs| - 1].error)
    && r.store == StoreBefore(store, runs, |runs|) && r.meter == MeterBefore(meter, runs, |runs|)
    && r.trace == Traces(runs) && r.kept == AllKept(runs)
  }

  /** All steps were taken and none failed. */
  ghost predicate AllSucceeded(n: nat, runs: seq<Run>) {
    |runs| == n && forall i | 0 <= i < n :: runs[i].error.None?
  }

  /** The same steps without the first. */
  ghost predicate IsRest(next: Step, step: Step) {
    forall i: nat, s: Store, m: Meter :: next(i, s, m) == step(i + 1, s, m)
  }

  lemma NoStep(step: Step, store: Store, meter: Meter)
    ensures InTurn(step, 0, store, meter, []) && ComesTo(store, meter, [], Nothing(store, meter))
  {
  }

  lemma FirstFails(step: Step, n: nat, store: Store, meter: Meter)
    requires n > 0 && step(0, store, meter).error.Some?
    ensures var first := step(0, store, meter);
            InTurn(step, n, store, meter, [first]) && ComesTo(store, meter, [first], first)
  {
    var first := step(0, store, meter);
    assert [first][1..] == [];
    assert first.trace + [] == first.trace && first.kept + [] == first.kept;
  }

  /** A step, and then the others, which begin with what it left. */
  lemma FirstThenOthers(
    step: Step, next: Step, n: nat, store: Store, meter: Meter, others: seq<Run>, r: Run)
    requires n > 0 && step(0, store, meter).error.None?
    requires IsRest(next, step)
    requires var first := step(0, store, meter);
             InTurn(next, n - 1, first.store, first.meter, others) && ComesTo(first.store, first.meter, others, r)
    ensures var first := step(0, store, meter);
            InTurn(step, n, store, meter, [first] + others) && ComesTo(store, meter, [first] + others, Then(first, r))
  {
    var first := step(0, store, meter);
    var runs := [first] + others;
    assert runs[1..] == others;
    forall i | 0 <= i < |runs|
      ensures runs[i] == step(i, StoreBefore(store, runs, i), MeterBefore(meter, runs, i))
    {
      if i > 0 {
        assert runs[i] == next(i - 1, StoreBefore(first.store, others, i - 1), MeterBefore(first.meter, others, i - 1));
      }
    }
  }

  lemma SucceedsIffAllDo(step: Step, n: nat, store: Store, meter: Meter, runs: seq<Run>, r: Run)
    requires InTurn(step, n, store, meter, runs) && ComesTo(store, meter, runs, r)
    ensures r.error.None? <==> AllSucceeded(n, runs)
  {
  }

  // ---- submessages ----

  ghost function SubMessageStep(env: Env, depth: nat, sender: Addr, submsgs: seq<SubMessage>): Step
    requires depth <= MAX_MESSAGE_DEPTH
  {
    (i: nat, s: Store, m: Meter) =>
      if i < |submsgs| then RunSubMessage(env, depth, s, m, sender, submsgs[i]) else Nothing(s, m)
  }

  lemma SubMessageStepRest(env: Env, depth: nat, sender: Addr, submsgs: seq<SubMessage>)
    requires depth <= MAX_MESSAGE_DEPTH && submsgs != []
    ensures IsRest(SubMessageStep(env, depth, sender, submsgs[1..]), SubMessageStep(env, depth, sender, submsgs))
  {
    forall i: nat, s: Store, m: Meter
      ensures SubMessageStep(env, depth, sender, submsgs[1..])(i, s, m)
           == SubMessageStep(env, depth, sender, submsgs)(i + 1, s, m)
    {
    }
  }

  lemma {:induction false} SubMessagesInTurn(
    env: Env, depth: nat, store: Store, meter: Meter, sender: Addr, submsgs: seq<SubMessage>)
    returns (runs: seq<Run>)
    requires depth <= MAX_MESSAGE_DEPTH
    ensures InTurn(SubMessageStep(env, depth, sender, submsgs), |submsgs|, store, meter, runs)
    ensures ComesTo(store, meter, runs, RunEach(env, depth, store, meter, sender, submsgs))
    decreases |submsgs|
  {
    var step := SubMessageStep(env, depth, sender, submsgs);
    if submsgs == [] {
      NoStep(step, store, meter);
      runs := [];
    } else {
      var first := step(0, store, meter);
      if first.error.Some? {
        FirstFails(step, |submsgs|, store, meter);
        runs := [first];
      } else {
        var others := SubMessagesInTurn(env, depth, first.store, first.meter, sender, submsgs[1..]);
        var rest := RunEach(env, depth, first.store, first.meter, sender, submsgs[1..]);
        SubMessageStepRest(env, depth, sender, submsgs);
        FirstThenOthers(
          step, SubMessageStep(env, depth, sender, submsgs[1..]), |submsgs|, store, meter, others, rest);
        runs := [first] + others;
      }
    }
  }

  /** An event and then an execution. */
  function After(e: Event, r: Run): Run {
    Run(r.error, r.store, r.meter, [e] + r.trace, [e] + r.kept)
  }

  /** An execution of a single event. */
  function Only(e: Event, error: Option<Error>, store: Store, meter: Meter): Run {
    Run(error, store, meter, [e], [e])
  }

  /**
   * A contract is called once, and what it wrote is there for its submessages, which are attempted
   * in order up to and including the first that ends in an error.
   */
  ghost predicate IsCallThenSubMessages(
    env: Env, depth: nat, store: Store, meter: Meter, call: Call, runs: seq<Run>, rest: Run, r: Run) {
    var a := env.call(store, meter, call);
    var made := Called(depth, call, meter, a);
    var left := Apply(store, a.writes);
    match a.returned
    case Err(e) => r == Only(made, Some(e), left, a.meter)
    case Ok(response) =>
      if depth > MAX_MESSAGE_DEPTH then r == Only(made, Some(ExceedMaxMessageDepth), left, a.meter)
      else
        && InTurn(SubMessageStep(env, depth, call.contract, response.submsgs), |response.submsgs|,
                  left, a.meter, runs)
        && ComesTo(left, a.meter, runs, rest)
        && r == After(made, rest)
  }

  lemma CallThenSubMessages(env: Env, depth: nat, store: Store, meter: Meter, call: Call)
    returns (runs: seq<Run>, rest: Run)
    ensures IsCallThenSubMessages(
      env, depth, store, meter, call, runs, rest, RunCall(env, depth, store, meter, call))
  {
    var a := env.call(store, meter, call);
    var left := Apply(store, a.writes);
    runs, rest := [], Nothing(left, a.meter);
    if a.returned.Ok? && depth <= MAX_MESSAGE_DEPTH {
      runs := SubMessagesInTurn(env, depth, left, a.meter, call.contract, a.returned.value.submsgs);
      rest := RunEach(env, depth, left, a.meter, call.contract, a.returned.value.submsgs);
    }
  }

  /** The event that begins a call. */
  lemma CallBegins(env: Env, depth: nat, store: Store, meter: Meter, call: Call)
    ensures var r := RunCall(env, depth, store, meter, call);
            |r.trace| > 0 && r.trace[0] == Called(depth, call, meter, env.call(store, meter, call))
  {
    var _, _ := CallThenSubMessages(env, depth, store, meter, call);
  }

  /**
   * Right after an attempt, the emitter is called back with the outcome, on this store and on the
   * meter that the attempt left, and it all ends as that call does.
   */
  ghost predicate RepliesTo(
    env: Env, depth: nat, sender: Addr, payload: Bytes, mode: ReplyOn, outcome: Result<seq<Event>, Error>,
    store: Store, attempt: Run, kept: seq<Event>, r: Run) {
    var call := Call(sender, Reply(payload, outcome, mode));
    var reply := RunCall(env, depth, store, attempt.meter, call);
    && r.error == reply.error && r.store == reply.store && r.meter == reply.meter
    && r.trace == attempt.trace + reply.trace && r.kept == kept + reply.kept
    && |r.trace| > |attempt.trace|
    && r.trace[|attempt.trace|] == Called(depth, call, attempt.meter, env.call(store, attempt.meter, call))
  }

  /**
   * What becomes of an attempt to execute a submessage, in each of the eight combinations of the mode
   * and the outcome: a reply, just the attempt, or the attempt without what it wrote.
   */
  ghost predicate IsHandled(
    env: Env, depth: nat, store: Store, sender: Addr, replyOn: ReplyOn, run: Run, r: Run) {
    var aborted := Run(run.error, store, run.meter, run.trace, []);
    match (replyOn, run.error)
    case (Success(payload), None) =>
      RepliesTo(env, depth + 1, sender, payload, Success(payload), Ok(run.trace), run.store, run, run.kept, r)
    case (Always(payload), None) =>
      RepliesTo(env, depth + 1, sender, payload, Always(payload), Ok(run.trace), run.store, run, run.kept, r)
    case (Error(payload), Some(e)) =>
      RepliesTo(env, depth + 1, sender, payload, Error(payload), Err(e), store, run, [], r)
    case (Always(payload), Some(e)) =>
      RepliesTo(env, depth + 1, sender, payload, Always(payload), Err(e), store, run, [], r)
    case (Error(_), None) => r == run
    case (Never, None) => r == run
    case (Success(_), Some(_)) => r == aborted
    case (Never, Some(_)) => r == aborted
  }

  lemma ReplyByModeAndOutcome(
    env: Env, depth: nat, store: Store, meter: Meter, sender: Addr, submsg: SubMessage)
    requires depth <= MAX_MESSAGE_DEPTH
    ensures var run := RunMessage(env, depth + 1, store, meter, sender, submsg.msg);
            var r := RunSubMessage(env, depth, store, meter, sender, submsg);
            IsHandled(env, depth, store, sender, submsg.replyOn, run, r)
  {
    var run := RunMessage(env, depth + 1, store, meter, sender, submsg.msg);
    if !submsg.replyOn.Never? {
      var outcome := if run.error.None? then Ok(run.trace) else Err(run.error.value);
      var call := Call(sender, Reply(submsg.replyOn.payload, outcome, submsg.replyOn));
      CallBegins(env, depth + 1, if run.error.None? then run.store else store, run.meter, call);
    }
  }

  // ---- messages ----

  ghost function ReceiveStep(env: Env, depth: nat, sender: Addr, transfers: seq<Transfer>): Step {
    (i: nat, s: Store, m: Meter) =>
      if i < |transfers| && env.known(s, transfers[i].to)
      then RunCall(env, depth, s, m, Call(transfers[i].to, Receive(sender, transfers[i].coins)))
      else Nothing(s, m)
  }

  lemma ReceiveStepRest(env: Env, depth: nat, sender: Addr, transfers: seq<Transfer>)
    requires transfers != []
    ensures IsRest(ReceiveStep(env, depth, sender, transfers[1..]), ReceiveStep(env, depth, sender, transfers))
  {
    forall i: nat, s: Store, m: Meter
      ensures ReceiveStep(env, depth, sender, transfers[1..])(i, s, m)
           == ReceiveStep(env, depth, sender, transfers)(i + 1, s, m)
    {
    }
  }

  lemma {:induction false} ReceivesInTurn(
    env: Env, depth: nat, store: Store, meter: Meter, sender: Addr, transfers: seq<Transfer>)
    returns (runs: seq<Run>)
    ensures InTurn(ReceiveStep(env, depth, sender, transfers), |transfers|, store, meter, runs)
    ensures ComesTo(store, meter, runs, RunReceives(env, depth, store, meter, sender, transfers))
    decreases |transfers|
  {
    var step := ReceiveStep(env, depth, sender, transfers);
    if transfers == [] {
      NoStep(step, store, meter);
      runs := [];
    } else {
      var first := step(0, store, meter);
      if first.error.Some? {
        FirstFails(step, |transfers|, store, meter);
        runs := [first];
      } else {
        var others := ReceivesInTurn(env, depth, first.store, first.meter, sender, transfers[1..]);
        var rest := RunReceives(env, depth, first.store, first.meter, sender, transfers[1..]);
        ReceiveStepRest(env, depth, sender, transfers);
        FirstThenOthers(step, ReceiveStep(env, depth, sender, transfers[1..]), |transfers|, store, meter, others, rest);
        runs := [first] + others;
      }
    }
  }

  /** A transfer is made by the bank, and then each recipient that exists is told of its coins, if any is to be. */
  ghost predicate IsTransfer(
    env: Env, depth: nat, store: Store, meter: Meter, sender: Addr, transfers: seq<Transfer>, tell: bool,
    runs: seq<Run>, told: Run, r: Run) {
    var msg := Transfers(transfers);
    var a := env.host(store, meter, sender, msg);
    var hosted := Hosted(depth, sender, msg, meter, a);
    var left := Apply(store, a.writes);
    match a.target
    case Err(e) => r == Only(hosted, Some(e), left, a.meter)
    case Ok(bank) =>
      var moved := RunCall(env, depth, left, a.meter, Call(bank, BankExecute(sender, transfers)));
      if moved.error.Some? || !tell then r == After(hosted, moved)
      else
        && InTurn(ReceiveStep(env, depth, sender, transfers), |transfers|, moved.store, moved.meter, runs)
        && ComesTo(moved.store, moved.meter, runs, told)
        && r == After(hosted, Then(moved, told))
  }

  lemma TransferThenReceives(
    env: Env, depth: nat, store: Store, meter: Meter, sender: Addr, transfers: seq<Transfer>, tell: bool)
    returns (runs: seq<Run>, told: Run)
    ensures IsTransfer(env, depth, store, meter, sender, transfers, tell, runs, told,
                       RunTransfer(env, depth, store, meter, sender, transfers, tell))
  {
    var a := env.host(store, meter, sender, Transfers(transfers));
    runs, told := [], Nothing(store, meter);
    if a.target.Ok? {
      var left := Apply(store, a.writes);
      var hosted := Hosted(depth, sender, Transfers(transfers), meter, a);
      var moved := RunCall(env, depth, left, a.meter, Call(a.target.value, BankExecute(sender, transfers)));
      runs := ReceivesInTurn(env, depth, moved.store, moved.meter, sender, transfers);
      told := RunReceives(env, depth, moved.store, moved.meter, sender, transfers);
      AfterThen(hosted, left, a.meter, moved, told);
    }
  }

  lemma AfterThen(e: Event, store: Store, meter: Meter, first: Run, second: Run)
    ensures Then(Only(e, None, store, meter), first) == After(e, first)
    ensures Then(Then(Only(e, None, store, meter), first), second) == After(e, Then(first, second))
  {
    ThenIsAssociative(Only(e, None, store, meter), first, second);
  }

  /** What the contract of a message is called with. */
  ghost predicate IsEntry(sender: Addr, msg: Message, entry: Entry) {
    match msg
    case Instantiate(body, funds) => entry == OnInstantiate(sender, body, funds)
    case Execute(_, body, funds) => entry == OnExecute(sender, body, funds)
    case Migrate(_, body) => entry == OnMigrate(sender, body)
    case _ => false
  }

  ghost predicate IsFunded(msg: Message) {
    (msg.Instantiate? && msg.funds != map[]) || (msg.Execute? && msg.funds != map[])
  }

  /**
   * First the host does its part. A contract is called for messages that have one; if funds are
   * attached, only after the bank has moved them, and without telling the recipient.
   */
  ghost predicate IsMessage(
    env: Env, depth: nat, store: Store, meter: Meter, sender: Addr, msg: Message, entry: Entry, r: Run)
    requires !msg.Transfers?
  {
    var a := env.host(store, meter, sender, msg);
    var hosted := Hosted(depth, sender, msg, meter, a);
    var left := Apply(store, a.writes);
    match a.target
    case Err(e) => r == Only(hosted, Some(e), left, a.meter)
    case Ok(target) =>
      if msg.Configure? || msg.Upload? then r == Only(hosted, None, left, a.meter)
      else if !IsFunded(msg) then
        IsEntry(sender, msg, entry) && r == After(hosted, RunCall(env, depth, left, a.meter, Call(target, entry)))
      else
        var paid := RunTransfer(env, depth, left, a.meter, sender, [Transfer(target, msg.funds)], false);
        if paid.error.Some? then r == After(hosted, paid)
        else
          && IsEntry(sender, msg, entry)
          && r == After(hosted, Then(paid, RunCall(env, depth, paid.store, paid.meter, Call(target, entry))))
  }

  lemma TransferMessage(env: Env, depth: nat, store: Store, meter: Meter, sender: Addr, transfers: seq<Transfer>)
    ensures RunMessage(env, depth, store, meter, sender, Transfers(transfers))
         == RunTransfer(env, depth, store, meter, sender, transfers, true)
  {
  }

  lemma MessageByKind(env: Env, depth: nat, store: Store, meter: Meter, sender: Addr, msg: Message)
    returns (entry: Entry)
    requires !msg.Transfers?
    ensures msg.Instantiate? || msg.Execute? || msg.Migrate? ==> IsEntry(sender, msg, entry)
    ensures IsMessage(env, depth, store, meter, sender, msg, entry,
                      RunMessage(env, depth, store, meter, sender, msg))
  {
    entry := match msg
             case Instantiate(body, funds) => OnInstantiate(sender, body, funds)
             case Execute(_, body, funds) => OnExecute(sender, body, funds)
             case Migrate(_, body) => OnMigrate(sender, body)
             case _ => OnMigrate(sender, []);
  }

  /** Every message begins with what the host does for it. */
  lemma MessageBegins(env: Env, depth: nat, store: Store, meter: Meter, sender: Addr, msg: Message)
    ensures var r := RunMessage(env, depth, store, meter, sender, msg);
            && |r.trace| > 0
            && r.trace[0] == Hosted(depth, sender, msg, meter, env.host(store, meter, sender, msg))
  {
    if msg.Transfers? {
      var _, _ := TransferThenReceives(env, depth, store, meter, sender, msg.transfers, true);
    } else {
      var _ := MessageByKind(env, depth, store, meter, sender, msg);
    }
  }

  /** After a success, the funds have been moved by the bank, and the contract has been called afterwards. */
  lemma FundsComeFirst(env: Env, depth: nat, store: Store, meter: Meter, sender: Addr, msg: Message)
    returns (at: nat, entry: Entry)
    requires IsFunded(msg) && RunMessage(env, depth, store, meter, sender, msg).error.None?
    ensures IsEntry(sender, msg, entry)
    ensures var r := RunMessage(env, depth, store, meter, sender, msg);
            var a := env.host(store, meter, sender, msg);
            && a.target.Ok?
            && 2 < at < |r.trace|
            && r.trace[1].Hosted? && r.trace[1].msg == Transfers([Transfer(a.target.value, msg.funds)])
            && r.trace[1].sender == sender
            && r.trace[2].Called? && r.trace[2].call.entry == BankExecute(sender, r.trace[1].msg.transfers)
            && r.trace[at].Called? && r.trace[at].call == Call(a.target.value, entry) && r.trace[at].depth == depth
  {
    var a := env.host(store, meter, sender, msg);
    var left := Apply(store, a.writes);
    entry := MessageByKind(env, depth, store, meter, sender, msg);
    var transfers := [Transfer(a.target.value, msg.funds)];
    var _, _ := TransferThenReceives(env, depth, left, a.meter, sender, transfers, false);
    var paid := RunTransfer(env, depth, left, a.meter, sender, transfers, false);
    var b := env.host(left, a.meter, sender, Transfers(transfers));
    CallBegins(env, depth, Apply(left, b.writes), b.meter, Call(b.target.value, BankExecute(sender, transfers)));
    CallBegins(env, depth, paid.store, paid.meter, Call(a.target.value, entry));
    at := 1 + |paid.trace|;
  }

  // ---- transactions ----

  ghost function MessageStep(env: Env, sender: Addr, msgs: seq<Message>): Step {
    (i: nat, s: Store, m: Meter) =>
      if i < |msgs| then RunMessage(env, 0, s, m, sender, msgs[i]) else Nothing(s, m)
  }

  lemma MessageStepRest(env: Env, sender: Addr, msgs: seq<Message>)
    requires msgs != []
    ensures IsRest(MessageStep(env, sender, msgs[1..]), MessageStep(env, sender, msgs))
  {
    forall i: nat, s: Store, m: Meter
      ensures MessageStep(env, sender, msgs[1..])(i, s, m) == MessageStep(env, sender, msgs)(i + 1, s, m)
    {
    }
  }

  lemma {:induction false} MessagesInTurn(env: Env, store: Store, meter: Meter, sender: Addr, msgs: seq<Message>)
    returns (runs: seq<Run>)
    ensures InTurn(MessageStep(env, sender, msgs), |msgs|, store, meter, runs)
    ensures ComesTo(store, meter, runs, RunMessages(env, store, meter, sender, msgs))
    decreases |msgs|
  {
    var step := MessageStep(env, sender, msgs);
    if msgs == [] {
      NoStep(step, store, meter);
      runs := [];
    } else {
      var first := step(0, store, meter);
      if first.error.Some? {
        FirstFails(step, |msgs|, store, meter);
        runs := [first];
      } else {
        var others := MessagesInTurn(env, first.store, first.meter, sender, msgs[1..]);
        var rest := RunMessages(env, first.store, first.meter, sender, msgs[1..]);
        MessageStepRest(env, sender, msgs);
        FirstThenOthers(step, MessageStep(env, sender, msgs[1..]), |msgs|, store, meter, others, rest);
        runs := [first] + others;
      }
    }
  }

  lemma WorkIsAllThenBackrun(env: Env, store: Store, meter: Meter, tx: Tx, backrun: bool, all: Run)
    requires all == RunMessages(env, store, meter, tx.sender, tx.msgs)
    ensures RunMessagesThenBackrun(env, store, meter, tx, backrun)
         == if all.error.Some? || !backrun then all
            else Then(all, RunCall(env, 0, all.store, all.meter, Call(tx.sender, Backrun(tx))))
  {
  }

  /**
   * The messages of a transaction are executed in turn, and then the sender is called again exactly
   * if it asked for that and no message failed. That is a success exactly if nothing failed.
   */
  lemma WorkInTurn(env: Env, store: Store, meter: Meter, tx: Tx, backrun: bool)
    returns (runs: seq<Run>)
    ensures InTurn(MessageStep(env, tx.sender, tx.msgs), |tx.msgs|, store, meter, runs)
    ensures var work := RunMessagesThenBackrun(env, store, meter, tx, backrun);
            var n := |runs|;
            var last := RunCall(env, 0, StoreBefore(store, runs, n), MeterBefore(meter, runs, n),
                                Call(tx.sender, Backrun(tx)));
            if backrun && AllSucceeded(|tx.msgs|, runs) then
              && work.error == last.error && work.store == last.store && work.meter == last.meter
              && work.trace == Traces(runs) + last.trace && work.kept == AllKept(runs) + last.kept
            else
              ComesTo(store, meter, runs, work) && (work.error.None? <==> AllSucceeded(|tx.msgs|, runs))
  {
    runs := MessagesInTurn(env, store, meter, tx.sender, tx.msgs);
    var all := RunMessages(env, store, meter, tx.sender, tx.msgs);
    SucceedsIffAllDo(MessageStep(env, tx.sender, tx.msgs), |tx.msgs|, store, meter, runs, all);
    WorkIsAllThenBackrun(env, store, meter, tx, backrun, all);
  }

  /** What a transaction comes to before the fee is settled. */
  datatype Inside = Inside(failure: Option<Error>, store: Store, spent: Meter, trace: seq<Event>, kept: seq<Event>)

  /**
   * The account authenticates on a meter of the transaction's own, and then the work is done. A
   * failure takes back what failed; gas and calls made stay spent and told.
   */
  ghost predicate IsInside(env: Env, store: Store, tx: Tx, inside: Inside) {
    var call := Call(tx.sender, Authenticate(tx));
    var a := env.call(store, Meter(Some(tx.gasLimit), 0), call);
    var auth := RunCall(env, 0, store, Meter(Some(tx.gasLimit), 0), call);
    var backrun := a.returned.Ok? && a.returned.value.requestBackrun;
    var work := RunMessagesThenBackrun(env, auth.store, auth.meter, tx, backrun);
    if auth.error.Some? then
      inside == Inside(auth.error, store, auth.meter, auth.trace, [])
    else if work.error.Some? then
      inside == Inside(work.error, auth.store, work.meter, auth.trace + work.trace, auth.kept)
    else
      inside == Inside(None, work.store, work.meter, auth.trace + work.trace, auth.kept + work.kept)
  }

  /**
   * The taxman withholds the fee, then authentication and work follow, and in the end the taxman
   * settles the fee, being told what was spent, what was called and how it ended. Nothing of all
   * that stays if the fee cannot be withheld or settled.
   */
  ghost predicate IsTransaction(env: Env, base: Store, tx: Tx, inside: Inside, o: Outcome) {
    match env.taxman(base)
    case Err(e) => o == Outcome(Some(e), base, [], [])
    case Ok(taxman) =>
      var withheld := RunCall(env, 0, base, Meter(None, 0), Call(taxman, WithholdFee(tx)));
      if withheld.error.Some? then o == Outcome(withheld.error, base, withheld.trace, [])
      else IsInside(env, withheld.store, tx, inside) && IsSettled(env, base, tx, withheld, inside, o)
  }

  ghost predicate IsSettled(env: Env, base: Store, tx: Tx, withheld: Run, inside: Inside, o: Outcome) {
    var trace := withheld.trace + inside.trace;
    match env.taxman(inside.store)
    case Err(e) => o == Outcome(Some(e), base, trace, [])
    case Ok(collector) =>
      var entry := FinalizeFee(tx, inside.spent, trace, inside.failure);
      var settled := RunCall(env, 0, inside.store, Meter(None, 0), Call(collector, entry));
      if settled.error.Some? then o == Outcome(settled.error, base, trace + settled.trace, [])
      else
        o == Outcome(inside.failure, settled.store, trace + settled.trace,
                     withheld.kept + inside.kept + settled.kept)
  }

  lemma TransactionInTurn(env: Env, base: Store, tx: Tx) returns (inside: Inside)
    ensures IsTransaction(env, base, tx, inside, RunTx(env, base, tx))
  {
    var withheld := Withhold(env, base, tx);
    var run := RunInside(env, withheld.store, tx);
    inside := Inside(run.error, run.store, run.meter, run.trace, run.kept);
    InsideInTurn(env, withheld.store, tx);
    assert withheld.trace + run.trace + [] == withheld.trace + run.trace;
  }

  lemma InsideInTurn(env: Env, store: Store, tx: Tx)
    ensures var run := RunInside(env, store, tx);
            IsInside(env, store, tx, Inside(run.error, run.store, run.meter, run.trace, run.kept))
  {
    var auth := AuthenticateRun(env, store, tx);
    assert auth.kept + [] == auth.kept;
  }

  /** Where in a trace the executions of some messages begin, one after another. */
  ghost predicate BeginAt(trace: seq<Event>, sender: Addr, msgs: seq<Message>, at: seq<nat>) {
    && |at| == |msgs|
    && (forall i | 0 <= i < |at| ::
          && at[i] < |trace|
          && trace[at[i]].Hosted? && trace[at[i]].depth == 0 && trace[at[i]].sender == sender
          && trace[at[i]].msg == msgs[i])
    && forall i, j | 0 <= i < j < |at| :: at[i] < at[j]
  }

  /** The messages are executed in their order, whatever else is. */
  ghost predicate Executes(trace: seq<Event>, sender: Addr, msgs: seq<Message>) {
    exists at :: BeginAt(trace, sender, msgs, at)
  }

  lemma ExecutesAmongOthers(
    before: seq<Event>, trace: seq<Event>, after: seq<Event>, whole: seq<Event>, sender: Addr, msgs: seq<Message>)
    requires Executes(trace, sender, msgs) && whole == before + trace + after
    ensures Executes(whole, sender, msgs)
  {
    var at :| BeginAt(trace, sender, msgs, at);
    var shifted := seq(|at|, i requires 0 <= i < |at| => |before| + at[i]);
    assert BeginAt(whole, sender, msgs, shifted);
  }

  lemma ExecutesFirst(first: seq<Event>, rest: seq<Event>, sender: Addr, msgs: seq<Message>)
    requires msgs != [] && Executes(rest, sender, msgs[1..]) && first != []
    requires first[0].Hosted? && first[0].depth == 0 && first[0].sender == sender && first[0].msg == msgs[0]
    ensures Executes(first + rest, sender, msgs)
  {
    var at :| BeginAt(rest, sender, msgs[1..], at);
    var later := seq(|at|, i requires 0 <= i < |at| => |first| + at[i]);
    assert BeginAt(first + rest, sender, msgs, [0] + later);
  }

  lemma ExecutesNothing(sender: Addr)
    ensures Executes([], sender, [])
  {
    assert BeginAt([], sender, [], []);
  }

  lemma {:induction false} MessagesAreExecuted(env: Env, store: Store, meter: Meter, sender: Addr, msgs: seq<Message>)
    requires RunMessages(env, store, meter, sender, msgs).error.None?
    ensures Executes(RunMessages(env, store, meter, sender, msgs).trace, sender, msgs)
    decreases |msgs|
  {
    if msgs == [] {
      ExecutesNothing(sender);
    } else {
      var first := RunMessage(env, 0, store, meter, sender, msgs[0]);
      MessageBegins(env, 0, store, meter, sender, msgs[0]);
      MessagesAreExecuted(env, first.store, first.meter, sender, msgs[1..]);
      var rest := RunMessages(env, first.store, first.meter, sender, msgs[1..]).trace;
      ExecutesFirst(first.trace, rest, sender, msgs);
    }
  }

  lemma ExecutesThen(all: Run, work: Run, last: Run, sender: Addr, msgs: seq<Message>)
    requires Executes(all.trace, sender, msgs) && (work == all || work == Then(all, last))
    ensures Executes(work.trace, sender, msgs)
  {
    ExecutesAmongOthers([], all.trace, if work == all then [] else last.trace, work.trace, sender, msgs);
  }

  lemma WorkExecutes(env: Env, store: Store, meter: Meter, tx: Tx, backrun: bool)
    requires RunMessagesThenBackrun(env, store, meter, tx, backrun).error.None?
    ensures Executes(RunMessagesThenBackrun(env, store, meter, tx, backrun).trace, tx.sender, tx.msgs)
  {
    var all := RunMessages(env, store, meter, tx.sender, tx.msgs);
    var last := RunCall(env, 0, all.store, all.meter, Call(tx.sender, Backrun(tx)));
    WorkIsAllThenBackrun(env, store, meter, tx, backrun, all);
    MessagesAreExecuted(env, store, meter, tx.sender, tx.msgs);
    ExecutesThen(all, RunMessagesThenBackrun(env, store, meter, tx, backrun), last, tx.sender, tx.msgs);
  }

  lemma InsideExecutes(env: Env, store: Store, tx: Tx, inside: Inside)
    requires IsInside(env, store, tx, inside) && inside.failure.None?
    ensures Executes(inside.trace, tx.sender, tx.msgs)
  {
    var auth := AuthenticateRun(env, store, tx);
    var backrun := WantsBackrun(env, store, tx);
    WorkExecutes(env, auth.store, auth.meter, tx, backrun);
    var work := RunMessagesThenBackrun(env, auth.store, auth.meter, tx, backrun);
    ExecutesAmongOthers(auth.trace, work.trace, [], inside.trace, tx.sender, tx.msgs);
  }

  lemma TransactionExecutes(env: Env, base: Store, tx: Tx, inside: Inside, o: Outcome)
    requires IsTransaction(env, base, tx, inside, o) && o.error.None?
    ensures Executes(o.trace, tx.sender, tx.msgs)
  {
    var withheld := RunCall(env, 0, base, Meter(None, 0), Call(env.taxman(base).value, WithholdFee(tx)));
    var entry := FinalizeFee(tx, inside.spent, withheld.trace + inside.trace, inside.failure);
    var settled := RunCall(env, 0, inside.store, Meter(None, 0), Call(env.taxman(inside.store).value, entry));
    InsideExecutes(env, withheld.store, tx, inside);
    ExecutesAmongOthers(withheld.trace, inside.trace, settled.trace, o.trace, tx.sender, tx.msgs);
  }

  /** A transaction that succeeds has executed all its messages, in their order. */
  lemma SuccessExecutesAll(env: Env, base: Store, tx: Tx)
    requires RunTx(env, base, tx).error.None?
    ensures Executes(RunTx(env, base, tx).trace, tx.sender, tx.msgs)
  {
    var inside := TransactionInTurn(env, base, tx);
    TransactionExecutes(env, base, tx, inside, RunTx(env, base, tx));
  }
}
