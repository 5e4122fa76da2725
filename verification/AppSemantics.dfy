/** What executing a message means, by value and without buffers (grug/app/src/submessage.rs, vm.rs, app.rs). */
module AppSemantics {
  import opened Wrappers
  import opened Sequences
  import opened AppStore

  /** How deeply messages may be nested. */
  const MAX_MESSAGE_DEPTH: nat := 30

  type Addr = string

  type Coins = map<string, nat>

  datatype Transfer = Transfer(to: Addr, coins: Coins)

  datatype Message =
    | Configure(body: Bytes)
    | Transfers(transfers: seq<Transfer>)
    | Upload(code: Bytes)
    | Instantiate(body: Bytes, funds: Coins)
    | Execute(contract: Addr, body: Bytes, funds: Coins)
    | Migrate(contract: Addr, body: Bytes)

  /** In which outcome of a submessage its emitter is called back. */
  datatype ReplyOn = Success(payload: Bytes) | Error(payload: Bytes) | Always(payload: Bytes) | Never

  datatype SubMessage = SubMessage(msg: Message, replyOn: ReplyOn)

  datatype Error = ExceedMaxMessageDepth | Reported(text: string)

  /** The entry points of contracts that the host calls. */
  datatype Entry =
    | BankExecute(from: Addr, transfers: seq<Transfer>)
    | Receive(from: Addr, coins: Coins)
    | OnInstantiate(sender: Addr, body: Bytes, funds: Coins)
    | OnExecute(sender: Addr, body: Bytes, funds: Coins)
    | OnMigrate(sender: Addr, body: Bytes)
    | Reply(payload: Bytes, outcome: Result<seq<Event>, Error>, replyOn: ReplyOn)
    | WithholdFee(tx: Tx)
    | Authenticate(tx: Tx)
    | Backrun(tx: Tx)
    | FinalizeFee(tx: Tx, spent: Meter, soFar: seq<Event>, failure: Option<Error>)

  datatype Call = Call(contract: Addr, entry: Entry)

  datatype Response = Response(submsgs: seq<SubMessage>, requestBackrun: bool, events: Bytes)

  /** What a contract wrote, even if it then failed, and what it returned. */
  datatype Answer = Answer(writes: Batch, meter: Meter, returned: Result<Response, Error>)

  /** What the host itself wrote for a message, and the contract to call next. */
  datatype HostAnswer = HostAnswer(writes: Batch, meter: Meter, target: Result<Addr, Error>)

  datatype Meter = Meter(limit: Option<nat>, used: nat)

  datatype Event =
    | Called(depth: nat, call: Call, before: Meter, answer: Answer)
    | Hosted(depth: nat, sender: Addr, msg: Message, before: Meter, result: HostAnswer)
  {
    function Writes(): Batch {
      match this
      case Called(_, _, _, answer) => answer.writes
      case Hosted(_, _, _, _, result) => result.writes
    }

    predicate Succeeded() {
      match this
      case Called(_, _, _, answer) => answer.returned.Ok?
      case Hosted(_, _, _, _, result) => result.target.Ok?
    }
  }

  datatype Tx = Tx(sender: Addr, msgs: seq<Message>, gasLimit: nat, body: Bytes)

  /** Everything the execution depends on and does not define: the contracts' code and the host's own records. */
  datatype Env = Env(
    call: (Store, Meter, Call) -> Answer,
    host: (Store, Meter, Addr, Message) -> HostAnswer,
    known: (Store, Addr) -> bool,
    taxman: Store -> Result<Addr, Error>)

  /**
   * An execution: how it ended, the store it left behind, what it consumed, everything that was
   * called, and among that the calls whose writes are still in the store.
   */
  datatype Run = Run(error: Option<Error>, store: Store, meter: Meter, trace: seq<Event>, kept: seq<Event>)

  /** An execution that went on after an earlier one. */
  function Then(first: Run, second: Run): Run {
    Run(second.error, second.store, second.meter, first.trace + second.trace, first.kept + second.kept)
  }

  /** An execution whose writes are thrown away. */
  function Undone(store: Store, run: Run): Run {
    Run(run.error, store, run.meter, run.trace, [])
  }

  function Nothing(store: Store, meter: Meter): Run {
    Run(None, store, meter, [], [])
  }

  function Failed(store: Store, meter: Meter, error: Error): Run {
    Run(Some(error), store, meter, [], [])
  }

  // ---- what holds of every execution ----

  /** Whether the event is what its call answers on this store. */
  ghost predicate Happens(env: Env, store: Store, e: Event) {
    match e
    case Called(_, call, before, answer) => answer == env.call(store, before, call)
    case Hosted(_, sender, msg, before, result) => result == env.host(store, before, sender, msg)
  }

  /** The store after making just these calls one after another. */
  function Replayed(store: Store, events: seq<Event>): Store
    decreases |events|
  {
    if events == [] then store else Replayed(Apply(store, events[0].Writes()), events[1..])
  }

  /** Making just these calls one after another, every call answers the way it did. */
  ghost predicate Replays(env: Env, store: Store, events: seq<Event>)
    decreases |events|
  {
    events == [] ||
    (Happens(env, store, events[0]) && Replays(env, Apply(store, events[0].Writes()), events[1..]))
  }

  /** Nothing failed, and no contract ran beyond the depth limit. */
  predicate Clean(events: seq<Event>) {
    forall i | 0 <= i < |events| ::
      events[i].Succeeded() && (events[i].Called? ==> events[i].depth <= MAX_MESSAGE_DEPTH)
  }

  /** Nothing even starts more than one level beyond the limit, unless that is where it all starts. */
  predicate DepthsWithin(events: seq<Event>, from: nat) {
    forall i | 0 <= i < |events| ::
      from <= events[i].depth && (events[i].depth <= MAX_MESSAGE_DEPTH + 1 || events[i].depth == from)
  }

  /**
   * The store is explained by the kept calls alone: they are among the calls made and in the same
   * order, and making them one after another without the rest gives the same answers and the same
   * store.
   */
  ghost predicate Explained(env: Env, depth: nat, store: Store, r: Run) {
    && IsSubsequence(r.kept, r.trace)
    && Replays(env, store, r.kept)
    && r.store == Replayed(store, r.kept)
    && DepthsWithin(r.trace, depth)
  }

  /**
   * And after a success, every kept call succeeded and ran within the depth limit. Where no call
   * at all failed or ran too deep, that is a success and everything is kept.
   */
  ghost predicate Sound(env: Env, depth: nat, store: Store, r: Run) {
    && Explained(env, depth, store, r)
    && (r.error.None? ==> Clean(r.kept))
    && (Clean(r.trace) ==> r.error.None? && r.kept == r.trace)
  }

  lemma OneEventReplays(env: Env, store: Store, e: Event)
    requires Happens(env, store, e)
    ensures IsSubsequence([e], [e]) && Replays(env, store, [e])
    ensures Replayed(store, [e]) == Apply(store, e.Writes())
  {
    assert [e][1..] == [];
    assert IsSubsequence([e][1..], [e][1..]);
  }

  lemma {:induction false} ReplaysConcat(env: Env, store: Store, first: seq<Event>, second: seq<Event>)
    requires Replays(env, store, first) && Replays(env, Replayed(store, first), second)
    ensures Replays(env, store, first + second)
    ensures Replayed(store, first + second) == Replayed(Replayed(store, first), second)
    decreases |first|
  {
    if first == [] {
      assert first + second == second;
    } else {
      assert (first + second)[1..] == first[1..] + second;
      ReplaysConcat(env, Apply(store, first[0].Writes()), first[1..], second);
    }
  }

  /** Two explained executions, the second where the first left off, are explained together. */
  lemma ThenIsExplained(env: Env, depth: nat, store: Store, first: Run, deeper: nat, second: Run)
    requires Explained(env, depth, store, first) || Explained(env, deeper, store, first)
    requires deeper == depth || (deeper == depth + 1 && deeper <= MAX_MESSAGE_DEPTH + 1)
    requires Explained(env, deeper, first.store, second)
    ensures Explained(env, depth, store, Then(first, second))
    ensures Clean(first.kept) && Clean(second.kept) ==> Clean(Then(first, second).kept)
    ensures Clean(Then(first, second).trace) ==> Clean(first.trace) && Clean(second.trace)
  {
    if Clean(first.trace + second.trace) { CleanParts(first.trace, second.trace); }
    SubsequencesConcat(first.kept, first.trace, second.kept, second.trace);
    ReplaysConcat(env, store, first.kept, second.kept);
  }

  lemma CleanParts(first: seq<Event>, second: seq<Event>)
    requires Clean(first + second)
    ensures Clean(first) && Clean(second)
  {
    assert forall i | 0 <= i < |first| :: first[i] == (first + second)[i];
    assert forall i | 0 <= i < |second| :: second[i] == (first + second)[|first| + i];
  }

  lemma UndoneIsSound(env: Env, depth: nat, store: Store, r: Run)
    requires Sound(env, depth, store, r) && r.error.Some?
    ensures Sound(env, depth, store, Undone(store, r))
  {
  }

  lemma NothingIsNeutral(store: Store, meter: Meter, r: Run)
    ensures Then(Nothing(store, meter), r) == r
  {
    assert [] + r.trace == r.trace && [] + r.kept == r.kept;
  }

  lemma ThenIsAssociative(a: Run, b: Run, c: Run)
    ensures Then(Then(a, b), c) == Then(a, Then(b, c))
  {
    assert (a.trace + b.trace) + c.trace == a.trace + (b.trace + c.trace);
    assert (a.kept + b.kept) + c.kept == a.kept + (b.kept + c.kept);
  }

  // ---- single calls ----

  function RunHost(env: Env, depth: nat, store: Store, meter: Meter, sender: Addr, msg: Message): (r: Run)
    ensures Sound(env, depth, store, r)
  {
    var a := env.host(store, meter, sender, msg);
    var here := [Hosted(depth, sender, msg, meter, a)];
    OneEventReplays(env, store, here[0]);
    Run(if a.target.Ok? then None else Some(a.target.error), Apply(store, a.writes), a.meter, here, here)
  }

  /** One call of a contract, without the submessages it returns. */
  function RunAlone(env: Env, depth: nat, store: Store, meter: Meter, call: Call): (r: Run)
    ensures Explained(env, depth, store, r)
    ensures r.error.None? && depth <= MAX_MESSAGE_DEPTH ==> Clean(r.kept)
  {
    var a := env.call(store, meter, call);
    var here := [Called(depth, call, meter, a)];
    OneEventReplays(env, store, here[0]);
    Run(if a.returned.Ok? then None else Some(a.returned.error), Apply(store, a.writes), a.meter, here, here)
  }

  // ---- the recursion ----

  /** What is left under the depth limit. */
  function Left(depth: nat): nat {
    if depth > MAX_MESSAGE_DEPTH then 0 else MAX_MESSAGE_DEPTH + 1 - depth
  }

  /** A contract call and then all submessages it returned. */
  function RunCall(env: Env, depth: nat, store: Store, meter: Meter, call: Call): (r: Run)
    ensures Sound(env, depth, store, r)
    ensures depth > MAX_MESSAGE_DEPTH ==> r.error.Some?
    decreases Left(depth), 3
  {
    var first := RunAlone(env, depth, store, meter, call);
    var a := env.call(store, meter, call);
    match a.returned
    case Err(_) => first
    case Ok(response) =>
      var rest := RunSubMessages(env, depth, first.store, a.meter, call.contract, response.submsgs);
      ThenIsExplained(env, depth, store, first, depth, rest);
      Then(first, rest)
  }

  function RunSubMessages(
    env: Env, depth: nat, store: Store, meter: Meter, sender: Addr, submsgs: seq<SubMessage>): (r: Run)
    ensures depth <= MAX_MESSAGE_DEPTH ==> Sound(env, depth, store, r)
    ensures depth > MAX_MESSAGE_DEPTH ==> r == Failed(store, meter, ExceedMaxMessageDepth)
    decreases Left(depth), 2
  {
    if depth > MAX_MESSAGE_DEPTH then
      Failed(store, meter, ExceedMaxMessageDepth)
    else
      RunEach(env, depth, store, meter, sender, submsgs)
  }

  /** Stops at the first submessage whose failure nobody handles; what the ones before it wrote stays. */
  function RunEach(
    env: Env, depth: nat, store: Store, meter: Meter, sender: Addr, submsgs: seq<SubMessage>): (r: Run)
    requires depth <= MAX_MESSAGE_DEPTH
    ensures Sound(env, depth, store, r)
    decreases Left(depth), 1, |submsgs|
  {
    if submsgs == [] then
      Nothing(store, meter)
    else
      var first := RunSubMessage(env, depth, store, meter, sender, submsgs[0]);
      if first.error.Some? then
        first
      else
        var rest := RunEach(env, depth, first.store, first.meter, sender, submsgs[1..]);
        ThenIsExplained(env, depth, store, first, depth, rest);
        Then(first, rest)
  }

  /** All of a submessage's writes or none, then those of the reply if one is asked for. */
  function RunSubMessage(
    env: Env, depth: nat, store: Store, meter: Meter, sender: Addr, submsg: SubMessage): (r: Run)
    requires depth <= MAX_MESSAGE_DEPTH
    ensures Sound(env, depth, store, r)
    decreases Left(depth), 0
  {
    var run := RunMessage(env, depth + 1, store, meter, sender, submsg.msg);
    match run.error
    case None =>
      if submsg.replyOn.Success? || submsg.replyOn.Always? then
        var entry := Reply(submsg.replyOn.payload, Ok(run.trace), submsg.replyOn);
        var reply := RunCall(env, depth + 1, run.store, run.meter, Call(sender, entry));
        ThenIsExplained(env, depth, store, run, depth + 1, reply);
        Then(run, reply)
      else
        run
    case Some(error) =>
      UndoneIsSound(env, depth + 1, store, run);
      if submsg.replyOn.Error? || submsg.replyOn.Always? then
        var entry := Reply(submsg.replyOn.payload, Err(error), submsg.replyOn);
        var reply := RunCall(env, depth + 1, store, run.meter, Call(sender, entry));
        ThenIsExplained(env, depth, store, Undone(store, run), depth + 1, reply);
        Then(Undone(store, run), reply)
      else
        Undone(store, run)
  }

  function RunMessage(
    env: Env, depth: nat, store: Store, meter: Meter, sender: Addr, msg: Message): (r: Run)
    ensures Sound(env, depth, store, r)
    decreases Left(depth), 8
  {
    if msg.Transfers? then
      RunTransfer(env, depth, store, meter, sender, msg.transfers, true)
    else
      var host := RunHost(env, depth, store, meter, sender, msg);
      if msg.Configure? || msg.Upload? || host.error.Some? then
        host
      else
        var target := env.host(store, meter, sender, msg).target.value;
        var rest := RunFundedCall(env, depth, host.store, host.meter, sender, target, msg);
        ThenIsExplained(env, depth, store, host, depth, rest);
        Then(host, rest)
  }

  /** The funds of a message are sent before its contract is called; the recipient is not told of them. */
  function RunFundedCall(
    env: Env, depth: nat, store: Store, meter: Meter, sender: Addr, target: Addr, msg: Message): (r: Run)
    requires msg.Instantiate? || msg.Execute? || msg.Migrate?
    ensures Sound(env, depth, store, r)
    decreases Left(depth), 7
  {
    if msg.Migrate? || msg.funds == map[] then
      RunCall(env, depth, store, meter, Call(target, EntryOf(sender, msg)))
    else
      var paid := RunTransfer(env, depth, store, meter, sender, [Transfer(target, msg.funds)], false);
      if paid.error.Some? then
        paid
      else
        var rest := RunCall(env, depth, paid.store, paid.meter, Call(target, EntryOf(sender, msg)));
        ThenIsExplained(env, depth, store, paid, depth, rest);
        Then(paid, rest)
  }

  function EntryOf(sender: Addr, msg: Message): Entry
    requires msg.Instantiate? || msg.Execute? || msg.Migrate?
  {
    match msg
    case Instantiate(body, funds) => OnInstantiate(sender, body, funds)
    case Execute(_, body, funds) => OnExecute(sender, body, funds)
    case Migrate(_, body) => OnMigrate(sender, body)
  }

  /** The bank moves the coins, then each recipient that exists is told. */
  function RunTransfer(
    env: Env, depth: nat, store: Store, meter: Meter, sender: Addr, transfers: seq<Transfer>, tell: bool): (r: Run)
    ensures Sound(env, depth, store, r)
    decreases Left(depth), 6
  {
    var host := RunHost(env, depth, store, meter, sender, Transfers(transfers));
    if host.error.Some? then
      host
    else
      var bank := env.host(store, meter, sender, Transfers(transfers)).target.value;
      var moved := RunCall(env, depth, host.store, host.meter, Call(bank, BankExecute(sender, transfers)));
      ThenIsExplained(env, depth, store, host, depth, moved);
      if moved.error.Some? || !tell then
        Then(host, moved)
      else
        var told := RunReceives(env, depth, moved.store, moved.meter, sender, transfers);
        ThenIsExplained(env, depth, store, Then(host, moved), depth, told);
        Then(Then(host, moved), told)
  }

  function RunReceives(
    env: Env, depth: nat, store: Store, meter: Meter, sender: Addr, transfers: seq<Transfer>): (r: Run)
    ensures Sound(env, depth, store, r)
    decreases Left(depth), 5, |transfers|
  {
    if transfers == [] then
      Nothing(store, meter)
    else
      var told := RunReceive(env, depth, store, meter, sender, transfers[0]);
      if told.error.Some? then
        told
      else
        var rest := RunReceives(env, depth, told.store, told.meter, sender, transfers[1..]);
        ThenIsExplained(env, depth, store, told, depth, rest);
        Then(told, rest)
  }

  /** A recipient that does not exist is not told. */
  function RunReceive(
    env: Env, depth: nat, store: Store, meter: Meter, sender: Addr, transfer: Transfer): (r: Run)
    ensures Sound(env, depth, store, r)
    decreases Left(depth), 4
  {
    if env.known(store, transfer.to) then
      RunCall(env, depth, store, meter, Call(transfer.to, Receive(sender, transfer.coins)))
    else
      Nothing(store, meter)
  }
}
