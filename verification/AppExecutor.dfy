/** The execution of messages over nested write buffers (grug/app/src/submessage.rs, vm.rs, app.rs). */
module AppExecutor {
  import opened Wrappers
  import opened AppStore
  import opened AppSemantics
  import opened AppTransaction

  /** Shared by everything a transaction calls, and never wound back. */
  class GasTracker {
    var meter: Meter

    constructor Limited(limit: nat)
      ensures meter == Meter(Some(limit), 0)
    {
      meter := Meter(Some(limit), 0);
    }

    constructor Limitless()
      ensures meter == LIMITLESS
    {
      meter := LIMITLESS;
    }
  }

  /** The storage and the gas tracker are left as the execution says, and its outcome is reported. */
  ghost predicate Matches(r: Run, error: Option<Error>, trace: seq<Event>, view: Store, meter: Meter) {
    r.error == error && r.trace == trace && r.store == view && r.meter == meter
  }

  /** What a loop has done so far, to be followed by `rest`. */
  ghost function SoFar(storage: BufferedStorage, gas: GasTracker, trace: seq<Event>, kept: seq<Event>): Run
    reads storage, gas
  {
    Run(None, storage.View(), gas.meter, trace, kept)
  }

  method AskHost(env: Env, storage: BufferedStorage, gas: GasTracker, depth: nat, sender: Addr, msg: Message)
    returns (target: Result<Addr, Error>, trace: seq<Event>)
    requires |storage.layers| > 0
    modifies storage, gas
    ensures storage.OnlyTopChanged(old(storage.base), old(storage.layers))
    ensures target == env.host(old(storage.View()), old(gas.meter), sender, msg).target
    ensures var r := RunHost(env, depth, old(storage.View()), old(gas.meter), sender, msg);
            Matches(r, r.error, trace, storage.View(), gas.meter)
  {
    var a := env.host(storage.View(), gas.meter, sender, msg);
    trace := [Hosted(depth, sender, msg, gas.meter, a)];
    gas.meter := a.meter;
    storage.Flush(a.writes);
    target := a.target;
  }

  /** Calls a contract and handles its response. */
  method CallContract(env: Env, storage: BufferedStorage, gas: GasTracker, depth: nat, call: Call)
    returns (error: Option<Error>, trace: seq<Event>)
    requires |storage.layers| > 0
    modifies storage, gas
    ensures storage.OnlyTopChanged(old(storage.base), old(storage.layers))
    ensures Matches(RunCall(env, depth, old(storage.View()), old(gas.meter), call),
                    error, trace, storage.View(), gas.meter)
    decreases Left(depth), 3
  {
    var a := env.call(storage.View(), gas.meter, call);
    trace := [Called(depth, call, gas.meter, a)];
    gas.meter := a.meter;
    storage.Flush(a.writes);
    match a.returned {
      case Err(e) =>
        error := Some(e);
      case Ok(response) =>
        var more;
        error, more := HandleSubmessages(env, storage, gas, depth, call.contract, response.submsgs);
        trace := trace + more;
    }
  }

  method HandleSubmessages(
    env: Env, storage: BufferedStorage, gas: GasTracker, depth: nat, sender: Addr, submsgs: seq<SubMessage>)
    returns (error: Option<Error>, trace: seq<Event>)
    requires |storage.layers| > 0
    modifies storage, gas
    ensures storage.OnlyTopChanged(old(storage.base), old(storage.layers))
    ensures Matches(RunSubMessages(env, depth, old(storage.View()), old(gas.meter), sender, submsgs),
                    error, trace, storage.View(), gas.meter)
    decreases Left(depth), 2
  {
    trace := [];
    if depth > MAX_MESSAGE_DEPTH {
      return Some(ExceedMaxMessageDepth), [];
    }
    ghost var whole := RunEach(env, depth, storage.View(), gas.meter, sender, submsgs);
    ghost var kept: seq<Event> := [];
    NothingIsNeutral(storage.View(), gas.meter, whole);
    assert submsgs[0..] == submsgs;
    for i := 0 to |submsgs|
      invariant |storage.layers| > 0
      invariant storage.OnlyTopChanged(old(storage.base), old(storage.layers))
      invariant whole == Then(SoFar(storage, gas, trace, kept),
                              RunEach(env, depth, storage.View(), gas.meter, sender, submsgs[i..]))
    {
      ghost var before := SoFar(storage, gas, trace, kept);
      ghost var one := RunSubMessage(env, depth, storage.View(), gas.meter, sender, submsgs[i]);
      assert submsgs[i..][1..] == submsgs[i + 1..];
      ThenIsAssociative(before, one, RunEach(env, depth, one.store, one.meter, sender, submsgs[i + 1..]));
      var more;
      error, more := HandleSubmessage(env, storage, gas, depth, sender, submsgs[i]);
      trace := trace + more;
      kept := kept + one.kept;
      if error.Some? {
        return;
      }
    }
    error := None;
  }

  /** Writes the buffer that was opened on these layers back after a success, and drops it after a failure. */
  method CloseBuffer(storage: BufferedStorage, keep: bool, ghost base: Store, ghost layers: seq<Batch>)
    requires |layers| > 0 && storage.OnlyTopChanged(base, layers + [map[]])
    modifies storage
    ensures storage.OnlyTopChanged(base, layers)
    ensures storage.View() == if keep then old(storage.View()) else Through(base, layers)
  {
    assert storage.layers[..|layers|] == layers;
    if keep {
      storage.Consume();
    } else {
      storage.Drop();
    }
  }

  /** Runs a submessage in a buffer of its own, and writes the buffer back only after a success. */
  method ProcessInBuffer(
    env: Env, storage: BufferedStorage, gas: GasTracker, depth: nat, sender: Addr, msg: Message)
    returns (error: Option<Error>, trace: seq<Event>)
    requires |storage.layers| > 0
    modifies storage, gas
    ensures storage.OnlyTopChanged(old(storage.base), old(storage.layers))
    ensures var r := RunMessage(env, depth, old(storage.View()), old(gas.meter), sender, msg);
            var view := if r.error.None? then r.store else old(storage.View());
            storage.View() == view && Matches(r, error, trace, r.store, gas.meter)
    decreases Left(depth), 9
  {
    storage.NewBuffer();
    error, trace := ProcessMessage(env, storage, gas, depth, sender, msg);
    CloseBuffer(storage, error.None?, old(storage.base), old(storage.layers));
  }

  /** Calls the emitter back in the cases it asked for; a failure it did not ask about is passed on. */
  method HandleSubmessage(
    env: Env, storage: BufferedStorage, gas: GasTracker, depth: nat, sender: Addr, submsg: SubMessage)
    returns (error: Option<Error>, trace: seq<Event>)
    requires |storage.layers| > 0
    requires depth <= MAX_MESSAGE_DEPTH
    modifies storage, gas
    ensures storage.OnlyTopChanged(old(storage.base), old(storage.layers))
    ensures Matches(RunSubMessage(env, depth, old(storage.View()), old(gas.meter), sender, submsg),
                    error, trace, storage.View(), gas.meter)
    decreases Left(depth), 0
  {
    error, trace := ProcessInBuffer(env, storage, gas, depth + 1, sender, submsg.msg);
    match (submsg.replyOn, error) {
      case (Success(_), None) | (Always(_), None) =>
        error, trace := CallBack(env, storage, gas, depth, sender, submsg.replyOn, Ok(trace), trace);
      case (Error(_), Some(_)) | (Always(_), Some(_)) =>
        error, trace := CallBack(env, storage, gas, depth, sender, submsg.replyOn, Err(error.value), trace);
      case (Error(_), None) | (Never, None) =>
      case (Success(_), Some(_)) | (Never, Some(_)) =>
    }
  }

  method CallBack(
    env: Env, storage: BufferedStorage, gas: GasTracker, depth: nat, sender: Addr, replyOn: ReplyOn,
    outcome: Result<seq<Event>, Error>, before: seq<Event>)
    returns (error: Option<Error>, trace: seq<Event>)
    requires |storage.layers| > 0
    requires depth <= MAX_MESSAGE_DEPTH && !replyOn.Never?
    modifies storage, gas
    ensures storage.OnlyTopChanged(old(storage.base), old(storage.layers))
    ensures var call := Call(sender, Reply(replyOn.payload, outcome, replyOn));
            var r := RunCall(env, depth + 1, old(storage.View()), old(gas.meter), call);
            trace == before + r.trace && Matches(r, error, r.trace, storage.View(), gas.meter)
    decreases Left(depth + 1), 9
  {
    var more;
    error, more := CallContract(env, storage, gas, depth + 1, Call(sender, Reply(replyOn.payload, outcome, replyOn)));
    trace := before + more;
  }

  method ProcessMessage(env: Env, storage: BufferedStorage, gas: GasTracker, depth: nat, sender: Addr, msg: Message)
    returns (error: Option<Error>, trace: seq<Event>)
    requires |storage.layers| > 0
    modifies storage, gas
    ensures storage.OnlyTopChanged(old(storage.base), old(storage.layers))
    ensures Matches(RunMessage(env, depth, old(storage.View()), old(gas.meter), sender, msg),
                    error, trace, storage.View(), gas.meter)
    decreases Left(depth), 8
  {
    if msg.Transfers? {
      error, trace := DoTransfer(env, storage, gas, depth, sender, msg.transfers, true);
      return;
    }
    var target;
    target, trace := AskHost(env, storage, gas, depth, sender, msg);
    if target.Err? {
      return Some(target.error), trace;
    }
    if msg.Configure? || msg.Upload? {
      return None, trace;
    }
    var more;
    error, more := FundAndCall(env, storage, gas, depth, sender, target.value, msg);
    trace := trace + more;
  }

  method FundAndCall(
    env: Env, storage: BufferedStorage, gas: GasTracker, depth: nat, sender: Addr, target: Addr, msg: Message)
    returns (error: Option<Error>, trace: seq<Event>)
    requires |storage.layers| > 0
    requires msg.Instantiate? || msg.Execute? || msg.Migrate?
    modifies storage, gas
    ensures storage.OnlyTopChanged(old(storage.base), old(storage.layers))
    ensures Matches(RunFundedCall(env, depth, old(storage.View()), old(gas.meter), sender, target, msg),
                    error, trace, storage.View(), gas.meter)
    decreases Left(depth), 7
  {
    trace := [];
    if !msg.Migrate? && msg.funds != map[] {
      error, trace := DoTransfer(env, storage, gas, depth, sender, [Transfer(target, msg.funds)], false);
      if error.Some? {
        return;
      }
    }
    var more;
    error, more := CallContract(env, storage, gas, depth, Call(target, EntryOf(sender, msg)));
    trace := trace + more;
  }

  method DoTransfer(
    env: Env, storage: BufferedStorage, gas: GasTracker, depth: nat, sender: Addr, transfers: seq<Transfer>,
    doReceive: bool)
    returns (error: Option<Error>, trace: seq<Event>)
    requires |storage.layers| > 0
    modifies storage, gas
    ensures storage.OnlyTopChanged(old(storage.base), old(storage.layers))
    ensures Matches(RunTransfer(env, depth, old(storage.View()), old(gas.meter), sender, transfers, doReceive),
                    error, trace, storage.View(), gas.meter)
    decreases Left(depth), 6
  {
    var target;
    target, trace := AskHost(env, storage, gas, depth, sender, Transfers(transfers));
    if target.Err? {
      return Some(target.error), trace;
    }
    var more;
    error, more := CallContract(env, storage, gas, depth, Call(target.value, BankExecute(sender, transfers)));
    trace := trace + more;
    if error.Some? || !doReceive {
      return;
    }
    error, more := TellRecipients(env, storage, gas, depth, sender, transfers);
    trace := trace + more;
  }

  method TellRecipients(
    env: Env, storage: BufferedStorage, gas: GasTracker, depth: nat, sender: Addr, transfers: seq<Transfer>)
    returns (error: Option<Error>, trace: seq<Event>)
    requires |storage.layers| > 0
    modifies storage, gas
    ensures storage.OnlyTopChanged(old(storage.base), old(storage.layers))
    ensures Matches(RunReceives(env, depth, old(storage.View()), old(gas.meter), sender, transfers),
                    error, trace, storage.View(), gas.meter)
    decreases Left(depth), 5
  {
    trace := [];
    ghost var whole := RunReceives(env, depth, storage.View(), gas.meter, sender, transfers);
    ghost var kept: seq<Event> := [];
    NothingIsNeutral(storage.View(), gas.meter, whole);
    assert transfers[0..] == transfers;
    for i := 0 to |transfers|
      invariant |storage.layers| > 0
      invariant storage.OnlyTopChanged(old(storage.base), old(storage.layers))
      invariant whole == Then(SoFar(storage, gas, trace, kept),
                              RunReceives(env, depth, storage.View(), gas.meter, sender, transfers[i..]))
    {
      ghost var before := SoFar(storage, gas, trace, kept);
      ghost var one := RunReceive(env, depth, storage.View(), gas.meter, sender, transfers[i]);
      assert transfers[i..][1..] == transfers[i + 1..];
      ThenIsAssociative(before, one, RunReceives(env, depth, one.store, one.meter, sender, transfers[i + 1..]));
      var more;
      error, more := TellRecipient(env, storage, gas, depth, sender, transfers[i]);
      trace := trace + more;
      kept := kept + one.kept;
      if error.Some? {
        return;
      }
    }
    error := None;
  }

  method TellRecipient(
    env: Env, storage: BufferedStorage, gas: GasTracker, depth: nat, sender: Addr, transfer: Transfer)
    returns (error: Option<Error>, trace: seq<Event>)
    requires |storage.layers| > 0
    modifies storage, gas
    ensures storage.OnlyTopChanged(old(storage.base), old(storage.layers))
    ensures Matches(RunReceive(env, depth, old(storage.View()), old(gas.meter), sender, transfer),
                    error, trace, storage.View(), gas.meter)
    decreases Left(depth), 4
  {
    if !env.known(storage.View(), transfer.to) {
      return None, [];
    }
    error, trace := CallContract(env, storage, gas, depth, Call(transfer.to, Receive(sender, transfer.coins)));
  }

  // ---- transactions ----

  method DoWithholdFee(env: Env, storage: BufferedStorage, tx: Tx)
    returns (error: Option<Error>, trace: seq<Event>)
    requires |storage.layers| > 0
    modifies storage
    ensures storage.OnlyTopChanged(old(storage.base), old(storage.layers))
    ensures var r := Withhold(env, old(storage.View()), tx);
            Matches(r, error, trace, storage.View(), r.meter)
  {
    var taxman := env.taxman(storage.View());
    if taxman.Err? {
      return Some(taxman.error), [];
    }
    var gas := new GasTracker.Limitless();
    error, trace := CallContract(env, storage, gas, 0, Call(taxman.value, WithholdFee(tx)));
  }

  method DoAuthenticate(env: Env, storage: BufferedStorage, gas: GasTracker, tx: Tx)
    returns (error: Option<Error>, backrun: bool, trace: seq<Event>)
    requires |storage.layers| > 0
    requires gas.meter == Meter(Some(tx.gasLimit), 0)
    modifies storage, gas
    ensures storage.OnlyTopChanged(old(storage.base), old(storage.layers))
    ensures Matches(AuthenticateRun(env, old(storage.View()), tx), error, trace, storage.View(), gas.meter)
    ensures backrun == WantsBackrun(env, old(storage.View()), tx)
  {
    backrun := WantsBackrun(env, storage.View(), tx);
    error, trace := CallContract(env, storage, gas, 0, Call(tx.sender, Authenticate(tx)));
  }

  /** Stops at the first message that fails. */
  method ProcessMessages(env: Env, storage: BufferedStorage, gas: GasTracker, sender: Addr, msgs: seq<Message>)
    returns (error: Option<Error>, trace: seq<Event>)
    requires |storage.layers| > 0
    modifies storage, gas
    ensures storage.OnlyTopChanged(old(storage.base), old(storage.layers))
    ensures Matches(RunMessages(env, old(storage.View()), old(gas.meter), sender, msgs),
                    error, trace, storage.View(), gas.meter)
  {
    trace := [];
    ghost var whole := RunMessages(env, storage.View(), gas.meter, sender, msgs);
    ghost var kept: seq<Event> := [];
    NothingIsNeutral(storage.View(), gas.meter, whole);
    assert msgs[0..] == msgs;
    for i := 0 to |msgs|
      invariant |storage.layers| > 0
      invariant storage.OnlyTopChanged(old(storage.base), old(storage.layers))
      invariant whole == Then(SoFar(storage, gas, trace, kept),
                              RunMessages(env, storage.View(), gas.meter, sender, msgs[i..]))
    {
      ghost var before := SoFar(storage, gas, trace, kept);
      ghost var one := RunMessage(env, 0, storage.View(), gas.meter, sender, msgs[i]);
      assert msgs[i..][1..] == msgs[i + 1..];
      ThenIsAssociative(before, one, RunMessages(env, one.store, one.meter, sender, msgs[i + 1..]));
      var more;
      error, more := ProcessMessage(env, storage, gas, 0, sender, msgs[i]);
      trace := trace + more;
      kept := kept + one.kept;
      if error.Some? {
        return;
      }
    }
    error := None;
  }

  method ProcessMessagesThenBackrun(env: Env, storage: BufferedStorage, gas: GasTracker, tx: Tx, backrun: bool)
    returns (error: Option<Error>, trace: seq<Event>)
    requires |storage.layers| > 0
    modifies storage, gas
    ensures storage.OnlyTopChanged(old(storage.base), old(storage.layers))
    ensures Matches(RunMessagesThenBackrun(env, old(storage.View()), old(gas.meter), tx, backrun),
                    error, trace, storage.View(), gas.meter)
  {
    error, trace := ProcessMessages(env, storage, gas, tx.sender, tx.msgs);
    if error.None? && backrun {
      var more;
      error, more := CallContract(env, storage, gas, 0, Call(tx.sender, Backrun(tx)));
      trace := trace + more;
    }
  }

  /** Closes the fee buffer: its writes are kept only if the fee could be settled. */
  method ProcessFinalizeFee(
    env: Env, storage: BufferedStorage, gas: GasTracker, tx: Tx, soFar: seq<Event>, failure: Option<Error>)
    returns (error: Option<Error>, trace: seq<Event>)
    requires |storage.layers| > 0
    modifies storage
    ensures var beneath := old(storage.layers)[..|old(storage.layers)| - 1];
            var r := Finalize(env, old(storage.View()), tx, gas.meter, soFar, failure);
            && storage.OnlyTopChanged(old(storage.base), beneath)
            && storage.View() == (if r.error.None? then r.store else Through(old(storage.base), beneath))
            && error == (if r.error.None? then failure else r.error)
            && trace == soFar + r.trace
  {
    var taxman := env.taxman(storage.View());
    if taxman.Err? {
      storage.Drop();
      return Some(taxman.error), soFar;
    }
    var limitless := new GasTracker.Limitless();
    var more;
    error, more := CallContract(env, storage, limitless, 0,
                                Call(taxman.value, FinalizeFee(tx, gas.meter, soFar, failure)));
    trace := soFar + more;
    if error.None? {
      storage.Consume();
      error := failure;
    } else {
      storage.Drop();
    }
  }

  /** Works in an empty buffer and closes it, keeping its writes only after a success. */
  method ProcessAndClose(
    env: Env, storage: BufferedStorage, gas: GasTracker, tx: Tx, backrun: bool,
    ghost base: Store, ghost layers: seq<Batch>)
    returns (error: Option<Error>, trace: seq<Event>)
    requires storage.OpenedOn(base, layers)
    modifies storage, gas
    ensures storage.OnlyTopChanged(base, layers)
    ensures var r := RunMessagesThenBackrun(env, old(storage.View()), old(gas.meter), tx, backrun);
            var view := if r.error.None? then r.store else old(storage.View());
            storage.View() == view && Matches(r, error, trace, r.store, gas.meter)
  {
    ghost var beneath := storage.layers[..|layers|];
    assert storage.layers == beneath + [map[]];
    assert beneath[..|layers| - 1] == layers[..|layers| - 1];
    EmptyBufferIsInvisible(storage.base, beneath);
    error, trace := ProcessMessagesThenBackrun(env, storage, gas, tx, backrun);
    if error.Some? {
      storage.Drop();
    } else {
      storage.Consume();
    }
  }

  /**
   * Authenticates in a buffer on top of the one for the fee, and leaves it open and empty after a
   * success. It is also empty while the fee is withheld, so it is opened only here.
   */
  method OpenAndAuthenticate(env: Env, storage: BufferedStorage, gas: GasTracker, tx: Tx)
    returns (error: Option<Error>, backrun: bool, trace: seq<Event>)
    requires |storage.layers| > 0
    requires gas.meter == Meter(Some(tx.gasLimit), 0)
    modifies storage, gas
    ensures backrun == WantsBackrun(env, old(storage.View()), tx)
    ensures var r := AuthenticateRun(env, old(storage.View()), tx);
            && Matches(r, error, trace, r.store, gas.meter)
            && storage.View() == if error.None? then r.store else old(storage.View())
    ensures error.Some? ==> storage.OnlyTopChanged(old(storage.base), old(storage.layers))
    ensures error.None? ==> storage.OpenedOn(old(storage.base), old(storage.layers))
  {
    storage.NewBuffer();
    error, backrun, trace := DoAuthenticate(env, storage, gas, tx);
    if error.Some? {
      storage.Drop();
    } else {
      storage.Commit();
    }
  }

  method AuthenticateAndProcess(env: Env, storage: BufferedStorage, gas: GasTracker, tx: Tx)
    returns (error: Option<Error>, trace: seq<Event>)
    requires |storage.layers| > 0
    requires gas.meter == Meter(Some(tx.gasLimit), 0)
    modifies storage, gas
    ensures storage.OnlyTopChanged(old(storage.base), old(storage.layers))
    ensures Matches(RunInside(env, old(storage.View()), tx), error, trace, storage.View(), gas.meter)
  {
    var backrun;
    error, backrun, trace := OpenAndAuthenticate(env, storage, gas, tx);
    if error.None? {
      var more;
      error, more := ProcessAndClose(env, storage, gas, tx, backrun, old(storage.base), old(storage.layers));
      trace := trace + more;
    }
  }

  method ProcessTx(env: Env, storage: BufferedStorage, tx: Tx) returns (error: Option<Error>, trace: seq<Event>)
    modifies storage
    ensures storage.OnlyTopChanged(old(storage.base), old(storage.layers))
    ensures var o := RunTx(env, old(storage.View()), tx);
            storage.View() == o.store && error == o.error && trace == o.trace
  {
    var gas := new GasTracker.Limited(tx.gasLimit);
    storage.NewBuffer();
    error, trace := DoWithholdFee(env, storage, tx);
    if error.Some? {
      storage.Drop();
      return;
    }
    var more;
    error, more := AuthenticateAndProcess(env, storage, gas, tx);
    error, trace := ProcessFinalizeFee(env, storage, gas, tx, trace + more, error);
  }
}
