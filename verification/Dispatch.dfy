/**
 The non-streaming dispatcher: reserve, select, pay, call, commit, record, with a refund when anything fails before
 the commit. One dispatch as a method on the wallet, and any number of them interleaved.
 */
module Dispatch {
  import opened Wrappers
  import opened Wallet

  // ----------------------------------------------------------------------------------------------
  // One dispatch
  // ----------------------------------------------------------------------------------------------

  datatype DispatchError =
    | ModelNotFound
    | InsufficientBalance(error: BalanceInsufficient)
    | NoHealthyNodes
    | UpstreamError
    | PaymentFailed
    | MissingUsage
    | CommitFailed
    | RecordFailed

  /** What the rest of the system does in one dispatch; `billed` is None when the prices no longer list the model. */
  datatype Env = Env(
    estimate: Option<nat>,
    nodeSelected: bool,
    quoteCached: bool,
    paymentCreated: bool,
    callSucceeded: bool,
    usageReported: bool,
    billed: Option<nat>,
    commit: Fault,
    recordInserted: bool,
    refund: Fault)

  /** The first thing to go wrong between the reservation and the commit. */
  function BeforeCommit(env: Env): (r: Option<DispatchError>)
    ensures r.None? ==> env.billed.Some?
  {
    if !env.nodeSelected then Some(NoHealthyNodes)
    else if !env.quoteCached then Some(UpstreamError)
    else if !env.paymentCreated then Some(PaymentFailed)
    else if !env.callSucceeded then Some(UpstreamError)
    else if !env.usageReported then Some(MissingUsage)
    else if env.billed.None? then Some(ModelNotFound)
    else None
  }

  /** The error names the first step that failed. */
  lemma FirstFailureNamed(env: Env)
    ensures BeforeCommit(env) == Some(NoHealthyNodes) <==> !env.nodeSelected
    ensures BeforeCommit(env) == Some(UpstreamError) <==>
      env.nodeSelected && (!env.quoteCached || (env.paymentCreated && !env.callSucceeded))
    ensures BeforeCommit(env) == Some(PaymentFailed) <==> env.nodeSelected && env.quoteCached && !env.paymentCreated
    ensures BeforeCommit(env) == Some(MissingUsage) <==>
      env.nodeSelected && env.quoteCached && env.paymentCreated && env.callSucceeded && !env.usageReported
    ensures BeforeCommit(env).None? <==>
      && env.nodeSelected && env.quoteCached && env.paymentCreated && env.callSucceeded && env.usageReported
      && env.billed.Some?
    ensures BeforeCommit(env) == Some(ModelNotFound) <==>
      && env.nodeSelected && env.quoteCached && env.paymentCreated && env.callSucceeded && env.usageReported
      && env.billed.None?
  {
  }

  /** The try block. `handle` and `committed` are what the catch block goes by. */
  method TryDispatch(wallet: PrepaidWallet, callerId: CallerId, workId: WorkId, estCents: nat, env: Env)
    returns (r: Result<nat, DispatchError>, handle: Option<WorkId>, committed: bool)
    modifies wallet
    ensures var reserved := Reserve(old(wallet.Contents()), callerId, workId, estCents);
      && (reserved.Err? ==>
            handle == None && !committed && r == Err(InsufficientBalance(reserved.error))
            && wallet.Contents() == old(wallet.Contents()))
      && (reserved.Ok? ==>
            && handle == Some(workId)
            && (committed <==> BeforeCommit(env).None? && env.commit.NoFault?)
            && (r.Ok? <==> committed && env.recordInserted)
            && (r.Ok? ==> r.value == env.billed.value)
            && (BeforeCommit(env).Some? ==> r == Err(BeforeCommit(env).value))
            && (BeforeCommit(env).None? && r.Err? ==> r.error == if committed then RecordFailed else CommitFailed)
            && wallet.Contents() ==
               if BeforeCommit(env).None? && !env.commit.ThrowsBefore?
               then Commit(reserved.value, workId, env.billed.value) else reserved.value)
  {
    handle, committed := None, false;
    var reserved := wallet.DoReserve(callerId, workId, estCents);
    if reserved.Err? {
      return Err(InsufficientBalance(reserved.error)), handle, committed;
    }
    handle := Some(reserved.value);
    if !env.nodeSelected {
      return Err(NoHealthyNodes), handle, committed;
    }
    if !env.quoteCached {
      return Err(UpstreamError), handle, committed;
    }
    if !env.paymentCreated {
      return Err(PaymentFailed), handle, committed;
    }
    if !env.callSucceeded {
      return Err(UpstreamError), handle, committed;
    }
    if !env.usageReported {
      return Err(MissingUsage), handle, committed;
    }
    if env.billed.None? {
      return Err(ModelNotFound), handle, committed;
    }
    if env.commit.ThrowsBefore? {
      return Err(CommitFailed), handle, committed;
    }
    wallet.DoCommit(workId, env.billed.value);
    if env.commit.ThrowsAfter? {
      return Err(CommitFailed), handle, committed;
    }
    committed := true;
    if !env.recordInserted {
      return Err(RecordFailed), handle, committed;
    }
    return Ok(env.billed.value), handle, committed;
  }

  predicate Reserves(l: Ledger, callerId: CallerId, workId: WorkId, env: Env) {
    env.estimate.Some? && Reserve(l, callerId, workId, env.estimate.value).Ok?
  }

  /** The commit of a dispatch that reserved takes effect, even if it throws afterwards. */
  predicate Charges(env: Env) {
    BeforeCommit(env).None? && !env.commit.ThrowsBefore?
  }

  /** What a dispatch takes from its caller: min(reserved, billed) once the commit took effect, else nothing, unless
      the refund is lost. */
  function Taken(l: Ledger, callerId: CallerId, workId: WorkId, env: Env): nat {
    if !Reserves(l, callerId, workId, env) then 0
    else if Charges(env) then
      if env.billed.value < env.estimate.value then env.billed.value else env.estimate.value
    else if env.refund.ThrowsBefore? then env.estimate.value
    else 0
  }

  /** The ledger behind a dispatch: what was reserved, committed unless the commit did not take effect, then refunded
      unless the refund did not. */
  function LedgerOf(l: Ledger, callerId: CallerId, workId: WorkId, env: Env): Ledger {
    if !Reserves(l, callerId, workId, env) then l
    else
      var held := Reserve(l, callerId, workId, env.estimate.value).value;
      if Charges(env) then Commit(held, workId, env.billed.value)
      else if env.refund.ThrowsBefore? then held
      else Refund(held, workId)
  }

  method DispatchChatCompletion(wallet: PrepaidWallet, callerId: CallerId, workId: WorkId, env: Env)
    returns (r: Result<nat, DispatchError>)
    requires workId !in wallet.reservations
    modifies wallet
    ensures r.Ok? <==>
      && Reserves(old(wallet.Contents()), callerId, workId, env) && Charges(env)
      && env.commit.NoFault? && env.recordInserted
    ensures r.Ok? ==> r.value == env.billed.value
    // The error is that of the first step that failed.
    ensures env.estimate.None? ==> r == Err(ModelNotFound)
    ensures env.estimate.Some? && !Reserves(old(wallet.Contents()), callerId, workId, env) ==>
      r == Err(InsufficientBalance(BalanceInsufficient(old(Balance(wallet.Contents(), callerId)), env.estimate.value)))
    ensures Reserves(old(wallet.Contents()), callerId, workId, env) && r.Err? ==>
      r.error == match BeforeCommit(env)
                 case Some(e) => e
                 case None => if env.commit.NoFault? then RecordFailed else CommitFailed
    ensures wallet.Contents() == LedgerOf(old(wallet.Contents()), callerId, workId, env)
    // Whether it returns or throws, also after the commit: the caller pays what was taken, nobody else anything.
    ensures Balance(wallet.Contents(), callerId)
      == old(Balance(wallet.Contents(), callerId)) - Taken(old(wallet.Contents()), callerId, workId, env)
    ensures forall c | c != callerId :: Balance(wallet.Contents(), c) == old(Balance(wallet.Contents(), c))
    // The hold stays open only if the refund that should close it is lost, and no other hold is touched.
    ensures IsOpen(wallet.Contents(), workId)
      <==> Reserves(old(wallet.Contents()), callerId, workId, env) && !Charges(env) && env.refund.ThrowsBefore?
    ensures forall id | id != workId ::
      (id in wallet.reservations <==> id in old(wallet.reservations))
      && (id in wallet.reservations ==> wallet.reservations[id] == old(wallet.reservations)[id])
  {
    if env.estimate.None? {
      return Err(ModelNotFound);
    }
    var handle, committed;
    r, handle, committed := TryDispatch(wallet, callerId, workId, env.estimate.value, env);
    if r.Err? {
      if handle.Some? && !committed && !env.refund.ThrowsBefore? {
        wallet.DoRefund(handle.value);
      }
    }
  }

  // ----------------------------------------------------------------------------------------------
  // Many dispatches
  // ----------------------------------------------------------------------------------------------

  /** Where a dispatch stands: in the try block with or without its commit, in the catch block, over, or over with
      its refund lost. */
  datatype Phase = Held | Settled | Catching | Finished | Unrefunded

  /** `ops` is what the wallet has been asked so far. */
  datatype State = State(ledger: Ledger, phases: map<WorkId, Phase>, ops: seq<Op>)

  function Init(balances: map<CallerId, int>): State {
    State(Ledger(balances, map[]), map[], [])
  }

  datatype Step =
    | Begin(id: WorkId, callerId: CallerId, cents: nat)
    | FailsBeforeCommit(id: WorkId)
    | CommitReturns(id: WorkId, billed: nat)
    | CommitThrows(id: WorkId, billed: nat, applied: bool)
    | Ends(id: WorkId)
    | RefundReturns(id: WorkId)
    | RefundThrows(id: WorkId, applied: bool)

  predicate Enabled(s: State, step: Step) {
    match step
    case Begin(id, _, _) => id !in s.phases
    case FailsBeforeCommit(id) => id in s.phases && s.phases[id] == Held
    case CommitReturns(id, _) => id in s.phases && s.phases[id] == Held
    case CommitThrows(id, _, _) => id in s.phases && s.phases[id] == Held
    case Ends(id) => id in s.phases && s.phases[id] == Settled
    case RefundReturns(id) => id in s.phases && s.phases[id] == Catching
    case RefundThrows(id, _) => id in s.phases && s.phases[id] == Catching
  }

  function Ask(s: State, op: Op, id: WorkId, p: Phase): State {
    State(Perform(s.ledger, op), s.phases[id := p], s.ops + [op])
  }

  function Take(s: State, step: Step): State
    requires Enabled(s, step)
  {
    match step
    case Begin(id, c, cents) =>
      Ask(s, ReserveOp(c, id, cents), id, if Reserve(s.ledger, c, id, cents).Ok? then Held else Finished)
    case FailsBeforeCommit(id) => s.(phases := s.phases[id := Catching])
    case CommitReturns(id, billed) => Ask(s, CommitOp(id, billed), id, Settled)
    case CommitThrows(id, billed, applied) =>
      if applied then Ask(s, CommitOp(id, billed), id, Catching) else s.(phases := s.phases[id := Catching])
    case Ends(id) => s.(phases := s.phases[id := Finished])
    case RefundReturns(id) => Ask(s, RefundOp(id), id, Finished)
    case RefundThrows(id, applied) =>
      if applied then Ask(s, RefundOp(id), id, Finished) else s.(phases := s.phases[id := Unrefunded])
  }

  ghost predicate Inv(s: State, start: Ledger) {
    && FreshIds(start, s.ops) && s.ledger == RunOps(start, s.ops)
    && (forall id :: id in s.ledger.reservations ==> id in s.phases)
    && (forall id :: id in s.phases && (s.phases[id] == Finished || s.phases[id] == Settled) ==> !IsOpen(s.ledger, id))
  }

  lemma {:induction false} OpsSnoc(l: Ledger, ops: seq<Op>, op: Op)
    requires FreshIds(l, ops) && (op.ReserveOp? ==> op.workId !in RunOps(l, ops).reservations)
    ensures FreshIds(l, ops + [op]) && RunOps(l, ops + [op]) == Perform(RunOps(l, ops), op)
    decreases ops
  {
    if ops == [] {
      assert ops + [op] == [op] && [op][1..] == [];
    } else {
      assert (ops + [op])[0] == ops[0] && (ops + [op])[1..] == ops[1..] + [op];
      OpsSnoc(Perform(l, ops[0]), ops[1..], op);
    }
  }

  lemma StepKeepsInv(s: State, start: Ledger, step: Step)
    requires Inv(s, start) && Enabled(s, step)
    ensures Inv(Take(s, step), start)
  {
    match step
    case Begin(id, c, cents) => OpsSnoc(start, s.ops, ReserveOp(c, id, cents));
    case FailsBeforeCommit(id) =>
    case CommitReturns(id, billed) => OpsSnoc(start, s.ops, CommitOp(id, billed));
    case CommitThrows(id, billed, applied) => OpsSnoc(start, s.ops, CommitOp(id, billed));
    case Ends(id) =>
    case RefundReturns(id) => OpsSnoc(start, s.ops, RefundOp(id));
    case RefundThrows(id, applied) => OpsSnoc(start, s.ops, RefundOp(id));
  }

  ghost predicate CanRun(s: State, steps: seq<Step>)
    decreases steps
  {
    steps != [] ==> Enabled(s, steps[0]) && CanRun(Take(s, steps[0]), steps[1..])
  }

  function Run(s: State, steps: seq<Step>): State
    requires CanRun(s, steps)
    decreases steps
  {
    if steps == [] then s else Run(Take(s, steps[0]), steps[1..])
  }

  lemma {:induction false} RunKeepsInv(s: State, start: Ledger, steps: seq<Step>)
    requires Inv(s, start) && CanRun(s, steps)
    ensures Inv(Run(s, steps), start)
    decreases steps
  {
    hide Inv;
    if steps != [] {
      StepKeepsInv(s, start, steps[0]);
      RunKeepsInv(Take(s, steps[0]), start, steps[1..]);
    }
  }

  /** The steps of one dispatch. */
  function StepsOf(l: Ledger, callerId: CallerId, workId: WorkId, env: Env): seq<Step>
    requires env.estimate.Some?
  {
    var begin := Begin(workId, callerId, env.estimate.value);
    if !Reserves(l, callerId, workId, env) then [begin]
    else
      var refund := if env.refund.NoFault? then RefundReturns(workId)
                    else RefundThrows(workId, env.refund.ThrowsAfter?);
      if BeforeCommit(env).Some? then [begin, FailsBeforeCommit(workId), refund]
      else if env.commit.NoFault? then [begin, CommitReturns(workId, env.billed.value), Ends(workId)]
      else [begin, CommitThrows(workId, env.billed.value, env.commit.ThrowsAfter?), refund]
  }

  lemma RunOne(s: State, step: Step)
    requires Enabled(s, step)
    ensures CanRun(s, [step]) && Run(s, [step]) == Take(s, step)
  {
    hide Take, Enabled;
    assert [step][1..] == [];
    assert CanRun(Take(s, step), []) && Run(Take(s, step), []) == Take(s, step);
  }

  lemma RunThree(s: State, a: Step, b: Step, c: Step)
    requires Enabled(s, a) && Enabled(Take(s, a), b) && Enabled(Take(Take(s, a), b), c)
    ensures CanRun(s, [a, b, c]) && Run(s, [a, b, c]) == Take(Take(Take(s, a), b), c)
  {
    hide Take, Enabled;
    RunOne(Take(Take(s, a), b), c);
    assert [a, b, c][1..] == [b, c] && [b, c][1..] == [c];
    assert CanRun(Take(s, a), [b, c]);
    assert Run(Take(s, a), [b, c]) == Run(Take(Take(s, a), b), [c]);
  }

  /** A dispatch is a run of its steps: it leaves the ledger that they leave, and ends as they do. */
  lemma DispatchIsARun(s: State, callerId: CallerId, workId: WorkId, env: Env)
    requires env.estimate.Some? && workId !in s.phases
    ensures var steps := StepsOf(s.ledger, callerId, workId, env);
      && CanRun(s, steps)
      && Run(s, steps).ledger == LedgerOf(s.ledger, callerId, workId, env)
      && Run(s, steps).phases == s.phases[workId := EndOf(s.ledger, callerId, workId, env)]
  {
    var steps := StepsOf(s.ledger, callerId, workId, env);
    if !Reserves(s.ledger, callerId, workId, env) {
      RunOne(s, steps[0]);
    } else {
      StepsSettle(s, callerId, workId, env);
      hide Run, CanRun, Reserve, Commit, Refund, BeforeCommit, LedgerOf, Take;
      RunThree(s, steps[0], steps[1], steps[2]);
    }
  }

  /** The three steps of a dispatch that reserved, one behind the other. */
  lemma StepsSettle(s: State, callerId: CallerId, workId: WorkId, env: Env)
    requires Reserves(s.ledger, callerId, workId, env) && workId !in s.phases
    ensures var steps := StepsOf(s.ledger, callerId, workId, env);
      && |steps| == 3
      && Enabled(s, steps[0]) && Enabled(Take(s, steps[0]), steps[1])
      && Enabled(Take(Take(s, steps[0]), steps[1]), steps[2])
      && var last := Take(Take(Take(s, steps[0]), steps[1]), steps[2]);
         && last.ledger == LedgerOf(s.ledger, callerId, workId, env)
         && last.phases == s.phases[workId := EndOf(s.ledger, callerId, workId, env)]
  {
    hide Reserve, Commit, Refund, BeforeCommit;
    var held := Reserve(s.ledger, callerId, workId, env.estimate.value).value;
    ReserveExactly(s.ledger, callerId, workId, env.estimate.value);
    if Charges(env) {
      SettlesOnce(held, workId, env.billed.value);
    }
    hide Balance, SameElsewhere, IsOpen;
    var steps := StepsOf(s.ledger, callerId, workId, env);
    var s1 := Take(s, steps[0]);
    assert s1.ledger == held && s1.phases == s.phases[workId := Held];
    var s2 := Take(s1, steps[1]);
    LastStep(s2, steps[2], s.phases, EndOf(s.ledger, callerId, workId, env));
  }

  /** Unrefunded if a refund was asked for and lost. */
  function EndOf(l: Ledger, callerId: CallerId, workId: WorkId, env: Env): Phase {
    if && Reserves(l, callerId, workId, env)
       && (BeforeCommit(env).Some? || !env.commit.NoFault?)
       && env.refund.ThrowsBefore?
    then Unrefunded else Finished
  }

  lemma LastStep(s: State, step: Step, before: map<WorkId, Phase>, end: Phase)
    requires Enabled(s, step) && step.id in s.phases && s.phases == before[step.id := s.phases[step.id]]
    requires step.Ends? || step.RefundReturns? || step.RefundThrows?
    requires end == if step.RefundThrows? && !step.applied then Unrefunded else Finished
    ensures Take(s, step).phases == before[step.id := end]
  {
    hide Perform;
  }

  lemma {:induction false} NothingOpen(m: map<WorkId, Reservation>, c: CallerId)
    requires forall id | id in m :: m[id].state != Open
    ensures OpenHolds(m, c) == 0
    decreases |m|
  {
    if m != map[] {
      var id :| id in m;
      OpenHoldsSplit(m, c, id);
      NothingOpen(m - {id}, c);
    }
  }

  /**
   Every interleaving of dispatches balances: balance, open holds and charges of each caller add up to what they
   were seeded with, no balance goes negative, a dispatch that finished without losing its refund leaves no open
   hold, and once all have finished so, nothing is held at all.
   */
  lemma DispatchesBalance(balances: map<CallerId, int>, steps: seq<Step>, c: CallerId)
    requires CanRun(Init(balances), steps)
    ensures var start, s := Init(balances).ledger, Run(Init(balances), steps);
      && Balance(s.ledger, c) + OpenHolds(s.ledger.reservations, c) + Charged(start, s.ops, c) == Balance(start, c)
      && (Balance(start, c) >= 0 ==> Balance(s.ledger, c) >= 0)
      && (forall id | id in s.phases && s.phases[id] == Finished :: !IsOpen(s.ledger, id))
      && ((forall id | id in s.phases :: s.phases[id] == Finished) ==>
            Balance(s.ledger, c) + Charged(start, s.ops, c) == Balance(start, c))
  {
    var start, s := Init(balances).ledger, Run(Init(balances), steps);
    RunKeepsInv(Init(balances), start, steps);
    LedgerConserved(start, s.ops, c);
    if forall id | id in s.phases :: s.phases[id] == Finished {
      forall id | id in s.ledger.reservations
        ensures s.ledger.reservations[id].state != Open
      {
        assert !IsOpen(s.ledger, id);
      }
      NothingOpen(s.ledger.reservations, c);
    }
  }
}
