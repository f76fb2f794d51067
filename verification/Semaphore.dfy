/**
 The concurrency semaphore: a Redis counter that requests increment, inspect and decrement in separate steps,
 so that the steps of different requests interleave, commands can fail and the key can expire.
 */
module Semaphore {
  // ----------------------------------------------------------------------------------------------
  // The commands
  // ----------------------------------------------------------------------------------------------

  /** INCR. An absent key counts as 0. */
  function Incr(v: int): int {
    v + 1
  }

  /** The bounded-decrement script: never below 0. */
  function DecrBounded(v: int): int {
    if v <= 0 then v else v - 1
  }

  datatype ConcurrencyResult = ConcurrencyResult(acquired: bool, count: int, limit: int)

  /** The counter under one key; the two operations of the module when nothing interleaves and nothing fails. */
  class SlotCounter {
    var value: int

    constructor ()
      ensures value == 0
    {
      value := 0;
    }

    method AcquireSlot(limit: int) returns (r: ConcurrencyResult)
      requires value >= 0
      modifies this
      ensures r.limit == limit && (r.acquired <==> old(value) < limit)
      ensures r.acquired ==> r.count == value == old(value) + 1
      ensures !r.acquired ==> r.count == limit && value == old(value)
    {
      value := Incr(value);
      var count := value;
      if count > limit {
        value := DecrBounded(value);
        return ConcurrencyResult(false, limit, limit);
      }
      return ConcurrencyResult(true, count, limit);
    }

    method ReleaseSlot()
      requires value >= 0
      modifies this
      ensures value == if old(value) > 0 then old(value) - 1 else 0
    {
      value := DecrBounded(value);
    }
  }

  // ----------------------------------------------------------------------------------------------
  // Interleaved requests
  // ----------------------------------------------------------------------------------------------

  /** Where a request stands: behind INCR with its count, to be rolled back, holding a slot, or finished. */
  datatype Phase = Counted(count: int) | Refused | Holding | Finished

  type Id = nat

  /**
   The counter and every request that has started. `leaks` counts the increments in the counter whose request
   ended without a decrement; `lost` counts requests whose increment an expiry wiped, as long as no decrement
   has come to nothing for it.
   */
  datatype State = State(limit: nat, counter: int, phases: map<Id, Phase>, leaks: nat, lost: nat)

  function Init(limit: nat): State {
    State(limit, 0, map[], 0, 0)
  }

  /** A command of request `id`, or the loss of the key. `applied` tells whether a failed command took effect. */
  datatype Step =
    | IncrOk(id: Id)
    | IncrFails(id: Id, applied: bool)
    | ExpireOk(id: Id)
    | ExpireFails(id: Id)
    | RollbackOk(id: Id)
    | RollbackFails(id: Id, applied: bool)
    | ReleaseOk(id: Id)
    | ReleaseFails(id: Id, applied: bool)
    | KeyExpires

  predicate Enabled(s: State, step: Step) {
    match step
    case IncrOk(id) => id !in s.phases
    case IncrFails(id, _) => id !in s.phases
    case ExpireOk(id) => id in s.phases && s.phases[id].Counted?
    case ExpireFails(id) => id in s.phases && s.phases[id].Counted?
    case RollbackOk(id) => id in s.phases && s.phases[id].Refused?
    case RollbackFails(id, _) => id in s.phases && s.phases[id].Refused?
    case ReleaseOk(id) => id in s.phases && s.phases[id].Holding?
    case ReleaseFails(id, _) => id in s.phases && s.phases[id].Holding?
    case KeyExpires => true
  }

  /** A bounded decrement by a request that then finishes; at 0 it makes up for one lost increment. */
  function Decrement(s: State, id: Id): State {
    s.(counter := DecrBounded(s.counter),
       phases := s.phases[id := Finished],
       lost := if s.counter <= 0 && s.lost > 0 then s.lost - 1 else s.lost)
  }

  function Leak(s: State, id: Id): State {
    s.(phases := s.phases[id := Finished], leaks := s.leaks + 1)
  }

  function Take(s: State, step: Step): State
    requires Enabled(s, step)
  {
    match step
    case IncrOk(id) => s.(counter := Incr(s.counter), phases := s.phases[id := Counted(Incr(s.counter))])
    case IncrFails(id, applied) =>
      if applied then Leak(s.(counter := Incr(s.counter)), id) else s.(phases := s.phases[id := Finished])
    case ExpireOk(id) =>
      s.(phases := s.phases[id := if s.phases[id].count > s.limit then Refused else Holding])
    case ExpireFails(id) => Leak(s, id)
    case RollbackOk(id) => Decrement(s, id)
    case RollbackFails(id, applied) => if applied then Decrement(s, id) else Leak(s, id)
    case ReleaseOk(id) => Decrement(s, id)
    case ReleaseFails(id, applied) => if applied then Decrement(s, id) else Leak(s, id)
    case KeyExpires => s.(counter := 0, leaks := 0, lost := |InFlight(s.phases)|)
  }

  /** Requests whose increment is still to be undone. */
  function InFlight(phases: map<Id, Phase>): set<Id> {
    set id | id in phases && !phases[id].Finished?
  }

  function Holders(phases: map<Id, Phase>): set<Id> {
    set id | id in phases && phases[id].Holding?
  }

  /** Requests that hold a slot or are bound to: their count was within the limit. */
  function Granted(s: State): set<Id> {
    set id | id in s.phases && (s.phases[id].Holding? || (s.phases[id].Counted? && s.phases[id].count <= s.limit))
  }

  ghost predicate Inv(s: State) {
    && s.counter >= 0
    && s.counter + s.lost == |InFlight(s.phases)| + s.leaks
    && |Granted(s)| <= s.limit + s.lost
  }

  lemma SetSizes(a: set<Id>, b: set<Id>, id: Id)
    ensures id !in a && b == a + {id} ==> |b| == |a| + 1
    ensures id in a && b == a - {id} ==> |b| == |a| - 1
  {
  }

  /** What one request's change of phase does to the sets. */
  lemma PhaseChange(s: State, id: Id, p: Phase)
    ensures var s' := s.(phases := s.phases[id := p]);
      && InFlight(s'.phases) == (if p.Finished? then InFlight(s.phases) - {id} else InFlight(s.phases) + {id})
      && Granted(s') == (if p.Holding? || (p.Counted? && p.count <= s.limit) then Granted(s) + {id}
                         else Granted(s) - {id})
  {
  }

  lemma GrantedInFlight(s: State)
    ensures Granted(s) <= InFlight(s.phases) && |Granted(s)| <= |InFlight(s.phases)|
  {
    Subset(Granted(s), InFlight(s.phases));
  }

  lemma {:induction false} Subset(a: set<Id>, b: set<Id>)
    requires a <= b
    ensures |a| <= |b|
  {
    if a != {} {
      var x :| x in a;
      Subset(a - {x}, b - {x});
    }
  }

  lemma DecrementKeepsInv(s: State, id: Id)
    requires Inv(s) && id in InFlight(s.phases)
    ensures Inv(Decrement(s, id))
  {
    PhaseChange(s, id, Finished);
    SetSizes(InFlight(s.phases), InFlight(s.phases) - {id}, id);
    Subset(Granted(s) - {id}, Granted(s));
    var s' := Decrement(s, id);
    assert Granted(s') == Granted(s) - {id};
    GrantedInFlight(s');
  }

  lemma LeakKeepsInv(s: State, id: Id)
    requires Inv(s) && id in InFlight(s.phases)
    ensures Inv(Leak(s, id))
  {
    PhaseChange(s, id, Finished);
    SetSizes(InFlight(s.phases), InFlight(s.phases) - {id}, id);
    Subset(Granted(s) - {id}, Granted(s));
    assert Granted(Leak(s, id)) == Granted(s) - {id};
  }

  lemma IncrKeepsInv(s: State, step: Step)
    requires Inv(s) && Enabled(s, step) && (step.IncrOk? || step.IncrFails?)
    ensures Inv(Take(s, step))
  {
    var id, s' := step.id, Take(s, step);
    PhaseChange(s, id, s'.phases[id]);
    assert InFlight(s.phases) - {id} == InFlight(s.phases);
    assert Granted(s) - {id} == Granted(s);
    assert Granted(s') == Granted(s.(phases := s'.phases));
    SetSizes(InFlight(s.phases), InFlight(s'.phases), id);
    GrantedInFlight(s');
  }

  lemma ExpireKeepsInv(s: State, id: Id)
    requires Inv(s) && Enabled(s, ExpireOk(id))
    ensures Inv(Take(s, ExpireOk(id)))
  {
    var s' := Take(s, ExpireOk(id));
    PhaseChange(s, id, s'.phases[id]);
    assert InFlight(s'.phases) == InFlight(s.phases);
    assert Granted(s') == Granted(s);
  }

  lemma StepKeepsInv(s: State, step: Step)
    requires Inv(s) && Enabled(s, step)
    ensures Inv(Take(s, step)) && Take(s, step).limit == s.limit
  {
    match step
    case IncrOk(id) => IncrKeepsInv(s, step);
    case IncrFails(id, applied) => IncrKeepsInv(s, step);
    case ExpireOk(id) => ExpireKeepsInv(s, id);
    case ExpireFails(id) => LeakKeepsInv(s, id);
    case RollbackOk(id) => DecrementKeepsInv(s, id);
    case RollbackFails(id, applied) =>
      DecrementKeepsInv(s, id);
      LeakKeepsInv(s, id);
    case ReleaseOk(id) => DecrementKeepsInv(s, id);
    case ReleaseFails(id, applied) =>
      DecrementKeepsInv(s, id);
      LeakKeepsInv(s, id);
    case KeyExpires =>
      assert Granted(Take(s, step)) == Granted(s);
      GrantedInFlight(s);
  }

  // ----------------------------------------------------------------------------------------------
  // Runs
  // ----------------------------------------------------------------------------------------------

  ghost predicate CanRun(s: State, steps: seq<Step>)
    decreases steps
  {
    steps != [] ==> Enabled(s, steps[0]) && CanRun(Take(s, steps[0]), steps[1..])
  }

  function Run(s: State, steps: seq<Step>): State
    requires CanRun(s, steps)
    decreases steps
  {
    if steps == [] then s else Run(Take(s, steps[0]), steps[1..])
  }

  lemma {:induction false} RunKeepsInv(s: State, steps: seq<Step>)
    requires Inv(s) && CanRun(s, steps)
    ensures Inv(Run(s, steps)) && Run(s, steps).limit == s.limit
    decreases steps
  {
    if steps != [] {
      StepKeepsInv(s, steps[0]);
      RunKeepsInv(Take(s, steps[0]), steps[1..]);
    }
  }

  lemma InitInv(limit: nat)
    ensures Inv(Init(limit))
  {
    assert InFlight(map[]) == {};
    assert Granted(Init(limit)) == {};
  }

  /** The key only ever expires while no request is in flight. */
  ghost predicate QuietExpiries(s: State, steps: seq<Step>)
    requires CanRun(s, steps)
    decreases steps
  {
    steps != [] ==>
      && (steps[0].KeyExpires? ==> InFlight(s.phases) == {})
      && QuietExpiries(Take(s, steps[0]), steps[1..])
  }

  lemma {:induction false} QuietLosesNothing(s: State, steps: seq<Step>)
    requires CanRun(s, steps) && QuietExpiries(s, steps) && s.lost == 0
    ensures Run(s, steps).lost == 0
    decreases steps
  {
    if steps != [] {
      QuietLosesNothing(Take(s, steps[0]), steps[1..]);
    }
  }

  lemma {:induction false} NoExpiryIsQuiet(s: State, steps: seq<Step>)
    requires CanRun(s, steps) && KeyExpires !in steps
    ensures QuietExpiries(s, steps)
    decreases steps
  {
    if steps != [] {
      NoExpiryIsQuiet(Take(s, steps[0]), steps[1..]);
    }
  }

  /**
   Slot safety for every interleaving, failures and expiries included: the counter never goes negative, and no
   more requests hold a slot than the limit and the wiped increments allow. As long as the key does not expire
   under a request in flight, the counter is exactly the increments in flight plus the leaks, and at most `limit`
   requests hold a slot.
   */
  lemma SlotSafety(limit: nat, steps: seq<Step>)
    requires CanRun(Init(limit), steps)
    ensures var s := Run(Init(limit), steps);
      && s.counter >= 0
      && |Holders(s.phases)| <= limit + s.lost
      && (QuietExpiries(Init(limit), steps) ==>
            s.counter == |InFlight(s.phases)| + s.leaks && |Holders(s.phases)| <= limit)
  {
    InitInv(limit);
    RunKeepsInv(Init(limit), steps);
    var s := Run(Init(limit), steps);
    Subset(Holders(s.phases), Granted(s));
    if QuietExpiries(Init(limit), steps) {
      QuietLosesNothing(Init(limit), steps);
    }
  }

  /** In particular on every run without an expiry. */
  lemma SlotSafetyWithoutExpiry(limit: nat, steps: seq<Step>)
    requires CanRun(Init(limit), steps) && KeyExpires !in steps
    ensures var s := Run(Init(limit), steps);
      s.counter == |InFlight(s.phases)| + s.leaks && |Holders(s.phases)| <= limit
  {
    NoExpiryIsQuiet(Init(limit), steps);
    SlotSafety(limit, steps);
  }

  /** The step leaves an increment behind that nothing will take back. */
  predicate Leaks(step: Step) {
    match step
    case IncrFails(_, applied) => applied
    case ExpireFails(_) => true
    case RollbackFails(_, applied) => !applied
    case ReleaseFails(_, applied) => !applied
    case _ => false
  }

  function LeakCount(steps: seq<Step>): nat {
    if steps == [] then 0 else (if Leaks(steps[0]) then 1 else 0) + LeakCount(steps[1..])
  }

  lemma {:induction false} LeaksCounted(s: State, steps: seq<Step>)
    requires CanRun(s, steps) && KeyExpires !in steps
    ensures Run(s, steps).leaks == s.leaks + LeakCount(steps)
    decreases steps
  {
    if steps != [] {
      LeaksCounted(Take(s, steps[0]), steps[1..]);
    }
  }

  /** Without an expiry the counter is the requests in flight and one for every command lost that leaks. */
  lemma CounterExactly(limit: nat, steps: seq<Step>)
    requires CanRun(Init(limit), steps) && KeyExpires !in steps
    ensures var s := Run(Init(limit), steps); s.counter == |InFlight(s.phases)| + LeakCount(steps)
  {
    SlotSafetyWithoutExpiry(limit, steps);
    LeaksCounted(Init(limit), steps);
  }

  /** A request behind its INCR holds a slot or is refused by its count alone. */
  lemma HoldsExactly(s: State, id: Id)
    requires Enabled(s, IncrOk(id))
    ensures var behind := Take(Take(s, IncrOk(id)), ExpireOk(id));
      && (behind.phases[id].Holding? <==> s.counter < s.limit)
      && (behind.phases[id].Refused? <==> s.counter >= s.limit)
  {
  }

  /** A request is refused only when the increments in flight and the leaks already fill the limit. */
  lemma RefusedWhenFull(limit: nat, steps: seq<Step>, id: Id)
    requires CanRun(Init(limit), steps) && QuietExpiries(Init(limit), steps)
    requires Enabled(Run(Init(limit), steps), IncrOk(id))
    ensures var s := Run(Init(limit), steps);
      Take(s, IncrOk(id)).phases[id].count > limit <==> |InFlight(s.phases)| + s.leaks >= limit
  {
    SlotSafety(limit, steps);
  }

  // ----------------------------------------------------------------------------------------------
  // What an expiry does to the limit
  // ----------------------------------------------------------------------------------------------

  lemma {:induction false} RunAppend(s: State, a: seq<Step>, b: seq<Step>)
    requires CanRun(s, a)
    ensures CanRun(s, a + b) <==> CanRun(Run(s, a), b)
    ensures CanRun(s, a + b) ==> Run(s, a + b) == Run(Run(s, a), b)
    decreases a
  {
    hide Take;
    if a == [] {
      assert a + b == b;
    } else {
      assert (a + b)[0] == a[0] && (a + b)[1..] == a[1..] + b;
      RunAppend(Take(s, a[0]), a[1..], b);
    }
  }

  lemma RunOne(s: State, step: Step)
    requires Enabled(s, step)
    ensures CanRun(s, [step]) && Run(s, [step]) == Take(s, step)
  {
    assert [step][1..] == [];
    assert CanRun(Take(s, step), []) && Run(Take(s, step), []) == Take(s, step);
  }

  /** Goes on from a run by one step that is not an expiry. */
  lemma Continue(s: State, steps: seq<Step>, step: Step) returns (more: seq<Step>)
    requires CanRun(s, steps) && KeyExpires !in steps && Enabled(Run(s, steps), step) && step != KeyExpires
    ensures more == steps + [step] && KeyExpires !in more
    ensures CanRun(s, more) && Run(s, more) == Take(Run(s, steps), step)
  {
    hide Take, Run, CanRun;
    RunOne(Run(s, steps), step);
    RunAppend(s, steps, [step]);
    more := steps + [step];
  }

  lemma {:induction false} SomeFreshId(ids: set<Id>) returns (id: Id)
    ensures id !in ids && forall other | other in ids :: other < id
  {
    if ids == {} {
      id := 0;
    } else {
      var some :| some in ids;
      var above := SomeFreshId(ids - {some});
      id := if above > some then above else some + 1;
      forall other | other in ids ensures other < id {
        assert other == some || other in ids - {some};
      }
    }
  }

  /** A new request finds a free slot and takes it; nothing else changes. */
  lemma OneMoreHolder(s: State, steps: seq<Step>) returns (more: seq<Step>)
    requires CanRun(s, steps) && KeyExpires !in steps
    requires 0 <= Run(s, steps).counter < Run(s, steps).limit
    ensures KeyExpires !in more && CanRun(s, more)
    ensures var before, after := Run(s, steps), Run(s, more);
      && after.counter == before.counter + 1 && after.limit == before.limit
      && |Holders(after.phases)| == |Holders(before.phases)| + 1
      && forall id | id in before.phases :: id in after.phases && after.phases[id] == before.phases[id]
  {
    hide Run, CanRun;
    var before := Run(s, steps);
    var id := SomeFreshId(before.phases.Keys);
    more := Continue(s, steps, IncrOk(id));
    more := Continue(s, more, ExpireOk(id));
    assert Holders(Run(s, more).phases) == Holders(before.phases) + {id};
  }

  /** New requests take the slots that the counter leaves free. */
  lemma {:induction false} FillSlots(s: State, steps: seq<Step>) returns (more: seq<Step>)
    requires CanRun(s, steps) && KeyExpires !in steps
    requires 0 <= Run(s, steps).counter <= Run(s, steps).limit
    ensures KeyExpires !in more && CanRun(s, more)
    ensures var before, after := Run(s, steps), Run(s, more);
      && after.counter == after.limit == before.limit
      && |Holders(after.phases)| == |Holders(before.phases)| + before.limit - before.counter
      && forall id | id in before.phases :: id in after.phases && after.phases[id] == before.phases[id]
    decreases Run(s, steps).limit - Run(s, steps).counter
  {
    hide Run, CanRun, Holders;
    if Run(s, steps).counter == Run(s, steps).limit {
      more := steps;
    } else {
      more := OneMoreHolder(s, steps);
      more := FillSlots(s, more);
    }
  }

  /** With every slot taken anew, a request that was in flight before gives one holder too many. */
  lemma OneTooMany(s: State, steps: seq<Step>, id: Id) returns (more: seq<Step>)
    requires CanRun(s, steps) && KeyExpires !in steps
    requires var now := Run(s, steps);
      && now.counter == now.limit >= 1 && id in InFlight(now.phases)
      && |Holders(now.phases)| >= now.limit + if now.phases[id].Holding? then 1 else 0
    ensures KeyExpires !in more && CanRun(s, more) && Run(s, more).limit == Run(s, steps).limit
    ensures |Holders(Run(s, more).phases)| > Run(s, steps).limit
  {
    hide Run, CanRun;
    var now := Run(s, steps);
    more := steps;
    if now.phases[id].Counted? {
      more := Continue(s, more, ExpireOk(id));
      if now.phases[id].count <= now.limit {
        assert Holders(Run(s, more).phases) == Holders(now.phases) + {id};
      } else {
        assert Holders(Run(s, more).phases) == Holders(now.phases);
      }
    }
    if Run(s, more).phases[id].Refused? {
      more := Continue(s, more, RollbackOk(id));
      assert Holders(Run(s, more).phases) == Holders(now.phases);
      more := OneMoreHolder(s, more);
    }
  }

  /** From a lost key on, one request in flight is enough for some continuation to break the limit. */
  lemma LostKeyBreaksLimit(s: State, id: Id) returns (more: seq<Step>)
    requires s.limit >= 1 && id in InFlight(s.phases)
    ensures KeyExpires !in more && CanRun(Take(s, KeyExpires), more)
    ensures |Holders(Run(Take(s, KeyExpires), more).phases)| > s.limit
  {
    var lost := Take(s, KeyExpires);
    more := [];
    assert CanRun(lost, more) && Run(lost, more) == lost;
    hide Run, CanRun;
    if s.phases[id].Holding? {
      assert id in Holders(lost.phases);
      Subset({id}, Holders(lost.phases));
    }
    more := FillSlots(lost, more);
    more := OneTooMany(lost, more, id);
  }

  /** With a limit of 0 no request ever holds a slot. */
  ghost predicate NoneEverHeld(s: State) {
    && s.limit == 0 && s.counter >= 0
    && forall id | id in s.phases :: !s.phases[id].Holding? && (s.phases[id].Counted? ==> s.phases[id].count >= 1)
  }

  lemma {:induction false} ZeroLimitHoldsNone(s: State, steps: seq<Step>)
    requires NoneEverHeld(s) && CanRun(s, steps)
    ensures NoneEverHeld(Run(s, steps))
    decreases steps
  {
    if steps != [] {
      assert NoneEverHeld(Take(s, steps[0]));
      hide NoneEverHeld, Take;
      ZeroLimitHoldsNone(Take(s, steps[0]), steps[1..]);
    }
  }

  lemma {:induction false} QuietAppend(s: State, a: seq<Step>, b: seq<Step>)
    requires CanRun(s, a) && QuietExpiries(s, a) && CanRun(Run(s, a), b) && QuietExpiries(Run(s, a), b)
    ensures CanRun(s, a + b) && QuietExpiries(s, a + b)
    decreases a
  {
    hide Take;
    if a == [] {
      assert a + b == b;
    } else {
      assert (a + b)[0] == a[0] && (a + b)[1..] == a[1..] + b;
      QuietAppend(Take(s, a[0]), a[1..], b);
    }
  }

  /** After a run, the key expires; then `more` happens, without another expiry, and the limit is broken. */
  ghost predicate BreaksLimit(limit: nat, steps: seq<Step>, more: seq<Step>)
    requires CanRun(Init(limit), steps)
  {
    var lost := Take(Run(Init(limit), steps), KeyExpires);
    KeyExpires !in more && CanRun(lost, more) && |Holders(Run(lost, more).phases)| > limit
  }

  /** An expiry while nothing is in flight breaks nothing, nor does any with a limit of 0. */
  lemma HarmlessExpiry(limit: nat, steps: seq<Step>, more: seq<Step>)
    requires CanRun(Init(limit), steps) && QuietExpiries(Init(limit), steps)
    requires limit == 0 || InFlight(Run(Init(limit), steps).phases) == {}
    ensures !BreaksLimit(limit, steps, more)
  {
    var s := Run(Init(limit), steps);
    var lost := Take(s, KeyExpires);
    RunOne(s, KeyExpires);
    if KeyExpires !in more && CanRun(lost, more) {
      hide Run, CanRun, QuietExpiries, Take, Holders;
      RunAppend(s, [KeyExpires], more);
      RunAppend(Init(limit), steps, [KeyExpires] + more);
      if limit == 0 {
        ZeroLimitHoldsNone(Init(limit), steps + ([KeyExpires] + more));
        NoHolders(Run(lost, more));
      } else {
        NoExpiryIsQuiet(lost, more);
        QuietWhenIdle(s);
        QuietAppend(s, [KeyExpires], more);
        QuietAppend(Init(limit), steps, [KeyExpires] + more);
        SlotSafety(limit, steps + ([KeyExpires] + more));
      }
    }
  }

  lemma NoHolders(s: State)
    requires NoneEverHeld(s)
    ensures |Holders(s.phases)| == 0
  {
    assert Holders(s.phases) == {};
  }

  lemma QuietWhenIdle(s: State)
    requires InFlight(s.phases) == {}
    ensures CanRun(s, [KeyExpires]) && QuietExpiries(s, [KeyExpires])
  {
    RunOne(s, KeyExpires);
    assert [KeyExpires][1..] == [];
    assert QuietExpiries(Take(s, KeyExpires), []);
  }

  /**
   Where the time to live breaks the limit: after a run that kept it, an expiry lets some continuation have more
   holders than the limit if and only if the limit admits anyone and a request was in flight, be it counted, refused
   or holding.
   */
  lemma ExpiryBreaksLimitExactly(limit: nat, steps: seq<Step>)
    requires CanRun(Init(limit), steps) && QuietExpiries(Init(limit), steps)
    ensures (exists more :: BreaksLimit(limit, steps, more))
      <==> limit >= 1 && InFlight(Run(Init(limit), steps).phases) != {}
  {
    var s := Run(Init(limit), steps);
    InitInv(limit);
    RunKeepsInv(Init(limit), steps);
    if limit >= 1 && InFlight(s.phases) != {} {
      var id :| id in InFlight(s.phases);
      var more := LostKeyBreaksLimit(s, id);
      assert BreaksLimit(limit, steps, more);
    } else {
      forall more ensures !BreaksLimit(limit, steps, more) {
        HarmlessExpiry(limit, steps, more);
      }
    }
  }

  /** The least instance: a request behind its INCR, at any positive limit. */
  lemma ExpiryBreaksLimit(limit: nat)
    requires limit >= 1
    ensures exists steps: seq<Step> :: CanRun(Init(limit), steps) && |Holders(Run(Init(limit), steps).phases)| > limit
  {
    var first := [IncrOk(0)];
    RunOne(Init(limit), IncrOk(0));
    NoExpiryIsQuiet(Init(limit), first);
    assert 0 in InFlight(Run(Init(limit), first).phases);
    ExpiryBreaksLimitExactly(limit, first);
    var more :| BreaksLimit(limit, first, more);
    var s := Run(Init(limit), first);
    RunOne(s, KeyExpires);
    RunAppend(s, [KeyExpires], more);
    RunAppend(Init(limit), first, [KeyExpires] + more);
    assert CanRun(Init(limit), first + ([KeyExpires] + more));
  }
}
