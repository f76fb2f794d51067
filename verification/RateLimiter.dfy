/**
 The rate limiter of one caller: a minute window, a day window and the concurrency semaphore, consulted in that
 order, failing open when Redis fails.
 */
module RateLimiter {
  import opened Wrappers
  import opened SlidingWindow
  import opened Semaphore

  const MINUTE_MS: nat := 60_000
  const DAY_MS: nat := 86_400_000

  datatype Policy = Policy(name: string, perMinute: nat, perDay: nat, concurrent: nat)

  datatype Headers = Headers(limitRequests: nat, remainingRequests: nat, resetSeconds: nat)

  datatype CheckResult = CheckResult(headers: Headers, failedOpen: bool)

  datatype Reason = PerMinute | PerDay | Concurrent

  datatype Exceeded = Exceeded(reason: Reason, limit: int, retryAfterSeconds: nat)

  /** A Redis command may fail before or after it took effect. */
  datatype Fault = NoFault | FailsBefore | FailsAfter

  /** What Redis does to the commands of one check. */
  datatype Faults = Faults(minute: Fault, day: Fault, incr: Fault, expire: Fault, rollback: Fault)

  function HeadersOf(policy: Policy, minute: Reply): Headers {
    Headers(policy.perMinute,
            if policy.perMinute > minute.count then policy.perMinute - minute.count else 0,
            ResetSeconds(minute.resetMs))
  }

  /** What a check answers, given what the windows replied and how many slots were counted. */
  function Answer(policy: Policy, minute: Reply, day: Reply, slots: int, faults: Faults)
    : Result<CheckResult, Exceeded>
  {
    if faults.minute != NoFault || faults.day != NoFault then
      Ok(CheckResult(Headers(policy.perMinute, policy.perMinute, 60), true))
    else if !minute.allowed then Err(Exceeded(PerMinute, policy.perMinute, ResetSeconds(minute.resetMs)))
    else if !day.allowed then Err(Exceeded(PerDay, policy.perDay, ResetSeconds(day.resetMs)))
    else if faults.incr != NoFault || faults.expire != NoFault then
      Ok(CheckResult(HeadersOf(policy, minute), true))
    else if slots < policy.concurrent then Ok(CheckResult(HeadersOf(policy, minute), false))
    else if faults.rollback != NoFault then Ok(CheckResult(HeadersOf(policy, minute), true))
    else Err(Exceeded(Concurrent, policy.concurrent, 1))
  }

  /** The counter after `acquireSlot`: a refusal undoes its increment, unless the rollback fails before it took
      effect. */
  function SlotsAfterAcquire(slots: int, limit: int, faults: Faults): int {
    if faults.incr == FailsBefore then slots
    else if faults.incr == FailsAfter || faults.expire != NoFault || slots < limit then slots + 1
    else if faults.rollback == FailsBefore then slots + 1
    else slots
  }

  // ----------------------------------------------------------------------------------------------
  // One check, one release
  // ----------------------------------------------------------------------------------------------

  /** What Redis holds for one caller. */
  datatype Stores = Stores(minute: Key, day: Key, slots: int)

  datatype CheckCall = CheckCall(nowMinute: nat, nowDay: nat, member: string, faults: Faults)

  /** A check: what it leaves in the stores and what it answers. A call counts in both windows whichever of them denies
      it; the slot counter is touched only by a check that both windows admit. */
  function CheckStep(s: Stores, policy: Policy, c: CheckCall): (Stores, Result<CheckResult, Exceeded>) {
    var (m, mReply) := RunScript(s.minute, c.nowMinute, MINUTE_MS, policy.perMinute, c.member);
    var (d, dReply) := RunScript(s.day, c.nowDay, DAY_MS, policy.perDay, c.member);
    var admitted := c.faults.minute == NoFault && c.faults.day == NoFault && mReply.allowed && dReply.allowed;
    (Stores(if c.faults.minute == FailsBefore then s.minute else m,
            if c.faults.day == FailsBefore then s.day else d,
            if admitted then SlotsAfterAcquire(s.slots, policy.concurrent, c.faults) else s.slots),
     Answer(policy, mReply, dReply, s.slots, c.faults))
  }

  function ReleaseStep(s: Stores, failedOpen: bool, fault: Fault): Stores {
    if failedOpen || fault == FailsBefore then s else s.(slots := DecrBounded(s.slots))
  }

  class Limiter {
    const minute: WindowStore
    const day: WindowStore
    const slots: SlotCounter

    constructor ()
      ensures fresh(minute) && fresh(day) && fresh(slots) && minute != day
      ensures minute.Contents() == day.Contents() == NO_KEY && slots.value == 0
    {
      minute := new WindowStore();
      day := new WindowStore();
      slots := new SlotCounter();
    }

    function Contents(): Stores
      reads minute, day, slots
    {
      Stores(minute.Contents(), day.Contents(), slots.value)
    }

    /** `acquireSlot`, with the point at which Redis fails; None when it throws. */
    method Acquire(limit: int, faults: Faults) returns (r: Option<ConcurrencyResult>)
      requires slots.value >= 0
      modifies slots
      ensures r.None? <==>
        || faults.incr != NoFault || faults.expire != NoFault
        || (old(slots.value) >= limit && faults.rollback != NoFault)
      ensures r.Some? ==> (r.value.acquired <==> old(slots.value) < limit)
      ensures slots.value == SlotsAfterAcquire(old(slots.value), limit, faults)
    {
      if faults.incr == FailsBefore {
        return None;
      }
      slots.value := Incr(slots.value);
      var count := slots.value;
      if faults.incr == FailsAfter || faults.expire != NoFault {
        return None;
      }
      if count > limit {
        if faults.rollback != FailsBefore {
          slots.value := DecrBounded(slots.value);
        }
        if faults.rollback != NoFault {
          return None;
        }
        return Some(ConcurrencyResult(false, limit, limit));
      }
      return Some(ConcurrencyResult(true, count, limit));
    }

    method Check(policy: Policy, c: CheckCall) returns (r: Result<CheckResult, Exceeded>)
      requires minute != day && slots.value >= 0
      modifies minute, day, slots
      ensures (Contents(), r) == CheckStep(old(Contents()), policy, c)
      // A slot is taken exactly by a check that passes without failing open, or leaked by one that fails open.
      ensures r.Err? ==> slots.value == old(slots.value)
      ensures r.Ok? && !r.value.failedOpen ==> slots.value == old(slots.value) + 1 <= policy.concurrent
      ensures r.Ok? && r.value.failedOpen ==> old(slots.value) <= slots.value <= old(slots.value) + 1
    {
      hide RunScript;
      var faults := c.faults;
      var mReply, dReply := Reply(false, 0, 0), Reply(false, 0, 0);
      if faults.minute != FailsBefore {
        mReply := minute.Run(c.nowMinute, MINUTE_MS, policy.perMinute, c.member);
      }
      if faults.day != FailsBefore {
        dReply := day.Run(c.nowDay, DAY_MS, policy.perDay, c.member);
      }
      if faults.minute != NoFault || faults.day != NoFault {
        return Ok(CheckResult(Headers(policy.perMinute, policy.perMinute, 60), true));
      }
      if !mReply.allowed {
        return Err(Exceeded(PerMinute, policy.perMinute, ResetSeconds(mReply.resetMs)));
      }
      if !dReply.allowed {
        return Err(Exceeded(PerDay, policy.perDay, ResetSeconds(dReply.resetMs)));
      }
      var slot := Acquire(policy.concurrent, faults);
      if slot.None? {
        return Ok(CheckResult(HeadersOf(policy, mReply), true));
      }
      if !slot.value.acquired {
        return Err(Exceeded(Concurrent, policy.concurrent, 1));
      }
      return Ok(CheckResult(HeadersOf(policy, mReply), false));
    }

    /** Undoes what a check that held a slot did to the counter; does nothing after a check that failed open. */
    method Release(failedOpen: bool, fault: Fault)
      requires slots.value >= 0 && minute != day
      modifies slots
      ensures Contents() == ReleaseStep(old(Contents()), failedOpen, fault)
    {
      if failedOpen || fault == FailsBefore {
        return;
      }
      slots.ReleaseSlot();
    }
  }

  // ----------------------------------------------------------------------------------------------
  // Runs of checks and releases
  // ----------------------------------------------------------------------------------------------

  /** What happens to the limiter of one caller. The window keys may have expired when a check arrives. */
  datatype Event =
    | Checked(check: CheckCall, minuteGone: bool, dayGone: bool)
    | Released(failedOpen: bool, fault: Fault)

  function Arrives(s: Stores, e: Event): Stores
    requires e.Checked?
  {
    s.(minute := if e.minuteGone then NO_KEY else s.minute, day := if e.dayGone then NO_KEY else s.day)
  }

  function Step(s: Stores, policy: Policy, e: Event): Stores {
    match e
    case Released(failedOpen, fault) => ReleaseStep(s, failedOpen, fault)
    case Checked(c, _, _) =>
      // A script that did not run leaves the key as it was.
      var after := CheckStep(Arrives(s, e), policy, c).0;
      Stores(if c.faults.minute == FailsBefore then s.minute else after.minute,
             if c.faults.day == FailsBefore then s.day else after.day, after.slots)
  }

  function StoresAfter(events: seq<Event>, policy: Policy): Stores {
    if events == [] then Stores(NO_KEY, NO_KEY, 0)
    else Step(StoresAfter(events[..|events| - 1], policy), policy, events[|events| - 1])
  }

  /** The check passes, and not because Redis failed. */
  predicate Passes(s: Stores, policy: Policy, e: Event) {
    e.Checked? && var r := CheckStep(Arrives(s, e), policy, e.check).1; r.Ok? && !r.value.failedOpen
  }

  datatype Window = Minute | Day

  function ConfigOf(policy: Policy, w: Window): Config {
    if w.Minute? then Config(MINUTE_MS, policy.perMinute) else Config(DAY_MS, policy.perDay)
  }

  function KeyOf(s: Stores, w: Window): Key {
    if w.Minute? then s.minute else s.day
  }

  function CallOf(e: Event, w: Window): Call
    requires e.Checked?
  {
    if w.Minute? then Call(e.check.nowMinute, e.check.member, e.minuteGone)
    else Call(e.check.nowDay, e.check.member, e.dayGone)
  }

  /** The check's script reaches the window. */
  predicate Reaches(e: Event, w: Window) {
    e.Checked? && (if w.Minute? then e.check.faults.minute else e.check.faults.day) != FailsBefore
  }

  /** The calls that one window sees. */
  function CallsOf(events: seq<Event>, w: Window): seq<Call> {
    if events == [] then []
    else
      var e := events[|events| - 1];
      CallsOf(events[..|events| - 1], w) + if Reaches(e, w) then [CallOf(e, w)] else []
  }

  /** When the checks that passed were made, by the clock of one window. */
  function PassTimes(events: seq<Event>, policy: Policy, w: Window): seq<nat> {
    if events == [] then []
    else
      var init, e := events[..|events| - 1], events[|events| - 1];
      PassTimes(init, policy, w) + if Passes(StoresAfter(init, policy), policy, e) then [CallOf(e, w).now] else []
  }

  /** Passed and not yet released. */
  function Unreleased(events: seq<Event>, policy: Policy): int {
    if events == [] then 0
    else
      var init, e := events[..|events| - 1], events[|events| - 1];
      Unreleased(init, policy)
      + (if Passes(StoresAfter(init, policy), policy, e) then 1 else 0)
      - (if e.Released? && !e.failedOpen then 1 else 0)
  }

  /** Each release but those of checks that failed open belongs to a check that passed before it. */
  ghost predicate Disciplined(events: seq<Event>, policy: Policy) {
    forall n | 0 <= n <= |events| :: Unreleased(events[..n], policy) >= 0
  }

  /** The last call of a window, on the key that the calls before it left. */
  lemma LastCall(calls: seq<Call>, c: Call, cfg: Config)
    ensures var (key, reply) := RunScript(Found(After(calls, cfg), c), c.now, cfg.windowMs, cfg.limit, c.member);
      After(calls + [c], cfg) == key && LastReply(calls + [c], cfg) == reply
  {
    hide RunScript;
    assert (calls + [c])[..|calls|] == calls;
  }

  /** What one event does to one window: nothing, or one run of the script on the key it finds. */
  lemma StepOnWindow(s: Stores, policy: Policy, e: Event, w: Window)
    ensures !Reaches(e, w) ==> KeyOf(Step(s, policy, e), w) == KeyOf(s, w)
    ensures Reaches(e, w) ==>
      var cfg, c := ConfigOf(policy, w), CallOf(e, w);
      var (key, reply) := RunScript(Found(KeyOf(s, w), c), c.now, cfg.windowMs, cfg.limit, c.member);
      KeyOf(Step(s, policy, e), w) == key && (Passes(s, policy, e) ==> reply.allowed)
    ensures Passes(s, policy, e) ==> Reaches(e, w)
    ensures Reaches(e, w) ==> e.Checked?
  {
    hide RunScript, SlotsAfterAcquire;
  }

  lemma {:induction false} WindowSeesItsCalls(events: seq<Event>, policy: Policy, w: Window)
    ensures KeyOf(StoresAfter(events, policy), w) == After(CallsOf(events, w), ConfigOf(policy, w))
    decreases |events|
  {
    hide RunScript, Step, KeyOf, ConfigOf, Reaches, CallOf;
    if events == [] {
      NothingHeld(policy, w);
    } else {
      var init, e := events[..|events| - 1], events[|events| - 1];
      WindowSeesItsCalls(init, policy, w);
      StepOnWindow(StoresAfter(init, policy), policy, e, w);
      if Reaches(e, w) {
        LastCall(CallsOf(init, w), CallOf(e, w), ConfigOf(policy, w));
      } else {
        assert CallsOf(events, w) == CallsOf(init, w);
      }
    }
  }

  lemma NothingHeld(policy: Policy, w: Window)
    ensures KeyOf(StoresAfter([], policy), w) == NO_KEY
  {
  }

  lemma CountSnoc(times: seq<nat>, t: nat, from: int, to: int)
    ensures CountIn(times + [t], from, to) == CountIn(times, from, to) + if from < t <= to then 1 else 0
  {
    assert (times + [t])[..|times|] == times;
  }

  /** The log grows by the time of the last call exactly if that call is admitted. */
  lemma LogSnoc(calls: seq<Call>, c: Call, cfg: Config)
    requires Legal(calls + [c], cfg)
    ensures Legal(calls, cfg)
    ensures Admissions(calls + [c], cfg)
      == if LastReply(calls + [c], cfg).allowed then Admissions(calls, cfg) + [c.now] else Admissions(calls, cfg)
  {
    hide RunScript, LastReply, CountIn, After;
    assert (calls + [c])[..|calls|] == calls;
    AdmitsAsTheLogDoes(calls + [c], cfg);
  }

  /** Every check that passed was admitted by the window, so an interval holds no more of them than admissions. */
  lemma {:induction false} PassesAreAdmitted(events: seq<Event>, policy: Policy, w: Window, from: int, to: int)
    requires Legal(CallsOf(events, w), ConfigOf(policy, w))
    ensures CountIn(PassTimes(events, policy, w), from, to)
      <= CountIn(Admissions(CallsOf(events, w), ConfigOf(policy, w)), from, to)
    decreases |events|
  {
    hide RunScript, CountIn, Legal, Step, Passes, Reaches, KeyOf, ConfigOf, CallOf, Admissions, After, LastReply,
         StoresAfter;
    if events != [] {
      var init, e, cfg := events[..|events| - 1], events[|events| - 1], ConfigOf(policy, w);
      var s, calls := StoresAfter(init, policy), CallsOf(init, w);
      StepOnWindow(s, policy, e, w);
      if Reaches(e, w) {
        var c := CallOf(e, w);
        WindowSeesItsCalls(init, policy, w);
        LastCall(calls, c, cfg);
        LogSnoc(calls, c, cfg);
        PassesAreAdmitted(init, policy, w, from, to);
        CountSnoc(PassTimes(init, policy, w), c.now, from, to);
        CountSnoc(Admissions(calls, cfg), c.now, from, to);
        if !Passes(s, policy, e) {
          assert PassTimes(events, policy, w) == PassTimes(init, policy, w);
        }
      } else {
        assert CallsOf(events, w) == calls && PassTimes(events, policy, w) == PassTimes(init, policy, w);
        PassesAreAdmitted(init, policy, w, from, to);
      }
    }
  }

  /** What one event does to the slots. */
  lemma StepOnSlots(s: Stores, policy: Policy, e: Event)
    ensures Passes(s, policy, e) ==> s.slots < policy.concurrent && Step(s, policy, e).slots == s.slots + 1
    ensures e.Checked? ==> Step(s, policy, e).slots >= s.slots
    ensures e.Released? ==>
      Step(s, policy, e).slots >= if e.failedOpen then s.slots else if s.slots > 0 then s.slots - 1 else s.slots
  {
    hide RunScript;
  }

  lemma {:induction false} SlotsCoverUnreleased(events: seq<Event>, policy: Policy)
    requires Disciplined(events, policy)
    ensures Unreleased(events, policy) <= StoresAfter(events, policy).slots
    ensures 0 <= Unreleased(events, policy) <= policy.concurrent
    decreases |events|
  {
    hide Step, Passes;
    assert events[..|events|] == events;
    if events != [] {
      var init, e := events[..|events| - 1], events[|events| - 1];
      forall n | 0 <= n <= |init|
        ensures Unreleased(init[..n], policy) >= 0
      {
        assert init[..n] == events[..n];
      }
      SlotsCoverUnreleased(init, policy);
      StepOnSlots(StoresAfter(init, policy), policy, e);
      PassIsCheck(StoresAfter(init, policy), policy, e);
    }
  }

  lemma PassIsCheck(s: Stores, policy: Policy, e: Event)
    ensures Passes(s, policy, e) ==> e.Checked?
  {
  }

  /**
   Over every run of checks and releases with Redis failing anywhere, the checks that pass without failing open stay
   within the limits: `perMinute` in every 60000 ms, `perDay` in every 86400000 ms, and `concurrent` of them unreleased.
   */
  lemma PassesWithinLimits(events: seq<Event>, policy: Policy, start: int)
    requires Legal(CallsOf(events, Minute), Config(60_000, policy.perMinute))
    requires Legal(CallsOf(events, Day), Config(86_400_000, policy.perDay))
    requires Disciplined(events, policy)
    ensures CountIn(PassTimes(events, policy, Minute), start, start + 60_000) <= policy.perMinute
    ensures CountIn(PassTimes(events, policy, Day), start, start + 86_400_000) <= policy.perDay
    ensures 0 <= Unreleased(events, policy) <= policy.concurrent
  {
    hide CountIn, Admissions, Legal;
    PassesAreAdmitted(events, policy, Minute, start, start + MINUTE_MS);
    WindowNeverOverfull(CallsOf(events, Minute), ConfigOf(policy, Minute), start);
    PassesAreAdmitted(events, policy, Day, start, start + DAY_MS);
    WindowNeverOverfull(CallsOf(events, Day), ConfigOf(policy, Day), start);
    SlotsCoverUnreleased(events, policy);
  }

  // ----------------------------------------------------------------------------------------------
  // When a check passes
  // ----------------------------------------------------------------------------------------------

  const NO_FAULTS := Faults(NoFault, NoFault, NoFault, NoFault, NoFault)

  /** What the last check of a run answers. */
  function LastAnswer(events: seq<Event>, policy: Policy): Result<CheckResult, Exceeded>
    requires events != [] && events[|events| - 1].Checked?
  {
    var e := events[|events| - 1];
    CheckStep(Arrives(StoresAfter(events[..|events| - 1], policy), e), policy, e.check).1
  }

  /** How many admissions a window holds when the last check of a run arrives. */
  function Held(events: seq<Event>, w: Window, windowMs: nat, limit: nat): nat
    requires events != [] && events[|events| - 1].Checked?
  {
    var now := CallOf(events[|events| - 1], w).now;
    CountIn(Admissions(CallsOf(events[..|events| - 1], w), Config(windowMs, limit)), now - windowMs, now)
  }

  /** Seconds, rounded up, until the oldest admission falls out of a window, behind the last check of a run. */
  function WaitSeconds(events: seq<Event>, w: Window, windowMs: nat, limit: nat): nat
    requires events != [] && events[|events| - 1].Checked?
  {
    var now := CallOf(events[|events| - 1], w).now;
    (WaitMs(Admissions(CallsOf(events, w), Config(windowMs, limit)), now, windowMs) + 999) / 1000
  }

  /** The reply of one window to the last check of a run, as the check uses it. */
  lemma WindowReply(events: seq<Event>, policy: Policy, w: Window)
    requires events != [] && events[|events| - 1].Checked? && Reaches(events[|events| - 1], w)
    requires Legal(CallsOf(events, w), ConfigOf(policy, w))
    ensures var e, cfg := events[|events| - 1], ConfigOf(policy, w);
      var s := StoresAfter(events[..|events| - 1], policy);
      var reply := RunScript(KeyOf(Arrives(s, e), w), CallOf(e, w).now, cfg.windowMs, cfg.limit, CallOf(e, w).member).1;
      var held := Held(events, w, cfg.windowMs, cfg.limit);
      && (reply.allowed <==> held < cfg.limit)
      && reply.count == (if held < cfg.limit then held + 1 else held)
      && ResetSeconds(reply.resetMs) == WaitSeconds(events, w, cfg.windowMs, cfg.limit)
  {
    hide RunScript, CountIn, Legal, Admissions, LastReply, After, StoresAfter, CheckStep;
    var init, e, cfg := events[..|events| - 1], events[|events| - 1], ConfigOf(policy, w);
    var c, calls := CallOf(e, w), CallsOf(init, w);
    WindowSeesItsCalls(init, policy, w);
    LastCall(calls, c, cfg);
    ArrivesFound(StoresAfter(init, policy), e, w);
    assert CallsOf(events, w) == calls + [c];
    hide CallsOf;
    assert (calls + [c])[..|calls|] == calls && Clock(calls + [c]) == c.now;
    ReplyByLog(calls + [c], cfg);
  }

  lemma ArrivesFound(s: Stores, e: Event, w: Window)
    requires e.Checked?
    ensures KeyOf(Arrives(s, e), w) == Found(KeyOf(s, w), CallOf(e, w))
  {
  }

  /**
   What a check answers, by the admissions that its windows hold and the slots that are taken when it arrives: with no
   fault, the first full limit is named, with the time until it can be tried again, and a check that meets none passes
   without failing open and is told what remains of its minute. A fault lets it through only at a step it reaches.
   */
  lemma CheckDecided(events: seq<Event>, policy: Policy)
    requires events != [] && events[|events| - 1].Checked?
    requires Legal(CallsOf(events, Minute), Config(60_000, policy.perMinute))
    requires Legal(CallsOf(events, Day), Config(86_400_000, policy.perDay))
    ensures var faults := events[|events| - 1].check.faults;
      var inMinute, inDay := Held(events, Minute, 60_000, policy.perMinute),
          Held(events, Day, 86_400_000, policy.perDay);
      var minuteWait, dayWait := WaitSeconds(events, Minute, 60_000, policy.perMinute),
          WaitSeconds(events, Day, 86_400_000, policy.perDay);
      var full := StoresAfter(events[..|events| - 1], policy).slots >= policy.concurrent;
      LastAnswer(events, policy) ==
        if faults.minute != NoFault || faults.day != NoFault then
          Ok(CheckResult(Headers(policy.perMinute, policy.perMinute, 60), true))
        else if inMinute >= policy.perMinute then Err(Exceeded(PerMinute, policy.perMinute, minuteWait))
        else if inDay >= policy.perDay then Err(Exceeded(PerDay, policy.perDay, dayWait))
        else if full && faults.incr == faults.expire == faults.rollback == NoFault then
          Err(Exceeded(Concurrent, policy.concurrent, 1))
        else
          Ok(CheckResult(Headers(policy.perMinute, policy.perMinute - inMinute - 1, minuteWait),
                         faults.incr != NoFault || faults.expire != NoFault || full))
  {
    hide RunScript, CountIn, Legal, Admissions, After, WaitMs, StoresAfter, CallsOf, SlotsAfterAcquire, Held,
         WaitSeconds;
    var faults := events[|events| - 1].check.faults;
    if faults.minute == faults.day == NoFault {
      WindowReply(events, policy, Minute);
      WindowReply(events, policy, Day);
    }
  }

  /** In particular a check fails open exactly on a fault at a step that it reaches: a window's script, the increment or
      its time to live behind both windows, the rollback behind a full counter. */
  lemma FailsOpenExactly(events: seq<Event>, policy: Policy)
    requires events != [] && events[|events| - 1].Checked?
    requires Legal(CallsOf(events, Minute), Config(60_000, policy.perMinute))
    requires Legal(CallsOf(events, Day), Config(86_400_000, policy.perDay))
    ensures var r, faults := LastAnswer(events, policy), events[|events| - 1].check.faults;
      r.Ok? && r.value.failedOpen <==>
        || faults.minute != NoFault || faults.day != NoFault
        || (&& Held(events, Minute, 60_000, policy.perMinute) < policy.perMinute
            && Held(events, Day, 86_400_000, policy.perDay) < policy.perDay
            && (|| faults.incr != NoFault || faults.expire != NoFault
                || (&& StoresAfter(events[..|events| - 1], policy).slots >= policy.concurrent
                    && faults.rollback != NoFault)))
  {
    hide LastAnswer, Held, WaitSeconds, StoresAfter, Legal, CallsOf;
    CheckDecided(events, policy);
  }

  ghost predicate FaultFree(events: seq<Event>) {
    forall e | e in events ::
      (e.Checked? ==> e.check.faults == NO_FAULTS) && (e.Released? ==> !e.failedOpen && e.fault == NoFault)
  }

  lemma FaultFreeStep(s: Stores, policy: Policy, e: Event)
    requires FaultFree([e])
    ensures Step(s, policy, e).slots ==
      if Passes(s, policy, e) then s.slots + 1
      else if e.Released? && s.slots > 0 then s.slots - 1
      else s.slots
  {
    hide RunScript;
    assert e in [e];
  }

  /** Without faults the counter is exactly the checks that passed and are not yet released. */
  lemma {:induction false} SlotsAreUnreleased(events: seq<Event>, policy: Policy)
    requires Disciplined(events, policy) && FaultFree(events)
    ensures StoresAfter(events, policy).slots == Unreleased(events, policy) >= 0
    decreases |events|
  {
    hide Step, Passes;
    assert events[..|events|] == events;
    if events != [] {
      var init, e := events[..|events| - 1], events[|events| - 1];
      forall n | 0 <= n <= |init|
        ensures Unreleased(init[..n], policy) >= 0
      {
        assert init[..n] == events[..n];
      }
      assert e in events && forall other | other in init :: other in events;
      SlotsAreUnreleased(init, policy);
      FaultFreeStep(StoresAfter(init, policy), policy, e);
      PassIsCheck(StoresAfter(init, policy), policy, e);
    }
  }

  /** Without faults a check passes if and only if its minute and its day hold fewer admissions than their limits and
      fewer than `concurrent` checks are unreleased. */
  lemma PassesExactly(events: seq<Event>, policy: Policy)
    requires events != [] && events[|events| - 1].Checked? && FaultFree(events)
    requires Legal(CallsOf(events, Minute), Config(60_000, policy.perMinute))
    requires Legal(CallsOf(events, Day), Config(86_400_000, policy.perDay))
    requires Disciplined(events[..|events| - 1], policy)
    ensures LastAnswer(events, policy).Ok? <==>
      && Held(events, Minute, 60_000, policy.perMinute) < policy.perMinute
      && Held(events, Day, 86_400_000, policy.perDay) < policy.perDay
      && Unreleased(events[..|events| - 1], policy) < policy.concurrent
    ensures LastAnswer(events, policy).Ok? ==> !LastAnswer(events, policy).value.failedOpen
  {
    var init, e := events[..|events| - 1], events[|events| - 1];
    assert e in events && forall other | other in init :: other in events;
    SlotsAreUnreleased(init, policy);
    hide LastAnswer, Held, WaitSeconds, StoresAfter, Legal, CallsOf, Disciplined, FaultFree;
    CheckDecided(events, policy);
  }

  // ----------------------------------------------------------------------------------------------
  // The slot commands of one check, as steps of the semaphore
  // ----------------------------------------------------------------------------------------------

  /** The commands that one acquisition issues, up to the one that fails. */
  function AcquireSteps(id: Id, full: bool, faults: Faults): seq<Semaphore.Step> {
    if faults.incr != NoFault then [IncrFails(id, faults.incr == FailsAfter)]
    else if faults.expire != NoFault then [IncrOk(id), ExpireFails(id)]
    else if !full then [IncrOk(id), ExpireOk(id)]
    else if faults.rollback == NoFault then [IncrOk(id), ExpireOk(id), RollbackOk(id)]
    else [IncrOk(id), ExpireOk(id), RollbackFails(id, faults.rollback == FailsAfter)]
  }

  /** An acquisition leaves the counter that its commands leave in the step system of the semaphore. */
  lemma AcquireIsARun(s: Semaphore.State, id: Id, faults: Faults)
    requires s.counter >= 0 && id !in s.phases
    ensures var steps := AcquireSteps(id, s.counter >= s.limit, faults);
      Semaphore.CanRun(s, steps)
      && Semaphore.Run(s, steps).counter == SlotsAfterAcquire(s.counter, s.limit, faults)
  {
    var steps := AcquireSteps(id, s.counter >= s.limit, faults);
    RunFirst(s, steps);
    var s1 := Semaphore.Take(s, steps[0]);
    if |steps| > 1 {
      RunFirst(s1, steps[1..]);
      var s2 := Semaphore.Take(s1, steps[1]);
      if |steps| > 2 {
        RunFirst(s2, steps[2..]);
        assert steps[2..][1..] == [] && steps[1..][1..] == steps[2..];
      } else {
        assert steps[1..][1..] == [];
      }
    } else {
      assert steps[1..] == [];
    }
  }

  lemma RunFirst(s: Semaphore.State, steps: seq<Semaphore.Step>)
    requires steps != [] && Semaphore.Enabled(s, steps[0])
    ensures var next := Semaphore.Take(s, steps[0]);
      Semaphore.CanRun(s, steps) <==> Semaphore.CanRun(next, steps[1..])
    ensures var next := Semaphore.Take(s, steps[0]);
      Semaphore.CanRun(s, steps) ==> Semaphore.Run(s, steps) == Semaphore.Run(next, steps[1..])
    ensures steps[1..] == [] ==> Semaphore.CanRun(s, steps) && Semaphore.Run(s, steps) == Semaphore.Take(s, steps[0])
  {
    var next := Semaphore.Take(s, steps[0]);
    assert Semaphore.CanRun(next, []) && Semaphore.Run(next, []) == next;
  }

  /** A release leaves the counter that its command leaves there. */
  lemma ReleaseIsAStep(s: Semaphore.State, id: Id, fault: Fault, stores: Stores)
    requires Semaphore.Enabled(s, ReleaseOk(id)) && stores.slots == s.counter
    ensures var step := if fault == NoFault then ReleaseOk(id) else ReleaseFails(id, fault == FailsAfter);
      ReleaseStep(stores, false, fault) == stores.(slots := Semaphore.Take(s, step).counter)
    ensures ReleaseStep(stores, true, fault) == stores
  {
  }
}
