/**
 The per-node circuit breaker: its state functions, the keyed class around them, what a state says about the
 sequence of reports that led to it, and which sequences of transitions are possible.
 */
module CircuitBreaker {
  import opened Wrappers

  type NodeId = string

  datatype Config = Config(failureThreshold: nat, coolDownMs: int)

  datatype Status = Healthy | Degraded | CircuitBroken

  datatype CircuitState = CircuitState(
    status: Status,
    consecutiveFailures: nat,
    lastSuccessAt: Option<int>,
    lastFailureAt: Option<int>,
    circuitOpenedAt: Option<int>,
    halfOpenInFlight: bool)

  const INITIAL := CircuitState(Healthy, 0, None, None, None, false)

  datatype Transition = NoTransition | CircuitOpened | CircuitHalfOpened | CircuitClosed

  datatype CircuitResult = CircuitResult(state: CircuitState, transition: Transition)

  datatype ProbeResult = ProbeResult(probe: bool, result: CircuitResult)

  // ----------------------------------------------------------------------------------------------
  // State functions
  // ----------------------------------------------------------------------------------------------

  function OnSuccess(s: CircuitState, now: int): CircuitResult {
    CircuitResult(CircuitState(Healthy, 0, Some(now), s.lastFailureAt, None, false),
                  if s.status.CircuitBroken? && s.halfOpenInFlight then CircuitClosed else NoTransition)
  }

  function OnFailure(s: CircuitState, cfg: Config, now: int): CircuitResult {
    var nextFailures := s.consecutiveFailures + 1;
    if s.status.CircuitBroken? && s.halfOpenInFlight then
      CircuitResult(
        s.(consecutiveFailures := nextFailures, lastFailureAt := Some(now), circuitOpenedAt := Some(now),
           halfOpenInFlight := false),
        NoTransition)
    else if nextFailures >= cfg.failureThreshold && !s.status.CircuitBroken? then
      CircuitResult(
        CircuitState(CircuitBroken, nextFailures, s.lastSuccessAt, Some(now), Some(now), false), CircuitOpened)
    else
      CircuitResult(
        CircuitState(Degraded, nextFailures, s.lastSuccessAt, Some(now), s.circuitOpenedAt, false), NoTransition)
  }

  function ShouldProbe(s: CircuitState, cfg: Config, now: int): ProbeResult {
    if !s.status.CircuitBroken? then ProbeResult(true, CircuitResult(s, NoTransition))
    else if s.circuitOpenedAt.None? then ProbeResult(true, CircuitResult(s, NoTransition))
    else if now - s.circuitOpenedAt.value < cfg.coolDownMs then ProbeResult(false, CircuitResult(s, NoTransition))
    else if s.halfOpenInFlight then ProbeResult(false, CircuitResult(s, NoTransition))
    else ProbeResult(true, CircuitResult(s.(halfOpenInFlight := true), CircuitHalfOpened))
  }

  /** Broken and still cooling down: not to be selected. */
  predicate Excluded(s: CircuitState, cfg: Config, now: int) {
    s.status.CircuitBroken? && s.circuitOpenedAt.Some? && now - s.circuitOpenedAt.value < cfg.coolDownMs
  }

  // ----------------------------------------------------------------------------------------------
  // Event sequences of one node
  // ----------------------------------------------------------------------------------------------

  datatype Event = Success(at: int) | Failure(at: int) | Probe(at: int)

  function Apply(s: CircuitState, cfg: Config, e: Event): CircuitResult {
    match e
    case Success(at) => OnSuccess(s, at)
    case Failure(at) => OnFailure(s, cfg, at)
    case Probe(at) => ShouldProbe(s, cfg, at).result
  }

  function After(events: seq<Event>, cfg: Config): CircuitState {
    if events == [] then INITIAL
    else Apply(After(events[..|events| - 1], cfg), cfg, events[|events| - 1]).state
  }

  /** The transitions reported along the way, in order. */
  function Log(events: seq<Event>, cfg: Config): seq<Transition> {
    if events == [] then []
    else
      var t := Apply(After(events[..|events| - 1], cfg), cfg, events[|events| - 1]).transition;
      Log(events[..|events| - 1], cfg) + if t.NoTransition? then [] else [t]
  }

  // What a caller can count in the events themselves.

  function FailuresSinceSuccess(events: seq<Event>): nat {
    if events == [] then 0
    else
      match events[|events| - 1]
      case Success(_) => 0
      case Failure(_) => FailuresSinceSuccess(events[..|events| - 1]) + 1
      case Probe(_) => FailuresSinceSuccess(events[..|events| - 1])
  }

  function LastFailure(events: seq<Event>): Option<int> {
    if events == [] then None
    else
      match events[|events| - 1]
      case Failure(at) => Some(at)
      case _ => LastFailure(events[..|events| - 1])
  }

  function LastSuccess(events: seq<Event>): Option<int> {
    if events == [] then None
    else
      match events[|events| - 1]
      case Success(at) => Some(at)
      case _ => LastSuccess(events[..|events| - 1])
  }

  function FailureBeforeLast(events: seq<Event>): Option<int> {
    if events == [] then None
    else
      var init := events[..|events| - 1];
      if events[|events| - 1].Failure? then LastFailure(init) else FailureBeforeLast(init)
  }

  /** Since the last report there was a probe, by when the last failure was a cool-down ago. */
  predicate ProbedSinceReport(events: seq<Event>, cfg: Config) {
    if events == [] then false
    else
      var init := events[..|events| - 1];
      match events[|events| - 1]
      case Success(_) => false
      case Failure(_) => false
      case Probe(at) =>
        ProbedSinceReport(init, cfg) || (LastFailure(init).Some? && at - LastFailure(init).value >= cfg.coolDownMs)
  }

  /** From the threshold on, every failure that does not answer a probe flips the circuit between open and degraded. */
  predicate IsOpenAfter(failures: nat, failedProbes: nat, cfg: Config) {
    failures >= cfg.failureThreshold && (failures - cfg.failureThreshold - failedProbes) % 2 == 0
  }

  /** Failures since the last success that answered a half-open probe: a probe of an open circuit since the report
      before. */
  function FailedProbesSinceSuccess(events: seq<Event>, cfg: Config): nat {
    if events == [] then 0
    else
      var init := events[..|events| - 1];
      var failed := FailedProbesSinceSuccess(init, cfg);
      match events[|events| - 1]
      case Success(_) => 0
      case Failure(_) =>
        var answersProbe := IsOpenAfter(FailuresSinceSuccess(init), failed, cfg) && ProbedSinceReport(init, cfg);
        failed + if answersProbe then 1 else 0
      case Probe(_) => failed
  }

  /** Every field of a reachable state, in terms of the events that led to it. */
  ghost predicate Characterised(s: CircuitState, events: seq<Event>, cfg: Config) {
    var n, threshold, failedProbes := FailuresSinceSuccess(events), cfg.failureThreshold,
        FailedProbesSinceSuccess(events, cfg);
    && s.consecutiveFailures == n
    && s.lastFailureAt == LastFailure(events)
    && s.lastSuccessAt == LastSuccess(events)
    && failedProbes <= (if n >= threshold then n - threshold else 0)
    && (s.status.Healthy? <==> n == 0)
    && (s.status.CircuitBroken? <==> IsOpenAfter(n, failedProbes, cfg))
    && (s.halfOpenInFlight <==> s.status.CircuitBroken? && ProbedSinceReport(events, cfg))
    // An open circuit is timed from the last failure. Degraded is either on the way to the threshold and never opened,
    // or past it, one failure after the opening and one failure from the next.
    && (s.status.CircuitBroken? ==> s.circuitOpenedAt.Some? && s.circuitOpenedAt == LastFailure(events))
    && (s.status.Degraded? && n > threshold ==>
          s.circuitOpenedAt.Some? && s.circuitOpenedAt == FailureBeforeLast(events))
    && (s.status.Degraded? ==> n != threshold)
    && (s.status.Healthy? || n < threshold ==> s.circuitOpenedAt.None?)
  }

  lemma {:induction false} TraceCharacterised(events: seq<Event>, cfg: Config)
    requires cfg.failureThreshold >= 1
    ensures Characterised(After(events, cfg), events, cfg)
    decreases |events|
  {
    if events != [] {
      TraceCharacterised(events[..|events| - 1], cfg);
    }
  }

  /** A degraded node past the threshold, or one short of it, opens on its next failure. */
  lemma OneFailureFromOpening(events: seq<Event>, cfg: Config, now: int)
    requires cfg.failureThreshold >= 1
    ensures var s := After(events, cfg);
      OnFailure(s, cfg, now).transition.CircuitOpened?
      <==> !s.status.CircuitBroken? && FailuresSinceSuccess(events) + 1 >= cfg.failureThreshold
  {
    TraceCharacterised(events, cfg);
  }

  /** A probe is refused exactly while the node is excluded or a probe is in flight; by the events, while the circuit
      is open and either still cools down since the last failure or was probed since. */
  lemma ProbeRefusedExactly(events: seq<Event>, cfg: Config, now: int)
    requires cfg.failureThreshold >= 1
    ensures var s := After(events, cfg);
      !ShouldProbe(s, cfg, now).probe <==> Excluded(s, cfg, now) || s.halfOpenInFlight
    ensures !ShouldProbe(After(events, cfg), cfg, now).probe <==>
      && IsOpenAfter(FailuresSinceSuccess(events), FailedProbesSinceSuccess(events, cfg), cfg)
      && LastFailure(events).Some?
      && (now - LastFailure(events).value < cfg.coolDownMs || ProbedSinceReport(events, cfg))
  {
    TraceCharacterised(events, cfg);
  }

  /** A node is excluded exactly while its circuit is open and cools down since the last failure; a probe in flight
      makes no difference. */
  lemma ExcludedExactly(events: seq<Event>, cfg: Config, now: int)
    requires cfg.failureThreshold >= 1
    ensures Excluded(After(events, cfg), cfg, now) <==>
      && IsOpenAfter(FailuresSinceSuccess(events), FailedProbesSinceSuccess(events, cfg), cfg)
      && LastFailure(events).Some? && now - LastFailure(events).value < cfg.coolDownMs
  {
    TraceCharacterised(events, cfg);
  }

  /** Which event reports which transition: a failure that opens a circuit which is not open, a probe that finds an open
      one cooled down and not yet probed, a success that answers such a probe; every other event reports none. */
  lemma TransitionExactly(events: seq<Event>, e: Event, cfg: Config)
    requires cfg.failureThreshold >= 1
    ensures var open, probed := IsOpenAfter(FailuresSinceSuccess(events), FailedProbesSinceSuccess(events, cfg), cfg),
          ProbedSinceReport(events, cfg);
      Apply(After(events, cfg), cfg, e).transition ==
        match e
        case Success(_) => if open && probed then CircuitClosed else NoTransition
        case Failure(_) =>
          if !open && FailuresSinceSuccess(events) + 1 >= cfg.failureThreshold then CircuitOpened else NoTransition
        case Probe(at) =>
          if open && !probed && LastFailure(events).Some? && at - LastFailure(events).value >= cfg.coolDownMs
          then CircuitHalfOpened else NoTransition
  {
    TraceCharacterised(events, cfg);
  }

  // ----------------------------------------------------------------------------------------------
  // The transition log
  // ----------------------------------------------------------------------------------------------

  predicate Follows(a: Transition, b: Transition) {
    match a
    case CircuitOpened => b.CircuitOpened? || b.CircuitHalfOpened?
    case CircuitHalfOpened => b.CircuitOpened? || b.CircuitHalfOpened? || b.CircuitClosed?
    case CircuitClosed => b.CircuitOpened?
    case NoTransition => false
  }

  /** The language of transition logs: it starts with an opening, and each entry may follow the one before. */
  ghost predicate ValidLog(log: seq<Transition>) {
    && (log != [] ==> log[0].CircuitOpened?)
    && forall i | 0 < i < |log| :: Follows(log[i - 1], log[i])
  }

  /** How the state bounds the last entry of the log. */
  ghost predicate LogFits(s: CircuitState, log: seq<Transition>) {
    && ValidLog(log)
    && (forall i | 0 <= i < |log| :: !log[i].NoTransition?)
    && (s.status.CircuitBroken? ==>
          log != [] && (log[|log| - 1].CircuitOpened? || log[|log| - 1].CircuitHalfOpened?))
    && (s.halfOpenInFlight ==> log != [] && log[|log| - 1].CircuitHalfOpened?)
  }

  lemma {:induction false} LogFitsState(events: seq<Event>, cfg: Config)
    ensures LogFits(After(events, cfg), Log(events, cfg))
    decreases |events|
  {
    if events != [] {
      LogFitsState(events[..|events| - 1], cfg);
    }
  }

  lemma {:induction false} OnlyProbes(events: seq<Event>, probes: seq<Event>, cfg: Config)
    requires forall i | 0 <= i < |probes| :: probes[i].Probe?
    ensures var log, all := Log(events, cfg), Log(events + probes, cfg);
      if After(events, cfg).halfOpenInFlight then all == log
      else if After(events + probes, cfg).halfOpenInFlight then all == log + [CircuitHalfOpened]
      else all == log
    ensures After(events, cfg).halfOpenInFlight ==> After(events + probes, cfg).halfOpenInFlight
    decreases |probes|
  {
    if probes == [] {
      assert events + probes == events;
    } else {
      var init := probes[..|probes| - 1];
      assert (events + probes)[..|events + probes| - 1] == events + init;
      OnlyProbes(events, init, cfg);
    }
  }

  /** Between two reports at most one half-open probe is granted, and none while one is in flight. */
  lemma OneProbeBetweenReports(events: seq<Event>, probes: seq<Event>, cfg: Config)
    requires forall i | 0 <= i < |probes| :: probes[i].Probe?
    ensures |Log(events + probes, cfg)| <= |Log(events, cfg)| + 1
    ensures After(events, cfg).halfOpenInFlight ==> Log(events + probes, cfg) == Log(events, cfg)
  {
    OnlyProbes(events, probes, cfg);
  }

  // Every log of the language happens: a sequence of events that produces it.

  /** The state in which `Realise` leaves the breaker, by the last entry of the log. */
  ghost predicate Rests(s: CircuitState, log: seq<Transition>, cfg: Config) {
    if log == [] || log[|log| - 1].CircuitClosed? then
      s.status.Healthy? && s.consecutiveFailures == 0 && !s.halfOpenInFlight
    else
      && s.status.CircuitBroken? && s.circuitOpenedAt.Some? && s.consecutiveFailures >= cfg.failureThreshold
      && s.halfOpenInFlight == log[|log| - 1].CircuitHalfOpened?
  }

  lemma Extend(events: seq<Event>, e: Event, cfg: Config)
    ensures var r := Apply(After(events, cfg), cfg, e);
      && After(events + [e], cfg) == r.state
      && Log(events + [e], cfg) == Log(events, cfg) + if r.transition.NoTransition? then [] else [r.transition]
  {
    assert (events + [e])[..|events|] == events;
  }

  /** From a healthy state, `k` failures short of the threshold only degrade. */
  lemma {:induction false} Fail(events: seq<Event>, k: nat, cfg: Config) returns (more: seq<Event>)
    requires After(events, cfg).status.Healthy? && After(events, cfg).consecutiveFailures == 0
    requires !After(events, cfg).halfOpenInFlight && k < cfg.failureThreshold
    ensures Log(more, cfg) == Log(events, cfg)
    ensures var s := After(more, cfg);
      s.consecutiveFailures == k && !s.status.CircuitBroken? && !s.halfOpenInFlight
    decreases k
  {
    if k == 0 {
      more := events;
    } else {
      var fewer := Fail(events, k - 1, cfg);
      Extend(fewer, Failure(0), cfg);
      more := fewer + [Failure(0)];
    }
  }

  /** A failure answers the probe in flight, if there is one, and leaves the circuit open. */
  lemma FailProbe(events: seq<Event>, cfg: Config) returns (more: seq<Event>)
    requires var s := After(events, cfg);
      s.status.CircuitBroken? && s.circuitOpenedAt.Some? && s.consecutiveFailures >= cfg.failureThreshold
    ensures Log(more, cfg) == Log(events, cfg)
    ensures var s := After(more, cfg);
      && s.status.CircuitBroken? && s.circuitOpenedAt.Some? && s.consecutiveFailures >= cfg.failureThreshold
      && !s.halfOpenInFlight
  {
    more := events;
    if After(events, cfg).halfOpenInFlight {
      Extend(events, Failure(0), cfg);
      more := events + [Failure(0)];
    }
  }

  lemma RealiseHalfOpened(events: seq<Event>, log: seq<Transition>, cfg: Config) returns (more: seq<Event>)
    requires log != [] && !log[|log| - 1].CircuitClosed?
    requires Log(events, cfg) == log && Rests(After(events, cfg), log, cfg)
    ensures Log(more, cfg) == log + [CircuitHalfOpened]
    ensures Rests(After(more, cfg), log + [CircuitHalfOpened], cfg)
  {
    more := FailProbe(events, cfg);
    var probe := Probe(After(more, cfg).circuitOpenedAt.value + cfg.coolDownMs);
    Extend(more, probe, cfg);
    more := more + [probe];
  }

  lemma RealiseOpened(events: seq<Event>, log: seq<Transition>, cfg: Config) returns (more: seq<Event>)
    requires cfg.failureThreshold >= 1 && Log(events, cfg) == log && Rests(After(events, cfg), log, cfg)
    ensures Log(more, cfg) == log + [CircuitOpened]
    ensures Rests(After(more, cfg), log + [CircuitOpened], cfg)
  {
    if log == [] || log[|log| - 1].CircuitClosed? {
      more := Fail(events, cfg.failureThreshold - 1, cfg);
    } else {
      more := FailProbe(events, cfg);
      Extend(more, Failure(0), cfg);
      more := more + [Failure(0)];
    }
    Extend(more, Failure(0), cfg);
    more := more + [Failure(0)];
  }

  lemma RealiseClosed(events: seq<Event>, log: seq<Transition>, cfg: Config) returns (more: seq<Event>)
    requires log != [] && log[|log| - 1].CircuitHalfOpened?
    requires Log(events, cfg) == log && Rests(After(events, cfg), log, cfg)
    ensures Log(more, cfg) == log + [CircuitClosed]
    ensures Rests(After(more, cfg), log + [CircuitClosed], cfg)
  {
    Extend(events, Success(0), cfg);
    more := events + [Success(0)];
  }

  /** Events after which the log has one more entry. */
  lemma RealiseNext(events: seq<Event>, log: seq<Transition>, next: Transition, cfg: Config)
    returns (more: seq<Event>)
    requires cfg.failureThreshold >= 1 && Log(events, cfg) == log && Rests(After(events, cfg), log, cfg)
    requires ValidLog(log + [next])
    ensures Log(more, cfg) == log + [next] && Rests(After(more, cfg), log + [next], cfg)
  {
    hide After, Rests, Log;
    var longer := log + [next];
    if log == [] {
      assert longer[0] == next;
    } else {
      assert longer[|log| - 1] == log[|log| - 1] && Follows(longer[|log| - 1], longer[|log|]);
    }
    if next.CircuitClosed? {
      more := RealiseClosed(events, log, cfg);
    } else if next.CircuitHalfOpened? {
      more := RealiseHalfOpened(events, log, cfg);
    } else {
      more := RealiseOpened(events, log, cfg);
    }
  }

  lemma {:induction false} Realise(log: seq<Transition>, cfg: Config) returns (events: seq<Event>)
    requires cfg.failureThreshold >= 1 && ValidLog(log)
    ensures Log(events, cfg) == log && Rests(After(events, cfg), log, cfg)
    decreases |log|
  {
    if log == [] {
      events := [];
    } else {
      var init, last := log[..|log| - 1], log[|log| - 1];
      assert log == init + [last];
      forall i | 0 < i < |init|
        ensures Follows(init[i - 1], init[i])
      {
        assert Follows(log[i - 1], log[i]);
      }
      var shorter := Realise(init, cfg);
      events := RealiseNext(shorter, init, last, cfg);
    }
  }

  /**
   A sequence of transitions can be observed if and only if it starts with an opening, closings directly follow
   half-openings and are followed only by openings, and nothing else constrains it.
   */
  lemma ObservableLogs(log: seq<Transition>, cfg: Config)
    requires cfg.failureThreshold >= 1
    ensures (exists events :: Log(events, cfg) == log) <==> ValidLog(log)
  {
    if ValidLog(log) {
      var events := Realise(log, cfg);
    }
    if events :| Log(events, cfg) == log {
      LogFitsState(events, cfg);
    }
  }

  // ----------------------------------------------------------------------------------------------
  // Many nodes
  // ----------------------------------------------------------------------------------------------

  type States = map<NodeId, CircuitState>

  function StateIn(states: States, node: NodeId): CircuitState {
    if node in states then states[node] else INITIAL
  }

  datatype NodeEvent = NodeEvent(node: NodeId, event: Event)

  /** The state map after events of many nodes. */
  function Registry(events: seq<NodeEvent>, cfg: Config): States {
    if events == [] then map[]
    else
      var states, last := Registry(events[..|events| - 1], cfg), events[|events| - 1];
      states[last.node := Apply(StateIn(states, last.node), cfg, last.event).state]
  }

  function Project(events: seq<NodeEvent>, node: NodeId): seq<Event> {
    if events == [] then []
    else
      var last := events[|events| - 1];
      Project(events[..|events| - 1], node) + if last.node == node then [last.event] else []
  }

  /** Nodes do not interfere: each node's state is that of its own events. */
  lemma {:induction false} NodesIndependent(events: seq<NodeEvent>, cfg: Config, node: NodeId)
    ensures StateIn(Registry(events, cfg), node) == After(Project(events, node), cfg)
    decreases |events|
  {
    hide Apply;
    if events != [] {
      var init, last := events[..|events| - 1], events[|events| - 1];
      NodesIndependent(init, cfg, node);
      var mine := Project(init, node);
      assert (mine + [last.event])[..|mine|] == mine;
      assert mine + [] == mine;
    }
  }

  /** The stateful wrapper: a map filled lazily, iterated in insertion order. */
  class Breaker {
    const cfg: Config
    var states: States
    var order: seq<NodeId>

    ghost predicate Valid()
      reads this
    {
      && (forall i, j | 0 <= i < j < |order| :: order[i] != order[j])
      && (forall node :: node in states <==> node in order)
    }

    constructor (cfg: Config)
      ensures Valid() && this.cfg == cfg && states == map[]
    {
      this.cfg := cfg;
      states, order := map[], [];
    }

    method Put(node: NodeId, s: CircuitState)
      requires Valid()
      modifies this
      ensures Valid() && states == old(states)[node := s]
    {
      if node !in states {
        order := order + [node];
      }
      states := states[node := s];
    }

    /** Lazily initialized; no node's state changes by looking. */
    method State(node: NodeId) returns (s: CircuitState)
      requires Valid()
      modifies this
      ensures Valid() && s == old(StateIn(states, node))
      ensures states == old(states)[node := s]
    {
      if node !in states {
        Put(node, INITIAL);
      }
      return states[node];
    }

    method ReportSuccess(node: NodeId, now: int) returns (t: Transition)
      requires Valid()
      modifies this
      ensures Valid()
      ensures var r := Apply(old(StateIn(states, node)), cfg, Success(now));
        states == old(states)[node := r.state] && t == r.transition
    {
      var s := State(node);
      var r := OnSuccess(s, now);
      Put(node, r.state);
      return r.transition;
    }

    method ReportFailure(node: NodeId, now: int) returns (t: Transition)
      requires Valid()
      modifies this
      ensures Valid()
      ensures var r := Apply(old(StateIn(states, node)), cfg, Failure(now));
        states == old(states)[node := r.state] && t == r.transition
    {
      var s := State(node);
      var r := OnFailure(s, cfg, now);
      Put(node, r.state);
      return r.transition;
    }

    method AskProbe(node: NodeId, now: int) returns (probe: bool, t: Transition)
      requires Valid()
      modifies this
      ensures Valid()
      ensures var r := ShouldProbe(old(StateIn(states, node)), cfg, now);
        && states == old(states)[node := r.result.state]
        && probe == r.probe && t == r.result.transition
    {
      var s := State(node);
      var r := ShouldProbe(s, cfg, now);
      if r.result.state != s {
        Put(node, r.result.state);
      }
      return r.probe, r.result.transition;
    }

    /** The nodes to leave out of a selection, each once. */
    method CurrentExclusions(now: int) returns (out: seq<NodeId>)
      requires Valid()
      ensures forall node :: node in out <==> Excluded(StateIn(states, node), cfg, now)
      ensures forall i, j | 0 <= i < j < |out| :: out[i] != out[j]
    {
      out := [];
      var i := 0;
      while i < |order|
        invariant 0 <= i <= |order|
        invariant forall node ::
          node in out <==> node in order[..i] && Excluded(StateIn(states, node), cfg, now)
        invariant forall a, b | 0 <= a < b < |out| :: out[a] != out[b]
      {
        var s := states[order[i]];
        assert order[..i + 1] == order[..i] + [order[i]];
        assert order[i] !in order[..i];
        if s.status.CircuitBroken? && s.circuitOpenedAt.Some?
           && now - s.circuitOpenedAt.value < cfg.coolDownMs {
          out := out + [order[i]];
        }
        i := i + 1;
      }
      assert order[..i] == order;
    }
  }
}
