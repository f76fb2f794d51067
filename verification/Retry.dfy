/**
 The retry loop: select a node, try it, report a failed node to the breaker, go on while the failure allows it.
 What the registry, the random source, the clocks, the attempts and other users of the breaker do in each turn
 is an input.
 */
module Retry {
  import opened Wrappers
  import CB = CircuitBreaker
  import opened Router

  datatype Disposition = RetryNextNode | RetrySameNode | NoRetry

  datatype AttemptResult<T> =
    | Success(value: T)
    | Failure(error: string, disposition: Disposition, firstTokenDelivered: bool)

  const EXHAUSTED := "runWithRetry: exhausted with no attempt made"

  /** One turn of the loop as the environment sees it. `outside` happens to the breaker before the selection. */
  datatype Turn<T> = Turn(
    outside: seq<CB.NodeEvent>,
    candidates: seq<NodeRef>,
    draw: real,
    selectAt: int,
    result: AttemptResult<T>,
    reportAt: int)

  datatype AttemptContext = AttemptContext(attempt: nat, node: NodeRef, previousNodeIds: seq<CB.NodeId>)

  datatype RunOutcome<T> = Returned(result: AttemptResult<T>) | Threw(error: RouteError)

  /** The loop returns a result that is a success or must not be retried. */
  predicate IsFinal<T>(r: AttemptResult<T>) {
    r.Success? || r.firstTokenDelivered || r.disposition.NoRetry?
  }

  function ApplyAll(states: CB.States, cfg: CB.Config, events: seq<CB.NodeEvent>): CB.States
    decreases events
  {
    if events == [] then states
    else
      var e := events[0];
      ApplyAll(states[e.node := CB.Apply(CB.StateIn(states, e.node), cfg, e.event).state], cfg, events[1..])
  }

  /** What a failed turn tells the breaker. */
  function Report<T>(states: CB.States, cfg: CB.Config, node: CB.NodeId, turn: Turn<T>): CB.States {
    if turn.result.Failure? && turn.result.disposition.RetryNextNode? then
      states[node := CB.OnFailure(CB.StateIn(states, node), cfg, turn.reportAt).state]
    else states
  }

  /** The nodes blamed so far, with this turn's node if its failure asks for another one. */
  function Blaming<T>(previous: seq<CB.NodeId>, node: CB.NodeId, turn: Turn<T>): seq<CB.NodeId> {
    if turn.result.Failure? && turn.result.disposition.RetryNextNode? then previous + [node] else previous
  }

  /** The node a turn selects, if any is eligible. */
  function Pick<T>(turn: Turn<T>, states: CB.States, cfg: CB.Config): Option<NodeRef> {
    var es := Eligible(turn.candidates, ApplyAll(states, cfg, turn.outside), cfg, turn.selectAt);
    if es == [] then None else Some(es[SelectIndex(es, turn.draw)])
  }

  datatype Run<T> = Run(contexts: seq<AttemptContext>, outcome: RunOutcome<T>, states: CB.States)

  /** The run from attempt number `attempt` on. */
  function RunFrom<T>(
    env: seq<Turn<T>>, maxAttempts: nat, attempt: nat, previous: seq<CB.NodeId>, states: CB.States, cfg: CB.Config)
    : (r: Run<T>)
    requires attempt >= 1 && |env| >= maxAttempts
    decreases maxAttempts + 1 - attempt
  {
    if attempt > maxAttempts then Run([], Returned(Failure(EXHAUSTED, NoRetry, false)), states)
    else
      var turn := env[attempt - 1];
      var seen := ApplyAll(states, cfg, turn.outside);
      match Pick(turn, states, cfg)
      case None => Run([], Threw(NoHealthyNodes), seen)
      case Some(node) =>
        var context := AttemptContext(attempt, node, previous);
        if IsFinal(turn.result) || attempt == maxAttempts then Run([context], Returned(turn.result), seen)
        else
          var rest := RunFrom(env, maxAttempts, attempt + 1, Blaming(previous, node.id, turn),
                              Report(seen, cfg, node.id, turn), cfg);
          Run([context] + rest.contexts, rest.outcome, rest.states)
  }

  /** One turn of the loop. */
  lemma RunTurn<T>(
    env: seq<Turn<T>>, maxAttempts: nat, attempt: nat, previous: seq<CB.NodeId>, states: CB.States, cfg: CB.Config)
    requires 1 <= attempt <= maxAttempts <= |env|
    ensures var run, turn := RunFrom(env, maxAttempts, attempt, previous, states, cfg), env[attempt - 1];
      var seen, pick := ApplyAll(states, cfg, turn.outside), Pick(turn, states, cfg);
      if pick.None? then run == Run([], Threw(NoHealthyNodes), seen)
      else
        var node := pick.value;
        var context := AttemptContext(attempt, node, previous);
        if IsFinal(turn.result) || attempt == maxAttempts then run == Run([context], Returned(turn.result), seen)
        else
          var rest := RunFrom(env, maxAttempts, attempt + 1, Blaming(previous, node.id, turn),
                              Report(seen, cfg, node.id, turn), cfg);
          run == Run([context] + rest.contexts, rest.outcome, rest.states)
  {
  }

  lemma RunEnds<T>(
    env: seq<Turn<T>>, maxAttempts: nat, attempt: nat, previous: seq<CB.NodeId>, states: CB.States, cfg: CB.Config)
    requires 1 <= attempt && maxAttempts < attempt && maxAttempts <= |env|
    ensures RunFrom(env, maxAttempts, attempt, previous, states, cfg)
      == Run([], Returned(Failure(EXHAUSTED, NoRetry, false)), states)
  {
  }

  /** Other users of the breaker. */
  method ApplyOutside(breaker: CB.Breaker, events: seq<CB.NodeEvent>)
    requires breaker.Valid()
    modifies breaker
    ensures breaker.Valid() && breaker.states == ApplyAll(old(breaker.states), breaker.cfg, events)
  {
    hide CB.Apply, CB.StateIn;
    var i := 0;
    assert events[0..] == events;
    while i < |events|
      invariant 0 <= i <= |events| && breaker.Valid()
      invariant ApplyAll(breaker.states, breaker.cfg, events[i..])
        == ApplyAll(old(breaker.states), breaker.cfg, events)
    {
      var e := events[i];
      assert events[i..][0] == e && events[i..][1..] == events[i + 1..];
      match e.event {
        case Success(at) => var _ := breaker.ReportSuccess(e.node, at);
        case Failure(at) => var _ := breaker.ReportFailure(e.node, at);
        case Probe(at) => ApplyProbe(breaker, e.node, at);
      }
      i := i + 1;
    }
    assert events[i..] == [];
  }

  method ApplyProbe(breaker: CB.Breaker, node: CB.NodeId, at: int)
    requires breaker.Valid()
    modifies breaker
    ensures breaker.Valid()
    ensures breaker.states == old(breaker.states)[
      node := CB.Apply(CB.StateIn(old(breaker.states), node), breaker.cfg, CB.Probe(at)).state]
  {
    var probe, t := breaker.AskProbe(node, at);
  }

  /** `selectNode`, after whatever else happened to the breaker. */
  method SelectInTurn<T>(breaker: CB.Breaker, turn: Turn<T>) returns (selected: Result<NodeRef, RouteError>)
    requires breaker.Valid()
    modifies breaker
    ensures breaker.Valid() && breaker.states == ApplyAll(old(breaker.states), breaker.cfg, turn.outside)
    ensures var pick := Pick(turn, old(breaker.states), breaker.cfg);
      selected == if pick.None? then Err(NoHealthyNodes) else Ok(pick.value)
  {
    hide ApplyAll, Eligible, SelectIndex, CB.Excluded;
    ApplyOutside(breaker, turn.outside);
    selected := SelectNode(breaker, turn.candidates, turn.draw, turn.selectAt);
  }

  method RunWithRetry<T>(breaker: CB.Breaker, maxAttempts: nat, env: seq<Turn<T>>)
    returns (outcome: RunOutcome<T>, contexts: seq<AttemptContext>)
    requires breaker.Valid() && |env| >= maxAttempts
    modifies breaker
    ensures breaker.Valid()
    ensures Run(contexts, outcome, breaker.states)
      == RunFrom(env, maxAttempts, 1, [], old(breaker.states), breaker.cfg)
  {
    hide RunFrom, ApplyAll, Pick, CB.OnFailure, CB.StateIn;
    var previousNodeIds: seq<CB.NodeId> := [];
    contexts := [];
    var attempt := 1;
    while attempt <= maxAttempts
      invariant 1 <= attempt <= maxAttempts + 1 && breaker.Valid()
      invariant var rest := RunFrom(env, maxAttempts, attempt, previousNodeIds, breaker.states, breaker.cfg);
        Run(contexts + rest.contexts, rest.outcome, rest.states)
        == RunFrom(env, maxAttempts, 1, [], old(breaker.states), breaker.cfg)
    {
      RunTurn(env, maxAttempts, attempt, previousNodeIds, breaker.states, breaker.cfg);
      var turn := env[attempt - 1];
      var selected := SelectInTurn(breaker, turn);
      if selected.Err? {
        assert contexts + [] == contexts;
        return Threw(selected.error), contexts;
      }
      var node := selected.value;
      ghost var before, previous := contexts, previousNodeIds;
      var context := AttemptContext(attempt, node, previousNodeIds);
      contexts := contexts + [context];
      var result := turn.result;
      if result.Success? || result.firstTokenDelivered || result.disposition.NoRetry? || attempt == maxAttempts {
        return Returned(result), contexts;
      }
      ghost var seen := breaker.states;
      if result.disposition.RetryNextNode? {
        previousNodeIds := previousNodeIds + [node.id];
        var _ := breaker.ReportFailure(node.id, turn.reportAt);
      }
      assert breaker.states == Report(seen, breaker.cfg, node.id, turn);
      assert previousNodeIds == Blaming(previous, node.id, turn);
      attempt := attempt + 1;
      ghost var rest := RunFrom(env, maxAttempts, attempt, previousNodeIds, breaker.states, breaker.cfg);
      assert contexts + rest.contexts == before + ([context] + rest.contexts);
    }
    RunEnds(env, maxAttempts, attempt, previousNodeIds, breaker.states, breaker.cfg);
    assert contexts + [] == contexts;
    return Returned(Failure(EXHAUSTED, NoRetry, false)), contexts;
  }

  // ----------------------------------------------------------------------------------------------
  // What a run does
  // ----------------------------------------------------------------------------------------------

  /** The nodes blamed by the first attempts of a run: those whose failure asked for another node. */
  function Blamed<T>(contexts: seq<AttemptContext>, env: seq<Turn<T>>, attempt: nat): seq<CB.NodeId>
    requires attempt >= 1 && attempt - 1 + |contexts| <= |env|
  {
    if contexts == [] then []
    else
      var r := env[attempt - 1].result;
      (if r.Failure? && r.disposition.RetryNextNode? then [contexts[0].node.id] else [])
      + Blamed(contexts[1..], env, attempt + 1)
  }

  lemma NoneBlamed<T>(env: seq<Turn<T>>, attempt: nat)
    requires 1 <= attempt <= |env| + 1
    ensures Blamed([], env, attempt) == []
  {
  }

  lemma BlamedStep<T>(previous: seq<CB.NodeId>, cs: seq<AttemptContext>, env: seq<Turn<T>>, attempt: nat)
    requires attempt >= 1 && cs != [] && attempt - 1 + |cs| <= |env|
    ensures previous + Blamed(cs, env, attempt)
      == Blaming(previous, cs[0].node.id, env[attempt - 1]) + Blamed(cs[1..], env, attempt + 1)
  {
  }

  /** Attempts are numbered in turn and bounded, and each is told which nodes were blamed before it. */
  lemma {:induction false} AttemptsInOrder<T>(
    env: seq<Turn<T>>, maxAttempts: nat, attempt: nat, previous: seq<CB.NodeId>, states: CB.States, cfg: CB.Config)
    requires attempt >= 1 && |env| >= maxAttempts
    ensures var cs := RunFrom(env, maxAttempts, attempt, previous, states, cfg).contexts;
      && (attempt <= maxAttempts ==> attempt - 1 + |cs| <= maxAttempts)
      && (attempt > maxAttempts ==> cs == [])
      && forall j | 0 <= j < |cs| ::
           && cs[j].attempt == attempt + j
           && cs[j].previousNodeIds == previous + Blamed(cs[..j], env, attempt)
    decreases maxAttempts + 1 - attempt
  {
    hide ApplyAll, Pick, Report, IsFinal, Blaming, Blamed;
    if attempt <= maxAttempts && Pick(env[attempt - 1], states, cfg).Some? {
      var cs := RunFrom(env, maxAttempts, attempt, previous, states, cfg).contexts;
      NoneBlamed(env, attempt);
      assert cs[..0] == [] && previous + [] == previous;
      var turn, node := env[attempt - 1], cs[0].node;
      if !IsFinal(turn.result) && attempt < maxAttempts {
        var states' := Report(ApplyAll(states, cfg, turn.outside), cfg, node.id, turn);
        AttemptsInOrder(env, maxAttempts, attempt + 1, Blaming(previous, node.id, turn), states', cfg);
        forall j | 0 < j < |cs|
          ensures cs[j].attempt == attempt + j
          ensures cs[j].previousNodeIds == previous + Blamed(cs[..j], env, attempt)
        {
          assert cs[j] == cs[1..][j - 1];
          assert cs[..j][1..] == cs[1..][..j - 1] && cs[..j][0] == cs[0];
          BlamedStep(previous, cs[..j], env, attempt);
        }
      }
    }
  }

  /** Each attempt's node was a candidate and not excluded when it was picked, and the one that the draw selects among
      those that were not, replaying what the breaker was told. */
  ghost predicate PicksAllowed<T>(
    env: seq<Turn<T>>, attempt: nat, contexts: seq<AttemptContext>, states: CB.States, cfg: CB.Config)
    requires attempt >= 1 && attempt - 1 + |contexts| <= |env|
    decreases contexts
  {
    contexts != [] ==>
      var turn, node := env[attempt - 1], contexts[0].node;
      var seen := ApplyAll(states, cfg, turn.outside);
      && node in turn.candidates
      && !CB.Excluded(CB.StateIn(seen, node.id), cfg, turn.selectAt)
      && (var es := Eligible(turn.candidates, seen, cfg, turn.selectAt);
          es != [] && node == es[SelectIndex(es, turn.draw)])
      && PicksAllowed(env, attempt + 1, contexts[1..], Report(seen, cfg, node.id, turn), cfg)
  }

  lemma PickIsAllowed<T>(turn: Turn<T>, states: CB.States, cfg: CB.Config)
    requires Pick(turn, states, cfg).Some?
    ensures var node := Pick(turn, states, cfg).value;
      && node in turn.candidates
      && !CB.Excluded(CB.StateIn(ApplyAll(states, cfg, turn.outside), node.id), cfg, turn.selectAt)
      && (var es := Eligible(turn.candidates, ApplyAll(states, cfg, turn.outside), cfg, turn.selectAt);
          es != [] && node == es[SelectIndex(es, turn.draw)])
  {
    hide CB.Excluded, CB.StateIn, ApplyAll;
    var es := Eligible(turn.candidates, ApplyAll(states, cfg, turn.outside), cfg, turn.selectAt);
    assert es[SelectIndex(es, turn.draw)] in es;
  }

  lemma {:induction false} NeverPicksExcluded<T>(
    env: seq<Turn<T>>, maxAttempts: nat, attempt: nat, previous: seq<CB.NodeId>, states: CB.States, cfg: CB.Config)
    requires attempt >= 1 && |env| >= maxAttempts
    ensures var cs := RunFrom(env, maxAttempts, attempt, previous, states, cfg).contexts;
      cs != [] ==> attempt - 1 + |cs| <= |env| && PicksAllowed(env, attempt, cs, states, cfg)
    decreases maxAttempts + 1 - attempt
  {
    hide ApplyAll, Pick, Report, CB.Excluded, CB.StateIn, IsFinal, Blaming, Eligible, SelectIndex;
    if attempt <= maxAttempts && Pick(env[attempt - 1], states, cfg).Some? {
      var turn, node := env[attempt - 1], Pick(env[attempt - 1], states, cfg).value;
      PickIsAllowed(turn, states, cfg);
      var states' := Report(ApplyAll(states, cfg, turn.outside), cfg, node.id, turn);
      NeverPicksExcluded(env, maxAttempts, attempt + 1, Blaming(previous, node.id, turn), states', cfg);
    }
  }

  /** A failure before the first token that asks for another attempt, on the same node or the next. */
  predicate Retriable<T>(r: AttemptResult<T>) {
    r.Failure? && !r.firstTokenDelivered && (r.disposition.RetryNextNode? || r.disposition.RetrySameNode?)
  }

  /** A run returns the result of its last attempt, and stops there for a reason. */
  lemma {:induction false} StopsForAReason<T>(
    env: seq<Turn<T>>, maxAttempts: nat, attempt: nat, previous: seq<CB.NodeId>, states: CB.States, cfg: CB.Config)
    requires 1 <= attempt <= maxAttempts <= |env|
    ensures var r := RunFrom(env, maxAttempts, attempt, previous, states, cfg);
      var last := attempt - 1 + |r.contexts|;
      && last <= maxAttempts
      && (forall k | attempt - 1 <= k < last - 1 :: Retriable(env[k].result))
      && (r.outcome.Returned? ==>
            last >= attempt && r.outcome.result == env[last - 1].result
            && (!Retriable(env[last - 1].result) || last == maxAttempts))
      && (r.outcome.Threw? ==> last < maxAttempts && (last >= attempt ==> Retriable(env[last - 1].result)))
    decreases maxAttempts + 1 - attempt
  {
    hide ApplyAll, Pick, Report, Blaming;
    var turn := env[attempt - 1];
    if Pick(turn, states, cfg).Some? && !IsFinal(turn.result) && attempt < maxAttempts {
      var node := Pick(turn, states, cfg).value;
      var states' := Report(ApplyAll(states, cfg, turn.outside), cfg, node.id, turn);
      StopsForAReason(env, maxAttempts, attempt + 1, Blaming(previous, node.id, turn), states', cfg);
    }
  }

  /** With no attempt allowed, none is made and the breaker is left alone. */
  lemma NoAttemptAllowed<T>(env: seq<Turn<T>>, states: CB.States, cfg: CB.Config)
    ensures RunFrom(env, 0, 1, [], states, cfg)
      == Run([], Returned(Failure("runWithRetry: exhausted with no attempt made", NoRetry, false)), states)
  {
  }

  // ----------------------------------------------------------------------------------------------
  // What the breaker is told
  // ----------------------------------------------------------------------------------------------

  lemma {:induction false} ApplyAllAppend(states: CB.States, cfg: CB.Config, a: seq<CB.NodeEvent>, b: seq<CB.NodeEvent>)
    ensures ApplyAll(states, cfg, a + b) == ApplyAll(ApplyAll(states, cfg, a), cfg, b)
    decreases a
  {
    hide CB.Apply, CB.StateIn;
    if a == [] {
      assert a + b == b;
    } else {
      assert (a + b)[0] == a[0] && (a + b)[1..] == a[1..] + b;
      var e := a[0];
      var next := states[e.node := CB.Apply(CB.StateIn(states, e.node), cfg, e.event).state];
      ApplyAllAppend(next, cfg, a[1..], b);
    }
  }

  lemma ApplyOne(states: CB.States, cfg: CB.Config, e: CB.NodeEvent)
    ensures ApplyAll(states, cfg, [e]) == states[e.node := CB.Apply(CB.StateIn(states, e.node), cfg, e.event).state]
  {
    hide CB.Apply, CB.StateIn;
    assert [e][1..] == [];
  }

  /** Applying events to what a history led to is what the longer history leads to. */
  lemma {:induction false} ApplyAllIsRegistry(history: seq<CB.NodeEvent>, events: seq<CB.NodeEvent>, cfg: CB.Config)
    ensures ApplyAll(CB.Registry(history, cfg), cfg, events) == CB.Registry(history + events, cfg)
    decreases |events|
  {
    hide CB.Apply, CB.StateIn, ApplyAll;
    if events == [] {
      assert history + events == history;
      NothingApplied(CB.Registry(history, cfg), cfg);
    } else {
      var init, last := events[..|events| - 1], events[|events| - 1];
      assert events == init + [last];
      ApplyAllAppend(CB.Registry(history, cfg), cfg, init, [last]);
      ApplyAllIsRegistry(history, init, cfg);
      ApplyOne(CB.Registry(history + init, cfg), cfg, last);
      assert (history + events)[..|history + init|] == history + init;
    }
  }

  lemma NothingApplied(states: CB.States, cfg: CB.Config)
    ensures ApplyAll(states, cfg, []) == states
  {
  }

  /**
   Everything that reaches the breaker in a run that made these attempts: in each turn what others report, then a
   failure of the attempted node if its result asks for another one, except that a run that returns does not report
   its last attempt. A run that throws does so in a turn of its own, behind what others report there.
   */
  function Told<T>(contexts: seq<AttemptContext>, env: seq<Turn<T>>, attempt: nat, threw: bool): seq<CB.NodeEvent>
    requires attempt >= 1 && attempt - 1 + |contexts| + (if threw then 1 else 0) <= |env|
  {
    if contexts == [] then if threw then env[attempt - 1].outside else []
    else
      var turn, last := env[attempt - 1], |contexts| == 1 && !threw;
      var blamed := turn.result.Failure? && turn.result.disposition.RetryNextNode?;
      turn.outside
      + (if blamed && !last then [CB.NodeEvent(contexts[0].node.id, CB.Failure(turn.reportAt))] else [])
      + Told(contexts[1..], env, attempt + 1, threw)
  }

  lemma ReportIsFailure<T>(states: CB.States, cfg: CB.Config, node: CB.NodeId, turn: Turn<T>)
    ensures Report(states, cfg, node, turn) == ApplyAll(states, cfg,
      if turn.result.Failure? && turn.result.disposition.RetryNextNode?
      then [CB.NodeEvent(node, CB.Failure(turn.reportAt))] else [])
  {
    hide CB.OnFailure, CB.StateIn;
    ApplyOne(states, cfg, CB.NodeEvent(node, CB.Failure(turn.reportAt)));
  }

  /** The breaker is left as exactly these events leave it. */
  lemma {:induction false} BreakerIsTold<T>(
    env: seq<Turn<T>>, maxAttempts: nat, attempt: nat, previous: seq<CB.NodeId>, states: CB.States, cfg: CB.Config)
    requires attempt >= 1 && |env| >= maxAttempts
    ensures var r := RunFrom(env, maxAttempts, attempt, previous, states, cfg);
      var threw := r.outcome.Threw?;
      && (attempt <= maxAttempts || !threw)
      && (attempt > maxAttempts ==> r.contexts == [])
      && (attempt <= maxAttempts ==> attempt - 1 + |r.contexts| + (if threw then 1 else 0) <= |env|)
      && r.states ==
         if attempt > maxAttempts then states else ApplyAll(states, cfg, Told(r.contexts, env, attempt, threw))
    decreases maxAttempts + 1 - attempt
  {
    hide ApplyAll, Pick, Report, Blaming, IsFinal;
    if attempt <= maxAttempts {
      var turn, r := env[attempt - 1], RunFrom(env, maxAttempts, attempt, previous, states, cfg);
      var seen, threw := ApplyAll(states, cfg, turn.outside), r.outcome.Threw?;
      if Pick(turn, states, cfg).None? {
      } else if IsFinal(turn.result) || attempt == maxAttempts {
        assert r.contexts[1..] == [];
        assert turn.outside + [] + [] == turn.outside;
      } else {
        var node := Pick(turn, states, cfg).value;
        var next := Report(seen, cfg, node.id, turn);
        BreakerIsTold(env, maxAttempts, attempt + 1, Blaming(previous, node.id, turn), next, cfg);
        assert r.contexts[1..] ==
          RunFrom(env, maxAttempts, attempt + 1, Blaming(previous, node.id, turn), next, cfg).contexts;
        GoesOn(env, maxAttempts, attempt + 1, Blaming(previous, node.id, turn), next, cfg);
        var failure: seq<CB.NodeEvent> :=
          if turn.result.Failure? && turn.result.disposition.RetryNextNode?
          then [CB.NodeEvent(node.id, CB.Failure(turn.reportAt))] else [];
        ReportIsFailure(seen, cfg, node.id, turn);
        ApplyAllAppend(states, cfg, turn.outside, failure);
        ApplyAllAppend(states, cfg, turn.outside + failure, Told(r.contexts[1..], env, attempt + 1, threw));
      }
    }
  }

  /** A turn within the bound makes an attempt or throws. */
  lemma GoesOn<T>(
    env: seq<Turn<T>>, maxAttempts: nat, attempt: nat, previous: seq<CB.NodeId>, states: CB.States, cfg: CB.Config)
    requires 1 <= attempt <= maxAttempts <= |env|
    ensures var r := RunFrom(env, maxAttempts, attempt, previous, states, cfg);
      r.contexts != [] || r.outcome.Threw?
  {
    hide Pick, Report, Blaming, IsFinal, ApplyAll;
  }

  /** A run as a whole, from whatever its history led to: the breaker has seen the history and what this run told it.
      A run throws exactly when every candidate of its last turn is excluded by then. */
  lemma RunExtendsHistory<T>(env: seq<Turn<T>>, maxAttempts: nat, history: seq<CB.NodeEvent>, cfg: CB.Config)
    requires 1 <= maxAttempts <= |env|
    ensures var r := RunFrom(env, maxAttempts, 1, [], CB.Registry(history, cfg), cfg);
      && |r.contexts| + (if r.outcome.Threw? then 1 else 0) <= maxAttempts
      && r.states == CB.Registry(history + Told(r.contexts, env, 1, r.outcome.Threw?), cfg)
      && (r.outcome.Threw? ==> var turn := env[|r.contexts|];
            forall c | c in turn.candidates :: CB.Excluded(CB.StateIn(r.states, c.id), cfg, turn.selectAt))
  {
    hide RunFrom, CB.Registry, ApplyAll, Told, CB.Excluded, CB.StateIn;
    var states := CB.Registry(history, cfg);
    BreakerIsTold(env, maxAttempts, 1, [], states, cfg);
    StopsForAReason(env, maxAttempts, 1, [], states, cfg);
    ThrowsWithoutCandidates(env, maxAttempts, 1, [], states, cfg);
    var r := RunFrom(env, maxAttempts, 1, [], states, cfg);
    ApplyAllIsRegistry(history, Told(r.contexts, env, 1, r.outcome.Threw?), cfg);
  }

  lemma {:induction false} ThrowsWithoutCandidates<T>(
    env: seq<Turn<T>>, maxAttempts: nat, attempt: nat, previous: seq<CB.NodeId>, states: CB.States, cfg: CB.Config)
    requires 1 <= attempt <= maxAttempts <= |env|
    ensures var r := RunFrom(env, maxAttempts, attempt, previous, states, cfg);
      r.outcome.Threw? ==> attempt - 1 + |r.contexts| < |env| && var turn := env[attempt - 1 + |r.contexts|];
        forall c | c in turn.candidates :: CB.Excluded(CB.StateIn(r.states, c.id), cfg, turn.selectAt)
    decreases maxAttempts + 1 - attempt
  {
    hide ApplyAll, Report, Blaming, IsFinal, CB.Excluded, CB.StateIn, SelectIndex, Eligible;
    var turn := env[attempt - 1];
    if Pick(turn, states, cfg).Some? && !IsFinal(turn.result) && attempt < maxAttempts {
      var node := Pick(turn, states, cfg).value;
      var next := Report(ApplyAll(states, cfg, turn.outside), cfg, node.id, turn);
      ThrowsWithoutCandidates(env, maxAttempts, attempt + 1, Blaming(previous, node.id, turn), next, cfg);
    } else if Pick(turn, states, cfg).None? {
      var es := Eligible(turn.candidates, ApplyAll(states, cfg, turn.outside), cfg, turn.selectAt);
      assert forall c | c in turn.candidates && c !in es ::
          CB.Excluded(CB.StateIn(ApplyAll(states, cfg, turn.outside), c.id), cfg, turn.selectAt);
    }
  }

  // ----------------------------------------------------------------------------------------------
  // How often one node is attempted
  // ----------------------------------------------------------------------------------------------

  function Attempts(contexts: seq<AttemptContext>, node: CB.NodeId): nat {
    if contexts == [] then 0
    else (if contexts[0].node.id == node then 1 else 0) + Attempts(contexts[1..], node)
  }

  /** What `CircuitBreaker.TraceCharacterised` establishes of every reachable state, as far as it is needed here. */
  ghost predicate Sound(s: CB.CircuitState, cfg: CB.Config) {
    && (s.status.CircuitBroken? ==> s.consecutiveFailures >= cfg.failureThreshold && s.circuitOpenedAt.Some?)
    && (s.halfOpenInFlight ==> s.status.CircuitBroken?)
  }

  /** How many failing attempts a node has left in a run that starts at `start` and ends inside the cool-down. */
  function Budget(s: CB.CircuitState, cfg: CB.Config, start: int): nat {
    if s.status.CircuitBroken? then
      if s.circuitOpenedAt.Some? && s.circuitOpenedAt.value >= start then 0
      else if s.halfOpenInFlight then 1
      else 2
    else if cfg.failureThreshold > s.consecutiveFailures + 1 then cfg.failureThreshold - s.consecutiveFailures
    else 1
  }

  /** A run without outside events, with every failure blamed on the node, inside one cool-down. */
  ghost predicate Undisturbed<T>(env: seq<Turn<T>>, cfg: CB.Config, start: int) {
    forall i | 0 <= i < |env| ::
      && env[i].outside == []
      && start <= env[i].selectAt < start + cfg.coolDownMs
      && start <= env[i].reportAt < start + cfg.coolDownMs
      && (env[i].result.Failure? ==> env[i].result.disposition.RetryNextNode?)
  }

  lemma FailureSpendsBudget(s: CB.CircuitState, cfg: CB.Config, start: int, at: int, report: int)
    requires cfg.failureThreshold >= 1 && Sound(s, cfg) && !CB.Excluded(s, cfg, at)
    requires start <= at < start + cfg.coolDownMs && start <= report
    ensures Budget(s, cfg, start) >= 1
    ensures var s' := CB.OnFailure(s, cfg, report).state;
      Sound(s', cfg) && Budget(s', cfg, start) <= Budget(s, cfg, start) - 1
  {
  }

  /** In an undisturbed run no node is attempted more often than its budget. */
  lemma {:induction false} AttemptsWithinBudget<T>(
    env: seq<Turn<T>>, maxAttempts: nat, attempt: nat, previous: seq<CB.NodeId>, states: CB.States, cfg: CB.Config,
    start: int, node: CB.NodeId)
    requires attempt >= 1 && |env| >= maxAttempts && cfg.failureThreshold >= 1
    requires Undisturbed(env, cfg, start) && forall n :: Sound(CB.StateIn(states, n), cfg)
    ensures Attempts(RunFrom(env, maxAttempts, attempt, previous, states, cfg).contexts, node)
      <= Budget(CB.StateIn(states, node), cfg, start)
    decreases maxAttempts + 1 - attempt
  {
    hide Pick, CB.OnFailure, CB.Excluded, Budget, Sound, Blaming, Eligible, SelectIndex;
    if attempt <= maxAttempts && Pick(env[attempt - 1], states, cfg).Some? {
      var turn, picked := env[attempt - 1], Pick(env[attempt - 1], states, cfg).value;
      PickIsAllowed(turn, states, cfg);
      assert ApplyAll(states, cfg, turn.outside) == states;
      var s := CB.StateIn(states, picked.id);
      FailureSpendsBudget(s, cfg, start, turn.selectAt, turn.reportAt);
      var cs := RunFrom(env, maxAttempts, attempt, previous, states, cfg).contexts;
      if IsFinal(turn.result) || attempt == maxAttempts {
        assert cs[1..] == [];
      } else {
        var states' := Report(states, cfg, picked.id, turn);
        assert states' == states[picked.id := CB.OnFailure(s, cfg, turn.reportAt).state];
        forall n
          ensures Sound(CB.StateIn(states', n), cfg)
        {
          assert n != picked.id ==> CB.StateIn(states', n) == CB.StateIn(states, n);
        }
        var previous' := Blaming(previous, picked.id, turn);
        AttemptsWithinBudget(env, maxAttempts, attempt + 1, previous', states', cfg, start, node);
        assert cs[1..] == RunFrom(env, maxAttempts, attempt + 1, previous', states', cfg).contexts;
      }
    }
  }

  lemma RegistryIsSound(events: seq<CB.NodeEvent>, cfg: CB.Config, node: CB.NodeId)
    requires cfg.failureThreshold >= 1
    ensures var s := CB.StateIn(CB.Registry(events, cfg), node);
      Sound(s, cfg) && s.consecutiveFailures == CB.FailuresSinceSuccess(CB.Project(events, node))
  {
    hide CB.Registry, CB.StateIn, CB.After;
    CB.NodesIndependent(events, cfg, node);
    CB.TraceCharacterised(CB.Project(events, node), cfg);
  }

  /**
   Per-node retry bound, from whatever state the breaker was brought to by `history`: a node that is not broken at the
   start and has failed F times since its last success is attempted at most max(1, threshold - F) times; one that is
   broken, at most twice.
   */
  lemma PerNodeBound<T>(env: seq<Turn<T>>, maxAttempts: nat, history: seq<CB.NodeEvent>, cfg: CB.Config, start: int,
                        node: CB.NodeId)
    requires |env| >= maxAttempts && cfg.failureThreshold >= 1
    requires Undisturbed(env, cfg, start)
    ensures var states, failures := CB.Registry(history, cfg), CB.FailuresSinceSuccess(CB.Project(history, node));
      var n := Attempts(RunFrom(env, maxAttempts, 1, [], states, cfg).contexts, node);
      if CB.StateIn(states, node).status.CircuitBroken? then n <= 2
      else n <= 1 || n <= cfg.failureThreshold - failures
  {
    hide CB.Registry, CB.StateIn, RunFrom, Sound;
    var states := CB.Registry(history, cfg);
    forall n
      ensures Sound(CB.StateIn(states, n), cfg)
    {
      RegistryIsSound(history, cfg, n);
    }
    RegistryIsSound(history, cfg, node);
    AttemptsWithinBudget(env, maxAttempts, 1, [], states, cfg, start, node);
  }
}
