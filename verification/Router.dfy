/** Node selection: the registry's candidates without the excluded ones, picked at random by weight. */
module Router {
  import opened Wrappers
  import CB = CircuitBreaker
  import opened Filters

  datatype NodeRef = NodeRef(id: CB.NodeId, weight: Option<int>)

  datatype RouteError = NoHealthyNodes

  function Weight(c: NodeRef): int {
    if c.weight.Some? then c.weight.value else 1
  }

  /** A candidate without a weight weighs 1. */
  function Weights(cs: seq<NodeRef>): (ws: seq<int>)
    ensures |ws| == |cs|
    ensures forall i | 0 <= i < |cs| :: cs[i].weight.Some? ==> ws[i] == cs[i].weight.value
    ensures forall i | 0 <= i < |cs| :: cs[i].weight.None? ==> ws[i] == 1
  {
    seq(|cs|, i requires 0 <= i < |cs| => Weight(cs[i]))
  }

  function Total(ws: seq<int>): int {
    if ws == [] then 0 else ws[0] + Total(ws[1..])
  }

  /** The sum of the first `i` weights. */
  function Prefix(ws: seq<int>, i: nat): int
    requires i <= |ws|
  {
    if i == 0 then 0 else ws[0] + Prefix(ws[1..], i - 1)
  }

  /** The index at which subtracting the weights one by one brings `pick` to 0 or below; |ws| if none does. */
  function PickFrom(ws: seq<int>, pick: real): (i: nat)
    ensures i <= |ws|
  {
    if ws == [] then 0
    else if pick - ws[0] as real <= 0.0 then 0
    else 1 + PickFrom(ws[1..], pick - ws[0] as real)
  }

  function IfEligible(c: NodeRef, states: CB.States, cfg: CB.Config, now: int): (es: seq<NodeRef>)
    ensures es == [] || es == [c]
    ensures c in es <==> !CB.Excluded(CB.StateIn(states, c.id), cfg, now)
  {
    if CB.Excluded(CB.StateIn(states, c.id), cfg, now) then [] else [c]
  }

  /** Candidates the breaker does not exclude, in order. */
  function Eligible(cs: seq<NodeRef>, states: CB.States, cfg: CB.Config, now: int): (es: seq<NodeRef>)
    ensures forall c :: c in es <==> c in cs && !CB.Excluded(CB.StateIn(states, c.id), cfg, now)
  {
    if cs == [] then [] else IfEligible(cs[0], states, cfg, now) + Eligible(cs[1..], states, cfg, now)
  }

  /** `rng() * totalWeight`. */
  function Scaled(draw: real, total: int): real {
    draw * total as real
  }

  /** Which of the eligible nodes a draw selects. */
  function SelectIndex(es: seq<NodeRef>, draw: real): (i: nat)
    requires es != []
    ensures i < |es|
  {
    var ws := Weights(es);
    if Total(ws) == 0 then 0
    else
      var i := PickFrom(ws, Scaled(draw, Total(ws)));
      if i < |es| then i else 0
  }

  /** The eligible nodes are the candidates that are not excluded, each as often and in the order they were given. */
  lemma {:induction false} EligibleInOrder(
    cs: seq<NodeRef>, kept: seq<bool>, states: CB.States, cfg: CB.Config, now: int)
    requires |kept| == |cs|
    requires forall i | 0 <= i < |cs| :: kept[i] <==> !CB.Excluded(CB.StateIn(states, cs[i].id), cfg, now)
    ensures IsFiltered(Eligible(cs, states, cfg, now), cs, kept)
  {
    hide CB.Excluded, CB.StateIn, IsFiltered;
    if cs == [] {
      NothingFiltered(cs, kept);
    } else {
      EligibleInOrder(cs[1..], kept[1..], states, cfg, now);
      FilteredCons(Eligible(cs[1..], states, cfg, now), cs, kept);
    }
  }

  lemma {:induction false} EligibleSnoc(cs: seq<NodeRef>, c: NodeRef, states: CB.States, cfg: CB.Config, now: int)
    ensures Eligible(cs + [c], states, cfg, now)
      == Eligible(cs, states, cfg, now) + IfEligible(c, states, cfg, now)
  {
    hide IfEligible;
    if cs == [] {
      assert [c][1..] == [];
    } else {
      assert (cs + [c])[0] == cs[0] && (cs + [c])[1..] == cs[1..] + [c];
      EligibleSnoc(cs[1..], c, states, cfg, now);
    }
  }

  lemma {:induction false} PrefixAll(ws: seq<int>)
    ensures Prefix(ws, |ws|) == Total(ws)
  {
    if ws != [] {
      PrefixAll(ws[1..]);
    }
  }

  lemma {:induction false} PrefixStep(ws: seq<int>, i: nat)
    requires i < |ws|
    ensures Prefix(ws, i + 1) == Prefix(ws, i) + ws[i]
    decreases i
  {
    if i > 0 {
      PrefixStep(ws[1..], i - 1);
    }
  }

  /** The candidates that are not excluded. */
  method FilterEligible(breaker: CB.Breaker, candidates: seq<NodeRef>, now: int) returns (eligible: seq<NodeRef>)
    requires breaker.Valid()
    ensures eligible == Eligible(candidates, breaker.states, breaker.cfg, now)
  {
    var exclusions := breaker.CurrentExclusions(now);
    hide CB.Excluded;
    eligible := [];
    var i := 0;
    while i < |candidates|
      invariant 0 <= i <= |candidates|
      invariant eligible == Eligible(candidates[..i], breaker.states, breaker.cfg, now)
    {
      assert candidates[..i + 1] == candidates[..i] + [candidates[i]];
      EligibleSnoc(candidates[..i], candidates[i], breaker.states, breaker.cfg, now);
      if candidates[i].id !in exclusions {
        eligible := eligible + [candidates[i]];
      }
      i := i + 1;
    }
    assert candidates[..i] == candidates;
  }

  method TotalWeight(eligible: seq<NodeRef>) returns (totalWeight: int)
    ensures totalWeight == Total(Weights(eligible))
  {
    ghost var ws := Weights(eligible);
    totalWeight := 0;
    var j := 0;
    while j < |eligible|
      invariant 0 <= j <= |eligible|
      invariant totalWeight == Prefix(ws, j)
    {
      PrefixStep(ws, j);
      totalWeight := totalWeight + Weight(eligible[j]);
      j := j + 1;
    }
    PrefixAll(ws);
  }

  method PickWeighted(eligible: seq<NodeRef>, draw: real) returns (r: NodeRef)
    requires eligible != []
    ensures r == eligible[SelectIndex(eligible, draw)]
  {
    hide Scaled, Total;
    var totalWeight := TotalWeight(eligible);
    if totalWeight == 0 {
      return eligible[0];
    }
    ghost var ws := Weights(eligible);
    var pick := Scaled(draw, totalWeight);
    ghost var start := pick;
    var k := 0;
    while k < |eligible|
      invariant 0 <= k <= |eligible|
      invariant PickFrom(ws, start) == k + PickFrom(ws[k..], pick)
    {
      assert ws[k..][0] == ws[k] == Weight(eligible[k]) && ws[k..][1..] == ws[k + 1..];
      pick := pick - Weight(eligible[k]) as real;
      if pick <= 0.0 {
        return eligible[k];
      }
      k := k + 1;
    }
    return eligible[0];
  }

  /** The registry's `candidates` and the random source's `draw` are the environment's. */
  method SelectNode(breaker: CB.Breaker, candidates: seq<NodeRef>, draw: real, now: int)
    returns (r: Result<NodeRef, RouteError>)
    requires breaker.Valid()
    ensures var es := Eligible(candidates, breaker.states, breaker.cfg, now);
      r == if es == [] then Err(NoHealthyNodes) else Ok(es[SelectIndex(es, draw)])
    ensures r.Ok? ==>
      r.value in candidates && !CB.Excluded(CB.StateIn(breaker.states, r.value.id), breaker.cfg, now)
    ensures r.Err? ==>
      forall c | c in candidates :: CB.Excluded(CB.StateIn(breaker.states, c.id), breaker.cfg, now)
  {
    hide SelectIndex, CB.Excluded;
    var eligible := FilterEligible(breaker, candidates, now);
    if eligible == [] {
      assert forall c | c in candidates :: CB.Excluded(CB.StateIn(breaker.states, c.id), breaker.cfg, now) by {
        forall c | c in candidates
          ensures CB.Excluded(CB.StateIn(breaker.states, c.id), breaker.cfg, now)
        {
          assert c !in eligible;
        }
      }
      return Err(NoHealthyNodes);
    }
    var chosen := PickWeighted(eligible, draw);
    assert chosen in eligible;
    return Ok(chosen);
  }

  // ----------------------------------------------------------------------------------------------
  // The pick is weighted
  // ----------------------------------------------------------------------------------------------

  ghost predicate NonNegative(ws: seq<int>) {
    forall i | 0 <= i < |ws| :: ws[i] >= 0
  }

  lemma {:induction false} PrefixGrows(ws: seq<int>, i: nat, j: nat)
    requires NonNegative(ws) && i <= j <= |ws|
    ensures 0 <= Prefix(ws, i) <= Prefix(ws, j)
    decreases j
  {
    if j > 0 {
      if i > 0 {
        PrefixGrows(ws[1..], i - 1, j - 1);
      } else {
        PrefixGrows(ws[1..], 0, j - 1);
      }
    }
  }

  /** A positive pick within the total selects node `i` exactly when it falls in the interval of its weight. */
  lemma {:induction false} PicksItsInterval(ws: seq<int>, pick: real, i: nat)
    requires NonNegative(ws) && 0.0 < pick <= Total(ws) as real && i < |ws|
    ensures PickFrom(ws, pick) == i <==> Prefix(ws, i) as real < pick <= Prefix(ws, i + 1) as real
    ensures PickFrom(ws, pick) < |ws|
    decreases |ws|
  {
    var rest := pick - ws[0] as real;
    if rest <= 0.0 {
      if i > 0 {
        PrefixGrows(ws, 1, i);
        assert Prefix(ws, 1) == ws[0] + Prefix(ws[1..], 0);
      }
    } else {
      assert ws[1..] != [] by {
        assert Total(ws) == ws[0] + Total(ws[1..]);
      }
      if i > 0 {
        PicksItsInterval(ws[1..], rest, i - 1);
        assert Prefix(ws, i) == ws[0] + Prefix(ws[1..], i - 1);
        assert Prefix(ws, i + 1) == ws[0] + Prefix(ws[1..], i);
      } else {
        PicksItsInterval(ws[1..], rest, 0);
        assert Prefix(ws, 1) == ws[0] + Prefix(ws[1..], 0);
      }
    }
  }

  /** Whatever the weights, negative ones included: the index picked is the first at which the weights so far reach the
      pick, and none is if they never do. */
  lemma {:induction false} PicksFirstToReach(ws: seq<int>, pick: real)
    ensures var i := PickFrom(ws, pick);
      && (i < |ws| ==> pick <= Prefix(ws, i + 1) as real)
      && forall k | 0 < k <= i :: pick > Prefix(ws, k) as real
    decreases |ws|
  {
    if ws != [] && pick - ws[0] as real > 0.0 {
      var rest := ws[1..];
      PicksFirstToReach(rest, pick - ws[0] as real);
      var i := PickFrom(ws, pick);
      assert Prefix(ws, 1) == ws[0] + Prefix(rest, 0);
      forall k | 0 < k <= i
        ensures pick > Prefix(ws, k) as real
      {
        assert Prefix(ws, k) == ws[0] + Prefix(rest, k - 1);
        assert k > 1 ==> pick - ws[0] as real > Prefix(rest, k - 1) as real;
      }
      assert i < |ws| ==> Prefix(ws, i + 1) == ws[0] + Prefix(rest, i);
    } else if ws != [] {
      assert Prefix(ws, 1) == ws[0] + Prefix(ws[1..], 0);
    }
  }

  /** What is selected in every case: the first node if the weights add up to 0 or never reach the pick, else the node
      that reaches it first. */
  lemma SelectsFirstToReach(es: seq<NodeRef>, draw: real, pick: real)
    requires es != [] && pick == draw * Total(Weights(es)) as real
    ensures var ws, i := Weights(es), SelectIndex(es, draw);
      if Total(ws) == 0 || forall k | 0 < k <= |ws| :: pick > Prefix(ws, k) as real then i == 0
      else pick <= Prefix(ws, i + 1) as real && forall k | 0 < k <= i :: pick > Prefix(ws, k) as real
  {
    assert pick == Scaled(draw, Total(Weights(es)));
    hide Weights, Total, Prefix, Scaled, PickFrom;
    PicksFirstToReach(Weights(es), pick);
  }

  /** Nodes without weights are drawn from uniformly. */
  lemma UnweightedIsUniform(es: seq<NodeRef>, draw: real, i: nat)
    requires i < |es| && 0.0 < draw < 1.0 && forall c | c in es :: c.weight.None?
    ensures SelectIndex(es, draw) == i <==> i as real < draw * |es| as real <= i as real + 1.0
  {
    var ws := Weights(es);
    Ones(ws, |ws|);
    Ones(ws, i);
    Ones(ws, i + 1);
    PrefixAll(ws);
    hide SelectIndex, Weights, Total, Prefix;
    SelectionByInterval(es, draw, i);
  }

  lemma {:induction false} Ones(ws: seq<int>, i: nat)
    requires i <= |ws| && forall k | 0 <= k < |ws| :: ws[k] == 1
    ensures Prefix(ws, i) == i
    decreases i
  {
    if i > 0 {
      Ones(ws[1..], i - 1);
    }
  }

  /** How many of the integer draws 1..n select node `i`. */
  function Draws(ws: seq<int>, i: nat, n: nat): nat {
    if n == 0 then 0 else Draws(ws, i, n - 1) + if PickFrom(ws, n as real) == i then 1 else 0
  }

  lemma {:induction false} DrawsUpTo(ws: seq<int>, i: nat, n: nat)
    requires NonNegative(ws) && i < |ws| && n <= Total(ws)
    ensures Draws(ws, i, n) ==
      if n <= Prefix(ws, i) then 0 else if n <= Prefix(ws, i + 1) then n - Prefix(ws, i) else ws[i]
    decreases n
  {
    PrefixGrows(ws, 0, i);
    PrefixStep(ws, i);
    if n > 0 {
      DrawsUpTo(ws, i, n - 1);
      PicksItsInterval(ws, n as real, i);
    }
  }

  /** Of the draws 1..total, exactly as many select a node as it weighs; none selects a node of weight 0. */
  lemma DrawsMatchWeight(ws: seq<int>, i: nat)
    requires NonNegative(ws) && i < |ws|
    ensures Total(ws) >= 0 && Draws(ws, i, Total(ws)) == ws[i]
  {
    PrefixAll(ws);
    PrefixGrows(ws, i + 1, |ws|);
    PrefixGrows(ws, 0, |ws|);
    PrefixStep(ws, i);
    DrawsUpTo(ws, i, Total(ws));
  }

  /** With the random source in [0, 1), the loop always finds its node: the fallback behind it is never used. */
  lemma SelectionByInterval(es: seq<NodeRef>, draw: real, i: nat)
    requires es != [] && NonNegative(Weights(es)) && 0.0 < draw < 1.0 && i < |es| && Total(Weights(es)) > 0
    ensures var ws, pick := Weights(es), Scaled(draw, Total(Weights(es)));
      && PickFrom(ws, pick) < |ws|
      && (SelectIndex(es, draw) == i <==> Prefix(ws, i) as real < pick <= Prefix(ws, i + 1) as real)
      && ws[SelectIndex(es, draw)] > 0
  {
    var ws := Weights(es);
    ScaledDraw(draw, Total(ws));
    hide Scaled, Total;
    PicksItsInterval(ws, Scaled(draw, Total(ws)), i);
    var j := SelectIndex(es, draw);
    PicksItsInterval(ws, Scaled(draw, Total(ws)), j);
    PrefixStep(ws, j);
  }

  /** A draw of exactly 0 takes the first eligible node whatever its weight, and so does a total of 0. */
  lemma ZeroDrawTakesFirst(es: seq<NodeRef>, draw: real)
    requires es != [] && NonNegative(Weights(es)) && (draw == 0.0 || Total(Weights(es)) == 0)
    ensures SelectIndex(es, draw) == 0
  {
    assert draw == 0.0 ==> Scaled(draw, Total(Weights(es))) == 0.0;
    assert Weights(es)[0] >= 0;
  }

  /** So a node of weight 0 is selected exactly if it comes first and the draw or the total is 0. */
  lemma ZeroWeightSelectedExactly(es: seq<NodeRef>, draw: real)
    requires es != [] && NonNegative(Weights(es)) && 0.0 <= draw < 1.0
    ensures Weights(es)[SelectIndex(es, draw)] == 0
      <==> Weights(es)[0] == 0 && (draw == 0.0 || Total(Weights(es)) == 0)
  {
    var ws := Weights(es);
    PrefixAll(ws);
    PrefixGrows(ws, 0, |ws|);
    hide SelectIndex, Total, Weights;
    if draw == 0.0 || Total(ws) == 0 {
      ZeroDrawTakesFirst(es, draw);
    } else {
      SelectionByInterval(es, draw, 0);
    }
    AllZero(ws);
  }

  /** If the total is 0, so is every weight. */
  lemma {:induction false} AllZero(ws: seq<int>)
    requires NonNegative(ws)
    ensures Total(ws) >= 0 && (Total(ws) == 0 ==> forall i | 0 <= i < |ws| :: ws[i] == 0)
  {
    if ws != [] {
      AllZero(ws[1..]);
      assert ws == [ws[0]] + ws[1..];
    }
  }

  lemma ScaledDraw(draw: real, total: int)
    requires 0.0 < draw < 1.0 && total > 0
    ensures 0.0 < Scaled(draw, total) <= total as real
  {
    assert draw * total as real > 0.0;
    assert (1.0 - draw) * total as real > 0.0;
  }
}
