/** What it means that a list is another one without the elements that were not kept. */
module Filters {

  /** The indices at which `kept` is true: all of them, in increasing order. */
  ghost predicate AreIndices(at: seq<nat>, kept: seq<bool>) {
    && (forall j | 0 <= j < |at| :: at[j] < |kept| && kept[at[j]])
    && (forall j, k | 0 <= j < k < |at| :: at[j] < at[k])
    && (forall i: nat | i < |kept| && kept[i] :: i in at)
  }

  /** `r` holds the kept elements of `xs`, each as often and in the order in which they stand there. */
  ghost predicate IsFiltered<T(!new)>(r: seq<T>, xs: seq<T>, kept: seq<bool>) {
    |kept| == |xs| && exists at: seq<nat> :: AreIndices(at, kept) && ElementsAt(r, xs, at)
  }

  ghost predicate ElementsAt<T(!new)>(r: seq<T>, xs: seq<T>, at: seq<nat>) {
    |r| == |at| && forall j | 0 <= j < |at| :: at[j] < |xs| && r[j] == xs[at[j]]
  }

  lemma NothingFiltered<T(!new)>(xs: seq<T>, kept: seq<bool>)
    requires xs == [] && kept == []
    ensures IsFiltered([], xs, kept)
  {
    var at: seq<nat> := [];
    assert AreIndices(at, kept) && ElementsAt([], xs, at);
  }

  function Shifted(at: seq<nat>): (r: seq<nat>)
    ensures |r| == |at| && forall j | 0 <= j < |at| :: r[j] == at[j] + 1
  {
    seq(|at|, j requires 0 <= j < |at| => at[j] + 1)
  }

  lemma ShiftedIndices(at: seq<nat>, kept: seq<bool>)
    requires kept != [] && AreIndices(at, kept[1..])
    ensures AreIndices((if kept[0] then [0] else []) + Shifted(at), kept)
  {
    var first: seq<nat> := if kept[0] then [0] else [];
    var all := first + Shifted(at);
    forall j | 0 <= j < |all|
      ensures all[j] < |kept| && kept[all[j]]
    {
      if j >= |first| {
        assert kept[1..][at[j - |first|]];
      }
    }
    forall i: nat | i < |kept| && kept[i]
      ensures i in all
    {
      if i == 0 {
        assert all[0] == 0;
      } else {
        assert kept[1..][i - 1] && i - 1 in at;
        var j :| 0 <= j < |at| && at[j] == i - 1;
        assert all[|first| + j] == i;
      }
    }
  }

  lemma ElementsCons<T(!new)>(r: seq<T>, xs: seq<T>, at: seq<nat>, first: bool)
    requires xs != [] && ElementsAt(r, xs[1..], at)
    ensures ElementsAt((if first then [xs[0]] else []) + r, xs, (if first then [0] else []) + Shifted(at))
  {
    var all: seq<nat> := (if first then [0] else []) + Shifted(at);
    var rs := (if first then [xs[0]] else []) + r;
    var n := if first then 1 else 0;
    forall j | 0 <= j < |all|
      ensures all[j] < |xs| && rs[j] == xs[all[j]]
    {
      if j >= n {
        assert all[j] == at[j - n] + 1 && rs[j] == r[j - n] == xs[1..][at[j - n]];
      }
    }
  }

  /** One element more in front. */
  lemma FilteredCons<T(!new)>(r: seq<T>, xs: seq<T>, kept: seq<bool>)
    requires xs != [] && |kept| == |xs| && IsFiltered(r, xs[1..], kept[1..])
    ensures IsFiltered((if kept[0] then [xs[0]] else []) + r, xs, kept)
  {
    var at :| AreIndices(at, kept[1..]) && ElementsAt(r, xs[1..], at);
    hide AreIndices, ElementsAt, Shifted;
    ShiftedIndices(at, kept);
    ElementsCons(r, xs, at, kept[0]);
  }
}
