/**
 Resolution of a model on the rate card: the exact entries first, then the patterns in their order.
 */
module RateCard {
  import opened Wrappers
  import Glob

  /** A pattern entry. An images pattern also names the size and the quality it is for; the other kinds leave
      `variant` empty. */
  datatype Pattern<T> = Pattern(pattern: string, variant: string, entry: T)

  /** An exact entry, under its model and variant. */
  datatype Exact<T> = Exact(model: string, variant: string, entry: T)

  datatype Card<T> = Card(exacts: seq<Exact<T>>, patterns: seq<Pattern<T>>)

  function FindExact<T>(exacts: seq<Exact<T>>, model: string, variant: string): Option<T> {
    if exacts == [] then None
    else if exacts[0].model == model && exacts[0].variant == variant then Some(exacts[0].entry)
    else FindExact(exacts[1..], model, variant)
  }

  function FirstPattern<T>(patterns: seq<Pattern<T>>, model: string, variant: string): Option<T> {
    if patterns == [] then None
    else if patterns[0].variant == variant && Glob.GlobMatches(patterns[0].pattern, model) then
      Some(patterns[0].entry)
    else FirstPattern(patterns[1..], model, variant)
  }

  function Resolve<T>(card: Card<T>, model: string, variant: string): Option<T> {
    var exact := FindExact(card.exacts, model, variant);
    if exact.Some? then exact else FirstPattern(card.patterns, model, variant)
  }

  // ----------------------------------------------------------------------------------------------
  // What resolution means
  // ----------------------------------------------------------------------------------------------

  predicate IsExact<T>(e: Exact<T>, model: string, variant: string) {
    e.model == model && e.variant == variant
  }

  /** The pattern applies, by what globs mean. */
  ghost predicate Applies<T>(p: Pattern<T>, model: string, variant: string) {
    p.variant == variant && Glob.Matches(p.pattern, model, true)
  }

  /** Entry number i is the first exact one for the model. */
  predicate FirstExactAt<T>(exacts: seq<Exact<T>>, model: string, variant: string, i: nat) {
    && i < |exacts| && IsExact(exacts[i], model, variant)
    && forall j | 0 <= j < i :: !IsExact(exacts[j], model, variant)
  }

  ghost predicate FirstPatternAt<T>(patterns: seq<Pattern<T>>, model: string, variant: string, i: nat) {
    && i < |patterns| && Applies(patterns[i], model, variant)
    && forall j | 0 <= j < i :: !Applies(patterns[j], model, variant)
  }

  lemma {:induction false} FindsFirstExact<T>(exacts: seq<Exact<T>>, model: string, variant: string)
    ensures FindExact(exacts, model, variant).None? <==> forall e | e in exacts :: !IsExact(e, model, variant)
    ensures FindExact(exacts, model, variant).Some? ==>
      exists i: nat :: FirstExactAt(exacts, model, variant, i)
        && exacts[i].entry == FindExact(exacts, model, variant).value
  {
    if exacts != [] {
      FindsFirstExact(exacts[1..], model, variant);
      if IsExact(exacts[0], model, variant) {
        assert FirstExactAt(exacts, model, variant, 0);
      } else if FindExact(exacts, model, variant).Some? {
        var i: nat :| FirstExactAt(exacts[1..], model, variant, i)
          && exacts[1..][i].entry == FindExact(exacts, model, variant).value;
        forall j | 0 <= j < i + 1 ensures !IsExact(exacts[j], model, variant) {
          assert j > 0 ==> exacts[j] == exacts[1..][j - 1];
        }
        assert FirstExactAt(exacts, model, variant, i + 1);
      }
    }
  }

  lemma {:induction false} FindsFirstPattern<T>(patterns: seq<Pattern<T>>, model: string, variant: string)
    ensures FirstPattern(patterns, model, variant).None? <==> forall p | p in patterns :: !Applies(p, model, variant)
    ensures FirstPattern(patterns, model, variant).Some? ==>
      exists i: nat :: FirstPatternAt(patterns, model, variant, i)
        && patterns[i].entry == FirstPattern(patterns, model, variant).value
  {
    hide Glob.GlobMatches, Glob.Matches;
    if patterns != [] {
      FindsFirstPattern(patterns[1..], model, variant);
      Glob.CompilationPreservesMeaning(patterns[0].pattern, model);
      if Applies(patterns[0], model, variant) {
        assert FirstPatternAt(patterns, model, variant, 0);
      } else if FirstPattern(patterns, model, variant).Some? {
        var i: nat :| FirstPatternAt(patterns[1..], model, variant, i)
          && patterns[1..][i].entry == FirstPattern(patterns, model, variant).value;
        forall j | 0 <= j < i + 1 ensures !Applies(patterns[j], model, variant) {
          assert j > 0 ==> patterns[j] == patterns[1..][j - 1];
        }
        assert FirstPatternAt(patterns, model, variant, i + 1);
      }
    }
  }

  /**
   A model resolves to the first exact entry if there is one, else to the first pattern that applies, and to
   nothing exactly if there is neither.
   */
  lemma ResolvesInOrder<T>(card: Card<T>, model: string, variant: string)
    ensures var r := Resolve(card, model, variant);
      if exists e | e in card.exacts :: IsExact(e, model, variant) then
        exists i: nat :: FirstExactAt(card.exacts, model, variant, i) && r == Some(card.exacts[i].entry)
      else if exists p | p in card.patterns :: Applies(p, model, variant) then
        exists i: nat :: FirstPatternAt(card.patterns, model, variant, i) && r == Some(card.patterns[i].entry)
      else r == None
  {
    hide FindExact, FirstPattern, FirstExactAt, FirstPatternAt, Applies, IsExact;
    FindsFirstExact(card.exacts, model, variant);
    FindsFirstPattern(card.patterns, model, variant);
  }

  /** A pattern put in changes the resolution of a model only if it applies to it, no exact entry is there, and no
      pattern before it applies. */
  lemma {:induction false} InsertedPattern<T>(card: Card<T>, before: seq<Pattern<T>>, p: Pattern<T>,
                                              after: seq<Pattern<T>>, model: string, variant: string)
    requires card.patterns == before + after
    ensures var r := Resolve(card.(patterns := before + [p] + after), model, variant);
      if && Applies(p, model, variant)
         && FindExact(card.exacts, model, variant).None?
         && FirstPattern(before, model, variant).None?
      then r == Some(p.entry)
      else r == Resolve(card, model, variant)
    decreases |before|
  {
    hide Glob.GlobMatches, Glob.Matches;
    Glob.CompilationPreservesMeaning(p.pattern, model);
    if before == [] {
      assert [p] + after == before + [p] + after && ([p] + after)[1..] == after == card.patterns;
    } else {
      InsertedPattern(card.(patterns := before[1..] + after), before[1..], p, after, model, variant);
      assert (before + after)[1..] == before[1..] + after;
      assert (before + [p] + after)[1..] == before[1..] + [p] + after;
    }
  }
}
