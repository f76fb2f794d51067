/**
 The glob matcher of the rate card: a glob is compiled to the source text of a regular expression, which is parsed
 and matched as section 22.2 of ECMA-262 says. The compiled form is kept in a cache.
 */
module Glob {
  import opened Wrappers

  // ----------------------------------------------------------------------------------------------
  // Regular expressions: the part of the grammar that compiled globs use
  // ----------------------------------------------------------------------------------------------

  datatype Atom = Any | Lit(c: char)

  datatype Term = Begin | End | One(atom: Atom) | Many(atom: Atom)

  type RegExp = seq<Term>

  /** SyntaxCharacter, section 22.2.1 of ECMA-262. */
  predicate IsSyntax(c: char) {
    c in {'^', '$', '\\', '.', '*', '+', '?', '(', ')', '[', ']', '{', '}', '|'}
  }

  /** LineTerminator, section 12.3 of ECMA-262: what `.` does not match. */
  predicate IsLineTerminator(c: char) {
    c in {'\n', '\r', '\U{2028}', '\U{2029}'}
  }

  /** The atom at the front of a pattern and how many characters it takes. */
  function ParseAtom(src: string): (r: Option<(Atom, nat)>)
    ensures r.Some? ==> 0 < r.value.1 <= |src|
  {
    if src == "" then None
    else if src[0] == '.' then Some((Any, 1))
    else if src[0] == '\\' then
      if |src| >= 2 && IsSyntax(src[1]) then Some((Lit(src[1]), 2)) else None
    else if IsSyntax(src[0]) then None
    else Some((Lit(src[0]), 1))
  }

  /** `new RegExp(src)`; None for what is no pattern of this part of the grammar. */
  function Parse(src: string): Option<RegExp>
    decreases |src|
  {
    if src == "" then Some([])
    else if src[0] == '^' then Before(Begin, Parse(src[1..]))
    else if src[0] == '$' then Before(End, Parse(src[1..]))
    else
      var atom := ParseAtom(src);
      if atom.None? then None
      else
        var n := atom.value.1;
        if n < |src| && src[n] == '*' then Before(Many(atom.value.0), Parse(src[n + 1..]))
        else Before(One(atom.value.0), Parse(src[n..]))
  }

  function Before(term: Term, rest: Option<RegExp>): Option<RegExp> {
    if rest.None? then None else Some([term] + rest.value)
  }

  predicate AtomMatches(atom: Atom, c: char) {
    if atom.Any? then !IsLineTerminator(c) else atom.c == c
  }

  /** The backtracking matcher, section 22.2.2: a repetition tries one more character before it gives up. */
  predicate MatchesAt(re: RegExp, input: string, i: nat)
    requires i <= |input|
    decreases |re|, |input| - i
  {
    if re == [] then true
    else
      match re[0]
      case Begin => i == 0 && MatchesAt(re[1..], input, i)
      case End => i == |input| && MatchesAt(re[1..], input, i)
      case One(atom) => i < |input| && AtomMatches(atom, input[i]) && MatchesAt(re[1..], input, i + 1)
      case Many(atom) =>
        || (i < |input| && AtomMatches(atom, input[i]) && MatchesAt(re, input, i + 1))
        || MatchesAt(re[1..], input, i)
  }

  /** `re.test(input)`: a match may start anywhere. */
  predicate Test(re: RegExp, input: string) {
    exists i | 0 <= i <= |input| :: MatchesAt(re, input, i)
  }

  // ----------------------------------------------------------------------------------------------
  // Globs
  // ----------------------------------------------------------------------------------------------

  /** The characters that are escaped. */
  predicate IsEscaped(c: char) {
    c in {'.', '+', '^', '$', '{', '}', '(', ')', '|', '[', ']', '\\'}
  }

  function Piece(c: char): string {
    if c == '*' then ".*"
    else if c == '?' then "."
    else if IsEscaped(c) then ['\\', c]
    else [c]
  }

  function Body(glob: string): string {
    if glob == "" then "" else Piece(glob[0]) + Body(glob[1..])
  }

  /** The source text a glob is compiled to. */
  function Source(glob: string): string {
    "^" + Body(glob) + "$"
  }

  function TermOf(c: char): Term {
    if c == '*' then Many(Any) else if c == '?' then One(Any) else One(Lit(c))
  }

  /** What a glob is meant to compile to: one term for each character, then the anchor. */
  function Terms(glob: string): RegExp {
    if glob == "" then [End] else [TermOf(glob[0])] + Terms(glob[1..])
  }

  predicate OneLine(s: string) {
    forall c | c in s :: !IsLineTerminator(c)
  }

  /**
   What a glob means: `*` stands for any characters, `?` for any one character, all else for itself. With
   `withinLine` set, neither wildcard stands for a line terminator.
   */
  ghost predicate Matches(glob: string, s: string, withinLine: bool) {
    if glob == "" then s == ""
    else if glob[0] == '*' then
      exists k | 0 <= k <= |s| :: (withinLine ==> OneLine(s[..k])) && Matches(glob[1..], s[k..], withinLine)
    else
      && s != ""
      && (if glob[0] == '?' then withinLine ==> !IsLineTerminator(s[0]) else s[0] == glob[0])
      && Matches(glob[1..], s[1..], withinLine)
  }

  /** What the matcher says of a glob and an input. */
  predicate GlobMatches(glob: string, input: string) {
    var re := Parse(Source(glob));
    re.Some? && Test(re.value, input)
  }

  // ----------------------------------------------------------------------------------------------
  // The source text parses to the intended terms
  // ----------------------------------------------------------------------------------------------

  /** One turn of the parser on one piece of the source, unless a quantifier follows it. */
  lemma PieceParses(c: char, tail: string)
    requires tail != "" && tail[0] != '*'
    ensures Parse(Piece(c) + tail) == Before(TermOf(c), Parse(tail))
    ensures (Piece(c) + tail)[0] != '*'
  {
    var src := Piece(c) + tail;
    var n := |Piece(c)|;
    assert src[n..] == tail;
    if c == '*' {
      assert src[0] == '.' && src[1] == '*';
    } else if n == 2 {
      assert src[0] == '\\' && src[1] == c && src[2] == tail[0];
    } else {
      assert src[0] == Piece(c)[0] && src[1] == tail[0];
    }
  }

  lemma {:induction false} BodyParses(glob: string)
    ensures Parse(Body(glob) + "$") == Some(Terms(glob))
    ensures (Body(glob) + "$")[0] != '*'
  {
    if glob == "" {
      var end := Body(glob) + "$";
      assert end[0] == '$' && end[1..] == "";
      var nothing: RegExp := [];
      assert Parse(end[1..]) == Some(nothing) && [End] + nothing == [End];
    } else {
      hide Parse, Piece;
      var tail := Body(glob[1..]) + "$";
      BodyParses(glob[1..]);
      PieceParses(glob[0], tail);
      assert Body(glob) + "$" == Piece(glob[0]) + tail;
    }
  }

  /** Every glob compiles, each character to its own term: a character that means something in a pattern is
      matched as itself. */
  lemma {:induction false} SourceParses(glob: string)
    ensures Parse(Source(glob)) == Some([Begin] + Terms(glob))
  {
    BodyParses(glob);
    assert Source(glob)[1..] == Body(glob) + "$";
  }

  // ----------------------------------------------------------------------------------------------
  // Matching the terms is matching the glob
  // ----------------------------------------------------------------------------------------------

  /** The repetition as the choice of how much it takes. */
  lemma {:induction false} ManyTakesAnyLength(re: RegExp, input: string, i: nat)
    requires i <= |input| && re != [] && re[0] == Many(Any)
    ensures MatchesAt(re, input, i)
      <==> exists j | i <= j <= |input| :: OneLine(input[i..j]) && MatchesAt(re[1..], input, j)
    decreases |input| - i
  {
    if MatchesAt(re[1..], input, i) {
      assert OneLine(input[i..i]);
    }
    if i < |input| {
      ManyTakesAnyLength(re, input, i + 1);
      forall j | i < j <= |input|
        ensures OneLine(input[i..j]) <==> !IsLineTerminator(input[i]) && OneLine(input[i + 1..j])
      {
        assert input[i..j] == [input[i]] + input[i + 1..j];
      }
    }
  }

  lemma {:induction false} TermsMatch(glob: string, input: string, i: nat)
    requires i <= |input|
    ensures MatchesAt(Terms(glob), input, i) <==> Matches(glob, input[i..], true)
    decreases |glob|
  {
    var s := input[i..];
    if glob != "" {
      assert Terms(glob)[1..] == Terms(glob[1..]);
      if glob[0] == '*' {
        ManyTakesAnyLength(Terms(glob), input, i);
        forall j | i <= j <= |input|
          ensures MatchesAt(Terms(glob[1..]), input, j) <==> Matches(glob[1..], s[j - i..], true)
          ensures input[i..j] == s[..j - i]
        {
          TermsMatch(glob[1..], input, j);
          assert input[j..] == s[j - i..];
        }
        if k :| 0 <= k <= |s| && OneLine(s[..k]) && Matches(glob[1..], s[k..], true) {
          assert MatchesAt(Terms(glob[1..]), input, i + k);
          assert OneLine(input[i..i + k]);
        }
      } else if i < |input| {
        TermsMatch(glob[1..], input, i + 1);
        assert input[i + 1..] == s[1..];
      }
    }
  }

  /** For every glob and every input, the compiled form decides what the glob means within one line. */
  lemma CompilationPreservesMeaning(glob: string, input: string)
    ensures GlobMatches(glob, input) <==> Matches(glob, input, true)
  {
    SourceParses(glob);
    TermsMatch(glob, input, 0);
    var re := [Begin] + Terms(glob);
    assert re[1..] == Terms(glob);
    assert input[0..] == input;
    assert MatchesAt(re, input, 0) <==> MatchesAt(Terms(glob), input, 0);
    assert forall i | 0 < i <= |input| :: !MatchesAt(re, input, i);
  }

  // ----------------------------------------------------------------------------------------------
  // Line terminators are the one difference
  // ----------------------------------------------------------------------------------------------

  lemma {:induction false} WithinLineIsStricter(glob: string, s: string)
    requires Matches(glob, s, true)
    ensures Matches(glob, s, false)
  {
    if glob != "" {
      if glob[0] == '*' {
        var k :| 0 <= k <= |s| && OneLine(s[..k]) && Matches(glob[1..], s[k..], true);
        WithinLineIsStricter(glob[1..], s[k..]);
      } else {
        WithinLineIsStricter(glob[1..], s[1..]);
      }
    }
  }

  lemma {:induction false} OneLineIsEnough(glob: string, s: string)
    requires OneLine(s) && Matches(glob, s, false)
    ensures Matches(glob, s, true)
  {
    if glob != "" {
      if glob[0] == '*' {
        var k :| 0 <= k <= |s| && Matches(glob[1..], s[k..], false);
        OneLineIsEnough(glob[1..], s[k..]);
        assert OneLine(s[..k]);
      } else {
        OneLineIsEnough(glob[1..], s[1..]);
      }
    }
  }

  /** The matcher never accepts what the glob does not mean; on one line it accepts all that it means. */
  lemma GlobMatchIsGlobMeaning(glob: string, input: string)
    ensures GlobMatches(glob, input) ==> Matches(glob, input, false)
    ensures OneLine(input) ==> (GlobMatches(glob, input) <==> Matches(glob, input, false))
  {
    CompilationPreservesMeaning(glob, input);
    if Matches(glob, input, true) {
      WithinLineIsStricter(glob, input);
    }
    if OneLine(input) && Matches(glob, input, false) {
      OneLineIsEnough(glob, input);
    }
  }

  /** The glob `*` means everything, and matches exactly the inputs of one line. */
  lemma StarMatchesOneLine(input: string)
    ensures Matches("*", input, false)
    ensures GlobMatches("*", input) <==> OneLine(input)
  {
    CompilationPreservesMeaning("*", input);
    assert "*"[1..] == "";
    assert input[|input|..] == "" && input[..|input|] == input;
    assert Matches("", "", false) && Matches("", "", true);
    if k :| 0 <= k <= |input| && OneLine(input[..k]) && Matches("", input[k..], true) {
      assert input[..k] == input;
    }
  }

  /** All globs mean what they say on an input if and only if the input has no line terminator. */
  lemma AgreesExactlyOnOneLine(input: string)
    ensures (forall glob :: GlobMatches(glob, input) <==> Matches(glob, input, false)) <==> OneLine(input)
  {
    StarMatchesOneLine(input);
    if OneLine(input) {
      forall glob ensures GlobMatches(glob, input) <==> Matches(glob, input, false) {
        GlobMatchIsGlobMeaning(glob, input);
      }
    }
  }

  lemma {:induction false} PlainMeansItself(glob: string, s: string)
    requires '*' !in glob && '?' !in glob
    ensures Matches(glob, s, true) <==> glob == s
  {
    if glob != "" && s != "" {
      assert forall c | c in glob[1..] :: c in glob;
      PlainMeansItself(glob[1..], s[1..]);
      assert glob == [glob[0]] + glob[1..] && s == [s[0]] + s[1..];
    }
  }

  /** A glob without wildcards matches itself and nothing else, whatever characters it holds. */
  lemma PlainGlobMatchesItself(glob: string, input: string)
    requires '*' !in glob && '?' !in glob
    ensures GlobMatches(glob, input) <==> glob == input
  {
    CompilationPreservesMeaning(glob, input);
    PlainMeansItself(glob, input);
  }

  /** Which single characters `?` matches: all but the four line terminators. */
  lemma QuestionMatchesExactly(c: char)
    ensures GlobMatches("?", [c]) <==> c as int !in {0x0A, 0x0D, 0x2028, 0x2029}
  {
    CompilationPreservesMeaning("?", [c]);
    assert "?"[1..] == "" && [c][1..] == "";
    assert Matches("?", [c], true) <==> !IsLineTerminator(c);
    assert IsLineTerminator(c) <==> c as int in {0x0A, 0x0D, 0x2028, 0x2029} by {
      assert '\n' as int == 0x0A && '\r' as int == 0x0D;
    }
  }

  /** The text of one pattern. */
  lemma SourceOfExample()
    ensures Source("a.*?") == "^a\\..*.$"
  {
    assert "a.*?"[1..] == ".*?" && ".*?"[1..] == "*?" && "*?"[1..] == "?" && "?"[1..] == "";
    assert Body("") == "" && Body("?") == "." && Body("*?") == ".*.";
    assert Body(".*?") == "\\..*." && Body("a.*?") == "a\\..*.";
  }

  // ----------------------------------------------------------------------------------------------
  // The compiler and its cache
  // ----------------------------------------------------------------------------------------------

  lemma {:induction false} BodySnoc(glob: string, c: char)
    ensures Body(glob + [c]) == Body(glob) + Piece(c)
  {
    if glob == "" {
      assert [c][1..] == "";
    } else {
      assert (glob + [c])[1..] == glob[1..] + [c];
      BodySnoc(glob[1..], c);
    }
  }

  class Compiler {
    var compiledCache: map<string, RegExp>

    /** What is cached is what compiling again would give. */
    ghost predicate Valid()
      reads this
    {
      forall glob | glob in compiledCache :: Parse(Source(glob)) == Some(compiledCache[glob])
    }

    constructor ()
      ensures Valid() && compiledCache == map[]
    {
      compiledCache := map[];
    }

    method CompileGlob(glob: string) returns (compiled: RegExp)
      requires Valid()
      modifies this
      ensures Valid()
      ensures Parse(Source(glob)) == Some(compiled)
      ensures compiledCache == old(compiledCache)[glob := compiled]
    {
      hide Parse, Terms;
      if glob in compiledCache {
        compiled := compiledCache[glob];
        assert compiledCache == compiledCache[glob := compiled];
        return;
      }
      var re := "^";
      var i := 0;
      while i < |glob|
        invariant 0 <= i <= |glob|
        invariant re == "^" + Body(glob[..i])
        invariant compiledCache == old(compiledCache)
      {
        var ch := glob[i];
        assert glob[..i + 1] == glob[..i] + [ch];
        BodySnoc(glob[..i], ch);
        if ch == '*' {
          re := re + ".*";
        } else if ch == '?' {
          re := re + ".";
        } else if IsEscaped(ch) {
          re := re + ['\\', ch];
        } else {
          re := re + [ch];
        }
        i := i + 1;
      }
      assert glob[..i] == glob;
      re := re + "$";
      assert re == Source(glob);
      SourceParses(glob);
      compiled := Parse(re).value;
      compiledCache := compiledCache[glob := compiled];
    }

    /** Whatever was cached before, a match is decided by the glob and the input alone. */
    method GlobMatch(glob: string, input: string) returns (matched: bool)
      requires Valid()
      modifies this
      ensures Valid()
      ensures matched <==> Matches(glob, input, true)
    {
      var compiled := CompileGlob(glob);
      CompilationPreservesMeaning(glob, input);
      matched := Test(compiled, input);
    }

    method ResetGlobCache()
      modifies this
      ensures Valid() && compiledCache == map[]
    {
      compiledCache := map[];
    }
  }
}
