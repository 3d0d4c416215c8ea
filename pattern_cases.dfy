/**
  The table of pattern_test.go, stated as lemmas: each pattern list, once
  compiled, is evaluated first-match-wins against the path "a/b/c".
*/
module PatternCases {
  import Glob
  import opened Segments
  import opened Pattern

  // matchPattern(parsePatterns(patterns), name), as the tests call it.
  predicate MatchNames(patterns: seq<string>, name: string)
  {
    FirstMatch(ParseAll(patterns), Split(name))
  }

  const Path: seq<string> := ["a", "b", "c"]

  lemma SplitPath()
    ensures Split("a/b/c") == Path
  {
    SplitJoin(Path);
    assert Join(Path) == "a/b/c";
  }

  // Reduces a test case to a pattern list already compiled.
  lemma Evaluate(patterns: seq<string>, compiled: seq<Pattern>)
    requires |patterns| == |compiled|
    requires forall i :: 0 <= i < |patterns| ==> compiled[i] == Parse(patterns[i])
    ensures MatchNames(patterns, "a/b/c") == FirstMatch(compiled, Path)
  {
    SplitPath();
    assert ParseAll(patterns) == compiled;
  }

  // How a list of one or two compiled patterns decides "a/b/c".

  lemma OnlyOneMatches(ps: seq<string>)
    requires |ps| == 1 && Outcome(Parse(ps[0]), Path) == Matched
    ensures MatchNames(ps, "a/b/c")
  {
    Evaluate(ps, [Parse(ps[0])]);
  }

  lemma SecondMatches(ps: seq<string>)
    requires |ps| == 2
    requires Outcome(Parse(ps[0]), Path) == NotMatched && Outcome(Parse(ps[1]), Path) == Matched
    ensures MatchNames(ps, "a/b/c")
  {
    var p, q := Parse(ps[0]), Parse(ps[1]);
    assert [p, q][1..] == [q];
    Evaluate(ps, [p, q]);
  }

  lemma FirstExcludes(ps: seq<string>)
    requires |ps| == 2 && Outcome(Parse(ps[0]), Path) == Exclude
    ensures !MatchNames(ps, "a/b/c")
  {
    Evaluate(ps, [Parse(ps[0]), Parse(ps[1])]);
  }

  lemma NeitherMatches(ps: seq<string>)
    requires |ps| == 2
    requires Outcome(Parse(ps[0]), Path) == NotMatched && Outcome(Parse(ps[1]), Path) == NotMatched
    ensures !MatchNames(ps, "a/b/c")
  {
    var p, q := Parse(ps[0]), Parse(ps[1]);
    NeitherDecides(p, q, Path);
    Evaluate(ps, [p, q]);
  }

  lemma NeitherDecides(p: Pattern, q: Pattern, path: seq<string>)
    requires Outcome(p, path) == NotMatched && Outcome(q, path) == NotMatched
    ensures !FirstMatch([p, q], path)
  {
    assert [p, q][1..] == [q];
    assert [q][1..] == [];
    assert !FirstMatch([q], path);
  }

  // A pattern string without `!` compiles to the segments it joins.
  lemma ParseOf(s: string, parts: seq<string>)
    requires |parts| >= 1 && NoSeparator(parts) && Join(parts) == s && !HasExcludePrefix(s)
    ensures Parse(s) == PatternImpl(parts, LastIndexOf(parts, ZeroToManyDirs), false)
  {
    SplitJoin(parts);
  }

  // ---------------------------------------------------------------------------
  // The shapes of pattern the table uses

  lemma OnlyWildcard(p: Pattern, path: seq<string>)
    requires p.parts == [ZeroToManyDirs] && p.zeroToMany == 0
    ensures Structural(p, path)
  {
    assert p.parts[1..] == [];
  }

  lemma WildcardThen(p: Pattern, x: string, path: seq<string>)
    requires p.parts == [ZeroToManyDirs, x] && p.zeroToMany == 0 && |path| >= 1
    ensures Structural(p, path) <==> Glob.SegmentMatches(x, path[|path| - 1])
  {
    assert p.parts[1..] == [x];
    assert path[SuffixStart(p, path)..] == [path[|path| - 1]];
  }

  lemma ThenWildcard(p: Pattern, x: string, path: seq<string>)
    requires p.parts == [x, ZeroToManyDirs] && p.zeroToMany == 1 && |path| >= 1
    ensures Structural(p, path) <==> Glob.SegmentMatches(x, path[0])
  {
    assert p.parts[..1] == [x];
    assert p.parts[2..] == [];
  }

  lemma WrongLength(p: Pattern, path: seq<string>)
    requires p.zeroToMany < 0 && |p.parts| != |path|
    ensures !Structural(p, path)
  {
  }

  lemma ThreeSegments(p: Pattern, path: seq<string>)
    requires p.zeroToMany < 0 && |p.parts| == 3 && |path| == 3
    ensures Structural(p, path) <==>
      Glob.SegmentMatches(p.parts[0], path[0]) &&
      Glob.SegmentMatches(p.parts[1], path[1]) &&
      Glob.SegmentMatches(p.parts[2], path[2])
  {
  }

  lemma TrailingWildcard(p: Pattern, path: seq<string>)
    requires 0 <= p.zeroToMany == |p.parts| - 1 && |path| >= p.zeroToMany
    ensures Structural(p, path) <==> PartsMatch(p.parts[..p.zeroToMany], path)
  {
    assert p.parts[p.zeroToMany + 1..] == [];
    assert path[SuffixStart(p, path)..] == [];
  }

  // ---------------------------------------------------------------------------
  // The compiled patterns

  lemma ParseStarStar()
    ensures Parse("**") == PatternImpl(["**"], 0, false)
  {
    ParseOf("**", ["**"]);
  }

  lemma ParseStarStarC()
    ensures Parse("**/c") == PatternImpl(["**", "c"], 0, false)
  {
    assert Join(["**", "c"]) == "**/c";
    ParseOf("**/c", ["**", "c"]);
  }

  lemma ParseStarStarB()
    ensures Parse("**/b") == PatternImpl(["**", "b"], 0, false)
  {
    assert Join(["**", "b"]) == "**/b";
    ParseOf("**/b", ["**", "b"]);
  }

  lemma ParseBStarStar()
    ensures Parse("b/**") == PatternImpl(["b", "**"], 1, false)
  {
    assert Join(["b", "**"]) == "b/**";
    ParseOf("b/**", ["b", "**"]);
  }

  lemma ParseStarsC()
    ensures Parse("*/*/c") == PatternImpl(["*", "*", "c"], -1, false)
  {
    assert Join(["*", "*", "c"]) == "*/*/c";
    ParseOf("*/*/c", ["*", "*", "c"]);
  }

  lemma ParseExcludedStarsC()
    ensures Parse("!*/*/c") == PatternImpl(["*", "*", "c"], -1, true)
  {
    assert HasExcludePrefix("!*/*/c");
    assert "!*/*/c"[1..] == "*/*/c";
    ParseStarsC();
  }

  lemma ParseSegment(s: string)
    requires Glob.Literal(s) && Separator !in s && s != ZeroToManyDirs && !HasExcludePrefix(s)
    ensures Parse(s) == PatternImpl([s], -1, false)
  {
    ParseOf(s, [s]);
  }

  lemma ParseTwoWildcards()
    ensures Parse("**/a/**") == PatternImpl(["**", "a", "**"], 2, false)
  {
    assert Join(["**", "a", "**"]) == "**/a/**";
    ParseOf("**/a/**", ["**", "a", "**"]);
  }

  // ---------------------------------------------------------------------------
  // Each pattern on "a/b/c"

  lemma StarStarOnPath()
    ensures Outcome(Parse("**"), Path) == Matched
  {
    ParseStarStar();
    OnlyWildcard(Parse("**"), Path);
  }

  lemma StarStarCOnPath()
    ensures Outcome(Parse("**/c"), Path) == Matched
  {
    var p := Parse("**/c");
    ParseStarStarC();
    WildcardThen(p, "c", Path);
    Glob.LiteralMatchesItself("c", "c");
  }

  lemma SegmentOnPath(s: string)
    requires Glob.Literal(s) && Separator !in s && s != ZeroToManyDirs && !HasExcludePrefix(s)
    ensures Outcome(Parse(s), Path) == NotMatched
  {
    ParseSegment(s);
    WrongLength(Parse(s), Path);
  }

  lemma StarsCOnPath()
    ensures Outcome(Parse("*/*/c"), Path) == Matched
  {
    var p := Parse("*/*/c");
    ParseStarsC();
    ThreeSegments(p, Path);
    Glob.StarMatchesAnySegment("a");
    Glob.StarMatchesAnySegment("b");
    Glob.LiteralMatchesItself("c", "c");
  }

  lemma ExcludedStarsCOnPath()
    ensures Outcome(Parse("!*/*/c"), Path) == Exclude
  {
    var p := Parse("!*/*/c");
    ParseExcludedStarsC();
    ThreeSegments(p, Path);
    Glob.StarMatchesAnySegment("a");
    Glob.StarMatchesAnySegment("b");
    Glob.LiteralMatchesItself("c", "c");
  }

  lemma BStarStarOnPath()
    ensures Outcome(Parse("b/**"), Path) == NotMatched
  {
    var p := Parse("b/**");
    ParseBStarStar();
    ThenWildcard(p, "b", Path);
    Glob.LiteralMatchesItself("b", "a");
  }

  lemma StarStarBOnPath()
    ensures Outcome(Parse("**/b"), Path) == NotMatched
  {
    var q := Parse("**/b");
    ParseStarStarB();
    WildcardThen(q, "b", Path);
    Glob.LiteralMatchesItself("b", "c");
  }

  // ---------------------------------------------------------------------------
  // The table

  // `**` alone matches every path, here "a/b/c".
  lemma StarStarMatchesAll()
    ensures MatchNames(["**"], "a/b/c")
  {
    StarStarOnPath();
    OnlyOneMatches(["**"]);
  }

  // "b" cannot match three segments; "**/c" matches the last one.
  lemma SuffixAfterStarStar()
    ensures MatchNames(["b", "**/c"], "a/b/c")
  {
    SegmentOnPath("b");
    StarStarCOnPath();
    SecondMatches(["b", "**/c"]);
  }

  // Each `*` matches exactly one segment.
  lemma StarsMatchOneSegmentEach()
    ensures MatchNames(["*/*/c"], "a/b/c")
  {
    StarsCOnPath();
    OnlyOneMatches(["*/*/c"]);
  }

  // "b/**" needs a leading "b", "**/b" a trailing "b": neither matches.
  lemma BracketingSegmentsMustMatch()
    ensures !MatchNames(["b/**", "**/b"], "a/b/c")
  {
    BStarStarOnPath();
    StarStarBOnPath();
    NeitherMatches(["b/**", "**/b"]);
  }

  // The exclusion comes first and decides, although "**" would match.
  lemma ExclusionComesFirst()
    ensures !MatchNames(["!*/*/c", "**"], "a/b/c")
  {
    ExcludedStarsCOnPath();
    FirstExcludes(["!*/*/c", "**"]);
  }

  // Single-segment patterns cannot match a three-segment path.
  lemma NoPatternMatches()
    ensures !MatchNames(["a", "c"], "a/b/c")
  {
    SegmentOnPath("a");
    SegmentOnPath("c");
    NeitherMatches(["a", "c"]);
  }

  // With two `**` segments the parser keeps the last one; the earlier one
  // is then an ordinary glob segment matching exactly one path segment.
  lemma LastWildcardHonoured()
    ensures Parse("**/a/**").zeroToMany == 2
    ensures Outcome(Parse("**/a/**"), ["a"]) == NotMatched
    ensures Outcome(Parse("**/a/**"), ["x", "a"]) == Matched
  {
    ParseTwoWildcards();
    TwoWildcardsOnTwoSegments();
  }

  lemma TwoWildcardsOnTwoSegments()
    ensures Structural(PatternImpl(["**", "a", "**"], 2, false), ["x", "a"])
  {
    var p: Pattern := PatternImpl(["**", "a", "**"], 2, false);
    TrailingWildcard(p, ["x", "a"]);
    assert p.parts[..2] == ["**", "a"];
    StarStarIsOneSegment("x");
    Glob.LiteralMatchesItself("a", "a");
  }

  // As a glob, `**` is two stars: one segment, whatever it holds.
  lemma StarStarIsOneSegment(name: string)
    requires Separator !in name
    ensures Glob.SegmentMatches(ZeroToManyDirs, name)
  {
    assert Glob.WellFormed(ZeroToManyDirs) by {
      assert ZeroToManyDirs[1..] == "*";
      assert "*"[1..] == [];
    }
    assert ZeroToManyDirs[1..] == "*";
    Glob.StarRun(name);
  }
}
