/**
  The path-pattern engine: gitignore-like patterns compiled into segment
  lists, matched against a path split into segments, and evaluated as an
  ordered, first-match-wins list.
*/
module Pattern {
  import Glob
  import opened Segments

  /** Outcome of matching one pattern against one path. */
  datatype MatchResult = NotMatched | Matched | Exclude

  const ExcludePrefix: char := '!'
  const ZeroToManyDirs: string := "**"

  /** A compiled pattern: its segments, the index of the `**` segment it
      honours (-1 when there is none) and whether it is an exclusion. */
  datatype PatternImpl = PatternImpl(parts: seq<string>, zeroToMany: int, exclude: bool)

  /** A pattern whose `**` index lies inside its segment list, as parsing
      guarantees; matching slices the segment list at that index. */
  type Pattern = p: PatternImpl | p.zeroToMany < |p.parts| witness PatternImpl([], -1, false)

  // ---------------------------------------------------------------------------
  // Parsing

  /** The index of the last element of `parts` equal to `x`, or -1. */
  function LastIndexOf(parts: seq<string>, x: string): (k: int)
    ensures -1 <= k < |parts|
    ensures k == -1 <==> x !in parts
    ensures k >= 0 ==> parts[k] == x && forall j :: k < j < |parts| ==> parts[j] != x
    decreases |parts|
  {
    if parts == [] then -1
    else if parts[|parts| - 1] == x then |parts| - 1
    else
      assert parts == parts[..|parts| - 1] + [parts[|parts| - 1]];
      LastIndexOf(parts[..|parts| - 1], x)
  }

  predicate HasExcludePrefix(p: string)
  {
    |p| > 0 && p[0] == ExcludePrefix
  }

  /** The compiled form of one pattern string. */
  function Parse(p: string): (r: Pattern)
  {
    var exclude := HasExcludePrefix(p);
    var parts := Split(if exclude then p[1..] else p);
    PatternImpl(parts, LastIndexOf(parts, ZeroToManyDirs), exclude)
  }

  /** parsePattern: strips a leading `!`, splits on `/`, and scans the
      segments for `**`, each hit overwriting the previous one. */
  method ParsePattern(p: string) returns (r: Pattern)
    ensures r == Parse(p)
  {
    var exclude := false;
    var rest := p;
    if HasExcludePrefix(p) {
      exclude := true;
      rest := p[1..];
    }
    var parts := Split(rest);
    var zeroToMany := -1;
    for i := 0 to |parts|
      invariant zeroToMany == LastIndexOf(parts[..i], ZeroToManyDirs)
    {
      assert parts[..i + 1][..i] == parts[..i];
      if parts[i] == ZeroToManyDirs {
        zeroToMany := i;
      }
    }
    assert parts[..|parts|] == parts;
    r := PatternImpl(parts, zeroToMany, exclude);
  }

  /** The compiled forms of a list of pattern strings, in order. */
  function ParseAll(ps: seq<string>): (r: seq<Pattern>)
    ensures |r| == |ps|
    ensures forall i :: 0 <= i < |ps| ==> r[i] == Parse(ps[i])
    decreases |ps|
  {
    if ps == [] then [] else [Parse(ps[0])] + ParseAll(ps[1..])
  }

  /** parsePatterns: fills a list of the same length, element by element. */
  method ParsePatterns(ps: seq<string>) returns (r: seq<Pattern>)
    ensures r == ParseAll(ps)
  {
    var res := new PatternImpl[|ps|];
    for i := 0 to |ps|
      invariant forall j :: 0 <= j < i ==> res[j] == Parse(ps[j])
    {
      var q := ParsePattern(ps[i]);
      res[i] := q;
    }
    r := res[..];
  }

  /** Printing a compiled pattern back gives the pattern string. */
  lemma ParseRoundTrip(p: string)
    ensures Parse(p).exclude <==> HasExcludePrefix(p)
    ensures (if Parse(p).exclude then [ExcludePrefix] else "") + Join(Parse(p).parts) == p
  {
    if HasExcludePrefix(p) {
      JoinSplit(p[1..]);
      assert p == [p[0]] + p[1..];
    } else {
      JoinSplit(p);
    }
  }

  // ---------------------------------------------------------------------------
  // Matching one pattern

  /** Every pattern segment glob-matches the path segment at the same index. */
  predicate PartsMatch(parts: seq<string>, path: seq<string>)
    requires |parts| <= |path|
  {
    forall i :: 0 <= i < |parts| ==> Glob.SegmentMatches(parts[i], path[i])
  }

  /** matchParts: stops at the first segment that fails or is malformed. */
  method MatchParts(parts: seq<string>, path: seq<string>) returns (r: bool)
    requires |parts| <= |path|
    ensures r <==> PartsMatch(parts, path)
  {
    for i := 0 to |parts|
      invariant forall j :: 0 <= j < i ==> Glob.SegmentMatches(parts[j], path[j])
    {
      var outcome := Glob.Match(parts[i], path[i]);
      if outcome.BadPattern? || !outcome.matched {
        return false;
      }
    }
    return true;
  }

  /** Where the segments after `**` start in the path: the span absorbed by
      `**` lies between the `zeroToMany` prefix segments and this index, so
      the prefix and the suffix never overlap and both stay in bounds. */
  function SuffixStart(p: Pattern, path: seq<string>): (s: int)
    requires p.zeroToMany >= 0 && |path| >= |p.parts| - 1
    ensures p.zeroToMany <= s <= |path|
    ensures |path| - s == |p.parts[p.zeroToMany + 1..]|
  {
    |path| - (|p.parts| - p.zeroToMany - 1)
  }

  /** The structural test of Match: segment by segment without `**`;
      with `**`, the prefix before it and the suffix after it, anchored at
      the two ends of the path. */
  predicate Structural(p: Pattern, path: seq<string>)
  {
    var parts := p.parts;
    if p.zeroToMany < 0 then
      |parts| == |path| && PartsMatch(parts, path)
    else
      && |path| >= |parts| - 1
      && PartsMatch(parts[..p.zeroToMany], path)
      && PartsMatch(parts[p.zeroToMany + 1..], path[SuffixStart(p, path)..])
  }

  /** What Match returns. */
  function Outcome(p: Pattern, path: seq<string>): (r: MatchResult)
  {
    if !Structural(p, path) then NotMatched
    else if p.exclude then Exclude
    else Matched
  }

  /** patternImpl.Match. */
  method Match(p: Pattern, path: seq<string>) returns (r: MatchResult)
    ensures r == Outcome(p, path)
    ensures r == Exclude <==> Structural(p, path) && p.exclude
    ensures r == Matched <==> Structural(p, path) && !p.exclude
  {
    var parts := p.parts;
    if p.zeroToMany < 0 {
      if |parts| != |path| {
        return NotMatched;
      }
      var ok := MatchParts(parts, path);
      if !ok {
        return NotMatched;
      }
    } else {
      if |path| < |parts| - 1 {
        return NotMatched;
      }
      var ok := MatchParts(parts[..p.zeroToMany], path);
      if !ok {
        return NotMatched;
      }
      var after := parts[p.zeroToMany + 1..];
      ok := MatchParts(after, path[|path| - |after|..]);
      if !ok {
        return NotMatched;
      }
    }
    if p.exclude {
      return Exclude;
    }
    return Matched;
  }

  // ---------------------------------------------------------------------------
  // An independent reference for `**`

  /** Reference semantics: `**` absorbs any number of whole segments, every
      other segment matches exactly one path segment. */
  predicate Ref(parts: seq<string>, path: seq<string>)
    decreases |parts|, |path|
  {
    if parts == [] then path == []
    else if parts[0] == ZeroToManyDirs then
      Ref(parts[1..], path) || (path != [] && Ref(parts, path[1..]))
    else
      path != [] && Glob.SegmentMatches(parts[0], path[0]) && Ref(parts[1..], path[1..])
  }

  /** The pattern honours its only `**`, if it has one. */
  predicate SingleWildcard(p: Pattern)
  {
    && p.zeroToMany == LastIndexOf(p.parts, ZeroToManyDirs)
    && forall i :: 0 <= i < |p.parts| && p.parts[i] == ZeroToManyDirs ==> i == p.zeroToMany
  }

  lemma {:induction false} RefWithoutWildcard(parts: seq<string>, path: seq<string>)
    requires ZeroToManyDirs !in parts
    ensures Ref(parts, path) <==> |parts| == |path| && PartsMatch(parts, path)
    decreases |parts|
  {
    if parts != [] && path != [] {
      assert ZeroToManyDirs !in parts[1..] by {
        forall i | 0 <= i < |parts[1..]| ensures parts[1..][i] != ZeroToManyDirs {
          assert parts[1..][i] == parts[i + 1];
        }
      }
      RefWithoutWildcard(parts[1..], path[1..]);
      if Ref(parts, path) {
        forall i | 0 <= i < |parts| ensures Glob.SegmentMatches(parts[i], path[i]) {
          if i > 0 {
            assert parts[1..][i - 1] == parts[i];
            assert path[1..][i - 1] == path[i];
          }
        }
      }
      if |parts| == |path| && PartsMatch(parts, path) {
        forall i | 0 <= i < |parts[1..]| ensures Glob.SegmentMatches(parts[1..][i], path[1..][i]) {
          assert parts[1..][i] == parts[i + 1];
          assert path[1..][i] == path[i + 1];
        }
      }
    }
  }

  lemma {:induction false} RefPrefix(a: seq<string>, rest: seq<string>, path: seq<string>)
    requires ZeroToManyDirs !in a
    ensures Ref(a + rest, path) <==>
      |path| >= |a| && PartsMatch(a, path) && Ref(rest, path[|a|..])
    decreases |a|
  {
    if a != [] {
      assert (a + rest)[0] == a[0];
      assert (a + rest)[1..] == a[1..] + rest;
      assert ZeroToManyDirs !in a[1..] by {
        forall i | 0 <= i < |a[1..]| ensures a[1..][i] != ZeroToManyDirs {
          assert a[1..][i] == a[i + 1];
        }
      }
      if path != [] {
        RefPrefix(a[1..], rest, path[1..]);
        if |path| >= |a| {
          assert path[1..][|a[1..]|..] == path[|a|..];
        }
        if Ref(a + rest, path) {
          forall i | 0 <= i < |a| ensures Glob.SegmentMatches(a[i], path[i]) {
            if i > 0 {
              assert a[1..][i - 1] == a[i];
              assert path[1..][i - 1] == path[i];
            }
          }
        }
        if |path| >= |a| && PartsMatch(a, path) && Ref(rest, path[|a|..]) {
          forall i | 0 <= i < |a[1..]| ensures Glob.SegmentMatches(a[1..][i], path[1..][i]) {
            assert a[1..][i] == a[i + 1];
            assert path[1..][i] == path[i + 1];
          }
        }
      }
    } else {
      assert a + rest == rest;
    }
  }

  lemma {:induction false} RefWildcardSuffix(b: seq<string>, path: seq<string>)
    requires ZeroToManyDirs !in b
    ensures Ref([ZeroToManyDirs] + b, path) <==>
      |path| >= |b| && PartsMatch(b, path[|path| - |b|..])
    decreases |path|
  {
    var parts := [ZeroToManyDirs] + b;
    assert parts[0] == ZeroToManyDirs;
    assert parts[1..] == b;
    RefWithoutWildcard(b, path);
    if path != [] {
      RefWildcardSuffix(b, path[1..]);
      if |path| > |b| {
        assert path[1..][|path[1..]| - |b|..] == path[|path| - |b|..];
      }
    }
    if |path| == |b| {
      assert path[|path| - |b|..] == path;
    }
  }

  /** With at most one `**`, the code's slicing agrees with the reference
      semantics in which `**` absorbs zero or more segments. */
  lemma StructuralIsReference(p: Pattern, path: seq<string>)
    requires SingleWildcard(p)
    ensures Structural(p, path) <==> Ref(p.parts, path)
  {
    var parts, k := p.parts, p.zeroToMany;
    if k < 0 {
      RefWithoutWildcard(parts, path);
    } else {
      var a, b := parts[..k], parts[k + 1..];
      WildcardSplit(p);
      RefPrefix(a, [ZeroToManyDirs] + b, path);
      assert Ref(parts, path) <==>
        |path| >= |a| && PartsMatch(a, path) && Ref([ZeroToManyDirs] + b, path[|a|..]);
      if |path| >= |a| {
        var rest := path[|a|..];
        RefWildcardSuffix(b, rest);
        if |path| >= |parts| - 1 {
          assert rest[|rest| - |b|..] == path[SuffixStart(p, path)..];
          assert Structural(p, path) <==> PartsMatch(a, path) && PartsMatch(b, path[SuffixStart(p, path)..]);
        } else {
          assert |rest| < |b|;
        }
      }
    }
  }

  /** A pattern with a single `**` is its prefix, `**` and its suffix. */
  lemma WildcardSplit(p: Pattern)
    requires SingleWildcard(p) && p.zeroToMany >= 0
    ensures p.parts == p.parts[..p.zeroToMany] + ([ZeroToManyDirs] + p.parts[p.zeroToMany + 1..])
    ensures ZeroToManyDirs !in p.parts[..p.zeroToMany]
    ensures ZeroToManyDirs !in p.parts[p.zeroToMany + 1..]
  {
    var parts, k := p.parts, p.zeroToMany;
    var a, b := parts[..k], parts[k + 1..];
    assert parts == a + ([ZeroToManyDirs] + b);
    forall i | 0 <= i < |a| ensures a[i] != ZeroToManyDirs {
      assert a[i] == parts[i];
    }
    forall i | 0 <= i < |b| ensures b[i] != ZeroToManyDirs {
      assert b[i] == parts[k + 1 + i];
    }
  }

  /** Match, read against the reference semantics: an exclusion decides only
      on a structural match, and so does an inclusion. */
  lemma MatchAgreesWithReference(p: Pattern, path: seq<string>)
    requires SingleWildcard(p)
    ensures Outcome(p, path) == Exclude <==> Ref(p.parts, path) && p.exclude
    ensures Outcome(p, path) == Matched <==> Ref(p.parts, path) && !p.exclude
    ensures Outcome(p, path) == NotMatched <==> !Ref(p.parts, path)
  {
    StructuralIsReference(p, path);
  }

  /** Parsed patterns always honour their last `**`; with a single `**`
      they satisfy the reference reading. */
  lemma ParseHonoursWildcard(s: string)
    requires forall i, j :: 0 <= i < j < |Parse(s).parts| ==>
      Parse(s).parts[i] != ZeroToManyDirs || Parse(s).parts[j] != ZeroToManyDirs
    ensures SingleWildcard(Parse(s))
  {
  }

  // ---------------------------------------------------------------------------
  // Matching an ordered list

  /** First-match-wins over an ordered pattern list. */
  predicate FirstMatch(ps: seq<Pattern>, path: seq<string>)
    decreases |ps|
  {
    if ps == [] then false
    else match Outcome(ps[0], path)
      case Matched => true
      case Exclude => false
      case NotMatched => FirstMatch(ps[1..], path)
  }

  /** matchPattern: splits the name once and walks the list, returning at
      the first inclusion or exclusion. */
  method MatchPattern(ps: seq<Pattern>, name: string) returns (r: bool)
    ensures r == FirstMatch(ps, Split(name))
  {
    var path := Split(name);
    for i := 0 to |ps|
      invariant FirstMatch(ps, path) == FirstMatch(ps[i..], path)
    {
      var m := Match(ps[i], path);
      if m == Matched {
        return true;
      } else if m == Exclude {
        return false;
      }
      assert ps[i..][1..] == ps[i + 1..];
    }
    return false;
  }

  /** Some pattern of the list decides (includes or excludes) the path. */
  predicate Decides(ps: seq<Pattern>, path: seq<string>)
  {
    exists i :: 0 <= i < |ps| && Outcome(ps[i], path) != NotMatched
  }

  /** The list matches exactly when some pattern matches and every earlier
      one did not match at all. */
  lemma {:induction false} FirstMatchWins(ps: seq<Pattern>, path: seq<string>)
    ensures FirstMatch(ps, path) <==>
      exists i :: 0 <= i < |ps| && Outcome(ps[i], path) == Matched &&
        forall j :: 0 <= j < i ==> Outcome(ps[j], path) == NotMatched
    decreases |ps|
  {
    if ps != [] {
      FirstMatchWins(ps[1..], path);
      if Outcome(ps[0], path) == NotMatched {
        if FirstMatch(ps, path) {
          var i :| 0 <= i < |ps[1..]| && Outcome(ps[1..][i], path) == Matched &&
            forall j :: 0 <= j < i ==> Outcome(ps[1..][j], path) == NotMatched;
          assert Outcome(ps[i + 1], path) == Matched;
          forall j | 0 <= j < i + 1 ensures Outcome(ps[j], path) == NotMatched {
            if j > 0 { assert ps[1..][j - 1] == ps[j]; }
          }
        } else {
          forall i | 0 <= i < |ps| && Outcome(ps[i], path) == Matched
            ensures exists j :: 0 <= j < i && Outcome(ps[j], path) != NotMatched
          {
            assert i > 0;
            assert ps[1..][i - 1] == ps[i];
            var j :| 0 <= j < i - 1 && Outcome(ps[1..][j], path) != NotMatched;
            assert ps[1..][j] == ps[j + 1];
          }
        }
      }
    }
  }

  /** A decision made by earlier patterns stands whatever follows; a list
      that decides nothing defers to the patterns after it. */
  lemma {:induction false} FirstMatchAppend(ps: seq<Pattern>, qs: seq<Pattern>, path: seq<string>)
    ensures FirstMatch(ps + qs, path) ==
      if Decides(ps, path) then FirstMatch(ps, path) else FirstMatch(qs, path)
    decreases |ps|
  {
    if ps == [] {
      assert ps + qs == qs;
    } else {
      assert (ps + qs)[0] == ps[0];
      assert (ps + qs)[1..] == ps[1..] + qs;
      FirstMatchAppend(ps[1..], qs, path);
      if Outcome(ps[0], path) == NotMatched {
        assert Decides(ps, path) <==> Decides(ps[1..], path) by {
          if Decides(ps, path) {
            var i :| 0 <= i < |ps| && Outcome(ps[i], path) != NotMatched;
            assert ps[1..][i - 1] == ps[i];
          }
          if Decides(ps[1..], path) {
            var i :| 0 <= i < |ps[1..]| && Outcome(ps[1..][i], path) != NotMatched;
            assert ps[1..][i] == ps[i + 1];
          }
        }
      } else {
        assert Decides(ps, path);
      }
    }
  }
}
