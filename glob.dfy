/**
  The per-segment filename glob that the pattern engine delegates to
  (Go's path/filepath.Match with '/' as separator).

  Only a subset of its syntax is modelled: literal characters, `\` escaping
  the next character, `?` (one character) and `*` (any run of characters).
  Character classes are not modelled: `[` is read as an ordinary character,
  and the lemmas below are stated only for patterns without it. Neither
  `?` nor `*` ever matches the separator. A pattern that ends in a lone `\`
  is malformed and yields an error instead of a verdict.
*/
module Glob {
  // The glob's separator is the path separator, '/', on which patterns
  // and paths are split.
  import opened Segments

  /** The two results of filepath.Match: a verdict, or ErrBadPattern. */
  datatype Outcome = Verdict(matched: bool) | BadPattern

  /** Every `\` in the pattern is followed by the character it escapes. */
  predicate WellFormed(p: string)
    decreases |p|
  {
    if p == [] then true
    else if p[0] == '\\' then |p| >= 2 && WellFormed(p[2..])
    else WellFormed(p[1..])
  }

  /** Glob semantics of a well-formed pattern against one name. */
  predicate Matches(p: string, name: string)
    requires WellFormed(p)
    decreases |p|, |name|
  {
    if p == [] then name == []
    else if p[0] == '*' then
      Matches(p[1..], name) || (name != [] && name[0] != Separator && Matches(p, name[1..]))
    else if p[0] == '?' then
      name != [] && name[0] != Separator && Matches(p[1..], name[1..])
    else if p[0] == '\\' then
      name != [] && name[0] == p[1] && Matches(p[2..], name[1..])
    else
      name != [] && name[0] == p[0] && Matches(p[1..], name[1..])
  }

  /** filepath.Match: malformed patterns are reported, never matched; a
      pattern without a separator only ever accepts a single segment. */
  function Match(p: string, name: string): (r: Outcome)
    ensures r == BadPattern <==> !WellFormed(p)
    ensures r == Verdict(true) && Separator !in p ==> Separator !in name
  {
    if WellFormed(p) then
      if Separator !in p && Matches(p, name) then
        MatchStaysInSegment(p, name);
        Verdict(true)
      else Verdict(Matches(p, name))
    else BadPattern
  }

  /** No glob construct ever consumes a separator the pattern does not hold. */
  lemma {:induction false} MatchStaysInSegment(p: string, name: string)
    requires WellFormed(p) && Separator !in p && Matches(p, name)
    ensures Separator !in name
    decreases |p|, |name|
  {
    if p != [] {
      if p[0] == '*' {
        if Matches(p[1..], name) {
          MatchStaysInSegment(p[1..], name);
        } else {
          MatchStaysInSegment(p, name[1..]);
          assert name == [name[0]] + name[1..];
        }
      } else if p[0] == '?' {
        MatchStaysInSegment(p[1..], name[1..]);
        assert name == [name[0]] + name[1..];
      } else if p[0] == '\\' {
        assert p[1] in p;
        MatchStaysInSegment(p[2..], name[1..]);
        assert name == [name[0]] + name[1..];
      } else {
        MatchStaysInSegment(p[1..], name[1..]);
        assert name == [name[0]] + name[1..];
      }
    }
  }

  /** What the pattern engine counts as a segment match: no error and a
      positive verdict (an error is read as "no match"). */
  predicate SegmentMatches(p: string, name: string)
  {
    Match(p, name) == Verdict(true)
  }

  /** A character with no special meaning to the glob (`[` opens a
      character class in filepath.Match, so it is not plain either). */
  predicate Plain(c: char)
  {
    c != '*' && c != '?' && c != '\\' && c != '['
  }

  /** A pattern made of plain characters is a plain name. */
  predicate Literal(p: string)
  {
    forall i :: 0 <= i < |p| ==> Plain(p[i])
  }

  /** `*` alone accepts exactly the names without a separator. */
  lemma {:induction false} StarMatchesAnySegment(name: string)
    ensures SegmentMatches("*", name) <==> Separator !in name
  {
    assert WellFormed("*") by { assert "*"[1..] == []; }
    StarRun(name);
  }

  lemma {:induction false} StarRun(name: string)
    ensures WellFormed("*")
    ensures Matches("*", name) <==> Separator !in name
    decreases |name|
  {
    assert "*"[1..] == [];
    assert WellFormed("*");
    if name != [] {
      StarRun(name[1..]);
      assert name == [name[0]] + name[1..];
    }
  }

  /** A literal pattern is well formed and matches only the identical name. */
  lemma {:induction false} LiteralMatchesItself(p: string, name: string)
    requires Literal(p)
    ensures WellFormed(p)
    ensures SegmentMatches(p, name) <==> name == p
    decreases |p|
  {
    if p != [] {
      assert Literal(p[1..]) by {
        forall i | 0 <= i < |p[1..]| ensures Plain(p[1..][i]) {
          assert p[1..][i] == p[i + 1];
        }
      }
      LiteralMatchesItself(p[1..], if name == [] then [] else name[1..]);
      if name != [] && name[0] == p[0] {
        assert name == [name[0]] + name[1..];
        assert p == [p[0]] + p[1..];
      }
    }
  }

  /** A well-formed pattern followed by a lone `\` is malformed, so it
      never matches anything. */
  lemma TrailingEscapeIsBad(p: string, name: string)
    requires WellFormed(p)
    ensures Match(p + "\\", name) == BadPattern
  {
    WellFormedEndsBad(p);
  }

  lemma {:induction false} WellFormedEndsBad(p: string)
    requires WellFormed(p)
    ensures !WellFormed(p + "\\")
    decreases |p|
  {
    if p == [] {
      assert p + "\\" == "\\";
    } else if p[0] == '\\' {
      assert (p + "\\")[2..] == p[2..] + "\\";
      WellFormedEndsBad(p[2..]);
    } else {
      assert (p + "\\")[1..] == p[1..] + "\\";
      WellFormedEndsBad(p[1..]);
    }
  }
}
