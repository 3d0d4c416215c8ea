/**
  Splitting a slash-separated path or pattern into segments, as Go's
  strings.Split(s, "/") does: the result always has one more element than
  there are separators, and empty segments are kept.
*/
module Segments {

  /** The path separator of strings.Split, and of the glob. */
  const Separator: char := '/'

  /** strings.Split(s, "/"). */
  function Split(s: string): (r: seq<string>)
    ensures |r| >= 1
    ensures forall i :: 0 <= i < |r| ==> Separator !in r[i]
    decreases |s|
  {
    if s == [] then [""]
    else
      var rest := Split(s[1..]);
      if s[0] == Separator then [""] + rest
      else [[s[0]] + rest[0]] + rest[1..]
  }

  /** strings.Join(parts, "/"), the inverse of Split. */
  function Join(parts: seq<string>): string
    requires |parts| >= 1
    decreases |parts|
  {
    if |parts| == 1 then parts[0] else parts[0] + [Separator] + Join(parts[1..])
  }

  predicate NoSeparator(parts: seq<string>)
  {
    forall i :: 0 <= i < |parts| ==> Separator !in parts[i]
  }

  /** Joining the segments of a string gives the string back. */
  lemma {:induction false} JoinSplit(s: string)
    ensures Join(Split(s)) == s
    decreases |s|
  {
    if s != [] {
      var rest := Split(s[1..]);
      JoinSplit(s[1..]);
      assert s == [s[0]] + s[1..];
      if s[0] != Separator {
        var r := [[s[0]] + rest[0]] + rest[1..];
        assert r[1..] == rest[1..];
        if |rest| > 1 {
          assert rest[1..][0] == rest[1];
          calc {
            Join(r);
            ([s[0]] + rest[0]) + [Separator] + Join(rest[1..]);
            [s[0]] + (rest[0] + [Separator] + Join(rest[1..]));
            [s[0]] + Join(rest);
          }
        }
      }
    }
  }

  /** Splitting the join of separator-free segments gives the segments back. */
  lemma {:induction false} SplitJoin(parts: seq<string>)
    requires |parts| >= 1 && NoSeparator(parts)
    ensures Split(Join(parts)) == parts
    decreases |parts|
  {
    if |parts| == 1 {
      SplitPrefix(parts[0], "");
      assert parts[0] + "" == parts[0];
    } else {
      var tail := Join(parts[1..]);
      SplitJoin(parts[1..]);
      assert Join(parts) == parts[0] + ([Separator] + tail);
      SplitPrefix(parts[0], [Separator] + tail);
      assert ([Separator] + tail)[1..] == tail;
      assert ([Separator] + tail)[0] == Separator;
      assert Split([Separator] + tail) == [""] + parts[1..];
      assert parts[0] + "" == parts[0];
      assert parts == [parts[0]] + parts[1..];
    }
  }

  /** A separator-free prefix glues onto the first segment of the rest. */
  lemma {:induction false} SplitPrefix(x: string, s: string)
    requires Separator !in x
    ensures Split(x + s) == [x + Split(s)[0]] + Split(s)[1..]
    decreases |x|
  {
    if x != [] {
      SplitPrefix(x[1..], s);
      assert (x + s)[1..] == x[1..] + s;
      assert (x + s)[0] == x[0];
      assert [x[0]] + (x[1..] + Split(s)[0]) == x + Split(s)[0];
    } else {
      var r := Split(s);
      assert x + s == s;
      assert x + r[0] == r[0];
      assert r == [r[0]] + r[1..];
    }
  }
}
