/**
  The mutable file descriptor handed to callbacks (File in apply.go) and
  the callbacks themselves, modelled as scripts of edits on it.

  A descriptor's content source is either the original blob of the tree
  snapshot, read lazily, or a buffer a callback put there. "Unchanged"
  means only that the source is still the original blob.
*/
module Descriptor {

  newtype byte = x: int | 0 <= x < 0x100

  /** Permission and type bits of a tree entry (a 32-bit value). */
  newtype FileMode = x: int | 0 <= x < 0x1_0000_0000

  datatype Result<T> = Ok(value: T) | Err(message: string)

  /** An entry of the tree snapshot: path, mode, declared size, and what
      opening and reading its blob yields. */
  datatype Blob = Blob(name: string, mode: FileMode, size: int, read: Result<seq<byte>>)

  /** The content source: the lazily read original blob, or a buffer. */
  datatype Source = Original(read: Result<seq<byte>>) | Replaced(data: seq<byte>)

  /** The value of a descriptor's four fields. */
  datatype FileState = FileState(name: string, mode: FileMode, size: int, source: Source)

  /** The descriptor applyFile builds for a tree entry. */
  function Fresh(b: Blob): FileState
  {
    FileState(b.name, b.mode, b.size, Original(b.read))
  }

  /** What reading a content source yields (Content__0, and the Reader of
      either opener). */
  function ContentOf(src: Source): Result<seq<byte>>
  {
    match src
    case Replaced(data) => Ok(data)
    case Original(read) => read
  }

  // ---------------------------------------------------------------------------
  // Strings as bytes

  /** The UTF-8 bytes of one character. */
  function EncodeChar(c: char): (r: seq<byte>)
    ensures 1 <= |r| <= 4
    ensures |r| == 1 <==> c as int < 0x80
    ensures |r| == 2 <==> 0x80 <= c as int < 0x800
    ensures |r| == 3 <==> 0x800 <= c as int < 0x1_0000
    ensures |r| == 1 ==> r[0] as int == c as int
    ensures |r| == 2 ==> 0xC0 <= r[0] as int < 0xE0
    ensures |r| == 3 ==> 0xE0 <= r[0] as int < 0xF0
    ensures |r| == 4 ==> 0xF0 <= r[0] as int < 0xF8
    ensures forall k :: 1 <= k < |r| ==> 0x80 <= r[k] as int < 0xC0
  {
    var n := c as int;
    if n < 0x80 then [n as byte]
    else if n < 0x800 then [(0xC0 + n / 0x40) as byte, (0x80 + n % 0x40) as byte]
    else if n < 0x1_0000 then
      [(0xE0 + n / 0x1000) as byte, (0x80 + n / 0x40 % 0x40) as byte, (0x80 + n % 0x40) as byte]
    else
      [(0xF0 + n / 0x4_0000) as byte, (0x80 + n / 0x1000 % 0x40) as byte,
       (0x80 + n / 0x40 % 0x40) as byte, (0x80 + n % 0x40) as byte]
  }

  /** The bytes of a string, as a Go string holds them. */
  function Utf8(s: string): (r: seq<byte>)
    ensures |r| >= |s|
    decreases |s|
  {
    if s == [] then [] else EncodeChar(s[0]) + Utf8(s[1..])
  }

  /** The bytes of a concatenation are the concatenation of the bytes. */
  lemma {:induction false} Utf8Append(s: string, t: string)
    ensures Utf8(s + t) == Utf8(s) + Utf8(t)
    decreases |s|
  {
    if s == [] {
      assert s + t == t;
    } else {
      var u := s + t;
      assert u[0] == s[0] && u[1..] == s[1..] + t;
      Utf8Append(s[1..], t);
      var e := EncodeChar(s[0]);
      calc {
        Utf8(u);
        e + Utf8(s[1..] + t);
        e + (Utf8(s[1..]) + Utf8(t));
        (e + Utf8(s[1..])) + Utf8(t);
        Utf8(s) + Utf8(t);
      }
    }
  }

  predicate Ascii(s: string)
  {
    forall i :: 0 <= i < |s| ==> s[i] as int < 0x80
  }

  /** An ASCII string is its own bytes, one per character. */
  lemma {:induction false} AsciiBytes(s: string)
    requires Ascii(s)
    ensures |Utf8(s)| == |s|
    ensures forall i :: 0 <= i < |s| ==> Utf8(s)[i] as int == s[i] as int
    decreases |s|
  {
    if s != [] {
      assert Ascii(s[1..]) by {
        forall i | 0 <= i < |s[1..]| ensures s[1..][i] as int < 0x80 {
          assert s[1..][i] == s[i + 1];
        }
      }
      AsciiBytes(s[1..]);
      forall i | 0 <= i < |s| ensures Utf8(s)[i] as int == s[i] as int {
        if i > 0 {
          assert Utf8(s)[i] == Utf8(s[1..])[i - 1];
          assert s[1..][i - 1] == s[i];
        }
      }
    }
  }

  // ---------------------------------------------------------------------------
  // Callbacks

  /** One edit a callback can make to the descriptor. */
  datatype Action =
    | SetContent(bytes: seq<byte>)             // Content__1
    | SetContentString(text: string)           // Content__2
    | Rewrite(edit: seq<byte> -> seq<byte>)    // Content__0, then Content__1 of the edited bytes
    | SetMode(mode: FileMode)
    | SetSize(size: int)
    | SetName(name: string)
    | NoOp

  /** The edit replaces the content source (or may, for Rewrite). */
  predicate TouchesContent(a: Action)
  {
    a.SetContent? || a.SetContentString? || a.Rewrite?
  }

  /** Content__1 on a descriptor value. */
  function Replace(st: FileState, b: seq<byte>): FileState
  {
    st.(size := |b|, source := Replaced(b))
  }

  /** The descriptor after one edit. A Rewrite whose read fails leaves the
      descriptor alone. */
  function Step(st: FileState, a: Action): (r: FileState)
    ensures !TouchesContent(a) ==> r.source == st.source
    ensures st.source.Replaced? ==> r.source.Replaced?
    ensures a.SetContent? ==> r.source == Replaced(a.bytes) && r.size == |a.bytes|
    ensures !a.SetName? ==> r.name == st.name
    ensures !a.SetMode? ==> r.mode == st.mode
    ensures !TouchesContent(a) && !a.SetSize? ==> r.size == st.size
  {
    match a
    case SetContent(b) => Replace(st, b)
    case SetContentString(s) => Replace(st, Utf8(s))
    case Rewrite(edit) =>
      (match ContentOf(st.source)
       case Ok(b) => Replace(st, edit(b))
       case Err(_) => st)
    case SetMode(m) => st.(mode := m)
    case SetSize(n) => st.(size := n)
    case SetName(n) => st.(name := n)
    case NoOp => st
  }

  /** The descriptor after a script of edits, performed first to last. */
  function RunActions(st: FileState, acts: seq<Action>): FileState
    decreases |acts|
  {
    if acts == [] then st
    else Step(RunActions(st, acts[..|acts| - 1]), acts[|acts| - 1])
  }

  /** Running two scripts one after the other is running their concatenation. */
  lemma {:induction false} RunActionsAppend(st: FileState, xs: seq<Action>, ys: seq<Action>)
    ensures RunActions(st, xs + ys) == RunActions(RunActions(st, xs), ys)
    decreases |ys|
  {
    if ys == [] {
      assert xs + ys == xs;
    } else {
      var zs := xs + ys;
      assert zs[..|zs| - 1] == xs + ys[..|ys| - 1];
      assert zs[|zs| - 1] == ys[|ys| - 1];
      RunActionsAppend(st, xs, ys[..|ys| - 1]);
    }
  }

  /** An edit that stores content, given what reading the original blob
      yields (a Rewrite stores nothing when that read fails). */
  predicate StoresContent(a: Action, read: Result<seq<byte>>)
  {
    a.SetContent? || a.SetContentString? || (a.Rewrite? && read.Ok?)
  }

  /** No edit of the script stores content. */
  predicate NothingStored(acts: seq<Action>, read: Result<seq<byte>>)
  {
    forall i :: 0 <= i < |acts| ==> !StoresContent(acts[i], read)
  }

  /** A descriptor still on its original blob after a script stays
      unchanged exactly when no edit of the script stored content. */
  lemma {:induction false} UnchangedIffNothingStored(st: FileState, acts: seq<Action>)
    requires st.source.Original?
    ensures RunActions(st, acts).source.Original? <==> NothingStored(acts, st.source.read)
    ensures RunActions(st, acts).source.Original? ==> RunActions(st, acts).source == st.source
    decreases |acts|
  {
    if acts != [] {
      var init := acts[..|acts| - 1];
      UnchangedIffNothingStored(st, init);
      var prev := RunActions(st, init);
      if prev.source.Original? {
        assert forall i :: 0 <= i < |init| ==> init[i] == acts[i];
      } else {
        ReplacedStaysReplaced(prev, [acts[|acts| - 1]]);
        assert [acts[|acts| - 1]][..0] == [];
        var i :| 0 <= i < |init| && StoresContent(init[i], st.source.read);
        assert init[i] == acts[i];
      }
    }
  }

  /** The descriptor with the original blob's read result replaced, if it
      is still on the original blob. */
  function WithRead(st: FileState, read: Result<seq<byte>>): FileState
  {
    if st.source.Original? then st.(source := Original(read)) else st
  }

  /** Without a Rewrite, no edit looks at the original blob: what reading
      it would yield makes no difference to the script's result. */
  lemma {:induction false} OnlyRewriteReads(st: FileState, acts: seq<Action>, read: Result<seq<byte>>)
    requires forall i :: 0 <= i < |acts| ==> !acts[i].Rewrite?
    ensures RunActions(WithRead(st, read), acts) == WithRead(RunActions(st, acts), read)
    decreases |acts|
  {
    if acts != [] {
      var init := acts[..|acts| - 1];
      assert forall i :: 0 <= i < |init| ==> init[i] == acts[i];
      OnlyRewriteReads(st, init, read);
    }
  }

  /** Edits of mode, size or name never make a file count as changed. */
  lemma {:induction false} MetadataEditsKeepSource(st: FileState, acts: seq<Action>)
    requires forall i :: 0 <= i < |acts| ==> !TouchesContent(acts[i])
    ensures RunActions(st, acts).source == st.source
    decreases |acts|
  {
    if acts != [] {
      MetadataEditsKeepSource(st, acts[..|acts| - 1]);
    }
  }

  /** Once replaced, the content source stays a buffer. */
  lemma {:induction false} ReplacedStaysReplaced(st: FileState, acts: seq<Action>)
    requires st.source.Replaced?
    ensures RunActions(st, acts).source.Replaced?
    decreases |acts|
  {
    if acts != [] {
      ReplacedStaysReplaced(st, acts[..|acts| - 1]);
    }
  }

  /** Once some edit of a script stores bytes or a string, the script
      leaves a buffer behind. */
  lemma StoredContentStays(st: FileState, acts: seq<Action>, k: nat)
    requires k < |acts| && (acts[k].SetContent? || acts[k].SetContentString?)
    ensures RunActions(st, acts).source.Replaced?
  {
    assert acts == acts[..k + 1] + acts[k + 1..];
    assert acts[..k + 1][..k] == acts[..k];
    RunActionsAppend(st, acts[..k + 1], acts[k + 1..]);
    ReplacedStaysReplaced(RunActions(st, acts[..k + 1]), acts[k + 1..]);
  }

  /** The last content replacement fixes the bytes, and, unless a later
      edit sets the size by hand, the size is their length. */
  lemma LastContentWins(st: FileState, pre: seq<Action>, b: seq<byte>, post: seq<Action>)
    requires forall i :: 0 <= i < |post| ==> !TouchesContent(post[i])
    ensures RunActions(st, pre + [SetContent(b)] + post).source == Replaced(b)
    ensures (forall i :: 0 <= i < |post| ==> !post[i].SetSize?) ==>
      RunActions(st, pre + [SetContent(b)] + post).size == |b|
  {
    var mid := RunActions(st, pre + [SetContent(b)]);
    assert (pre + [SetContent(b)])[..|pre|] == pre;
    assert mid == Replace(RunActions(st, pre), b);
    RunActionsAppend(st, pre + [SetContent(b)], post);
    MetadataEditsKeepSource(mid, post);
    if forall i :: 0 <= i < |post| ==> !post[i].SetSize? {
      MetadataEditsKeepSize(mid, post);
    }
  }

  lemma {:induction false} MetadataEditsKeepSize(st: FileState, acts: seq<Action>)
    requires forall i :: 0 <= i < |acts| ==> !TouchesContent(acts[i]) && !acts[i].SetSize?
    ensures RunActions(st, acts).size == st.size
    decreases |acts|
  {
    if acts != [] {
      MetadataEditsKeepSize(st, acts[..|acts| - 1]);
    }
  }

  /** A later callback sees the content an earlier one left. */
  lemma RewriteSeesEarlierContent(st: FileState, b: seq<byte>, edit: seq<byte> -> seq<byte>)
    ensures RunActions(st, [SetContent(b), Rewrite(edit)]).source == Replaced(edit(b))
    ensures RunActions(st, [SetContent(b), Rewrite(edit)]).size == |edit(b)|
  {
    assert [SetContent(b), Rewrite(edit)][..1] == [SetContent(b)];
    assert [SetContent(b)][..0] == [];
  }

  // ---------------------------------------------------------------------------
  // The descriptor

  class File {
    var name: string
    var mode: FileMode
    var size: int
    var source: Source

    function State(): FileState
      reads this
    {
      FileState(name, mode, size, source)
    }

    /** The descriptor of a tree entry, bound to its original blob. */
    constructor (b: Blob)
      ensures State() == Fresh(b)
      ensures Unchanged()
    {
      name := b.name;
      mode := b.mode;
      size := b.size;
      source := Original(b.read);
    }

    /** Unchanged: a tag check on the content source, nothing more. */
    predicate Unchanged()
      reads this
      ensures Unchanged() ==> source.Original? && ContentOf(source) == source.read
      ensures !Unchanged() ==> ContentOf(source).Ok?
    {
      source.Original?
    }

    /** Content__0: a buffer is returned as stored, never failing; the
        original blob is read, and its failure is passed on. */
    method Content() returns (r: Result<seq<byte>>)
      ensures source.Replaced? ==> r == Ok(source.data)
      ensures source.Original? ==> r == source.read
    {
      match source
      case Replaced(data) => r := Ok(data);
      case Original(read) => r := read;
    }

    /** Content__1: swaps in the buffer and resets the size to its length. */
    method SetContent(b: seq<byte>)
      modifies this
      ensures source == Replaced(b) && size == |b|
      ensures name == old(name) && mode == old(mode)
      ensures !Unchanged()
    {
      size := |b|;
      source := Replaced(b);
    }

    /** Content__2: Content__1 on the bytes of the string. */
    method SetContentString(s: string)
      modifies this
      ensures State() == Replace(old(State()), Utf8(s))
      ensures !Unchanged()
    {
      SetContent(Utf8(s));
    }

    /** One edit of a callback. */
    method Perform(a: Action)
      modifies this
      ensures State() == Step(old(State()), a)
    {
      match a
      case SetContent(b) => SetContent(b);
      case SetContentString(s) => SetContentString(s);
      case Rewrite(edit) =>
        var c := Content();
        if c.Ok? {
          SetContent(edit(c.value));
        }
      case SetMode(m) => mode := m;
      case SetSize(n) => size := n;
      case SetName(n) => name := n;
      case NoOp =>
    }

    /** A whole callback, its edits in order on this one descriptor. */
    method Run(callback: seq<Action>)
      modifies this
      ensures State() == RunActions(old(State()), callback)
    {
      for i := 0 to |callback|
        invariant State() == RunActions(old(State()), callback[..i])
      {
        assert callback[..i + 1][..i] == callback[..i];
        Perform(callback[i]);
      }
      assert callback[..|callback|] == callback;
    }
  }
}
