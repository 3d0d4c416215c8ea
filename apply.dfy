/**
  The per-file apply pipeline (applyer in apply.go): every handler whose
  pattern list matches the file's path runs its callback on one shared
  descriptor, then the descriptor's content source decides whether the
  file is skipped, reported (dry run) or written.

  The filesystem is not touched: the pipeline returns a disposition.
*/
module Apply {
  import opened Segments
  import opened Pattern
  import opened Descriptor
  import opened Classfile

  /** What becomes of one file: nothing, the dry-run line "edit <name>",
      or writing the bytes to the path. */
  datatype Disposition = Skip | Log(name: string) | Write(name: string, bytes: seq<byte>)

  /** The descriptor after every handler, in registration order, whose
      pattern list matches `path`, has run its callback on it. */
  function RunHandlers(st: FileState, hs: seq<Handler>, path: seq<string>): FileState
    decreases |hs|
  {
    if hs == [] then st
    else
      var prev := RunHandlers(st, hs[..|hs| - 1], path);
      var h := hs[|hs| - 1];
      if FirstMatch(h.patterns, path) then RunActions(prev, h.callback) else prev
  }

  /** The edits of the matching handlers' callbacks, in registration order. */
  function MatchedActions(hs: seq<Handler>, path: seq<string>): seq<Action>
    decreases |hs|
  {
    if hs == [] then []
    else
      var h := hs[|hs| - 1];
      MatchedActions(hs[..|hs| - 1], path) + (if FirstMatch(h.patterns, path) then h.callback else [])
  }

  /** The final branch of applyFile on the descriptor it built for `name`. */
  function Decide(st: FileState, name: string, noExec: bool): (r: Disposition)
    ensures r == Skip <==> st.source.Original?
    ensures r.Log? <==> st.source.Replaced? && noExec
    ensures r.Log? ==> r.name == name
    ensures r.Write? ==> r.name == name && ContentOf(st.source) == Ok(r.bytes)
  {
    if st.source.Original? then Skip
    else if noExec then Log(name)
    else Write(name, st.source.data)
  }

  /** What applyFile does with one tree entry. */
  function Applied(hs: seq<Handler>, f: Blob, noExec: bool): Disposition
  {
    Decide(RunHandlers(Fresh(f), hs, Split(f.name)), f.name, noExec)
  }

  class Applyer {
    var upstream: string
    var handlers: seq<Handler>
    var noExec: bool

    /** newApplyer: takes the App's upstream and handler list as they are;
        the dry-run flag is configuration. */
    constructor (app: App, noExec: bool)
      ensures upstream == app.upstream && handlers == app.handlers
      ensures this.noExec == noExec
    {
      upstream := app.upstream;
      handlers := app.handlers;
      this.noExec := noExec;
    }

    /** applyFile. */
    method ApplyFile(f: Blob) returns (d: Disposition)
      ensures d == Applied(handlers, f, noExec)
    {
      var name := f.name;
      var file := new File(f);
      for i := 0 to |handlers|
        invariant file.State() == RunHandlers(Fresh(f), handlers[..i], Split(name))
      {
        assert handlers[..i + 1][..i] == handlers[..i];
        var h := handlers[i];
        var hit := MatchPattern(h.patterns, name);
        if hit {
          file.Run(h.callback);
        }
      }
      assert handlers[..|handlers|] == handlers;
      if file.Unchanged() {
        return Skip;
      }
      if noExec {
        return Log(name);
      }
      return Write(name, file.source.data);
    }

    /** The walk over the tree snapshot: applyFile on every entry, in the
        snapshot's order. */
    method ApplyTree(files: seq<Blob>) returns (ds: seq<Disposition>)
      ensures |ds| == |files|
      ensures forall i :: 0 <= i < |files| ==> ds[i] == Applied(handlers, files[i], noExec)
      ensures noExec ==> forall i :: 0 <= i < |ds| ==> !ds[i].Write?
    {
      ds := [];
      for i := 0 to |files|
        invariant |ds| == i
        invariant forall j :: 0 <= j < i ==> ds[j] == Applied(handlers, files[j], noExec)
      {
        var d := ApplyFile(files[i]);
        ds := ds + [d];
      }
    }
  }

  // ---------------------------------------------------------------------------
  // Properties of the pipeline

  /** Running the handlers is running exactly the matching handlers'
      callbacks, in registration order, each on the state the previous
      ones left. */
  lemma {:induction false} HandlersRunMatchedCallbacks(st: FileState, hs: seq<Handler>, path: seq<string>)
    ensures RunHandlers(st, hs, path) == RunActions(st, MatchedActions(hs, path))
    decreases |hs|
  {
    if hs != [] {
      var init, h := hs[..|hs| - 1], hs[|hs| - 1];
      HandlersRunMatchedCallbacks(st, init, path);
      if FirstMatch(h.patterns, path) {
        RunActionsAppend(st, MatchedActions(init, path), h.callback);
      } else {
        assert MatchedActions(hs, path) == MatchedActions(init, path) + [];
        assert MatchedActions(init, path) + [] == MatchedActions(init, path);
      }
    }
  }

  /** A handler whose patterns do not match contributes nothing. */
  lemma {:induction false} MatchedActionsOnlyFromMatches(hs: seq<Handler>, path: seq<string>)
    requires forall i :: 0 <= i < |hs| ==> !FirstMatch(hs[i].patterns, path)
    ensures MatchedActions(hs, path) == []
    decreases |hs|
  {
    if hs != [] {
      MatchedActionsOnlyFromMatches(hs[..|hs| - 1], path);
    }
  }

  /** A file no matching callback gives new content is skipped: no log and
      no write, whatever edits of mode, size or name were made. */
  lemma UntouchedFileIsSkipped(hs: seq<Handler>, f: Blob, noExec: bool)
    requires forall a :: a in MatchedActions(hs, Split(f.name)) ==> !TouchesContent(a)
    ensures Applied(hs, f, noExec) == Skip
  {
    var acts := MatchedActions(hs, Split(f.name));
    HandlersRunMatchedCallbacks(Fresh(f), hs, Split(f.name));
    MetadataEditsKeepSource(Fresh(f), acts);
  }

  /** A file is skipped exactly when none of its matched edits stores
      content, a Rewrite counting only when the blob can be read. */
  lemma SkippedIffNothingStored(hs: seq<Handler>, f: Blob, noExec: bool)
    ensures Applied(hs, f, noExec) == Skip <==> NothingStored(MatchedActions(hs, Split(f.name)), f.read)
  {
    HandlersRunMatchedCallbacks(Fresh(f), hs, Split(f.name));
    UnchangedIffNothingStored(Fresh(f), MatchedActions(hs, Split(f.name)));
  }

  /** Content is read lazily: unless a matched callback reads it, the
      outcome for a file does not depend on what reading its blob yields. */
  lemma NoReadNeeded(hs: seq<Handler>, f: Blob, noExec: bool, other: Result<seq<byte>>)
    requires forall i :: 0 <= i < |MatchedActions(hs, Split(f.name))| ==>
      !MatchedActions(hs, Split(f.name))[i].Rewrite?
    ensures Applied(hs, f, noExec) == Applied(hs, f.(read := other), noExec)
  {
    var g := f.(read := other);
    var acts := MatchedActions(hs, Split(f.name));
    HandlersRunMatchedCallbacks(Fresh(f), hs, Split(f.name));
    HandlersRunMatchedCallbacks(Fresh(g), hs, Split(f.name));
    assert Fresh(g) == WithRead(Fresh(f), other);
    OnlyRewriteReads(Fresh(f), acts, other);
  }

  /** A file some matching callback gives a buffer is never skipped: a dry
      run reports it by its tree path, a real run writes to that path. */
  lemma ReplacedFileIsReported(hs: seq<Handler>, f: Blob, noExec: bool, k: nat)
    requires k < |MatchedActions(hs, Split(f.name))|
    requires MatchedActions(hs, Split(f.name))[k].SetContent? ||
             MatchedActions(hs, Split(f.name))[k].SetContentString?
    ensures noExec ==> Applied(hs, f, noExec) == Log(f.name)
    ensures !noExec ==> Applied(hs, f, noExec).Write? && Applied(hs, f, noExec).name == f.name
  {
    HandlersRunMatchedCallbacks(Fresh(f), hs, Split(f.name));
    StoredContentStays(Fresh(f), MatchedActions(hs, Split(f.name)), k);
  }

  /** A dry run writes nothing and reports by the tree path; a real run
      never only reports. */
  lemma DryRunNeverWrites(hs: seq<Handler>, f: Blob)
    ensures Applied(hs, f, true) == Skip || Applied(hs, f, true) == Log(f.name)
    ensures Applied(hs, f, false) == Skip || (Applied(hs, f, false).Write? && Applied(hs, f, false).name == f.name)
    ensures Applied(hs, f, true) == Log(f.name) <==> Applied(hs, f, false).Write?
  {
  }

  /** A real run writes exactly the bytes of the last content replacement. */
  lemma WrittenBytesAreLastContent(hs: seq<Handler>, f: Blob, pre: seq<Action>, b: seq<byte>, post: seq<Action>)
    requires MatchedActions(hs, Split(f.name)) == pre + [SetContent(b)] + post
    requires forall i :: 0 <= i < |post| ==> !TouchesContent(post[i])
    ensures Applied(hs, f, false) == Write(f.name, b)
  {
    HandlersRunMatchedCallbacks(Fresh(f), hs, Split(f.name));
    LastContentWins(Fresh(f), pre, b, post);
  }
}
