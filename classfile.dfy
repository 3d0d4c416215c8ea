/**
  Handler registration (classfile.go): the application object that a
  script configures before the pipeline runs.
*/
module Classfile {
  import opened Pattern
  import opened Descriptor

  /** A registered handler: its compiled pattern list and its callback. */
  datatype Handler = Handler(patterns: seq<Pattern>, callback: seq<Action>)

  /** The upstream branch initApp selects. */
  const DefaultUpstream: string := "main"

  class App {
    var handlers: seq<Handler>
    var upstream: string

    /** The zero value of App: no handlers, no upstream. */
    constructor ()
      ensures handlers == [] && upstream == ""
    {
      handlers := [];
      upstream := "";
    }

    /** initApp: selects the default upstream and returns the same App. */
    method InitApp() returns (r: App)
      modifies this
      ensures r == this
      ensures upstream == DefaultUpstream && handlers == old(handlers)
    {
      upstream := DefaultUpstream;
      r := this;
    }

    /** From: selects the upstream branch, leaving the handlers alone. */
    method From(upstreamBranch: string)
      modifies this
      ensures upstream == upstreamBranch && handlers == old(handlers)
    {
      upstream := upstreamBranch;
    }

    /** OnFile: appends one handler, compiled from its pattern strings,
        after all earlier ones. */
    method OnFile(patterns: seq<string>, callback: seq<Action>)
      modifies this
      ensures handlers == old(handlers) + [Handler(ParseAll(patterns), callback)]
      ensures |handlers| == |old(handlers)| + 1
      ensures forall i :: 0 <= i < |old(handlers)| ==> handlers[i] == old(handlers)[i]
      ensures upstream == old(upstream)
    {
      var compiled := ParsePatterns(patterns);
      handlers := handlers + [Handler(compiled, callback)];
    }
  }
}
