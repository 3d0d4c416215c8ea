# gitrans core, modelled in Dafny

gitrans rewrites the files of a git tree snapshot. A script registers
handlers on an application object. Each handler is a list of
gitignore-like path patterns plus a callback. The applyer then visits
every file of the upstream branch's tree. For each file it builds one
mutable descriptor. It runs, in registration order, the callback of every
handler whose pattern list matches the file's path. At the end it either
skips the file, reports it (dry run) or writes its new content.

This project models three parts of that core:

- The pattern engine (`pattern.go`):
  - Parsing: an optional leading `!` marks an exclusion. The string is
    split on `/`. The index of the `**` segment is recorded.
  - Matching one compiled pattern against a split path. Without `**`,
    segments are compared one by one. With `**`, the prefix is anchored
    at the start of the path and the suffix at its end.
  - First-match-wins evaluation of an ordered pattern list.
- The file descriptor and the per-file pipeline (`apply.go`). The content
  source is either the original blob or a buffer a callback stored.
  "Unchanged" means only that the source is still the original blob.
- Handler registration (`classfile.go`).

Modules:

| file | module | models |
|---|---|---|
| `glob.dfy` | `Glob` | the per-segment glob (`filepath.Match`), reduced to `*`, `?` and `\` escapes |
| `segments.dfy` | `Segments` | `strings.Split(s, "/")` and its inverse `Join` |
| `pattern.dfy` | `Pattern` | `pattern.go`, plus a recursive reference semantics for `**` |
| `pattern_cases.dfy` | `PatternCases` | the table of `pattern_test.go`, as lemmas |
| `descriptor.dfy` | `Descriptor` | `File`, its content methods, and callbacks as scripts of edits |
| `classfile.dfy` | `Classfile` | `handler`, `App`, `initApp`, `From`, `OnFile` |
| `apply.dfy` | `Apply` | `applyer`, `newApplyer`, `applyFile`, the walk over the tree |

The main properties proved:

- `Pattern.StructuralIsReference`: for a pattern with at most one `**`,
  the code's slicing test agrees with an independent recursive matcher.
  In that matcher, `**` absorbs any number of whole segments.
- `Pattern.FirstMatchWins`: a list matches exactly when some pattern
  matches and every earlier one did not match at all.
- `Apply.HandlersRunMatchedCallbacks`: running the handlers is running
  exactly the matched callbacks, in order, on one shared descriptor.
- Lemmas on how a file is disposed of: skipped, reported, or written with
  the last content a callback stored.

Where the code is ambiguous or inconsistent, the model follows what the
code does:

- With several `**` segments, `parsePattern` keeps overwriting the index,
  so the LAST `**` is honoured, not the first. The earlier ones become
  ordinary glob segments. `PatternCases.LastWildcardHonoured` states this.
- In `classfile.go`, `handler.pattern` is a single string. Yet
  `applyFile` passes it to `matchPattern`, which takes a compiled pattern
  list. The model stores the compiled list in the handler. `OnFile` takes
  a list of pattern strings, so a single pattern is a one-element list.
- `newApplyer` reads `p.noExec`, but `App` has no such field. The model
  passes the dry-run flag to the `Applyer` constructor as configuration.

## Model

| member | source | states |
|---|---|---|
| Glob.StarMatchesAnySegment | pattern.go:63 | the segment glob `*` matches a path segment exactly when the segment holds no separator |
| Glob.LiteralMatchesItself | pattern.go:63 | a pattern without glob metacharacters is well formed and matches exactly the identical segment |
| Glob.Match | pattern.go:63 | the glob gives an error exactly for a malformed pattern (matchParts reads it, through SegmentMatches, as no match); a pattern without `/` only accepts names without `/` |
| Glob.MatchStaysInSegment | pattern.go:63 | no glob construct consumes a separator the pattern does not itself hold |
| Glob.TrailingEscapeIsBad | pattern.go:63 | any well-formed pattern followed by a lone `\` is reported as malformed, which matchParts reads as no match |
| Segments.Split | pattern.go:44 | splitting yields at least one segment, and no segment contains the separator |
| Segments.JoinSplit | pattern.go:44 | joining the split segments with `/` gives the original string back |
| Segments.SplitJoin | pattern.go:93 | splitting a join of separator-free segments gives the segments back |
| Pattern.LastIndexOf | pattern.go:45-49 | the result is -1 exactly when the segment is absent; otherwise the segment sits there and appears at no later index |
| Pattern.ParsePattern | pattern.go:34-51 | the loop computes the compiled pattern: the exclusion flag, the split segments, and the index of the last `**` |
| Pattern.ParseRoundTrip | pattern.go:39-44 | the exclusion flag is set exactly for a leading `!`, and that prefix plus the joined segments reproduce the pattern string |
| Pattern.ParseAll | pattern.go:53-58 | the compiled list has the input's length, and element i is the compiled form of pattern i |
| Pattern.ParsePatterns | pattern.go:53-58 | filling a preallocated array element by element yields that compiled list |
| Pattern.MatchParts | pattern.go:61-68 | the result is true exactly when every pattern segment glob-matches the path segment at the same index, with no error |
| Pattern.SuffixStart | pattern.go:78-82 | once the length guard passes, the suffix slice starts at or after the prefix and holds as many segments as the pattern after `**` |
| Pattern.Match | pattern.go:70-90 | the result is Exclude exactly on a structural match of an exclusion, Matched exactly on one of an inclusion, NotMatched otherwise |
| Pattern.StructuralIsReference | pattern.go:70-85 | with at most one `**`, the prefix/suffix slicing test holds exactly when the recursive reference matcher accepts |
| Pattern.MatchAgreesWithReference | pattern.go:70-90 | all three outcomes of Match, characterised by the reference matcher and the exclusion flag |
| Pattern.ParseHonoursWildcard | pattern.go:45-49 | a parsed pattern whose segments hold at most one `**` records exactly that one |
| Pattern.MatchPattern | pattern.go:92-103 | the loop computes first-match-wins over the list on the split name |
| Pattern.FirstMatchWins | pattern.go:94-102 | the list matches exactly when some pattern matches and every earlier pattern neither matches nor excludes |
| Pattern.FirstMatchAppend | pattern.go:94-101 | a decision by earlier patterns stands whatever follows; a prefix list that decides nothing defers to the rest |
| PatternCases.StarStarMatchesAll | pattern_test.go:16 | `**` matches "a/b/c" |
| PatternCases.SuffixAfterStarStar | pattern_test.go:17 | `b` fails, then `**/c` matches "a/b/c" |
| PatternCases.StarsMatchOneSegmentEach | pattern_test.go:18 | `*/*/c` matches "a/b/c" |
| PatternCases.BracketingSegmentsMustMatch | pattern_test.go:19 | neither `b/**` nor `**/b` matches "a/b/c" |
| PatternCases.ExclusionComesFirst | pattern_test.go:20 | the exclusion `!*/*/c` decides before `**` is tried, so "a/b/c" does not match |
| PatternCases.NoPatternMatches | pattern_test.go:21 | neither `a` nor `c` matches the three-segment "a/b/c" |
| PatternCases.LastWildcardHonoured | pattern.go:45-49 | in `**/a/**` the last `**` is recorded and the first one matches exactly one segment |
| Descriptor.EncodeChar | apply.go:62-64 | a character takes one, two, three or four bytes by the UTF-8 code-point ranges; a single byte is the character itself; a lead byte carries the length and every continuation byte lies in 0x80..0xBF |
| Descriptor.Utf8Append | apply.go:62-64 | the bytes of a concatenation are the concatenation of the bytes |
| Descriptor.Utf8 | apply.go:62-64 | a string's bytes are at least as many as its characters |
| Descriptor.AsciiBytes | apply.go:62-64 | an ASCII string is its own bytes, one per character |
| Descriptor.Step | apply.go:151 | one callback edit: anything but a content edit keeps the source, a stored buffer stays a buffer, SetContent fixes source and size, and name, mode and size change only by their own edits |
| Descriptor.RunActionsAppend | apply.go:149-153 | running two callbacks one after the other on the same descriptor is running their concatenation |
| Descriptor.MetadataEditsKeepSource | apply.go:66-70 | edits of mode, size or name leave the content source, hence Unchanged, as they found it |
| Descriptor.OnlyRewriteReads | apply.go:41-53 | no edit but a Rewrite looks at the original blob: changing what reading it yields changes nothing else in a script's result |
| Descriptor.UnchangedIffNothingStored | apply.go:56-70 | a descriptor on its original blob stays unchanged after a script exactly when no edit stored content, and then it still reads the same blob |
| Descriptor.StoredContentStays | apply.go:56-59 | once any edit of a script stores bytes or a string, the script leaves a buffer behind |
| Descriptor.ReplacedStaysReplaced | apply.go:56-59 | once a buffer is stored, no later edit brings back the original blob |
| Descriptor.LastContentWins | apply.go:56-59 | the last stored buffer is the content, and without a later manual size edit the size is its length |
| Descriptor.MetadataEditsKeepSize | apply.go:56-57 | edits that neither store content nor set the size leave the size alone |
| Descriptor.RewriteSeesEarlierContent | apply.go:41-44 | a read after a stored buffer sees that buffer, so an edit of it is what is stored next |
| Descriptor.File.constructor | apply.go:142-148 | the descriptor carries the tree entry's name, mode, size and original blob, and is Unchanged |
| Descriptor.File.Unchanged | apply.go:66-70 | true only on the original blob, whose read result it then still yields; after a change, reading the content never fails |
| Descriptor.File.Content | apply.go:41-53 | a stored buffer is returned without failing; the original blob yields its read result, failure included |
| Descriptor.File.SetContent | apply.go:56-59 | stores the buffer, sets the size to its length, keeps name and mode, and makes the file changed |
| Descriptor.File.SetContentString | apply.go:62-64 | is SetContent on the string's bytes |
| Descriptor.File.Perform | apply.go:151 | the descriptor after one edit of a callback is the specified step |
| Descriptor.File.Run | apply.go:151 | the descriptor after a whole callback is its edits applied in order |
| Classfile.App.constructor | classfile.go:11-14 | the zero App: no handlers and no upstream |
| Classfile.App.InitApp | classfile.go:22-25 | sets the upstream to "main", keeps the handlers and returns the same App |
| Classfile.App.From | classfile.go:28-30 | sets the upstream branch and keeps the handlers |
| Classfile.App.OnFile | classfile.go:33-38 | appends exactly one handler after all earlier ones, which stay as they were, and leaves the upstream alone |
| Apply.Decide | apply.go:154-161 | skip exactly on the original blob; log exactly for a changed file in a dry run, under the tree path; otherwise write, under the tree path, the bytes a read of the descriptor yields |
| Apply.Applyer.constructor | apply.go:133-139 | the applyer takes the App's upstream and handler list as they are |
| Apply.Applyer.ApplyFile | apply.go:141-162 | the disposition is that of the descriptor after every matching handler's callback ran, in registration order |
| Apply.Applyer.ApplyTree | apply.go:177 | one disposition per tree entry, in order; a dry run writes nothing |
| Apply.HandlersRunMatchedCallbacks | apply.go:149-153 | running the handlers equals running the concatenated callbacks of exactly the matching handlers |
| Apply.MatchedActionsOnlyFromMatches | apply.go:150 | when no handler's patterns match, no callback runs |
| Apply.UntouchedFileIsSkipped | apply.go:154-156 | a file whose matched callbacks make no content edit is skipped, whatever metadata they edit |
| Apply.SkippedIffNothingStored | apply.go:154-156 | a file is skipped exactly when none of its matched edits stores content, a Rewrite storing only when the blob can be read |
| Apply.NoReadNeeded | apply.go:41-53 | content is lazy: unless a matched callback reads the content, the file's outcome does not depend on what reading its blob would yield |
| Apply.ReplacedFileIsReported | apply.go:154-161 | a file some matched callback stores content into is logged in a dry run and written otherwise, under its tree path |
| Apply.DryRunNeverWrites | apply.go:154-161 | a dry run only skips or logs; a real run only skips or writes; a file is logged in one exactly when it is written in the other |
| Apply.WrittenBytesAreLastContent | apply.go:161 | a real run writes exactly the bytes of the last content replacement |

## Left out

- Character classes (`[...]`) of `filepath.Match` are not modelled. The glob reads `[` as an ordinary character, and the literal-pattern lemmas exclude it.
- The glob works on characters. Go's `filepath.Match` works on the bytes of its strings: its `*` loop and its literal comparison step over single bytes, and only `?` and character classes decode whole runes. Literals still behave as whole characters on valid UTF-8. So for names with multi-byte characters, Go can accept a few patterns the model rejects, such as `*??` against a single three-byte character.
- Go's `filepath.Match` also checks the rest of a malformed pattern after a mismatch. The model reports an error only from `WellFormed`, which covers the trailing lone `\`.
- `chdirToGitRoot`, `run` and `applyTrans` are not modelled. They are filesystem and repository I/O through go-git. `ApplyTree` stands for the `tree.Files().ForEach(p.applyFile)` walk over an already fetched snapshot of entries.
- `writeFile` is not modelled. The model returns a `Write` disposition with the bytes; creating and copying the file, and its errors, are I/O.
- Apply.Applyer.ApplyTree: visits every entry. It does not model `ForEach` stopping at the first write error, since writes are not modelled.
- Streaming through `io.ReadAll` and `Close` is not modelled. Reading an original blob is a stored `Result`: its bytes, or the error the opener or the read would give.
- Apply.Applyer.ApplyFile: the dry-run log line goes through `log.Println`. The model returns `Log(name)` and omits the timestamp prefix and the output stream.
- Descriptor.File.SetContentString: the byte slice shares memory with the string (`unsafe`). The model copies values, so aliasing is not represented.
- Descriptor.File.SetContent / Descriptor.File.Content: `Content__1` stores the caller's slice itself, and `Content__0` hands that same slice back. If a callback mutates the slice in place after storing it, or mutates the slice it read, `writeFile` writes the mutated bytes. The model stores and returns values, so in-place mutation after storing is not represented. `Descriptor.LastContentWins` and `Apply.WrittenBytesAreLastContent` hold for callbacks that do not mutate a stored buffer.
- When the original blob is read is not represented: its read result is a stored value. `Apply.NoReadNeeded` states the lazy-read property as independence from that value instead.
- Callbacks are arbitrary Go functions. The model reduces them to scripts of descriptor edits: set bytes, set a string, rewrite the current content by a function, set mode, size or name. Panics and other side effects of a callback are not modelled.
- Descriptor.Step: a `Rewrite` whose read fails leaves the descriptor alone. That is one choice a real callback could make; others could abort or log.
- `Size` is an `int64` in the source and an unbounded `int` here. The lengths stored into it always fit.
- `XGot_App_Main` and the `iAppProto` interface are not modelled. They are the generated entry point that runs the script and then the applyer.
