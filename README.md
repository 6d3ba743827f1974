# Auto-Agent-Hub: the generate → audit → fix loop, in Dafny

Auto-Agent-Hub turns a one-line idea into a project on disk by running a
five-node graph. `get_architecture` asks a planning service for an
architecture. `generate_code` asks a generation service for code. It parses
the reply into (path, content) pairs and writes them into a base directory.
`check_errors` walks `my_project`, sends every eligible source file to an
audit service, and records the files whose decoded defect list is
non-empty. A router sends the run to `testing` (and then to the end) when
nothing was recorded, and to `handle_errors` otherwise. `handle_errors`
asks a fix service for a corrected text for each recorded file, cleans
markdown fences out of the reply, and writes it over the file when it
passes a size check. It returns to `check_errors`, and after five rounds it
stops changing anything.

The model keeps that structure:

- `State` is the run state, a value that every node takes and returns.
- `FileTree.FileStore` is the working directory. It is a class whose `files`
  map (path to text) and `dirs` set (every directory, by path) the writer and
  the fix loop update in place. Creating a directory where a file is, or
  writing a file where a directory is, raises.
- `PyStr` gives the Python string operations the nodes rely on: `strip`,
  `find`, slicing with a negative stop, `split`/`join`, `Path.suffix`,
  `lower`.
- `Parser` is `parse_files_from_response`. Pattern 1 is modelled exactly.
  Patterns 2 and 3 are matcher parameters, with the shape their path group
  guarantees.
- `Writer` is `write_files_to_directory`, as a method on the store and as
  the function `Installed` that specifies it. Paths are followed segment by
  segment, as `os.makedirs` and `open` follow them, and a step that the file
  system refuses raises and stops the writer.
- `Audit` is `check_errors`, as a method (any walk order) and as the
  function `AuditPass`. It includes the payload extraction of the JSON
  reply.
- `Fix` is `handle_errors`: the fence-cleaning loop, the per-file loop over
  the store, and the function `FixPass` that specifies both.
- `FixProps` states what one fix pass does, file by file and field by field.
- `Nodes` and `Routers` are the three simple nodes and `error_check_router`.
- `Graph` is the edge table of `graph_runner.py`, with runs as sequences of
  configurations and lemmas about every run. An exception out of the
  planning call, the generation call or the writer ends the run at the
  extra node `Crashed`.

Every outside service (planning, generation, audit, fix, the JSON decoder,
and the regular-expression engine for patterns 2 and 3) is a function
parameter. A planning, generation, audit or fix call that raises is
`None`.

## Model

| member | source | states |
|---|---|---|
| PyStr.StripFacts | src/utils/nodes.py:47-51 | `strip()` gives a stripped slice of its argument, made only of its characters, and leaves a stripped text alone |
| PyStr.Find | src/utils/nodes.py:208-209 | `find` returns -1 or the first index from `from` on where the needle occurs, and there is no occurrence before it |
| PyStr.PySlice | src/utils/nodes.py:210 | a slice whose stop is the -1 that `find` returns ends one character before the end |
| PyStr.RFind | src/utils/nodes.py:182 | the last index of a character, with none after it, or -1 when it is absent |
| PyStr.Split | src/utils/nodes.py:361 | `split` gives at least one part, and no part holds the separator |
| PyStr.JoinSplit | src/utils/nodes.py:361-372 | joining the split lines with the same separator gives back the text |
| PyStr.SplitJoin | src/utils/nodes.py:361-372 | splitting a join of separator-free parts gives back the parts |
| PyStr.SplitCons | src/utils/nodes.py:361-372 | splitting a separator-free head, a separator and a rest gives the head followed by the rest's parts |
| PyStr.Lower | src/utils/nodes.py:182 | `lower()` keeps the length and lower-cases each character |
| PyStr.IntToString | src/utils/nodes.py:387 | the decimal text of an integer is non-empty and ends in a digit |
| FileTree.Root | src/utils/nodes.py:101 | the first segment of a path holds no "/", and a path without "/" is its own first segment |
| FileTree.UnderIffRoot | src/utils/nodes.py:116 | a path lies inside a one-segment directory exactly when that directory is its first segment |
| FileTree.RelativeTo | src/utils/nodes.py:188 | `relpath` of a path inside `d`, joined back onto `d`, is the path |
| FileTree.RelativeToJoin | src/utils/nodes.py:335 | a joined path lies inside `d`, and its `relpath` is the name it was joined from |
| FileTree.Removed | src/utils/nodes.py:107-108 | `rmtree(d)` keeps exactly the files outside `d`, with their texts |
| FileTree.FileStore.RemoveTree | src/utils/nodes.py:107-108 | the files under `d` and the directory itself are gone, and the store stays valid |
| FileTree.RemovedDirs | src/utils/nodes.py:108 | `rmtree(d)` keeps exactly the directories other than `d` that lie outside it |
| FileTree.NothingUnderMissing | src/utils/nodes.py:107 | in a consistent tree nothing lies inside a directory that does not exist, so `rmtree` is only needed when it exists |
| FileTree.KeyValid | src/utils/nodes.py:119-121 | the path of a place splits back into its names and is canonical |
| FileTree.KeyInjective | src/utils/nodes.py:119-121 | two places with the same path are the same place |
| FileTree.MakeDirsFrom | src/utils/nodes.py:121 | `os.makedirs` never removes a directory |
| FileTree.MakeDirsResolves | src/utils/nodes.py:121 | unless it raises, `os.makedirs` ends at the place the path names, climbing with ".." and staying with "." |
| FileTree.MakeDirsAvoids | src/utils/nodes.py:121 | a top-level name the walk never steps into is not created |
| FileTree.VisitsSnoc | src/utils/nodes.py:121 | a longer walk visits what the shorter one did, or the place its last segment names |
| FileTree.VisitsDeeper | src/utils/nodes.py:121 | walking down names only visits places deeper than the start |
| FileTree.MakeDirsBlocked | src/utils/nodes.py:121 | `os.makedirs` raises when a file holds one of the directories on the way |
| FileTree.MakeDirsClear | src/utils/nodes.py:121 | with no file in the way, `os.makedirs` does not raise, ends at the last name and adds exactly the directories on the way |
| FileTree.FileStore.RemoveAll | src/utils/nodes.py:107-108 | emptying the working directory leaves no file and no directory |
| FileTree.FileStore.MakeDir | src/utils/nodes.py:111 | the directory is added, no file changes, and the store stays consistent |
| FileTree.FileStore.EnterDir | src/utils/nodes.py:121 | one step of `os.makedirs` raises exactly when a file has the directory's name, and otherwise adds the directory |
| FileTree.FileStore.MakeDirs | src/utils/nodes.py:121 | the loop over the segments leaves the directories, the place reached and the raised flag that `MakeDirsFrom` gives |
| FileTree.FileStore.UpOneLevel | src/utils/nodes.py:121 | the place one level up from an existing directory exists too |
| FileTree.FileStore.WriteFile | src/utils/nodes.py:123-124 | the path now holds the text, and every other file is as before |
| Parser.FileTagAt | src/utils/nodes.py:42-45 | a match of pattern 1 ends after its start, has a non-empty path without `>`, and its lazy body holds no fence; `TagBlockMatched` states which texts it matches |
| Parser.BodyAt | src/utils/nodes.py:42-43 | the lazy body of a pattern-1 match stops at the first fence after the header, so it holds no fence, and the match ends after it |
| Parser.FileTagMatches | src/utils/nodes.py:42-45 | every pattern-1 match of `findall` has a non-empty path without `>` and a fence-free body; `LoneBlockFound` states what it finds |
| Parser.TagBlock | src/utils/nodes.py:42 | the text of a tagged block is exactly as long as its pieces and the 14 marker characters |
| Parser.TagBlockMatched | src/utils/nodes.py:42-43 | pattern 1 matches a well-formed `<file:p>` block at its start, whatever follows, capturing `p` and the content and ending after the closing fence |
| Parser.LoneBlockFound | src/utils/nodes.py:42-43 | `findall` of pattern 1 on a lone well-formed block gives exactly its path and content |
| Parser.PiecesMatched | src/utils/nodes.py:42-43 | a text that starts with the pieces of a well-formed block is matched at 0 with that path and content |
| Parser.BodyMatched | src/utils/nodes.py:42-43 | once the header is read, the lazy body captures a well-formed content up to its closing fence |
| Parser.HeadOfPieces | src/utils/nodes.py:42 | the header part of pattern 1 (`<file:`, path, `>`, blanks, fence, language word, newline) reads a well-formed head and starts the body after it |
| Parser.FenceOnlyAtEnd | src/utils/nodes.py:42 | in a well-formed content followed by a fence, the first fence from its start is that closing one |
| Parser.BlockPieces | src/utils/nodes.py:42 | a tagged block, followed by anything, holds each of its pieces at its place |
| Parser.NoTagNoMatch | src/utils/nodes.py:42-45 | without a `<file:` marker, pattern 1 finds nothing |
| Parser.BeforeFirstFence | src/utils/nodes.py:42-45 | the lazy body up to the first fence holds no fence |
| Parser.Trimmed | src/utils/nodes.py:46-52 | one entry per match, in match order, with both groups stripped |
| Parser.ParseEmptyIff | src/utils/nodes.py:42-87 | the parser returns nothing exactly when all three patterns match nothing |
| Parser.LaterPatternsNotConsulted | src/utils/nodes.py:42-76 | the first pattern that matches decides the result, and later matchers are never consulted |
| Parser.StripKeepsNoFence | src/utils/nodes.py:50 | stripping a fence-free text cannot create a fence |
| Parser.TrimmedPairShape | src/utils/nodes.py:46-52 | a trimmed pair is stripped, keeps a fence-free body fence-free, and leaves a pattern-2/3 path token unchanged |
| Parser.ParsedFileShapes | src/utils/nodes.py:24-87 | every parsed file has stripped fields and fence-free content, a `>`-free path from pattern 1, and a path token from patterns 2 and 3 |
| Writer.DetectBase | src/utils/nodes.py:99-103 | the base is `my_project`, or an unreserved first segment of the first path that contains that path |
| Writer.Target | src/utils/nodes.py:114-119 | each entry lands inside the base: as named when it already starts with `<base>/`, joined under it otherwise |
| Writer.FirstFileNotDoubleNested | src/utils/nodes.py:99-119 | with a detected root, the first file is written at exactly the path it names |
| Writer.Relative | src/utils/nodes.py:114-117 | a path under `<base>/` loses exactly that prefix, and any other path is kept as it is |
| Writer.FileSegments | src/utils/nodes.py:119-121 | `file_path` splits into at least one segment, none holding "/" |
| Writer.AfterEntry | src/utils/nodes.py:114-124 | a turn that raises writes no file, and no turn removes a directory |
| Writer.EntryLands | src/utils/nodes.py:114-124 | a turn that does not raise writes the entry's content where its path lands, and changes no other file |
| Writer.AfterEntriesElsewhere | src/utils/nodes.py:113-124 | a path no entry lands on keeps its file, or its absence, whether or not the loop raises |
| Writer.AfterEntriesKeys | src/utils/nodes.py:113-124 | when the loop runs to the end, a path holds a file exactly when it held one before or some entry lands on it |
| Writer.AfterEntriesLastWins | src/utils/nodes.py:113-124 | when the loop runs to the end, a path several entries land on holds the content of the last one |
| Writer.PreparedFresh | src/utils/nodes.py:107-111 | unless it raises, the base becomes an empty existing directory and every file outside it is kept |
| Writer.InstalledInside | src/utils/nodes.py:107-124 | inside the base, a file exists afterwards exactly when some entry lands on it: the old contents are gone |
| Writer.InstalledOutside | src/utils/nodes.py:107-124 | outside the base, a path no entry lands on keeps its file or its absence |
| Writer.InstalledLastWins | src/utils/nodes.py:107-124 | each path entries land on ends up with the last such entry's content |
| Writer.CanonicalIsRelative | src/utils/nodes.py:119 | a canonical relative path is not absolute, so `os.path.join` keeps the base |
| Writer.CanonicalLanding | src/utils/nodes.py:114-121 | a canonical relative path lands at its `file_path` |
| Writer.CanonicalBlocked | src/utils/nodes.py:121 | a canonical entry raises when a file holds one of the directories on its way |
| Writer.CanonicalEntry | src/utils/nodes.py:114-124 | a canonical entry raises exactly when a file is in the way of a directory or a directory has the file's name, and otherwise writes its content at `file_path` |
| Writer.CanonicalNeverReaches | src/utils/nodes.py:119-121 | a canonical relative path under another base never steps into a given top-level name |
| Writer.EntryAvoids | src/utils/nodes.py:114-124 | an entry that never steps into a missing top-level name does not create it |
| Writer.AfterEntriesAvoid | src/utils/nodes.py:113-124 | a loop whose entries never step into a missing top-level name does not create it |
| Writer.PreparedAvoids | src/utils/nodes.py:107-111 | preparing another base does not create a missing top-level name |
| Writer.InstalledAvoids | src/utils/nodes.py:90-124 | a call whose base is another name and whose paths never step into a missing top-level name leaves it missing |
| Writer.ClimbBase | src/utils/nodes.py:99-119 | for `out/../top/name` the base is `out` and the path is kept as named |
| Writer.ClimbSplit | src/utils/nodes.py:119-121 | `out/../top/name` splits into its four segments |
| Writer.ClimbWalk | src/utils/nodes.py:121 | `os.makedirs` along `out/../top` from a tree holding `out` creates `top` and stops there |
| Writer.ClimbReaches | src/utils/nodes.py:119-121 | `out/../top/name` steps into `top` |
| Writer.ClimbEntry | src/utils/nodes.py:119-124 | writing `out/../top/name` into a tree holding only `out` creates `top` and writes `top/name` |
| Writer.ClimbOutOfBase | src/utils/nodes.py:90-124 | from an empty directory, a single entry `out/../top/name` creates `top` beside the base and writes `top/name`: a path can leave its base through ".." |
| Writer.PrepareBase | src/utils/nodes.py:107-111 | the method leaves the store and raised flag that `Prepared` gives: "" raises, "." and ".." are emptied and then raise, a file in the way raises, an existing directory is removed and re-created |
| Writer.WriteEntry | src/utils/nodes.py:114-124 | one loop turn leaves the store and raised flag that `AfterEntry` gives |
| Writer.PlaceFile | src/utils/nodes.py:123-124 | `open(path, "w")` raises exactly when the last segment is no name or a directory has that path, and otherwise writes the content there |
| Writer.WriteEntries | src/utils/nodes.py:113-124 | the loop leaves the store and raised flag that `AfterEntries` gives, stopping at the first entry that raises |
| Writer.WriteFilesToDirectory | src/utils/nodes.py:90-128 | nothing changes for an empty list; otherwise the store and raised flag are those `Installed` gives |
| Audit.Suffix | src/utils/nodes.py:182 | `Path.suffix` is empty exactly when the last dot is first or last; otherwise it is a dot-led ending of the name with no other dot |
| Audit.Audited | src/utils/nodes.py:175-188 | every path the walk audits names an existing file under `my_project` |
| Audit.AuditedIff | src/utils/nodes.py:175-188 | a path is audited exactly when `my_project/<path>` exists, lies outside pruned directories and its name passes the filter |
| Audit.Findings | src/utils/nodes.py:216-223 | a reply yields the decoded list, a one-element list for any other value, and nothing for a failed call, a decode error or an empty list |
| Audit.AuditErrors | src/utils/nodes.py:175-226 | the recorded map holds exactly the audited files with non-empty findings, each with its own findings |
| Audit.WalkStep | src/utils/nodes.py:175-226 | auditing one more file keeps the error map equal to the audited files so far with non-empty findings, each with its findings |
| Audit.AuditErrorsUnique | src/utils/nodes.py:225-226 | any map with those keys and values is the recorded map, so the walk order does not matter |
| Audit.CheckErrors | src/utils/nodes.py:154-289 | the loop over the audited files, in any order, returns the state `AuditPass` describes |
| Audit.AuditPassFrame | src/utils/nodes.py:170-173 | a missing project sets only `errors`, to the `_global` entry; otherwise `errors` and `error_history` get the same new map and `code_generated` is set exactly when it is empty, and nothing else changes |
| Audit.SkippedEndingsRedundant | src/utils/nodes.py:179-185 | the list of skipped endings never excludes a name the suffix test would keep |
| Audit.EndingExcluded | src/utils/nodes.py:182-185 | a name with a lower-case, one-dot ending outside the allowed list fails the suffix test |
| Audit.KeptNameEndsInLetter | src/utils/nodes.py:179-185 | every audited file name ends in an ASCII letter |
| Audit.ErrorKeysEndInLetter | src/utils/nodes.py:172 | every key the audit records, `_global` included, ends in an ASCII letter |
| Audit.AuditSeesOnlyProject | src/utils/nodes.py:175-226 | trees that agree inside `my_project` give the same recorded map |
| Audit.JsonFenceRoundTrip | src/utils/nodes.py:207-210 | a stripped, fence-free payload wrapped in a "```json" fence on its own lines is extracted unchanged |
| Audit.JsonPayloadOpened | src/utils/nodes.py:207-210 | a reply that opens with "```json" is cut from index 7 |
| Audit.ClosingFence | src/utils/nodes.py:209 | in a wrapped payload, the first fence after the tag is the closing one |
| Audit.StripSurrounded | src/utils/nodes.py:210 | stripping a stripped text framed by newlines gives back the text |
| Audit.UnclosedFenceDropsLastChar | src/utils/nodes.py:207-210 | with no closing fence, the last character of the reply is dropped before decoding |
| Fix.FenceLineIsTrimmedFence | src/utils/nodes.py:366 | a fence line is one whose stripped text starts with "```" |
| Fix.CleanFixReply | src/utils/nodes.py:360-374 | the cleaning code returns `CleanReply` of the reply |
| Fix.FilterFenceLines | src/utils/nodes.py:361-370 | the line loop with its toggle keeps exactly `KeptLines` of the lines |
| Fix.KeptLinesSubseq | src/utils/nodes.py:365-370 | the kept lines are the reply's lines in their order, some left out |
| Fix.KeptLinesHaveNoFenceLine | src/utils/nodes.py:366-368 | no kept line is a fence line |
| Fix.FenceFreeLinesKept | src/utils/nodes.py:369-370 | every fence-free line survives the cleaning, in order, inside or outside a block |
| Fix.NoToggleKeepsFenceFree | src/utils/nodes.py:365-370 | with no fence line, exactly the fence-free lines are kept |
| Fix.FenceGuardRedundant | src/utils/nodes.py:360-374 | on a reply without "```" the line filter would give the same text, so the guard only saves work |
| Fix.BackupName | src/utils/nodes.py:400 | a backup name ends in a digit |
| Fix.OutcomeOf | src/utils/nodes.py:331-409 | an accepted fix passes the size check against the existing file, and a raised or rejected call concerns an existing file with findings |
| Fix.Outcomes | src/utils/nodes.py:331 | every path with findings gets an outcome |
| Fix.Recorded | src/utils/nodes.py:386-388 | a path with a new entry gets its old history plus that entry, and every other history stays |
| Fix.FixedTreeStep | src/utils/nodes.py:331-409 | processing one more path applies its outcome and leaves that path and its backup as they were before |
| Fix.FixedHistoryStep | src/utils/nodes.py:386-388 | processing one more path appends at most that path's entry |
| Fix.FixFile | src/utils/nodes.py:331-409 | one loop turn applies the path's outcome to the store and reports whether the fix was accepted |
| Fix.FixExisting | src/utils/nodes.py:346-409 | for an existing file with findings, the service's reply or failure is applied as its outcome says, and acceptance is reported |
| Fix.AfterRaise | src/utils/nodes.py:399-406 | after a failed call the store takes the `Raised` outcome and no fix is accepted |
| Fix.AfterReply | src/utils/nodes.py:357-384 | after a reply the store takes the reply's outcome and acceptance is reported exactly when the cleaned reply passes the size check |
| Fix.OutcomeWhenReplied | src/utils/nodes.py:357-384 | a reply for an existing file with findings is accepted exactly when its cleaned text passes the size check, and rejected otherwise |
| Fix.RestoreBackup | src/utils/nodes.py:399-406 | after a failed call the file takes this round's backup text when the backup exists |
| Fix.ApplyReply | src/utils/nodes.py:357-384 | the cleaned reply is written exactly when it passes the size check |
| Fix.FixAll | src/utils/nodes.py:331-409 | the loop over the paths with findings, in any order, leaves the tree and history that `FixPass` describes |
| Fix.HandleErrors | src/utils/nodes.py:303-434 | the method returns the state and leaves the store that `FixPass` describes |
| FixProps.IdlePass | src/utils/nodes.py:305-329 | with no findings, or at the cap, only `errors_fixed` is set, no file changes, and the fix service is not consulted |
| FixProps.FullPass | src/utils/nodes.py:429-432 | a pass past the guards clears `errors`, counts one iteration, adds or removes no file, and changes no other field but the fix history |
| FixProps.FixedFile | src/utils/nodes.py:331-409 | per file: unchanged for an empty list; the backup text after a failed call when the backup exists; the cleaned reply when it passes the size check, the old text otherwise |
| FixProps.OutcomeApplied | src/utils/nodes.py:331-409 | applying a path's outcome leaves its file unchanged for an empty list, restored from the backup after a failed call, or replaced by the cleaned reply exactly when it passes the size check |
| FixProps.UnlistedFileKept | src/utils/nodes.py:331-335 | a file that is not `my_project/<path>` for a path with findings keeps its text |
| FixProps.FileChangeExplained | src/utils/nodes.py:331-409 | a file changes only inside `my_project`, below the cap, for a path with findings, and only by an accepted fix or by its backup |
| FixProps.FixHistoryAfterPass | src/utils/nodes.py:386-388 | a path's history gains the entry "Iteration i: Fixed n errors" exactly when its fix is accepted |
| FixProps.FixHistoryAppendOnly | src/utils/nodes.py:386-388 | every old history is a prefix of the new one, at most one entry shorter |
| FixProps.AcceptedFixRecorded | src/utils/nodes.py:354-388 | a reply whose cleaned text passes the size check is written over the file and recorded in its history |
| FixProps.AsWrittenPassFixesNothing | src/utils/nodes.py:354 | with the call as written, a pass records no fix and, with no backups, changes no file |
| FixProps.AuditedKeysHaveNoBackups | src/utils/nodes.py:226 | no path the audit records is another's backup name, so the fix loop's order does not matter |
| Nodes.GetArchitecture | src/utils/nodes.py:16-19 | the result is `None` exactly when the planning call raises; otherwise the reply for the idea becomes the architecture, and nothing else changes |
| Nodes.GenerateCodeEffect | src/utils/nodes.py:131-149 | a generation call that raises writes nothing and raises; otherwise the tree is what `Installed` makes of the parsed files, and untouched when nothing parses; when anything raises the state is returned unchanged, otherwise only `code_generated` is cleared |
| Nodes.GenerateCode | src/utils/nodes.py:131-149 | the method's state and store are those `GenerateCodeEffect` describes |
| Nodes.Testing | src/utils/nodes.py:295-300 | the final node hands the state back unchanged |
| Routers.ErrorCheckRouter | src/utils/routers.py:3-10 | "testing" exactly when `errors` is empty, "handle_errors" exactly when it is not |
| Routers.RouterReadsOnlyErrors | src/utils/routers.py:7 | states that agree on `errors` are routed alike |
| Graph.RouterTotal | src/graph_runner.py:16-23 | every answer of the router is a key of the conditional edge map |
| Graph.NoEdgeBackToSetup | src/graph_runner.py:13-25 | no edge leads back to planning, and only planning leads to code generation |
| Graph.RoutedAfterAudit | src/graph_runner.py:16-23 | the run goes to `testing` exactly after an audit that recorded nothing, and to `handle_errors` after one that did |
| Graph.FixReturnsToAudit | src/graph_runner.py:24-25 | the fix node always returns to the audit, and only `testing` leads to the end |
| Graph.SetupRunsOnce | src/graph_runner.py:13-15 | in every run, planning is step 0 and never runs again; code generation is step 1 exactly when planning did not raise, and never runs otherwise |
| Graph.EndFollowsCleanAudit | src/graph_runner.py:16-24 | a run ends only right after `testing`, which follows an audit that recorded nothing |
| Graph.StepIteration | src/utils/nodes.py:325-432 | only a fix pass below the cap with findings moves the iteration count, by one |
| Graph.IterationBounded | src/utils/nodes.py:325-432 | along a run the iteration count never decreases and, from a start within the cap, never exceeds it |
| Graph.RunIteration | src/utils/nodes.py:325-432 | one step of a run never lowers the iteration count and keeps it within the cap |
| Graph.AuditStepKeeps | src/utils/nodes.py:154-293 | an audit step leaves the files, directories and iteration count as they were |
| Graph.IdleFixStep | src/utils/nodes.py:305-329 | a fix step with no findings or at the cap returns to the audit with files, errors and count unchanged |
| Graph.CapRoundIdle | src/utils/nodes.py:325-329 | at the cap, an audit that records errors and the fix round after it return to the audit with the same files, errors and count |
| Graph.MissingProjectRound | src/utils/nodes.py:170-173 | with `my_project` missing, the audit sends the run to the fix node and the fix node sends it back, still without it |
| Graph.MissingProjectRunStep | src/graph_runner.py:16-25 | one step from audit or fix without `my_project` goes to audit or fix and leaves it missing |
| Graph.MissingProjectNeverEnds | src/graph_runner.py:16-25 | once an audit finds `my_project` missing, the run alternates between audit and fix and never reaches the end |
| Graph.GenerateElsewhere | src/utils/nodes.py:99-124 | code generation whose files have another base and never step into `my_project` (no `out/../my_project/...`) leaves it missing, whether or not the writer raises |
| Graph.GenerateEffectElsewhere | src/utils/nodes.py:99-124 | the same for the node's effect on the tree: `my_project` is neither a file nor a directory afterwards |
| Graph.CrashOnlyAfterGeneration | src/graph_runner.py:13-15 | a run stops at `Crashed` only at step 1, exactly when planning raised, or at step 2, right after code generation, and nothing follows |
| Graph.WrongRootNeverEnds | src/graph_runner.py:13-25 | a run without `my_project` whose generated files stay away from it never reaches the end: it crashes at generation or alternates between audit and fix |

## Left out

- The planning, generation, audit and fix services, and the prompt texts in `src/utils/prompts.py`: they are parameters, one reply per call. A run takes one set of replies per step.
- Patterns 2 and 3 of the parser are given as matcher parameters, not as a regular-expression engine. What their path group guarantees is stated as `Parser.IsPathPattern`.
- Pattern 1 treats `\w` as ASCII letters, digits and underscore. Python's Unicode `\w` is not modelled.
- `json.loads` is a decoder parameter. A decoded list is kept as a list of its elements shown as text.
- The diagnostic scans after a total parser miss (`src/utils/nodes.py:80-84`) only print, so they are not modelled.
- Console output, the counters and summaries in `check_errors` and `handle_errors`, and the progress comparison with the previous round are not modelled. They affect no state.
- Reading a file that raises, and text encodings, are not modelled. A failed audit call gives no findings, and a failed fix call gives `Raised`.
- The size check `len(fixed) < len(original) * 0.3` is stated on integers as `10 * |clean| >= 3 * |original|`. Floating-point rounding at the boundary is not modelled.
- The walk order of `os.walk` and the iteration order of the error map are left open: the methods pick any remaining path. The results are proved not to depend on that order.
- The file system is the working directory only. A file written outside it (an absolute relative path, which `os.path.join` lets replace the base, or a path whose ".." climbs above the working directory) leaves the model's tree unchanged, and `Landing` gives no place for it. `rmtree(".")` and `rmtree("..")` empty the working directory and then raise; what they remove above it is not modelled.
- The exception types (`FileExistsError`, `NotADirectoryError`, `IsADirectoryError`, `FileNotFoundError`) are collapsed into one `raised` flag. Permissions, symbolic links, name-length limits and a full disk are not modelled.
- An exception out of `get_architecture` or `generate_code` (the model call or the writer) is not caught by the graph runtime, so the run ends there; the model records that as the final node `Crashed`.
- `handle_errors` on a recorded path that is a directory: reading it raises, restoring a backup onto it raises again and is swallowed, so that path leaves the store unchanged; a backup path that is a directory is likewise not restored from. The model states this as behaviour, not as a separate property.
- Fix.HandleErrors: requires that no path with findings is another's backup name for this iteration. `FixProps.AuditedKeysHaveNoBackups` proves that this holds for every map the audit produces.
- Fix.FixAll: same precondition as `Fix.HandleErrors`.
- The LangGraph runtime and its recursion limit are not modelled. `Graph.WrongRootNeverEnds` and `Graph.MissingProjectNeverEnds` speak of runs of any length; the runtime would stop such a run with an error.
- `errors_fixed` is not declared in the state's type. It is a field of `State.AgentHubState`, written only by the fix pass's two early exits.
- `architecture` is kept as an uninterpreted string.
- `PyStr.Lower` lower-cases ASCII letters only. Python also lower-cases other letters, but none of them becomes one of the allowed suffixes, so the suffix test gives the same answer.

## Findings

| source | as written | input that shows it | evidently intended | confidence | as-written member | corrected member |
|---|---|---|---|---|---|---|
| src/utils/nodes.py:354 | `fix_errors_prompt` is called with five arguments, but `src/utils/prompts.py:58` declares four parameters, so every call raises `TypeError`. The handler then restores the backup, if there is one, and no fix is ever written or recorded. | any state with a non-empty error list for an existing file, below the iteration cap | the prompt is built, the fix service is consulted, and an acceptable reply is written and recorded | high (not executed) | FixProps.AsWrittenPassFixesNothing | FixProps.AcceptedFixRecorded |
