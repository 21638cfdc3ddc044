# A verified model of tectd's core logic

tectd keeps workspaces for coding agents: programs, setups, slices, pipelines and durable knowledge,
behind a host process that speaks newline-framed JSON. This project models the parts of it that are
algorithms or protocols rather than plumbing, and proves what they are for.

`dafny verify dfyconfig.toml` checks everything (Dafny 4.11).

| file | what it holds |
|---|---|
| `Digraph.dfy` | the one definition of "acyclic" and of a topological order |
| `SliceGraph.dfy` | the depth-first graph check of slice candidates |
| `Followups.dfy` | Kahn's algorithm and the acceptance of follow-up proposals |
| `Calendar.dfy`, `Rfc3339.dfy` | day numbers and the timestamp parser |
| `JsonFragment.dfy`, `FragmentWalk.dfy` | byte windows over a read, and whole walks over them |
| `FrameReading.dfy` | the newline-framed reader |
| `Originals.dfy`, `Setups.dfy`, `SetupProtocol.dfy`, `SetupRuns.dfy` | setups, their messages, and the steps of the publish-then-commit protocol over every run |
| `SetupRetry.dfy` | interruption and retry of an application, over every run |
| `SetupCalls.dfy`, `SetupService.dfy` | what each call means for its caller, and the service that makes the calls |
| `Programs.dfy`, `ProgramRuns.dfy`, `ProgramCalls.dfy`, `ProgramService.dfy` | programs, every interleaving of calls on them, and the service |
| `QueryCache.dfy`, `CacheKey.dfy`, `QueryEmbedding.dfy` | the query-embedding cache, its keys, and the two joined |
| `SetupPath.dfy`, `CollectionCursor.dfy`, `UuidText.dfy`, `Splitting.dfy` | path grants, cursors, UUID text |
| `ReceiptDiff.dfy` | receipt differences and canonical receipt material |
| `BindingPins.dfy` | changeset validation and the binding-pin resolution between its two forms |
| `SearchJobs.dfy`, `MaintenanceTasks.dfy` | the two worker loops |
| `Wrappers.dfy`, `Text.dfy`, `Bytes.dfy`, `Uuids.dfy`, `Collections.dfy` | shared vocabulary |

## How the source is modelled

* Code that updates things in place is imperative here: the depth-first search, the frame reader, the
  cache, the embedding lookup and the two services are classes; counting, bisection, validation and
  worker loops are methods with loop invariants. Each is tied by its `ensures` to a function or
  predicate about which the lemmas speak. Pure code is functions.
* A check keeps the wording and the named constants of the code; what it accepts is stated apart from
  it, over fields, positions and literal numbers, and a lemma whose name ends in `Meaning` or `Exactly`
  proves that the two agree.
* A service carries the ghost history of the steps it has made, and its state is always that of the
  run so far; what is proved of every run is therefore proved of it.
* A port is a parameter. SHA-256 is an arbitrary function; where two contents must differ in digest,
  only the contents that occur in the run at hand are required not to collide. The encoded size of a
  response, the output guard, the clock, the store's answers and file faults are parameters too.
* A transaction is a copy that is written back at the end or not at all. The application of a setup is
  split into publication and commit because the file is outside the transaction; everything the row
  lock does not exclude may happen in between, including edits of the file by others.
* 64-bit revisions stop at their maximum with the error the code returns; 32-bit counters that are
  incremented without a check wrap.

## What turned out false, and exactly when

* **Timestamp digits.** The digit fold subtracts `'0'` from each byte before it tests whether the byte
  is a digit. A byte below `'0'` makes an unsigned subtraction go below zero, which panics where
  overflow checks are on. `UnderflowExactly` states for every input when that happens, and
  `UnderflowHappens` gives one. The value returned without overflow checks is unaffected.
* **Maintenance counters.** The claims of a successful run equal its outcome counters net of the
  exhaustions that claims reported exactly when all exhaustions together, reported and by the run's
  own tasks, stay below 2^32 (`ProcessTasks`), which is exactly when no increment of the exhaustion
  counter wraps (`BalancedUnlessWrapped`). `CounterWraps` shows a run in which one does. Only the
  wrapping build is modelled: where overflow checks are on, the increment named by `Wraps` panics.
* **Cache keys.** That equal keys mean equal parts is false of models in general: `ModelsCollide`
  gives two pairs, one by a colon within a field and one by the number of dimensions. Exactly: a key
  determines the name, the revision and the recipe of a model if and only if none of them contains a
  colon (`KeyIdentifiesExactly`); dimensions are never part of a key. The search path admits only the
  pinned model, which has no colon, so it never meets the failing cases.

## Model

| member | source | states |
|---|---|---|
| `SliceGraph.ValidateSliceGraph` | crates/domain/src/native_planning_validation.rs:101-138 | accepts exactly when ids are distinct and non-nil, revisions are at least 1, every dependency is present and no dependency walk returns to its start; an accepted graph has a topological order |
| `SliceGraph.Traversal.Visit` | crates/domain/src/native_planning_validation.rs:109-131 | success restores the path, finishes the id and keeps finished ids closed under dependencies in reverse finishing order; failure means an unknown id, a missing dependency or a cycle; terminates on ids not yet entered |
| `SliceGraph.PathReentered` | crates/domain/src/native_planning_validation.rs:118-120 | meeting an id that is on the current path closes a cycle |
| `SliceGraph.ByIdSize` | crates/domain/src/native_planning_validation.rs:102-108 | the index has as many entries as there are nodes exactly when ids are distinct |
| `SliceGraph.FinishedIsOrder` | crates/domain/src/native_planning_validation.rs:128-137 | finishing every id makes the finishing order a topological order and all dependencies present |
| `Digraph.OrderedIsAcyclic` | crates/domain/src/native_planning_validation.rs:101-138 | a graph with a topological order has no closed walk |
| `Digraph.NoSourceIsCyclic` | crates/domain/src/pipeline_followups.rs:318-331 | a non-empty set in which every node has a predecessor contains a closed walk |
| `Followups.HasCycle` | crates/domain/src/pipeline_followups.rs:303-332 | true exactly when the listed edges, repeats allowed, contain a directed cycle; otherwise a topological order exists |
| `Followups.ReleaseEdge` | crates/domain/src/pipeline_followups.rs:320-329 | lowering a counter never goes below zero, and exactly the nodes with no pending edge are ready or done, each once |
| `Followups.PendingZero` | crates/domain/src/pipeline_followups.rs:308-317 | a counter is zero exactly when every predecessor is done |
| `Followups.SomeBlocked` | crates/domain/src/pipeline_followups.rs:331 | fewer nodes visited than present means a cycle |
| `Followups.ValidateDependencies` | crates/domain/src/pipeline_followups.rs:256-301 | accepts exactly the lists in which every id that either form mentions is a node, neither form puts the current run behind another node, orders have two ends and unresolved groups two or more different ids, texts are plain, and the ordered edges are acyclic; then an order exists that starts with the current-run node, if any |
| `Followups.DependencyFitsMeaning` | crates/domain/src/pipeline_followups.rs:263-294 | the same of one dependency of either form |
| `Followups.ValidateProposal` | crates/domain/src/pipeline_followups.rs:170-254 | accepts exactly the proposals with at least the contract's minimum and at most 16 nodes and 32 dependencies, distinct ids and dependencies, plainly worded nodes of allowed kinds resting on different consumed outputs, every required group covered, exact current-run evidence and acceptable dependencies; an accepted one has a schedule with the current run first |
| `Followups.NodeFitsMeaning` | crates/domain/src/pipeline_followups.rs:198-209 | what an acceptable node is, position by position |
| `Followups.ValidTextMeaning` | crates/domain/src/pipeline_followups.rs:334-336 | a text is accepted exactly when it is not empty, has no white space at its ends and encodes to at most 4096 bytes |
| `Followups.EvidenceExact` | crates/domain/src/pipeline_followups.rs:230-244 | the evidence check passes exactly when the node names, in order, the first consumed output of every evidence phase |
| `Followups.CurrentRunChecksMeaning` | crates/domain/src/pipeline_followups.rs:217-248 | the current-run checks pass exactly when the contract allows no such node and there is none, or there is one, of the right kind, with exact evidence |
| `Calendar.CivilIsCounted` | crates/domain/src/knowledge_time.rs:22-30 | for every valid date of every year the era arithmetic equals counting days since 1970-01-01 by years and months |
| `Calendar.NextDayIsOneMore` | crates/domain/src/knowledge_time.rs:8-30 | the next calendar day is valid and has the next day number |
| `Calendar.DayNumbersOrderDates` | crates/domain/src/knowledge_time.rs:22-30 | day numbers order dates as the calendar does, and different dates never collide |
| `Calendar.EveryDayHasADate` | crates/domain/src/knowledge_time.rs:22-30 | every integer is the day number of a valid date |
| `Rfc3339.ParsePrinted` | crates/domain/src/knowledge_time.rs:33-105 | parsing the printed form of any valid stamp gives the instant it denotes, computed from the day count |
| `Rfc3339.AcceptsExactlyTheGrammar` | crates/domain/src/knowledge_time.rs:33-105 | the accepted byte strings are exactly the section 5.6 date-times of RFC 3339 with year 0001-9999, second at most 59 and at most nine fraction digits |
| `Rfc3339.AcceptedIsPrinted` | crates/domain/src/knowledge_time.rs:33-105 | every accepted string is the print of a valid stamp |
| `Rfc3339.TupleOrderIsChronological` | crates/domain/src/knowledge_lifecycle_validation.rs:176 | comparing parsed pairs compares chronological positions in nanoseconds, whatever the offsets; equal pairs are equal moments |
| `Rfc3339.AcceptedInRange` | crates/domain/src/knowledge_time.rs:102-104 | accepted instants lie far inside 64-bit seconds and nanoseconds stay below one second |
| `Rfc3339.FieldFits32Bits` | crates/domain/src/knowledge_time.rs:1-6 | the decimal fold of a field of at most nine digits stays below 2^32 |
| `Rfc3339.UnderflowExactly` | crates/domain/src/knowledge_time.rs:1-6 | the eager subtraction goes below zero exactly when the separators are right and the first non-digit at the digit positions of the clock, or of an otherwise sound offset zone, is a byte below '0' |
| `Rfc3339.UnderflowHappens` | crates/domain/src/knowledge_time.rs:1-6 | a concrete twenty-byte input for it |
| `JsonFragment.EncodeActions` | crates/host/src/json_fragment.rs:90-197 | refuses exactly unacceptable windows, naming the first selector at fault; every response, whole or page, encodes within the capacity and within 8192 bytes; returns the whole document exactly when no selector is given and it fits; demands a deliverable end; prefers the final page; otherwise, with growing sizes, returns the largest fitting page and refuses only if none with progress fits; every page lies between boundaries and makes progress |
| `JsonFragment.WindowFaultMeaning` | crates/domain/src/pipeline_execution/api/instructions.rs:246-280 | the window validation refuses exactly limits outside 1..=4096, pins that are not 64 hexadecimal digits, and offsets without a pin |
| `JsonFragment.WindowDefaults` | crates/host/src/json_fragment.rs:15-21 | without selectors a read starts at zero with a limit of 4096 |
| `JsonFragment.BoundaryExactly` | crates/host/src/json_fragment.rs:126 | in the UTF-8 encoding of a text the boundaries are exactly the ends of encoded characters |
| `JsonFragment.SearchEnds` | crates/host/src/json_fragment.rs:180-192 | bisection returns a fitting candidate, the largest one when sizes grow, and none only if none fits |
| `JsonFragment.UpperEnd` | crates/host/src/json_fragment.rs:164-169 | the last boundary within the limit |
| `FragmentWalk.WalkReassembles` | crates/host/src/json_fragment.rs:109-196 | every complete walk reassembles one document version even if the document changes between calls; offsets strictly increase; the walk is no longer than the document plus one; only the last page carries the terminal actions |
| `FragmentWalk.CollectsPrefix` | crates/host/src/json_fragment.rs:137-154 | every prefix of a walk has collected exactly the document up to its last page end |
| `FragmentWalk.PageFacts` | crates/host/src/json_fragment.rs:137-154 | an answered page carries the digest, total, start and text of its document, its boundaries, its one continuation or the terminal actions, and encodes within the capacity and within 8192 bytes |
| `FragmentWalk.ChangedDocumentRefused` | crates/host/src/json_fragment.rs:109-119 | a continuation presented to a document with another digest is refused |
| `FrameReading.FrameReader.Next` | crates/host/src/frame.rs:24-64 | returns the frame of the first line of the remaining stream, however the stream is cut into chunks, and the most it held at any moment is at most the maximum |
| `FrameReading.FrameReader.ReadAll` | crates/host/src/frame.rs:24-64 | the frames of a stream are the frames of its lines, never holding more than the maximum |
| `FrameReading.LinesRejoin` | crates/host/src/frame.rs:41-62 | splitting into lines loses nothing and leaves at most a non-empty unterminated tail |
| `FrameReading.LinesUnique` | crates/host/src/frame.rs:41-62 | no other way of cutting a stream into such lines exists |
| `FrameReading.FrameLaws` | crates/host/src/frame.rs:41-62 | a line feed goes, one carriage return before it goes too, an unterminated line keeps its bytes, and a line is too large exactly when what stands before its line feed exceeds the maximum |
| `Originals.LargestIsMaximum` | crates/domain/src/setup.rs:137 | the recorded maximum is a measured size that none exceeds |
| `Originals.InputExactly` | crates/domain/src/program.rs:294-299 | a message is accepted exactly with a request id that is not nil and a text that trimming does not empty and that has no NUL |
| `Setups.SavedSound` | crates/domain/src/setup.rs:70-121 | a save keeps the record invariant, raises the revision by one over the one it was based on, and is ready exactly when asked to be |
| `Setups.SavedWrites` | crates/domain/src/setup.rs:82-120 | a save writes the patched texts, the consumed cursor, the next revision and the step that readiness and question ask for, and nothing else |
| `Setups.SavedExactly` | crates/domain/src/setup.rs:70-121 | a save goes through exactly for the setup's own id and revision while it is a draft, with the cursor within the messages and at their end if ready, patched texts without NUL, content and no question if ready, and a revision below the maximum; the first thing wrong decides the error |
| `Setups.RewrittenFixed` | crates/domain/src/setup.rs:82-120 | the saved setup is fixed by the old one and the change |
| `Setups.NewInputSound` | crates/domain/src/setup.rs:123-140 | a new message keeps the record invariant, including the recorded maximum |
| `Setups.NewInputWrites` | crates/domain/src/setup.rs:123-140 | a new message reopens composition and keeps every text; the service's input call promises this |
| `Setups.NewInputExactly` | crates/domain/src/setup.rs:123-140 | a message is taken exactly by a draft at its revision with both counters below the maximum; otherwise the error says why |
| `Setups.ApplyAdmits` | crates/domain/src/setup.rs:152-178 | a sound draft can be applied exactly at its ready revision, an applied setup answers exactly for the revision before its own; otherwise the error says what is missing |
| `Setups.AppliedSound` | crates/domain/src/setup.rs:180-202 | applying keeps the record invariant and the content, from a ready draft at that revision |
| `Setups.AppliedExactly` | crates/domain/src/setup.rs:180-202 | applying goes through exactly from the ready revision with a digest text, and writes status, step, provenance and revision only |
| `SetupRuns.RunSound` | crates/application/src/setups.rs:82-261 | over every run of begins, saves, messages, publications, commits, abandonments and outside edits: originals are numbered 1..latest with unique requests, the maximum is theirs, ready means consumed, non-blank and unasked, applied means complete with revision one past the applied one, and every applied or pending row has vouched bytes |
| `SetupRuns.RowsEvolve` | crates/domain/src/setup.rs:142-150 | in every run a row never disappears, its messages are only appended to, its revision never falls, and once applied it never changes |
| `SetupRuns.ServiceNeverAlters` | crates/application/src/setup_apply.rs:46-51 | no service step alters or removes a file; a new file holds the content of a ready draft |
| `SetupRuns.AppliedNeverRecreates` | crates/application/src/setup_apply.rs:23-45 | asking again to apply an applied row changes nothing and succeeds only if the file still has the applied digest |
| `SetupRuns.AppliedOnlyAfterPublication` | crates/application/src/setup_apply.rs:46-55 | in every run an applied row carries the digest of its content, and its directory held a file of that size and digest at some moment of the run |
| `SetupRetry.InterruptionLeavesReady` | crates/application/src/setup_apply.rs:46-48 | in every run, an application that stops after the link or is given up before its commit, whatever happened in between, leaves its row as it was and applicable by the same caller at the same revision |
| `SetupRetry.PublishedStays` | crates/application/src/setup_apply.rs:46-48 | in every run, published bytes stay in place until someone outside edits the file |
| `SetupRetry.LockedOverRun` | crates/application/src/setup_apply.rs:19-54 | while an application is pending, no step changes its row or its pending update |
| `SetupRetry.ApplyDecides` | README.md:500-506 | a ready row is published exactly when its file is missing or matches; a matching file is adopted and an existing one never rewritten |
| `SetupRetry.RetryAdopts` | README.md:500-506 | in every run in which an application was published at a revision and no one outside edited the file since, applying at that revision finds those bytes, writes nothing and is pending with the content of the first attempt |
| `SetupRetry.RetryCompletes` | README.md:500-506 | and once its commit comes, whatever happened in between, the row is applied from that revision with the content of the first attempt and its digest |
| `SetupRuns.OneWinnerPerRevision` | crates/domain/src/setup.rs:142-150 | of all saves, new messages and applications based on one revision at most one takes effect in any run |
| `SetupRuns.OnlyWinnersWrite` | crates/domain/src/setup.rs:142-150 | and no other step changes the row |
| `SetupRuns.InputReplay` | crates/application/src/setups.rs:229-240 | repeating a recorded message changes nothing; another text under the same request is refused |
| `SetupRuns.BeginReplay` | crates/application/src/setups.rs:103-129 | beginning again changes nothing and succeeds only as an exact retry of the first message |
| `SetupService.WorkspaceService.BoundSetup` | crates/application/src/setup_access.rs:65-91 | a row is returned exactly when the caller may act and workspace, host and bound directory match, and otherwise the refusal is told apart |
| `SetupCalls.BeginMeans` | crates/application/src/setups.rs:82-154 | in every sound world a begin that succeeds created a first-revision draft in a directory without row and file, or repeated the message that created its row; one that fails changed nothing |
| `SetupCalls.BeginExactly` | crates/application/src/setups.rs:82-154 | a begin succeeds exactly as a retry of the message that created the row, or where there is neither row nor file and the guard lets the draft out |
| `SetupCalls.BeginAgainExactly` | crates/application/src/setups.rs:112-129 | on a directory with a row, only an exact retry succeeds; another directory identity, an unknown request and a known one are told apart |
| `SetupService.WorkspaceService.Begin` | crates/application/src/setups.rs:82-154 | the service stays in the state of the run it has made, so all run theorems hold of it; success is a new draft or an exact retry, as above, and failure changes nothing; success is exactly `BeginGoesThrough` |
| `SetupCalls.SaveMeans` | crates/application/src/setups.rs:192-210 | a save that succeeds was based on the current revision of a draft and rewrites that row as patched, one revision up, and no other row, file or message; one that fails changes nothing |
| `SetupCalls.SaveExactly` | crates/application/src/setups.rs:192-210 | a save succeeds exactly when the caller is bound to the row, the row is savable and the guard lets the result out |
| `SetupService.WorkspaceService.Save` | crates/application/src/setups.rs:192-210 | the same of the service, which stays in the state of its run with a sound row; success is exactly `SaveGoesThrough` |
| `SetupCalls.InputMeans` | crates/application/src/setups.rs:212-261 | a message that succeeds is on record afterwards: it was before and nothing changed, or its row has exactly one message more, is one revision up, open for composition and keeps its texts |
| `SetupCalls.InputCallExactly` | crates/application/src/setups.rs:212-261 | a message succeeds exactly as a repetition of a recorded one, or as a new one that the row can take and the guard lets out |
| `SetupService.WorkspaceService.RecordInput` | crates/application/src/setups.rs:212-261 | the same of the service, which stays in the state of its run with a sound row; success is exactly `InputGoesThrough` |
| `SetupCalls.ApplyMeans` | crates/application/src/setup_apply.rs:9-56 | success means that the row is applied from that revision with its own content and that a file of that size and digest is in place; failure leaves all rows; existing files, other rows and applied rows are never altered |
| `SetupCalls.ApplyExactly` | crates/application/src/setup_apply.rs:9-56 | without faults an application succeeds exactly for a bound caller at the ready revision with the file missing or matching, or as a replay with the file still in place |
| `SetupService.WorkspaceService.Apply` | crates/application/src/setup_apply.rs:9-56 | the same of the service, which stays in the state of its run |
| `Programs.SavedSound` | crates/domain/src/program.rs:67-134 | a save keeps the record invariant, raises the revision by one over the one it was based on, is ready exactly when complete, and never closes an open program |
| `Programs.SavedWrites` | crates/domain/src/program.rs:81-133 | a save writes the patched fields, notes, question, cursor, revision and the step that completion and question ask for, opens exactly when complete, and changes nothing else |
| `Programs.SavedExactly` | crates/domain/src/program.rs:67-134 | a save goes through exactly for the program's own id and revision, with the cursor within the messages and at their end if complete, patched texts without NUL, six filled fields if open or complete, no question if complete, and a revision below the maximum; the first thing wrong decides the error |
| `Programs.NewInputWrites` | crates/domain/src/program.rs:136-152 | a new message reopens composition, keeps every text and the status, and raises revision and latest input by one; the service's input call promises this |
| `Programs.NewInputExactly` | crates/domain/src/program.rs:136-152 | a message is taken exactly when its size is known and both counters are below the maximum |
| `Programs.RefreshedSound` | crates/domain/src/program.rs:154-172 | a refresh changes only the revision, by one over the one it was based on |
| `Programs.RefreshedExactly` | crates/domain/src/program.rs:154-172 | a refresh goes through exactly at the program's revision and cursor; a stale revision and a stale cursor are told apart |
| `ProgramRuns.RunSound` | crates/application/src/programs.rs:53-388 | in every run: open means six non-blank fields; ready means open, consumed and unasked; waiting means a non-blank question; no NUL; messages numbered with unique requests; the maximum is theirs |
| `ProgramRuns.CallStep` | crates/application/src/programs.rs:148-388 | every call leaves each program unchanged or raises its revision by exactly one |
| `ProgramRuns.RowsEvolve` | crates/application/src/programs.rs:148-388 | in every run messages are only appended to, revisions never fall and an open program stays open |
| `ProgramRuns.OneWinnerPerRevision` | crates/domain/src/program.rs:72-74 | of all saves and refreshes based on one revision at most one succeeds in any run |
| `ProgramRuns.InputReplay` | crates/application/src/programs.rs:245-278 | a repeated message never changes the store; another text under the same request is refused |
| `ProgramRuns.BeginReplay` | crates/postgres/src/programs.rs:54-71 | beginning again with a used request creates and changes nothing |
| `ProgramRuns.RefreshReplay` | crates/application/src/programs.rs:335-355 | a receipted refresh returns its receipt and changes nothing |
| `ProgramCalls.BeginMeans` | crates/application/src/programs.rs:53-98 | in every sound store a begin that succeeds created a first-revision draft remembered under its request, or returned the program that the same request began with the same message; one that fails changed nothing |
| `ProgramCalls.BeginExactly` | crates/application/src/programs.rs:53-98 | a begin succeeds exactly as a retry of the first message, or with a fresh id for a draft that is let out |
| `ProgramService.WorkspaceService.Begin` | crates/application/src/programs.rs:53-98 | the service stays in the state of the run it has made, so all run theorems hold of it; success and failure as above; success is exactly `BeginGoesThrough` |
| `ProgramCalls.SaveMeans` | crates/application/src/programs.rs:148-220 | a save that succeeds was based on the current revision and rewrites that program as patched, one revision up, and nothing else; one that fails changes nothing |
| `ProgramCalls.SaveExactly` | crates/application/src/programs.rs:148-220 | a save succeeds exactly when the program is the workspace's, savable, and the result is let out |
| `ProgramService.WorkspaceService.Save` | crates/application/src/programs.rs:148-220 | the same of the service, which stays in the state of its run with a sound row; success is exactly `SaveGoesThrough` |
| `ProgramCalls.InputMeans` | crates/application/src/programs.rs:223-320 | a message that succeeds is on record afterwards: it was before and nothing changed, or its program has exactly one message more, is one revision up and keeps its texts and status |
| `ProgramCalls.InputCallExactly` | crates/application/src/programs.rs:223-320 | a message succeeds exactly as a repetition of a recorded one, or as a new one that can be taken and is let out |
| `ProgramService.WorkspaceService.RecordInput` | crates/application/src/programs.rs:223-320 | the same of the service, which stays in the state of its run with a sound row; success is exactly `InputGoesThrough` |
| `ProgramCalls.RefreshMeans` | crates/application/src/programs.rs:322-388 | a refresh that succeeds has a receipt for exactly its answer: it had before and nothing changed, or the program was at that revision and cursor, moved up by one and is otherwise as it was |
| `ProgramCalls.RefreshExactly` | crates/application/src/programs.rs:322-388 | a refresh succeeds exactly as a repetition of a receipted one, or from the current revision and cursor |
| `ProgramService.WorkspaceService.Refresh` | crates/application/src/programs.rs:322-388 | the same of the service, which stays in the state of its run; success is exactly `RefreshGoesThrough` |
| `QueryCache.LookupAnswers` | crates/application/src/service.rs:44-61 | after any history on a monotone clock a hit is the latest value put for the key and under 61 seconds old; a miss on a younger put means at least 64 other keys were put since |
| `QueryCache.QueueShape` | crates/application/src/service.rs:54-61 | at most 64 entries, distinct keys, insertion times in order |
| `QueryCache.FrontUnderPressure` | crates/application/src/service.rs:56-58 | an evicted key has seen puts of 64 distinct other keys |
| `QueryCache.KnowledgeQueryCache.Lookup` | crates/application/src/service.rs:44-52 | answers the first entry for the key among those not expired, and drops the expired |
| `QueryCache.KnowledgeQueryCache.Insert` | crates/application/src/service.rs:54-61 | the new queue is the replay of the history with this put |
| `CacheKey.KeysAgreeExactly` | crates/application/src/service.rs:18-31 | for any models and colon-free digests, keys are equal exactly when workspace, principal, generation, digest and the model's text are |
| `CacheKey.KeyIdentifiesExactly` | crates/application/src/service.rs:26-29 | a key is shared with no model of another name, revision or recipe exactly when none of the three contains a colon |
| `CacheKey.IdentifiedExactly` | crates/application/src/service.rs:26-29 | the same of the model's text within the key |
| `CacheKey.ColonFreeKeysAgree` | crates/application/src/service.rs:18-31 | for models without colons and any digests, keys are equal exactly when workspace, principal, generation, name, revision, recipe and digest are; dimensions are never told apart |
| `CacheKey.SameModelSameParts` | crates/application/src/service.rs:18-31 | for any one model, keys are equal exactly when workspace, principal, generation and digest are |
| `CacheKey.KeyReads` | crates/application/src/service.rs:26-29 | without stray colons a key splits into workspace, principal, generation, name, revision, recipe and digest, in this order |
| `CacheKey.ModelsCollide` | crates/application/src/service.rs:26-29 | two pairs of distinct models that share every key: a colon moved between fields, and another number of dimensions |
| `QueryEmbedding.ScopeAnswers` | crates/application/src/knowledge_search.rs:95-135 | after any chronological log of uses a hit is the latest vector learned for the same workspace, principal, generation and digest, under 61 seconds old; a younger scope is missed only after 64 other scopes were learned |
| `QueryEmbedding.QueryEmbedder.Query` | crates/application/src/knowledge_search.rs:80-144 | nothing is sought outside the widest mode, without ready vectors or without the pinned model; otherwise the answer is a recent vector of the same scope, or the provider's usable answer to the question, which alone is learned; a retained scope is always a hit |
| `SetupPath.ValidatesNormalized` | crates/domain/src/setup_file.rs:12-25 | accepts exactly the short NUL-free paths spelled by a list of ordinary components |
| `SetupPath.GrantedIsContainment` | crates/domain/src/setup_file.rs:27-38 | granted exactly when path and some root are normalized and the root's component list is a prefix of the path's |
| `SetupPath.GrantReachesBelow` | crates/domain/src/setup_file.rs:27-38 | a grant of a directory grants everything below it |
| `SetupPath.SiblingNotGranted` | crates/domain/src/setup_file.rs:34-36 | for any roots, adding a root never grants a sibling whose name merely starts with the root's name; without another root containing it, it is not granted |
| `CollectionCursor.ParseInvertsEncode` | crates/domain/src/workspace_collection.rs:29-64 | a string parses to a cursor exactly when the cursor is non-nil and the string is its encoding |
| `CollectionCursor.EncodeInjective` | crates/domain/src/workspace_collection.rs:57-64 | no two cursors share an encoding |
| `CollectionCursor.ValidatedBelongs` | crates/domain/src/workspace_collection.rs:66-74 | a parsed cursor passes for a workspace and collection exactly when its text names both |
| `UuidText.PrintedParses` | crates/domain/src/workspace_collection.rs:37-40 | every UUID parses back from its hyphenated form |
| `ReceiptDiff.Between` | crates/domain/src/pipeline_receipt_diff.rs:25-61 | the difference lists, in key order, exactly the missing, the unexpected and the repeated receipts with their counts |
| `ReceiptDiff.EmptyDiff` | crates/domain/src/pipeline_receipt_diff.rs:38-60 | nothing is reported exactly when the submission lists each distinct expected receipt once |
| `ReceiptDiff.CountsAddUp` | crates/domain/src/pipeline_receipt_diff.rs:38-60 | submitted count = distinct count + the repeats beyond the first |
| `ReceiptDiff.CanonicalMaterial` | crates/domain/src/pipeline_receipt_diff.rs:94-114 | every distinct receipt once, in key order, with its multiplicity |
| `ReceiptDiff.MaterialIdentifies` | crates/domain/src/pipeline_receipt_diff.rs:89-121 | material is equal exactly when the kind is and the submissions are permutations of each other |
| `ReceiptDiff.LessExactly` | crates/domain/src/pipeline_receipt_diff.rs:26-31 | listings are in dictionary order of the first of id, version and digest that differs |
| `BindingPins.ValidateChangeset` | crates/domain/src/knowledge_operation_validation.rs:199-237 | accepts exactly the changesets with a revision, 1 to 16 operations and bounded texts, whose operations have the parts their kind asks for, real ids, proper successors and pins for exactly the slice-phase bindings (none before resolution), distinct ids and labels, and references within the changeset |
| `BindingPins.PartsMeaning` | crates/domain/src/knowledge_operation_validation.rs:128-162 | which parts each kind of operation must and must not have, part by part |
| `BindingPins.ResolveOperation` | crates/application/src/knowledge_lifecycle.rs:107-194 | finishes exactly when nothing is pinned yet and every slice-phase binding is pinnable; then only the pins change: one per slice-phase binding in order, with its index and phase and kind, version and digest of the governing definition; otherwise the error is that of the first binding that cannot be pinned |
| `BindingPins.ResolvePinExactly` | crates/application/src/knowledge_lifecycle.rs:128-192 | a binding is pinnable exactly when its slice is known, lies in the named scope and has a governing definition with the phase: the lifecycle's for a promotion of this change, else the run's, else the provider's; each failing condition has its error |
| `BindingPins.ResolveChangeset` | crates/application/src/knowledge_lifecycle.rs:103-195 | the same for all operations, leaving everything else unchanged; the first operation that stops gives the error |
| `BindingPins.FinalCheckExactly` | crates/domain/src/knowledge_operation_validation.rs:80-127 | a changeset accepted before resolution is accepted after it exactly when every pinned definition has a version and a digest |
| `SearchJobs.ProcessSearchJobs` | crates/application/src/knowledge_search.rs:145-281 | succeeds exactly when the ports' answers complete a run and let it close; then it claimed as many jobs as allowed or until a turn found no job or no model, claimed = published + obsolete + failed with each counter the number of claims of that fate, the offers are those of the embeddable claims in order, and pending is the closing answer; failure is the error of the first failing port; every offer, also of a failing run, is a validated vector of text matching the claim's digest and the pinned model |
| `SearchJobs.CompletesOnce` | crates/application/src/knowledge_search.rs:161-181 | the answers of the ports determine how many jobs a completing run claims |
| `SearchJobs.FatesAddUp` | crates/application/src/knowledge_search.rs:182-260 | every finished claim has exactly one of the three fates |
| `SearchJobs.Work` | crates/application/src/knowledge_search.rs:183-261 | goes through exactly when the second transaction is the claim's owner's and commits; then its fate is credited and the offer is the claim's, exactly when it is embeddable |
| `MaintenanceTasks.ProcessTasks` | crates/application/src/knowledge_maintenance.rs:88-202 | succeeds exactly when the limit is in range, sweep and final count succeed, and the ports' answers complete a run in which every checked addition fits; then each counter is the number of claimed turns with its fate, and the claims balance exactly when reported and own exhaustions together stay below 2^32; failure is the error of the first turn that neither finishes a task nor finds none |
| `MaintenanceTasks.ClaimsAddUp` | crates/application/src/knowledge_maintenance.rs:111-191 | claims = reviews + obsolete + retries + (exhausted - reported) exactly when the exhaustions in the ports' answers, reported and own, stay below 2^32 |
| `MaintenanceTasks.FatesAddUp` | crates/application/src/knowledge_maintenance.rs:138-189 | the fates of the claimed turns add up to their number |
| `MaintenanceTasks.CompletesOnce` | crates/application/src/knowledge_maintenance.rs:111-131 | the answers of the ports determine how many tasks a completing run claims |
| `MaintenanceTasks.BalancedUnlessWrapped` | crates/application/src/knowledge_maintenance.rs:124-189 | a completed run balances exactly when no increment of the exhaustion counter found it at its maximum |
| `MaintenanceTasks.WrapsExactly` | crates/application/src/knowledge_maintenance.rs:138-189 | the exhaustions of finished tasks pass 2^32 exactly when some increment wraps |
| `MaintenanceTasks.CounterWraps` | crates/application/src/knowledge_maintenance.rs:124-141 | any run whose first turn reports 2^32 - 1 exhaustions and then exhausts its task wraps the counter to zero |
| `Text.TrimExactly` | crates/domain/src/knowledge_operation_validation.rs:4-6 | blank texts are those that trimming empties, trimmed ones those that it keeps |
| `Text.Utf8LengthExactly` | crates/domain/src/pipeline_followups.rs:334-336 | the length that limits are compared with is that of the UTF-8 encoding |

## Left out

- The SQL adapter: rows, locks and unique keys are modelled as maps and as steps that wait; isolation anomalies are not.
- I/O errors of the frame reader's stream: a failed read ends the connection and is not a step of the model.
- Directory re-validation, authorization and session checks: they appear as a refusal that may precede a call, so which of two refusals is reported first is not modelled.
- The staging file, fsync and the comparison retry of the file adapter: publication is one step that may fail before or after the link.
- JSON encoding and response envelopes: only an encoded size is modelled, and route pins that every continuation repeats are dropped from its parameters.
- JsonFragment.EncodeActions: does not assume that documents are valid UTF-8; boundaries are told by continuation bytes alone, and a failure of the serializer is not a case.
- Planning-knowledge manifests of programs: capture, staleness and consumption appear only as refusals before or after a call.
- Embedding vectors: dimension, finiteness and norm are one abstract validity test; query normalization is left out.
- QueryCache: the mutex, and clock readings that go backwards, which the history theorem excludes.
- QueryEmbedding.QueryEmbedder.Query: does not model other callers between its lookup and its insertion, because the class is sequential; `ScopeAnswers` holds for any interleaved log. Latencies are left out.
- MaintenanceTasks.ProcessTasks: does not model the panic of the unchecked increment where overflow checks are on; it happens exactly at a turn that satisfies `Wraps`.
- Documents and revalidation drafts in changesets: their own field checks are one boolean each; bindings are modelled in full.
- Phase-output size limits around the final changeset check, which pins can push over the bound.
- Acyclicity of changeset dependencies, which the code does not check.
- Slice-candidate drafts, follow-up definitions, migrations, request diagnostics, field-by-field validators and finite tables: each claim about them is settled by one branch.
- Listing and paging of programs and setup inputs: a look-ahead pop, easy members only.
