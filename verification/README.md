# Verification of the core state machines

A Dafny model of the parts of this repository whose correctness is an argument
over runs, not over one function body. `dafny verify dfyconfig.toml` checks all
of it.

- **Goals** (`goal_facts`, `goal`, `goal_authority`, `goal_outcomes`,
  `goal_texts`, `goal_witnesses`, `goal_service`). The service writes whole-state facts under compare-and-set; the fold that replays them is
  different code. The main result is refinement: over every run, every journal
  replays completely exactly when no step met one of three guards a caller can
  see. The continuation bit is followed over runs, with `arm` as one step and as
  two: exactly when it lands on a goal that is not active, and what a round needs
  to start. What every call leaves is told field by field, and exactly when it is
  accepted.
- **Draft images** (`draft_model`, `draft`, `draft_outcomes`, `draft_store`). Scopes
  own uploads, move them, expire, commit and lose writers half way. Live files,
  exact bytes, single ownership and one holder at a time hold in every reachable
  state; each call's answer has its exact condition.
- **Patches** (`patch_syntax`, `apply_patch`, `patch_lines`, `patch_endings`,
  `patch_undo`). The parser is the inverse of a printer on exactly the well-formed patches; a hunk
  is a unique rewriting; any sequence of hunks can be undone, and a patched file
  exactly when it reads back as it was written; endings are tracked to the last
  newline.
- **Redaction** (`redact`, `redact_markers`). A scanner that looks back at its own
  output; normal form, its fixed points, idempotence, what may be replaced, and,
  on characters, what must be.
- **Project instructions** (`instruction_paths`, `project_instructions`,
  `instruction_answers`, `instruction_restore`, `instruction_service`). Ancestor
  closure, greedy budget, save and restore.
- **Language client** (`lsp_framing`, `lsp_headers`, `lsp_stream`, `lsp_refusal`,
  `lsp_session`, `lsp_requests`, `lsp_client`). `Content-Length` framing under any chunking, the buffer cap,
  and the document version protocol of the Language Server Protocol 3.17,
  sections "Base Protocol" and "Text Document Synchronization", judged by a
  strict server.
- **Plugin host** (`plugin_host`, `plugin_decisions`, `plugin_saturation`). The
  sampling ledger under every interleaving of calls with installation, replacement,
  cancellation and clearing of runs, and which decision let a call reach the model.
- **Test waits** (`test_mask`, `test_mask_items`, `test_waits`, `test_wait_sites`).
  Masking of non-code, the calls one file records, and the worklist that finds the
  least set of inherited test files.
- **Memory** (`memory`, `memory_answers`, `memory_host`, `memory_witnesses`,
  `memory_service`). Every
  mounted project opens its own service on the one file, keeps its own map and
  writes all of it at each commit. Runs interleave any number of services; what
  holds without conditions, what holds of a service no other has overtaken, and
  what goes wrong of one that was.
- **Messages** (`message`) and **search paging** (`search`, `search_matches`,
  `search_snapshot`). What is hashed tells submissions and file listings apart.

Shared: `wrappers`, `sequences`, `sets`, `text`, `utf8` (RFC 3629, section 4),
`byte_order`, `decimal`.

The three session-like objects, the draft store, the instruction service, the
language client, the budget, the memory service and the pending message are
classes whose methods overwrite their fields; each is proved equal to a function
of the old state, and the properties are proved about those functions.

## Where the code does not do what it seems to promise

Each has a member with the exact condition and one at a concrete input.

- Cutting a result at 16 KiB can leave a trailing blank, which the fold calls
  malformed (`GoalFacts.NormalizedIsCanonicalIff`). In a session the payload is
  validated before it is appended, so the operation fails and nothing is written
  (`Goal.ProgressRecordedIff`).
- A pending goal that was mutated before its session exists is born as a create
  above revision 1, a completed goal's id given again is refused as a create, and
  a stale round message is stored: the journal then stops replaying there
  (`Goal.RunReplays`; runs in `GoalWitnesses`).
- A round whose result is cut after white space is refused after it ran: its
  counters are lost and the bit stays up (`Goal.FinishRoundRefusedIff`).
- The armed bit can stand on a goal that is not active: when `arm` sets it after
  its check went stale, and when an arming create is refused by the fold
  (`GoalAuthority.ArmedMeansActiveIff`). No round starts from it
  (`GoalAuthority.RoundsStartWithAuthority`).
- The final newline of a patched file differs from the original's when nothing is
  left, or when an empty last line is left of a file without one
  (`ApplyPatch.FinalNewlineKeptIff`, `PatchEndings.FinalNewlineByLastHunk`; both
  cases happen).
- A scope whose directory name holds a backslash is stored as another directory.
  The snapshot then comes back only if that directory holds the same
  (`InstructionRestore.RestoreShowsTheSameIff`, with a run for either outcome).
- The stream cap can refuse frames of allowed size
  (`LspStream.CapIsHarmlessIff`). A header of 65534 to 65536 bytes is refused when
  a chunk ends inside its blank line with more than 65536 bytes buffered, though
  it is accepted whole (`LspRefusal.RefusalIsFinalIff`).
- The token counter saturates at 64 bits and is inexact from then on
  (`PluginSaturation.SaturationLosesTokens`), but never admits anything it should
  not (`PluginHost.AdmittedIff`).
- A memory update stamped before its record's creation fails and stays in the
  process, because the backup is restored only after a failed write; a later,
  properly stamped add then fails and stays as well
  (`MemoryHost.FailuresAreQuietIff`, `MemoryWitnesses.ClockRunsBackAndStays`).
- Several memory services share one file, and a commit writes the map its service
  holds without reading the file again. A stale map drops records of other
  projects, and two updates at one revision both succeed
  (`MemoryHost.CommitIsIsolatedIff`, `Memory.UpdateNamesFileIff`; runs in
  `MemoryWitnesses`). Isolation and no lost update hold of every commit by a
  service that no other has overtaken since it opened or last committed.
- Undoing a patch loses a line when an empty last line was written without an
  ending, and changes one that ends in a carriage return or starts with a new
  byte-order mark, if the inverse is accepted at all (`PatchUndo.UndoPatchIff`,
  `PatchUndo.UndoLosesLine`).
- Staged paths are hashed by their lossy text, so two paths that are not UTF-8
  can give one submission digest (`Message.PreimageIsUnique`,
  `Message.PathsCanCollide`).
- The masking indexes past its list on a text that ends in an odd run of
  backslashes inside an open string (`TestMask.MaskFailsIff`).

## Model

| member | source | states |
|---|---|---|
| `GoalFacts.CanonicalIff` | src/goal.rs:913-917 | the texts `validate_state` accepts are exactly the non-empty fixed points of `normalize_result` |
| `GoalFacts.NormalizedIsCanonicalIff` | src/goal.rs:982-988 | a normalised text is canonical if and only if the 16 KiB cut did not land right after white space |
| `GoalFacts.NormalizeCanLeaveTrailingBlank` | src/goal.rs:982-988 | a concrete text whose normal form the acceptor refuses |
| `GoalFacts.FoldedStateIsValid` | src/goal.rs:828-919 | whatever any journal folds to passes `validate_state` |
| `GoalFacts.OneFactLater` | src/goal.rs:828-893 | one accepted fact about the same goal raises the revision or the round by one and lowers nothing |
| `GoalFacts.GoalLife` | src/goal.rs:777-893 | in any accepted journal, until a create or clear: revision and rounds rise by exactly the number of facts, counters never fall, objective, acceptance and limits stay, complete stays complete |
| `Goal.RunReplays` | src/goal.rs:452-605 | for every run of every operation with any texts, clocks and write failures: all journals written replay completely if and only if no step met one of three guards (an id reused after completion, birth of a goal past revision 1, a round message that is not the next one) |
| `Goal.StepReplays` | src/goal.rs:452-605 | one step keeps intact journals intact exactly outside those guards, and never repairs a broken one |
| `Goal.CreateStep` | src/goal.rs:219-281 | a create is accepted by the fold unless it reuses the id of the completed goal |
| `Goal.TransitionStep` | src/goal.rs:452-485 | every mutation the writer records is one the acceptor allows |
| `Goal.FinishRoundStep` | src/goal.rs:561-605 | the counters and result of a finished round are always accepted |
| `Goal.ClearStep` | src/goal.rs:423-450 | a clear tombstone is always accepted |
| `Goal.MaterializeStep` | src/goal.rs:487-507 | a pending goal is born as an acceptable create if and only if it is still at revision 1 |
| `Goal.AppendRoundStep` | src/goal.rs:777-826 | a stored round message is accepted exactly when it is the next round of the active goal |
| `Goal.TransitionReportsTheFold` | src/goal.rs:452-485 | the view a successful mutation returns is the state the fold now holds, one revision on; a failed one changes nothing |
| `Goal.CreateReportsTheFoldIff` | src/goal.rs:219-281 | the view a create returns is what the fold holds, if and only if the create did not reuse the completed goal's id; a refused create changes nothing |
| `Goal.ClearReportsTheFold` | src/goal.rs:423-450 | after a clear the fold holds no goal and the bit is down; a refused clear changes nothing |
| `Goal.CandidateReportsTheFold` | src/goal.rs:374-421 | an accepted candidate returns what the fold holds; a refused one changes nothing but a recorded failure (what each verdict leads to: GoalOutcomes.CandidateAcceptedIff) |
| `Goal.FinishRoundRefusedIff` | src/goal.rs:561-605 | a finished round is refused if and only if there is no session, no revision left, the write fails or its result is cut after white space; its counters are then lost and the bit stays |
| `Goal.FinishRoundAccounts` | src/goal.rs:561-605 | a recorded round leaves exactly the added tokens, time and failure, capped at their types, one revision on in the same phase; it continues if and only if it was armed, active and successful |
| `Goal.ProgressRecordedIff` | src/goal.rs:339-351 | in a session a progress report is recorded if and only if it is current, on an active goal, and its cut is clean; otherwise nothing changes |
| `Goal.FreshRoundIsAdmitted` | src/goal.rs:532-559 | the message `next_round` builds is admitted when nothing came between |
| `GoalAuthority.OnlyGrantsRaise` | src/goal.rs:310-329 | no step but `arm` or an arming create raises the armed bit; birth only moves it |
| `GoalAuthority.ArmedTracesToGrant` | src/goal.rs:509-530 | in every run an armed bit goes back to a grant after which it was never dropped |
| `GoalAuthority.ArmedStepIff` | src/goal.rs:310-329 | a step puts the bit on a goal that is not active if and only if it sets it after a stale check, or is an arming create over a completed goal that the fold refuses |
| `GoalAuthority.ArmedMeansActiveIff` | src/goal.rs:283-329 | over every run, two-step arming and broken journals included: armed means active in all its states if and only if no step met one of those two guards |
| `GoalAuthority.ArmedImpliesActive` | src/goal.rs:310-329 | so in a run of atomic steps whose journals replay, armed implies active |
| `GoalAuthority.OnlyNextRoundStarts` | src/goal.rs:777-826 | a round starts only by storing the next round message of a goal active at that moment |
| `GoalAuthority.RoundsStartWithAuthority` | src/goal.rs:532-559 | over every run: a round that starts from a message read earlier was armed, by a grant never dropped since, and active at the read, and the goal is active and unchanged at the start |
| `GoalWitnesses.PausedBirthBreaks` | src/goal.rs:487-496 | create, pause, first session: the journal does not replay from its birth |
| `GoalWitnesses.ReusedIdBreaks` | src/goal.rs:201-281 | a completed goal's id given again is written and refused by the fold |
| `GoalWitnesses.StaleRoundBreaks` | src/goal.rs:777-826 | a round message stored after the goal moved on stops the journal |
| `GoalWitnesses.SplitArmCanArmPausedGoal` | src/goal.rs:310-329 | with `arm` in two steps a pause in between leaves a paused goal armed |
| `GoalWitnesses.ReusedIdArmsCompleteGoal` | src/goal.rs:201-281 | an arming create over a reused id leaves a complete goal armed in one step |
| `GoalOutcomes.StepIsTold` | src/goal.rs:219-605 | whatever is called, every goal anywhere stays as it was or changed field by field as the call says: phase, reason, result, counters, revision and time |
| `GoalOutcomes.CompleteOnlyWhenMet` | src/goal.rs:374-421 | in every run a goal becomes complete only by a verified finish or by a candidate whose verdict was good, verified inside and not left to the user |
| `GoalOutcomes.TransitionAcceptedIff` | src/goal.rs:452-485 | a mutation is accepted if and only if it names the current revision, the phase and the text permit it, and in a session the cut is clean; its outcome and its bit |
| `GoalOutcomes.CandidateAcceptedIff` | src/goal.rs:374-421 | a candidate for the user blocks the goal, a failed one records the failure and answers with an error, a met one finishes it, each exactly when permitted |
| `GoalOutcomes.CreateAcceptedIff` | src/goal.rs:219-281 | a create is accepted if and only if its texts are valid and no goal is unfinished; the newborn goal and its bit |
| `GoalOutcomes.ClearAcceptedIff` | src/goal.rs:423-450 | a clear is accepted if and only if it names the current revision and is written |
| `GoalOutcomes.ArmedIff` | src/goal.rs:310-329 | arming raises the bit if and only if it names the revision of an active goal, and changes no goal |
| `GoalOutcomes.RoundIsOfferedIff` | src/goal.rs:532-559 | a round is offered if and only if the goal is armed, active and has rounds left, and names goal, revision and number |
| `GoalOutcomes.BitElsewhere` | src/goal.rs:498-530 | what birth, boundaries, disarming and round messages make of the bit |
| `GoalOutcomes.AcceptedMoves` | src/goal.rs:828-893 | the phases a recorded change may lead from and to, by its operation, and that only progress charges the account |
| `GoalOutcomes.FoldedGoalIs` | src/goal.rs:895-919 | every replayed goal is named and dated in order, has a reason exactly when blocked, and texts that are trimmed and fit |
| `GoalTexts.RelativePathIff` | src/goal.rs:958-970 | an acceptance path is valid if and only if it is short and all its components are normal |
| `GoalTexts.BlockCodeIff` | src/goal.rs:990-1000 | a block code is valid if and only if it is words of small letters and digits joined by single dashes, of at most 64 characters |
| `GoalServiceObject.GoalService.CreateNamed` | src/goal.rs:219-281 | the method over mutable fields produces the specified state and result |
| `GoalServiceObject.GoalService.Mutated` | src/goal.rs:452-485 | compare-and-set, mutate, stamp, record, then set the bit, equal to Transition |
| `GoalServiceObject.GoalService.Candidate` | src/goal.rs:374-421 | candidate completion over the mutable service equals CompleteCandidate, branch by branch |
| `GoalServiceObject.GoalService.Clear` | src/goal.rs:423-450 | clear over the mutable service equals ClearGoal |
| `GoalServiceObject.GoalService.Arm` | src/goal.rs:310-329 | arm over the mutable service checks and then sets the bit of the current session |
| `GoalServiceObject.GoalService.FinishedRound` | src/goal.rs:561-605 | round accounting over the mutable service equals FinishRound |
| `GoalServiceObject.GoalService.RecordGoalChange` | src/session/use_cases.rs:760-781 | a fact is validated first and appended only when the write succeeds |
| `GoalServiceObject.GoalService.Materialized` | src/goal.rs:487-507 | birth clears the pending goal and carries the bit to the session |
| `GoalServiceObject.Project` | src/goal.rs:777-826 | folding a journal in place stops at the first refused fact with the prefix state |
| `Redact.OutputIsNormal` | src/redact.rs:105-163 | every output is in normal form: no key-like assignment, `sk-` token or bearer token is left at any position |
| `Redact.UnchangedIff` | src/redact.rs:105-163 | text is returned unchanged if and only if it is in normal form |
| `Redact.Idempotent` | src/redact.rs:105-163 | redacting twice is redacting once |
| `Redact.Segments` | src/redact.rs:105-163 | the output is the input with disjoint spans replaced, and each replaced span was introduced by a marker in what was shown before it |
| `Redact.TokenShrinks` | src/redact.rs:48-61 | no token the finished output shows at a position is longer than the one in the text |
| `Redact.MarkerWasThere` | src/redact.rs:63-81 | a marker read back in the output was in the text |
| `Redact.TokenSpan` | src/redact.rs:48-61 | the byte loop finds the token without its trailing stops |
| `Redact.FindKeyishName` | src/redact.rs:83-103 | the backward loop finds exactly the key-like names of KeyishNameBefore |
| `Redact.DecideStep` | src/redact.rs:105-163 | the loop body takes the specified branch in the specified order |
| `Redact.Redacted` | src/redact.rs:105-163 | the growing-output loop computes RedactSecrets |
| `RedactMarkers.KeyishIff` | src/redact.rs:83-103 | a name of letters, digits, `_` and `-` is key-like if and only if it ends in, or is, one of the eight words in any case |
| `RedactMarkers.AssignedTokenIsHidden` | src/redact.rs:112-131 | behind any key-like name and `=` a value of eight characters or more is hidden, in any line, whatever follows |
| `RedactMarkers.SkTokenIsHidden` | src/redact.rs:133-143 | a token of twelve characters or more that begins with `sk-` is hidden whole |
| `RedactMarkers.BearerTokenIsHidden` | src/redact.rs:145-163 | a token of eight characters or more behind `bearer`, with or without blanks, is hidden and the marker kept |
| `RedactMarkers.WordIsKept` | src/redact.rs:74-79 | a word that does not begin as a marker is kept |
| `RedactMarkers.LineByLine` | src/redact.rs:105-166 | text is redacted line by line: what stands behind a line break, a quote or any other border depends on nothing before it, and nothing before depends on it |
| `PatchSyntax.ParseLoop` | src/apply_patch.rs:50-137 | the parser computes Parse, error for error |
| `PatchSyntax.BodyLoop` | src/apply_patch.rs:69-125 | the index-driven loop over an open hunk and closed ones computes ParseBody |
| `PatchSyntax.PrintThenParse` | src/apply_patch.rs:50-137 | parsing the printed form of any well-formed patch returns it exactly |
| `PatchSyntax.ParsedIsWellFormed` | src/apply_patch.rs:192-214 | every accepted patch has a hunk, and each hunk an anchor line and a change |
| `PatchSyntax.ParseableIff` | src/apply_patch.rs:50-137 | a patch is the result of some parse if and only if it is well formed |
| `ApplyPatch.JoinOfSplit` | src/apply_patch.rs:216-240 | joining the split lines gives back the text, for every text |
| `ApplyPatch.ResplitIff` | src/apply_patch.rs:216-240 | splitting joined lines gives them back if and only if they are splittable: whole lines, only a non-empty last one without ending, no carriage return before a bare newline |
| `ApplyPatch.SplitLoop` | src/apply_patch.rs:216-240 | the one-pass splitter computes SplitFile |
| `ApplyPatch.DominantLoop` | src/apply_patch.rs:242-257 | the counting loop picks the dominant ending |
| `ApplyPatch.MatchLoop` | src/apply_patch.rs:330-345 | the search loop returns every place the old lines occur |
| `ApplyPatch.OneMatchIff` | src/apply_patch.rs:330-345 | one match is reported if and only if the old lines occur there and nowhere else |
| `ApplyPatch.HunkRewrites` | src/apply_patch.rs:259-328 | a hunk whose old lines occur once is accepted and rewrites that place; lines before and after keep text and ending |
| `ApplyPatch.AcceptedOccursOnce` | src/apply_patch.rs:259-328 | an accepted hunk had exactly one place |
| `ApplyPatch.ReplacementAt` | src/apply_patch.rs:285-313 | inside the place a context line is the file's own line, an added one takes the local ending |
| `ApplyPatch.HunkOnTexts` | src/apply_patch.rs:259-328 | an accepted hunk replaces one stretch of texts and keeps both sides |
| `ApplyPatch.UndoHunk` | src/apply_patch.rs:259-328 | an accepted hunk is undone by its inverse whenever that is accepted |
| `ApplyPatch.UndoHunks` | src/apply_patch.rs:259-328 | any number of hunks is undone by the inverted hunks in reverse order |
| `PatchUndo.UndoPatchIff` | src/apply_patch.rs:139-164 | on whole files: patch, write, read, apply the inverse; when both are accepted, every original line text comes back if and only if the written lines read back as themselves |
| `PatchUndo.ReadsBackIff` | src/apply_patch.rs:139-164 | they do if and only if no line keeps a carriage return before a bare newline, no empty last line is left of a file without a final newline, and no byte-order mark is new |
| `PatchUndo.UndoLosesLine` | src/apply_patch.rs:139-164 | a patch the parser can return and its inverse, both accepted, after which a line is missing |
| `ApplyPatch.HunkLoop` | src/apply_patch.rs:259-328 | locate, build, fill and splice computes ApplyHunk |
| `ApplyPatch.ReplacementLoop` | src/apply_patch.rs:285-313 | the cursor loop over the hunk body builds Replacement |
| `ApplyPatch.NormalizeLoop` | src/apply_patch.rs:353-372 | the in-place pass settles endings as Normalize |
| `ApplyPatch.ApplyLoop` | src/apply_patch.rs:139-164 | the whole application loop computes Apply, with its error at the first refused hunk |
| `ApplyPatch.FinalNewlineKeptIff` | src/apply_patch.rs:353-372 | the output ends in a newline as the input did, except in exactly two cases read off the resulting lines |
| `PatchLines.HunkLine` | src/apply_patch.rs:259-328 | each line a hunk leaves: context keeps its own ending, an added line takes the first ending of the lines replaced or else the file's, and only the last line of all may lack one |
| `PatchLines.DominantIff` | src/apply_patch.rs:242-257 | the file's ending is CRLF if and only if more lines end in CRLF than in a bare newline |
| `PatchLines.KindIsKept` | src/apply_patch.rs:139-164 | a file whose lines all end alike stays so under every patch |
| `PatchLines.ParsedHunksChange` | src/apply_patch.rs:192-214 | every hunk that is read has an old line to find its place by and a line that changes something |
| `PatchLines.SignsAreRead` | src/apply_patch.rs:50-137 | a concrete patch text: a space keeps, a minus drops, a plus adds |
| `ApplyPatch.PatchedFileKeeps` | src/apply_patch.rs:139-164 | for every parseable patch: the byte-order mark is kept, only the last line can lack an ending, and the final newline is as before with the exact exception |
| `PatchEndings.FinalNewlineByLastHunk` | src/apply_patch.rs:139-164 | the same condition read off the lines the last hunk finds and the hunk itself, so off the file for a patch of one hunk |
| `PatchEndings.EmptiedFileLosesNewline` | src/apply_patch.rs:353-372 | a file left with nothing: its final newline goes |
| `PatchEndings.EmptyLastLineGainsNewline` | src/apply_patch.rs:353-372 | a file without a final newline left with an empty last line: it gains one |
| `Draft.StepKeeps` | src/draft.rs:54-677 | every step of every caller keeps live files, exact accounting, single ownership and sound writers |
| `Draft.ReachableStatesAreSound` | src/draft.rs:54-113 | in every reachable state each registered upload has its file and its directory's scope exists, bytes are the sum and at most 128 MiB, and no upload has two owners |
| `Draft.SweepKeeps` | src/draft.rs:630-677 | a sweep removes a scope only when no upload anywhere lies under its directory |
| `Draft.ReservedScopeSurvivesSweep` | src/draft.rs:650-671 | a scope holding a reserved upload survives every sweep unchanged |
| `Draft.RegisterKeeps` | src/draft.rs:453-507 | registering a finished upload keeps the whole invariant |
| `Draft.CommitKeeps` | src/draft.rs:391-407 | a commit over any list of ids keeps the whole invariant |
| `Draft.AbandonKeeps` | src/draft.rs:510-519 | dropping an unfinished writer removes only its own directory |
| `Draft.MovedKeeps` | src/draft.rs:54-113 | moving any list of uploads between scopes keeps the whole invariant |
| `Draft.HeldUntilReleased` | src/draft.rs:316-407 | a reserved upload stays reserved under every step that does not release it |
| `Draft.HandOutTakesHold` | src/draft.rs:316-377 | a reservation hands out only what nobody holds and holds it afterwards |
| `Draft.NoDoubleHandOut` | src/draft.rs:316-407 | over every run, between two hand-outs of one upload some step names it, finds it held and leaves it free |
| `Draft.TransferConserves` | src/draft.rs:54-113 | a refused transfer moves nothing; a successful one moves exactly the listed uploads with path and size and conserves the bytes |
| `Draft.ReserveIsAllOrNothing` | src/draft.rs:316-377 | a refused reservation flags nothing, a granted one flags exactly its ids |
| `DraftOutcomes.SweptIff` | src/draft.rs:630-677 | a sweep drops exactly the scopes whose hour has passed, that hold nothing reserved and whose directory holds no other scope's upload, with their files and keys |
| `DraftOutcomes.OpenAnswers` | src/draft.rs:202-243 | a client gets the scope it has or a new empty one for an hour, and the same again within the hour; only a closed store refuses |
| `DraftOutcomes.BeginAnswers` | src/draft.rs:245-314 | an upload begins if and only if it is of 1 byte to 8 MiB and its scope is usable |
| `DraftOutcomes.FinishAnswers` | src/draft.rs:453-507 | an upload is registered, unreserved and in its own scope, if and only if it is complete, sound, in a usable scope and within 128 MiB; else it is gone |
| `DraftOutcomes.ReserveAnswers` | src/draft.rs:316-377 | a reservation is granted if and only if it names at most eight different unheld uploads of a usable scope, of 32 MiB together; it hands out their paths in the order named |
| `DraftOutcomes.RollbackLeaves` | src/draft.rs:379-389 | a rollback lowers the flags of exactly the listed uploads of the scope |
| `DraftOutcomes.CommitLeaves` | src/draft.rs:391-421 | a commit unregisters exactly the listed uploads, gives their bytes back and marks exactly their directories |
| `DraftOutcomes.TransferAnswers` | src/draft.rs:54-113 | a transfer is granted if and only if its uploads are distinct and reserved, both scopes are the caller's, the destination is alive, and counts and bytes stay within the limits |
| `DraftOutcomes.RefreshLeaves` | src/draft.rs:54-113 | before a transfer a destination that holds a reserved upload is given another hour, whatever the answer |
| `DraftOutcomes.RemovalLeaves` | src/draft.rs:391-421 | the second half of a commit removes a marked directory and nothing else |
| `DraftOutcomes.CloseLeaves` | src/draft/staging.rs:75-90 | closing drops every scope and file unless an upload is between its two halves |
| `DraftOutcomes.ClosedRefuses` | src/draft.rs:202-212 | a closed store refuses to open, begin or reserve |
| `DraftStore.DraftImageStore.SweepExpired` | src/draft.rs:630-677 | list the expired scopes, then remove them, equals Sweep |
| `DraftStore.DraftImageStore.OpenDraft` | src/draft.rs:202-243 | opening over the mutable maps equals OpenScope |
| `DraftStore.DraftImageStore.FinishUpload` | src/draft.rs:453-507 | finishing a writer equals Finish, error branches included |
| `DraftStore.DraftImageStore.DropWriter` | src/draft.rs:510-519 | dropping a writer equals Abandon |
| `DraftStore.DraftImageStore.ReserveUploads` | src/draft.rs:316-377 | check all, then flag all, equals Reserve |
| `DraftStore.DraftImageStore.RollbackUploads` | src/draft.rs:379-389 | the flag loop equals Rollback |
| `DraftStore.DraftImageStore.CommitUploads` | src/draft.rs:391-407 | the unregistering loop equals Commit |
| `DraftStore.DraftImageStore.TransferUploads` | src/draft.rs:54-113 | check all, then move one by one, equals Transfer |
| `DraftStore.CheckUploads` | src/draft.rs:604-628 | the validation loop accepts exactly when all ids are present with the wanted flag, and sums their bytes |
| `InstructionPaths.SortedUnique` | src/project_instructions.rs:309-316 | the order of directories admits one sorted listing of a set |
| `InstructionPaths.ListingOfSubset` | src/project_instructions.rs:309-316 | listing a subset is picking its members from the listing of the whole |
| `ProjectInstructions.TextFilesDecode` | src/project_instructions.rs:319-346 | no UTF-8 file is refused wherever 64 KiB falls; the characters that fit are kept |
| `ProjectInstructions.ShortFileAcceptedIff` | src/project_instructions.rs:319-346 | a file of at most 64 KiB is accepted if and only if it is UTF-8 |
| `ProjectInstructions.GreedyStable` | src/project_instructions.rs:139-167 | dropping losing directories, or rediscovering any, never changes which sources win |
| `ProjectInstructions.WinsIff` | src/project_instructions.rs:151-167 | a source wins if and only if it fits beside the more specific winners |
| `ProjectInstructions.SelectionIsSmall` | src/project_instructions.rs:151-167 | at most 512 sources win, so the 1024-scope check never refuses a written header |
| `ProjectInstructions.DisplayReadsBack` | src/project_instructions.rs:380-387 | a directory without backslashes is read back from its text |
| `ProjectInstructions.RestoreKeepsSelectionIff` | src/project_instructions.rs:229-317 | with files unchanged, a restore selects sources of the same directories if and only if no selected directory has a backslash in a name |
| `InstructionRestore.PicksIff` | src/project_instructions.rs:139-167 | a list of sources is what the budget picks if and only if every directory reads as its winner, holds nothing, or holds a source that does not fit beside the more specific winners |
| `InstructionRestore.RestoreShowsTheSameIff` | src/project_instructions.rs:229-317 | the restored snapshot shows the same paths, scopes and texts if and only if every stored scope reads back as a directory that displays alike, in the same order, and the directories they name bear the selection out |
| `InstructionRestore.NoBackslashComesBack` | src/project_instructions.rs:229-317 | that holds whenever no selected directory has a backslash in a name |
| `InstructionRestore.SlantedScopeIsLost` | src/project_instructions.rs:380-383 | a directory `a\b` alone: its snapshot is lost |
| `InstructionRestore.SlantedScopeComesBack` | src/project_instructions.rs:380-383 | with the same file in `a/b` the snapshot comes back from the other directory |
| `ProjectInstructions.RestoredTargetsAreValid` | src/project_instructions.rs:229-267 | scopes accepted from a header are safe, normal and rooted |
| `InstructionService.Ancestors` | src/project_instructions.rs:283-317 | the component loops return the sorted ancestor closure, or refuse exactly on an unsafe scope or more than 4096 directories |
| `InstructionService.ReadScopeLoop` | src/project_instructions.rs:180-213 | the candidate loop: first existing file wins, blank means none, unreadable is an error |
| `InstructionService.GatherLoop` | src/project_instructions.rs:144-150 | sources in directory order, or the first error |
| `InstructionService.SelectLoop` | src/project_instructions.rs:151-168 | the reversed budget loop computes Select |
| `InstructionService.RestorableLoop` | src/project_instructions.rs:238-267 | stored scopes are accepted exactly when few enough, well formed and safe |
| `InstructionService.ProjectInstructionService.Recompute` | src/project_instructions.rs:139-178 | a success publishes the new selection and clears the error; a failure changes nothing |
| `InstructionService.ProjectInstructionService.ObserveToolResult` | src/project_instructions.rs:53-137 | scopes grow by the first 256 resolved paths or not at all; a failure keeps the old snapshot beside an error |
| `InstructionService.ProjectInstructionService.RestoreFromHeader` | src/project_instructions.rs:229-280 | refused scopes change nothing; accepted ones replace the targets, and an error of recomputation is kept |
| `InstructionAnswers.ReadAnswers` | src/project_instructions.rs:180-216 | `AGENTS.md` speaks for its directory, `CLAUDE.md` only where there is none, and a blank file for nobody |
| `InstructionAnswers.TextIsRead` | src/project_instructions.rs:180-216 | a text that is not blank, in a file of at most 64 KiB, is read as it stands |
| `InstructionAnswers.SnapshotShows` | src/project_instructions.rs:139-178 | a snapshot shows, from the root down, what tracked directories say, within 128 KiB of texts, paths and 256 bytes each |
| `InstructionAnswers.ShownIff` | src/project_instructions.rs:154-170 | a tracked directory with something to say is shown if and only if it fits beside the more specific ones shown |
| `InstructionService.ObservedIff` | src/project_instructions.rs:89-137 | a directory is tracked if and only if it is among the first 256 paths reported |
| `Utf8.CompleteIff` | src/language_intelligence.rs:871-872 | the decoder accepts exactly the encodings of texts |
| `Utf8.DecodeOfPrefix` | src/project_instructions.rs:319-332 | encoded text cut anywhere decodes to the characters that fit and is never called broken |
| `Decimal.DigitsReadBack` | src/language_intelligence.rs:883-888 | a printed number parses back, or overflows, exactly |
| `LspFraming.HeaderAnnounces` | src/language_intelligence.rs:699-713 | the header the writer prints announces the length it was given |
| `LspFraming.BodyIsStable` | src/language_intelligence.rs:856-906 | a frame found in a buffer is found the same with any bytes behind it |
| `LspStream.FrameExtracts` | src/language_intelligence.rs:856-906 | a whole frame yields its body and leaves what follows |
| `LspStream.PartOfFramePends` | src/language_intelligence.rs:856-906 | any proper part of a frame is waited on, never refused |
| `LspStream.ChunkingIsInvisible` | src/language_intelligence.rs:815-854 | for any bytes: reading in chunks without an error gives what one read of everything gives |
| `LspStream.FramesArrive` | src/language_intelligence.rs:699-713 | for any bodies of at most 4 MiB and any chunking: exactly the bodies in order, no error, empty buffer |
| `LspStream.CapIsHarmlessIff` | src/language_intelligence.rs:847-852 | the buffer cap refuses no chunking of the writer's frames if and only if every frame leaves room for the chunk that completes it |
| `LspStream.SmallFramesAreRoomy` | src/language_intelligence.rs:847-852 | frames of at most 4 MiB and one byte always leave room |
| `LspStream.CapCanRefuse` | src/language_intelligence.rs:847-852 | a full frame with a long one behind it does not |
| `LspRefusal.RefusalIsFinalIff` | src/language_intelligence.rs:856-869 | a refused buffer stays refused whatever arrives if and only if it is not cut inside the blank line of an acceptable header |
| `LspRefusal.CutBuffersAreNearTheLimit` | src/language_intelligence.rs:856-869 | the affected headers are 65534 to 65536 bytes long, with 65537 to 65539 bytes buffered |
| `LspRefusal.LongHeaderCutIsRefused` | src/language_intelligence.rs:856-869 | a 65536-byte header and one byte of its blank line is refused; with the other three it is accepted |
| `LspStream.ReadTakesFirst` | src/language_intelligence.rs:815-854 | one read takes exactly the first message still to come |
| `LspStream.ClientReadsWhatWasSent` | src/language_intelligence.rs:815-854 | message by message the client reads what was framed |
| `LspHeaders.AnnouncedIff` | src/language_intelligence.rs:856-905 | a header announces a length if and only if it is at most 64 KiB of text whose lines are all fields, exactly one named Content-Length in any case, with a number of at most 4 MiB |
| `LspHeaders.LinesJoin` | src/language_intelligence.rs:874 | the lines of a header are its parts between line ends, and nothing is lost |
| `LspSession.InitKeeps` | src/language_intelligence.rs:588-662 | the handshake, failing anywhere, keeps client and server in agreement |
| `LspSession.SyncKeeps` | src/language_intelligence.rs:543-586 | after a sync the server's copy has the hash of the source; a failed write records nothing |
| `LspSession.AskKeeps` | src/language_intelligence.rs:468-530 | requests and up to four retries keep agreement and see the source |
| `LspSession.QueryKeeps` | src/language_intelligence.rs:468-530 | one query, whatever fails, keeps agreement, and every request it sends finds its own text on the server |
| `LspSession.RunAgrees` | src/language_intelligence.rs:468-586 | every run of queries satisfies a strict server that accepts only the version protocol |
| `LspSession.RequestSeesExactText` | src/language_intelligence.rs:468-586 | with an injective hash a request finds exactly the text its query read |
| `LspSession.AcceptedNotesAreNumbered` | src/language_intelligence.rs:543-586 | what the strict server accepts is one opening at 1 and changes at 2, 3, 4, ... |
| `LspSession.VersionsCount` | src/language_intelligence.rs:543-586 | in every run each document is opened once at version 1 and changed at 2, 3, 4, ... |
| `LspSession.IdsRise` | src/language_intelligence.rs:144-148 | no request id is used twice before the 64-bit counter can wrap |
| `LspSession.ShutdownIsAccepted` | src/language_intelligence.rs:664-697 | a shutdown is accepted whatever fails and closes every document when its writes succeed |
| `LspRequests.QuerySends` | src/language_intelligence.rs:468-541 | everything a query writes, in order: a handshake if there was none, a note if the server lacks the text, up to five requests that ask exactly the query's operation, document, line and character under successive ids, and a cancellation of the last; it succeeds if and only if the last was answered |
| `LspRequests.AskSends` | src/language_intelligence.rs:476-534 | one more request follows exactly while the reply was "content modified", time is left and fewer than five were sent |
| `LspRequests.NoteSends` | src/language_intelligence.rs:543-586 | the document is opened with its language at version 1, or changed to the next version with the new text, or not mentioned |
| `LspRequests.GreetingSends` | src/language_intelligence.rs:588-662 | the handshake, message by message, under any failure |
| `LspClientObject.LspClient.ExtractFrame` | src/language_intelligence.rs:856-906 | drains one frame or leaves the buffer untouched, equal to Extract |
| `LspClientObject.LspClient.ReadMessage` | src/language_intelligence.rs:815-854 | the read loop equals LspStream.ReadMessage |
| `LspClientObject.LspClient.Sync` | src/language_intelligence.rs:543-586 | the sync over mutable fields equals SyncOpenDocument |
| `LspClientObject.LspClient.Handshake` | src/language_intelligence.rs:588-662 | the handshake over mutable fields equals EnsureInitialized |
| `LspClientObject.LspClient.Query` | src/language_intelligence.rs:468-530 | the query with its retry loop equals RunQuery |
| `LspClientObject.LspClient.NextRequestId` | src/language_intelligence.rs:144-148 | returns the id and steps over zero at the wrap |
| `LspClientObject.ReadFields` | src/language_intelligence.rs:873-893 | the header loop computes ContentLength: colon in every line, one length at most |
| `LspClientObject.Utf16Boundary` | src/language_intelligence.rs:451-466 | true if and only if some whole characters fill the offset |
| `PluginHost.StepKeeps` | src/plugin_host.rs:597-976 | every step of every call, install, clear and cancel keeps the account of every run |
| `PluginHost.LedgerIsExact` | src/plugin_host.rs:318-403 | for every interleaving: requests equal admitted calls and stay within 64; the token counter is settled usage plus other reservations, or saturated above every cap |
| `PluginHost.AdmittedIff` | src/plugin_host.rs:380-393 | a reservation is admitted if and only if the true ledger stays within the cap and a request is left, saturation or not |
| `PluginHost.AutomaticWorkNeverSamples` | src/plugin_host.rs:333-340 | the run allocated for automatic work never has an admitted call, because caps never change |
| `PluginHost.SettleStaysExactIff` | src/plugin_host.rs:397-403 | settling keeps an exact counter exact if and only if the sum fits 64 bits |
| `PluginSaturation.SaturationLosesTokens` | src/plugin_host.rs:397-403 | a run of twelve steps after which the counter is one short of the ledger |
| `PluginDecisions.ModelIsCalledIff` | src/plugin_host.rs:868-897 | in every run the model is called for a call if and only if it had full access, or was allowed and its run was still current at the second look |
| `PluginDecisions.ApprovalTrace` | src/plugin_host.rs:868-897 | a call that went on, or answered or settled since, goes back to such a decision taken while it held its reservation |
| `PluginDecisions.DeniedForGood` | src/plugin_host.rs:886-896 | any decision but Allow keeps a call out for good, its reservation on the ledger |
| `PluginDecisions.AllowedThenLookedAt` | src/plugin_host.rs:876-885 | an allowed call goes on if its run is current at the second look, and is out for good if not |
| `PluginDecisions.AdmissionTrace` | src/plugin_host.rs:809-866 | an admitted call entered a run not cancelled and holds the size it reserved for: a token for four characters begun and at most 8192 |
| `PluginDecisions.SettledTrace` | src/plugin_host.rs:938-985 | a settled call charged exactly the usage reported, found current, of an answer to an approved call |
| `PluginDecisions.KeptTrace` | src/plugin_host.rs:868-960 | the five reasons why a reservation stays on the ledger |
| `PluginDecisions.PromptIsChargedIff` | src/plugin_host.rs:1025-1061 | a form is charged if and only if its run was charged for fewer than 64 |
| `PluginHost.CallTouchesOnlyItsRun` | src/plugin_host.rs:809-976 | a call changes only itself and the run whose epoch it captured, and is frozen once settled, kept or refused |
| `PluginHost.EndedForGood` | src/plugin_host.rs:597-647 | a run that was cancelled, cleared or replaced never becomes current again |
| `PluginHost.LateCallsNeverSettle` | src/plugin_host.rs:945-966 | a call that had not passed its last check when its run ended never settles |
| `PluginHost.LateApprovalsStartNothing` | src/plugin_host.rs:872-895 | an approval after the run ended starts no model call |
| `PluginHost.ReconcileIsExact` | src/plugin_host.rs:397-403 | replacing a reservation by usage is exact, or saturated within the sum of reservations of the top |
| `PluginHost.Reservation` | src/plugin_host.rs:407-419 | one token for every four characters, rounded up, plus the clamped output |
| `PluginHost.BoundedHistory` | src/plugin_host.rs:421-432 | the longest ending of the last 64 items that fits |
| `PluginHost.SamplingBudget.TryReserve` | src/plugin_host.rs:380-393 | reserving over mutable counters equals Reserve, all or nothing |
| `PluginHost.SamplingBudget.Settle` | src/plugin_host.rs:397-403 | reconciling over mutable counters equals Reconcile |
| `PluginHost.SamplingBudget.ChargeElicitation` | src/plugin_host.rs:364-375 | a prompt is counted or refused at the cap |
| `TestWaits.ReferencesAreMonotone` | scripts/check-test-waits.py:107-144 | inheriting the test flag never loses a reference and never hides an unclosed call |
| `TestWaits.ScanIsMonotone` | scripts/check-test-waits.py:107-144 | through the brace stack the flagged scan is at least as much of a test everywhere |
| `TestWaits.LeastExists` | scripts/check-test-waits.py:165-180 | monotone references have a least closed set |
| `TestWaits.ScanFile` | scripts/check-test-waits.py:107-144 | the event loop computes the scan, or stops at an unclosed call |
| `TestWaits.Inventory` | scripts/check-test-waits.py:165-180 | the worklist ends; the inherited set is the least closed one, the calls are those of scans with the final flags, and it raises if and only if one of those scans does |
| `TestWaitSites.ScanRecords` | scripts/check-test-waits.py:107-144 | told from the braces: a call is recorded if and only if it is closed and the file or a block around it is a test; its scope is the named blocks around it and its number counts equal sites before it; references likewise; an unclosed call in test code raises |
| `TestWaitSites.StackMirrors` | scripts/check-test-waits.py:110-124 | the stack is the braces still open, each a test when it or one around it is |
| `TestWaitSites.RaisesIff` | scripts/check-test-waits.py:165-180 | the inventory raises if and only if some call in test code of some file is not closed |
| `TestMask.MaskNonCode` | scripts/check-test-waits.py:19-65 | the index loop computes Mask |
| `TestMask.MaskShape` | scripts/check-test-waits.py:19-65 | offsets and line breaks stay; every other character is kept or blanked |
| `TestMask.MaskIsIdempotent` | scripts/check-test-waits.py:19-65 | masking masked text changes nothing |
| `TestMask.MaskFailsIff` | scripts/check-test-waits.py:50-62 | the script indexes past its list if and only if the text ends in an odd run of backslashes inside a plain string it came to open |
| `TestMask.NoBackslashNoFailure` | scripts/check-test-waits.py:50-62 | a text that does not end in a backslash is never refused |
| `TestMask.LoneBackslashFails` | scripts/check-test-waits.py:50-62 | an open string and one backslash is such a text |
| `TestMask.CallEnd` | scripts/check-test-waits.py:81-90 | the first point where the parentheses close, or none |
| `TestMaskItems.MaskedItems` | scripts/check-test-waits.py:19-65 | in a text made of code, line comments, nested block comments, raw strings, characters and strings with escapes, exactly the code is kept |
| `MemoryHost.FileIsAlwaysValid` | src/memory.rs:415-431 | however many services share the file and whatever their clocks do, the file passes validation |
| `MemoryHost.FailuresAreQuietIff` | src/memory.rs:415-431 | over every run of any number of services on one file: all failed operations change nothing if and only if no update was stamped before the creation of its record |
| `Memory.FailureChangesNothingIff` | src/memory.rs:415-431 | the step behind it: in a valid store a failure changes nothing exactly outside that guard |
| `MemoryWitnesses.ClockRunsBackAndStays` | src/memory.rs:415-431 | a run in which such an update stays in the process, and a later, properly stamped add fails and stays too |
| `MemoryHost.SteadyNeverRunsBack` | src/memory.rs:203-234 | with a steady clock no update meets that guard, however stale the map of its service |
| `Memory.UpdateIsValidIff` | src/memory.rs:203-234 | an updated store is valid if and only if the clock is not before the creation |
| `Memory.NewRecordIsValid` | src/memory.rs:168-201 | an added record passes validation and is visible to its project |
| `MemoryHost.FreshMatchesTheFile` | src/memory.rs:415-431 | with a steady clock a service holds exactly the file whenever no other has committed since it opened or last committed |
| `Memory.StepOutcome` | src/memory.rs:168-253 | a success replaces, adds or drops one id with the trimmed text; an update raises the revision by exactly one and leaves the origin alone |
| `Memory.ForeignIsUntouched` | src/memory.rs:433-444 | no operation changes, drops, adds or returns a record its project cannot see in the map of its own service |
| `MemoryHost.CommitIsIsolatedIff` | src/memory.rs:415-431 | a successful commit leaves the records its project cannot see as the file had them if and only if its map and the file agree on those records |
| `MemoryHost.OtherProjectsAreUntouched` | src/memory.rs:415-444 | over every run, a step of a service leaves them so whenever no other has committed since it opened or last committed, whatever the clocks do |
| `MemoryWitnesses.StaleMapDropsRecord` | src/plugins/context/memory.rs:46-50 | two projects open on the empty file: one adds a record, the other then adds its own, and the first record is gone from the file |
| `Memory.UpdateNamesFileIff` | src/memory.rs:203-234 | an accepted update names the file's revision if and only if map and file hold the record at one revision, and then is one step on from the file's copy |
| `MemoryHost.NoLostUpdate` | src/memory.rs:203-253 | after an update at a revision nothing naming that or an older revision succeeds, across projects and restarts, as long as each commit is by a service that no other has overtaken |
| `MemoryWitnesses.BothUpdatesSucceed` | src/memory.rs:203-234 | two services that hold a user record as the file does can both update it at that revision, and the first text is gone |
| `MemoryWitnesses.UpdatesRace` | src/application/composition.rs:564-567 | a run from the empty file in which that happens, and then the overtaken service replaces a text it never saw |
| `MemoryAnswers.AddAnswers` | src/memory.rs:168-201 | an add is accepted if and only if content and source are fit, a file is cited only by a project with its digest known, and there is room; every field of the record |
| `MemoryAnswers.StoredRecordsAre` | src/memory.rs:511-563 | the file passes validation if and only if it has at most 1000 records, each with trimmed texts, an owner, a digest of its content and dates in order |
| `MemoryAnswers.UpdateAnswers` | src/memory.rs:203-234 | an update is accepted if and only if the content is fit, the record is in the caller's hand at that revision and the clock is not before its creation |
| `MemoryAnswers.DeleteAnswers` | src/memory.rs:236-253 | a delete is accepted if and only if the record is in the caller's hand at that revision |
| `MemoryServiceObject.MemoryService.AddRecord` | src/memory.rs:168-201 | adding over the mutable map equals Add |
| `MemoryServiceObject.MemoryService.UpdateRecord` | src/memory.rs:203-234 | updating over the mutable map equals Update |
| `MemoryServiceObject.MemoryService.DeleteRecord` | src/memory.rs:236-253 | deleting over the mutable map equals Delete |
| `MemoryServiceObject.MemoryService.Finish` | src/memory.rs:415-431 | validate, write, restore the backup on a failed write only |
| `MemoryServiceObject.MemoryService.ValidateMemoryFile` | src/memory.rs:511-563 | the record loop accepts exactly valid files |
| `MemoryServiceObject.MemoryService.Search` | src/memory.rs:299-361 | refused exactly on a blank or long query; else the visible matching records, at most ten, the best that fit the byte budget, equal to Hits |
| `MemoryServiceObject.MemoryService.Injection` | src/memory.rs:363-413 | refused if and only if the prompt is blank; else the longest run of leading hits whose lines fit 8 KiB |
| `MemoryServiceObject.HitsAreVisible` | src/memory.rs:433-444 | no hit belongs to another project, and hits stay within count and bytes |
| `MemoryServiceObject.PickIff` | src/memory.rs:340-359 | a hit is passed over only for want of room beside better ones |
| `MemoryAnswers.BestAreTaken` | src/memory.rs:324-359 | over a ranked list, by score, then time, then id: a search looks at the best matches, one to ten as asked, every other match is worse, and hits come in rank order |
| `MemoryServiceObject.InjectLoop` | src/memory.rs:374-392 | lines in order, stopping before the first that does not fit |
| `MemoryServiceObject.BoundedInjectionQuery` | src/memory.rs:608-622 | at most 4096 bytes: the prompt itself, or what fits at its front and its end |
| `MemoryServiceObject.BoundedQueryIsSearchableIff` | src/memory.rs:608-622 | the bounded query is one `search` accepts if and only if the prompt is not blank |
| `Message.PreimageReadsBack` | src/message.rs:157-182 | a decoder inverts the hashed byte string for any number of blocks and references |
| `Message.PreimageIsUnique` | src/message.rs:157-182 | two messages feed the hash the same bytes if and only if texts, image ids and the lossy texts of the staged paths are the same in order |
| `Message.TextPathsAreUnique` | src/message.rs:174-179 | for paths that are text, the same bytes mean the same paths |
| `Message.PathsCanCollide` | src/message.rs:174-179 | two different paths that are no text feed the hash the same bytes |
| `Utf8.LossyIsExactIff` | src/message.rs:174-179 | the lossy text stands for exactly the bytes of the path if and only if they are UTF-8 |
| `Message.FeedPayload` | src/message.rs:157-182 | the update loop feeds exactly that byte string |
| `Message.PendingMessage.FreezeRequestDigest` | src/message.rs:298-305 | freezing keeps the digest a retry is compared with |
| `Message.PendingMessage.ResolveStagedAttachments` | src/message.rs:310-313 | replacing upload ids by paths leaves the digest alone |
| `Search.Collect` | src/search.rs:105-151 | the nested loops report every match in file and line order, or refuse exactly beyond the byte or match limit |
| `SearchMatches.MatchesAre` | src/search.rs:104-151 | every matching line of every text file of at most 1 MiB is reported once, in order, under its number from one, cut to 1 KiB |
| `Search.CursorReadsBack` | src/search.rs:322-358 | parse of encode is the cursor, for every cursor with well-formed digests |
| `Search.CursorIsShort` | src/search.rs:322-358 | an encoded cursor takes at most 153 bytes |
| `Search.ParsedTextIsCanonicalIff` | src/search.rs:322-358 | an accepted text is its cursor's own text if and only if its offset is spelled canonically |
| `Search.PagesAreTheWholeList` | src/search.rs:154-175 | following cursors with any page sizes gives every match once, in order, and stops |
| `Search.CursorAcceptedIff` | src/search.rs:154-163 | a cursor is accepted on another listing if and only if query, snapshot and range agree |
| `SearchSnapshot.SnapshotIsUnique` | src/search.rs:104-115 | two lists of read files feed the snapshot hash the same bytes, for paths without NUL, if and only if paths, lengths and content digests are the same in order |
| `SearchSnapshot.CursorMeansSameFilesIff` | src/search.rs:154-163 | unless the hashes collide on the two, a cursor is accepted by the same query over other files if and only if they are the same files with the same bytes in the same order |
| `SearchSnapshot.FeedSnapshot` | src/search.rs:104-115 | the update loop feeds exactly that byte string |
| `Text.TruncateKeepsWhatFits` | src/search.rs:651-660 | truncation keeps a text whole if and only if it fits |
| `Text.TrimTakesBlanks` | src/goal.rs:982-988 | trimming takes nothing but white space from the two ends |

## Left out

- File I/O, capability handles, symbolic links, permissions, fsync: directories are sets of paths, and every write succeeds or fails as a whole.
- SHA-256, UUID generation, JSON encoding and regular expressions: hashes are functions (assumed injective only where a member says so), new ids are fresh by assumption, serialised sizes are parameters.
- Clocks, deadlines and sleeps: times and "is there time left" are parameters.
- Wording of errors, prompts and localisation; errors carry a short text of the model's own.
- Lock poisoning and the order in which threads get a lock.
- HTTP serving, terminal and web interfaces, command dispatch, permission and preset tables, image headers: finite or data-like.
- src/goal.rs: contents of acceptance files and the prompt of `injection`; a verification outcome is a parameter. A journal that no longer replays is modelled as a projection that stays at its last accepted state.
- Goal.Materialize: a write that fails leaves the session attached with an empty journal; the session store is not part of this model.
- src/draft.rs: clipboard staging and its expiry, the syntax of client draft ids and display names, and image inspection, whose verdict is a parameter. Failing removals are modelled as successful.
- DraftModel.Close: closing while a writer is between its two halves is not modelled.
- src/redact.rs: `redact_known_values` and `plugin_config_values`, which replace given strings.
- src/apply_patch.rs: reading and writing the patched file.
- src/project_instructions.rs: the rendered snapshot text and digests, which are functions of the selected sources; resolving reported paths to directories; two calls interleaved inside one recomputation; directory names that are not UTF-8, which `to_string_lossy` (line 381) displays with replacement characters, so that their scopes do not read back either.
- src/language_intelligence.rs: configuration, result normalisation, answers to server requests, bytes left behind by a failed write (the client is discarded after any failure), the 64-bit limit of document versions.
- LspSession.IdsRise: six ids at most are taken by a query, so the bound on the number of queries is the one at which the counter could wrap.
- src/plugin_host.rs: host tools, context subscribers, run metadata, the text of approvals, field dialogs of a form, the per-run usage cell beside the ledger, and the wrap of the 64-bit epoch. Reading the cancel flag and the epoch counts as one step.
- scripts/check-test-waits.py: the regular expressions for events and headers, path resolution of modules, fingerprints and the allowlist. A file is the sequence of its events, and references arrive normalised.
- src/memory.rs: splitting a query into terms, lower-casing, sorting by rank and staleness; the ranked order and the score are parameters. Timestamps are points on a line that always print validly. A file is never torn and never over the size limit of loading, and opening on a file that cannot be read is a step that does nothing.
- src/message.rs: serde shapes, receipts and projection to provider parts. Paths are bytes, as on Unix.
- src/search.rs: walking directories, globs, hidden files and what the query digest is made of; a candidate is its path and the bytes that were read, at most one more than the file limit.
