# Verified model of the LTE element manager's configuration and fault core

This project models the configuration and fault management core of the LTE element manager and
proves what its design promises:

- the **overlay engine** that patches single values in srsRAN's `rr.conf`, `sib.conf`, `rb.conf`
  (libconfig syntax) and `enb.conf` (INI syntax) and preserves every other byte, together with the
  separately written scanners that read the same files back;
- the **candidate/running datastores**: edits, preview, discard, the two-phase commit with backup,
  staging, rename and rollback, session locks with a time to live, and last-editor tracking
  (sections 7.5, 7.6 and 8.3 of RFC 6241);
- the **threshold-crossing alarm machine** with hysteresis, time-to-trigger and deduplication, and
  the alarm store that must agree with it;
- **end-of-message framing** (section 4.3 of RFC 6242), **greedy wildcard matching** and the
  **bounded notification queue**.

## How the modules fit together

One automaton, `Lexer.Next`, gives every position of a text its lexical mode. Every scanner is a
loop with index jumps (`Renderer`, `TextParser`, `Scanning`) proved equal to a specification that
knows only positions and modes. `Splice`, `Cutting`, `Brackets` and `Twins` say how an edit of one
stretch of a text moves through assignments, values and matching brackets. On them rest

- `Overlay` and `Batch` (patch round trip, non-interference, batches),
- `Qci*` and `RbBatch` (profiles of `rb.conf`: replacement, insertion, whole batches),
- `Ini*` (`enb.conf`: replacement, insertion, new sections, whole batches).

`Config`, `Edits` and `Reduction` model the editable configuration; `Routing` and `Rendering` map its
leaves to files; `Store` and `Commits` the store and the commit; `Locks` and `LockRuns` the lock
table; `Protocol`, `Manager` and `Isolation` the NETCONF operations. The two halves meet in
`Agreement` (`rr.conf`, `sib.conf`), `RbAgreement` (`rb.conf`) and `EnbAgreement` (`enb.conf`): what
is on disk reads back as the running configuration, over every run. `SibBlocks`, `SibShape` and
`SibAgreement` say the same of `sib.conf` for its own reader, which looks inside named blocks, and
`RrLines`, `RrReader`, `RrShape` and `RrAgreement` of `rr.conf` for its own, which goes line by line.
`Blocked` says when a commit can go through at all, `Interleaving` and `Overlapping` what happens when
other requests, or other commits, fall between the two halves of a commit, `Departure` what becomes of
the candidate of a session that goes stale, `PowerKey` what the one leaf with two names reads as.
`Examples`, `IniExamples` and `RrExample` hold texts at which promises fail; `RbExample`, `SibExample`
and `StartState` a store from which the theorems about runs start. `Tca`, `TcaEngine` and `Alarms` are the alarm
machine; `Framing`, `Wildcard` and `Notifications` stand alone.

Code that updates state in place is modelled by classes and loops (`Locks.LockManager`,
`Store.ConfigStore`, `Manager.ConfigManager`, `TcaEngine.Engine`, `Alarms.Store`,
`Notifications.NotificationQueue`, `Framing.Reader`, the scanners); each method is proved against a
function of the old state, and the properties of whole runs are proved about those functions.

## Where the code falls short of the promise

For each of these the condition under which the promise holds is proved exact, and the failing case
is shown to occur:

- A patched libconfig value reads back as written if and only if the old value was not directly a
  comment (`Overlay.PatchRoundTrip`); at `k = # c` it does not (`Examples.CommentedIsNotReadBack`).
- A patched `enb.conf` reads back as written if and only if the text ends in a line feed, the new
  line goes elsewhere than its end, or its last line is blank (`IniTheorem.IniRoundTrip`). Otherwise
  the new line is glued to the last one: setting `mnc` in `[enb]`, `mcc = 001` without a final line
  feed leaves `mnc` unset and `mcc` wrong (`IniExamples.UnfinishedLineIsGlued`).
- Patching `enb.conf` twice changes it again exactly when the value holds a `#`
  (`IniAgain.PatchAgain`, `IniExamples.HashIsCopied`).
- An edit is independent of the order of its changes if and only if it is refused or gives no leaf
  two different values (`Edits.ConfluenceIsExact`). Distinct keys do not ensure that: two spellings
  of one profile number address the same leaf (`Edits.SpellingsClash`, `Edits.TwoSpellings`).
- A failed edit leaves its dirty marks. Commits go through after it if and only if they would have
  before and every marked key can be written to its file (`Blocked.FailedEditBlocksCommit`); if not,
  every commit of every run fails until a reset (`Blocked.BlockedUntilReset`). An absent profile is
  one way to get there, a leaf that its file lacks another (`Blocked.AbsentProfileIsNotWritable`,
  `Blocked.FailedPowerEditBlocks`).
- The store is released between persisting and finalizing. A rollback restores the files exactly when
  every changed file is still marked dirty (`Commits.RollbackNeedsMarks`, `Commits.ResetInBetween`).
  After edits and resets in between, finalizing leaves files and running configuration in agreement
  exactly when the candidate of that moment has the persisted values at every leaf that the files
  hold (`Interleaving.LateFinalize`); one reset or edit breaks that (`Interleaving.ResetThenFinalize`,
  `Interleaving.EditThenFinalize`). The same holds, with the values that were persisted last, when other
  commits persist in between (`Overlapping.FinalizeAmongCommits`); and a rollback under another
  commit leaves old files behind a new running configuration, unless they happen to hold the same
  values (`Overlapping.RollbackAmongCommits`, `Overlapping.RollbackLosesPci`).
- A session that goes stale takes its candidate with it only if a sweep is the first to look
  (`Departure.FirstLookDecides`). A lock request or access check of another session removes stale locks
  and entries without a reset, and so costs a sweep its effect exactly when that would have had one
  (`Departure.LockHidesDeparture`, `Departure.AdmitHidesDeparture`); it can even be granted the
  candidate with the pending edit and commit it (`Departure.StrangerCommitsTheEdit`).
- Under a fresh candidate lock of the last editor, a sweep drops the candidate exactly when the
  editor's *running* lock or session entry is stale (`Isolation.StaleRunningLockDropsCandidate`);
  locking running first and candidate later is enough (`Isolation.OlderLockCostsTheEdit`).
- An unlock drops the candidate exactly when nobody else holds the datastore it names
  (`Isolation.UnlockDropsCandidate`), so another session drops it by unlocking a running datastore
  that is not locked (`Isolation.StrangerDropsCandidate`).
- The renderer writes `reference_signal_power` under that name while the reader looks for `rs_power`:
  after a successful commit the reader gives the running number if and only if it gave it before
  (`SibAgreement.PowerInItsBlock`, `PowerKey.PowerIsNotReadBack`, `Examples.ReaderSeesTheOldPower`),
  and a file without the renderer's name cannot take the edit (`PowerKey.PowerIsHeld`).
- Of the three measurement keys of `rr.conf` the renderer writes the first assignment and the reader
  takes the last: a new value is read back if and only if no acceptable line of the key follows or
  the last one already holds it (`RrShape.LastLineIsRead`, `RrExample.SecondOffsetIsRead`).
- The alarm store may be loaded with alarms that were active before a restart, while the engine starts
  idle. Engine and record agree on an alarm if and only if it was not active then or the engine has
  raised it since (`TcaEngine.AgreementAfterRestart`); until then it is never cleared
  (`TcaEngine.ClearIsMissed`).

## Model

| member | source | states |
|---|---|---|
| Lexer.AssignmentIsFirst | internal/ems/configuration/renderer.go:537-570 | no assignment to the key starts before the one the specification picks |
| Lexer.AssignmentIsUnique | internal/ems/configuration/renderer.go:537-570 | an assignment with none before it is the one the specification picks |
| Lexer.ExactToken | internal/ems/configuration/renderer.go:557-566 | the renderer's key comparison is equality of the whole token |
| Lexer.MatchIsUnique | internal/ems/configuration/renderer.go:491-528 | the first closing position, or none, is the match |
| Scanning.MatchIsFirstZero | internal/ems/configuration/renderer.go:491-528 | a delimiter closes exactly at the code position where the depth first returns to zero |
| Renderer.SkipString | internal/ems/configuration/renderer.go:652-667 | the escape-aware skip ends at the quote where the automaton leaves the string, or fails if it never does |
| Renderer.SkipLine | internal/ems/configuration/renderer.go:645-650 | the skip stops at the next line feed |
| Renderer.FindAssignment | internal/ems/configuration/renderer.go:537-570 | the jumping scanner returns the leftmost whole token in code that equals the key and is followed by '=', and fails only if there is none |
| Renderer.FindScalarValueEnd | internal/ems/configuration/renderer.go:572-593 | the value ends, trimmed, at the first terminator or comment in code; a bracket or an open string is no scalar |
| Renderer.FindMatchingBrace | internal/ems/configuration/renderer.go:491-528 | the flag-style loop returns the matching brace of the automaton |
| TextParser.SkipTextString | internal/ems/configuration/srsranconf/sib_rb_parser.go:381-400 | the reader's string skip ends where the automaton leaves the string |
| TextParser.EqualFold | internal/ems/configuration/srsranconf/sib_rb_parser.go:268-274 | key comparison without regard to ASCII case |
| TextParser.FindAssignmentInText | internal/ems/configuration/srsranconf/sib_rb_parser.go:247-279 | the reader's scanner returns the leftmost assignment in any case |
| TextParser.FindTextScalarValueEnd | internal/ems/configuration/srsranconf/sib_rb_parser.go:281-302 | the reader's value end is the renderer's |
| TextParser.FindMatchingDelimiter | internal/ems/configuration/srsranconf/sib_rb_parser.go:304-330 | the skip-style loop returns the matching delimiter of the automaton |
| TextParser.AssignmentScannersAgree | internal/ems/configuration/srsranconf/sib_rb_parser.go:247-279 | the two assignment scanners agree on a text exactly when the leftmost match in any case is spelled as the key is |
| TextParser.BraceMatchersAgree | internal/ems/configuration/renderer.go:491-528 | the flag-style and the skip-style matcher agree on every text |
| Overlay.PatchLibconfigScalarOptional | internal/ems/configuration/renderer.go:312-327 | the patch replaces exactly the value of the first assignment, or changes nothing and fails |
| Overlay.PatchRoundTrip | internal/ems/configuration/renderer.go:312-327 | after a successful patch with a safe value the same assignment is found, and it reads as the new value if and only if the old value was not directly a comment |
| Overlay.PatchedCommentIsRead | internal/ems/configuration/renderer.go:312-327 | in the other case the old comment becomes part of what is read |
| Examples.CommentedIsNotReadBack | internal/ems/configuration/renderer.go:312-327 | a text at which a patch that succeeds is not read back |
| Batch.PatchLeavesOthers | internal/ems/configuration/renderer.go:12-18 | a key assigned elsewhere is found at the moved place and reads as before |
| Batch.PatchKeepsLayout | internal/ems/configuration/renderer.go:304-327 | a patch keeps the managed keys of a file disjoint, sets its key and no other |
| Batch.RenderFile | internal/ems/configuration/renderer.go:39-75 | the render loop is the fold of the patches over the dirty keys of the file |
| Batch.BatchIsNonInterfering | internal/ems/configuration/renderer.go:39-75 | a batch succeeds exactly when every dirty key is readable; then each dirty key reads as its own value, every other key as before, and the file is well laid out again |
| Brackets.TwinMatch | internal/ems/configuration/renderer.go:491-528 | after an edit without brackets every delimiter closes at the moved place |
| Brackets.TwinBlocks | internal/ems/configuration/renderer.go:411-443 | after an edit without brackets the top-level blocks are the moved blocks |
| Brackets.SliceBlocks | internal/ems/configuration/srsranconf/sib_rb_parser.go:156-183 | the blocks of the section are the first blocks of the file |
| Qci.QciBlockHasKey | internal/ems/configuration/renderer.go:445-456 | a block carries a profile number when the text of its first qci value is that number |
| Qci.FirstWithIsFirst | internal/ems/configuration/renderer.go:411-443 | the block picked carries the number and no earlier block does |
| Qci.FindQciBlock | internal/ems/configuration/renderer.go:411-443 | the search returns the first top-level block after qci_config that carries the number |
| Qci.FindLibconfigContainer | internal/ems/configuration/renderer.go:471-489 | the first assignment to the name that opens a block, with its closing brace |
| Qci.InsertQciAssignment | internal/ems/configuration/renderer.go:458-469 | an indented line is put before the closing brace of the first container that is there |
| Qci.PatchQciProfile | internal/ems/configuration/renderer.go:329-355 | the block is patched or else extended, and put back in its place |
| Qci.ExtractTopLevelBraceObjects | internal/ems/configuration/srsranconf/sib_rb_parser.go:156-183 | the texts of all top-level blocks of the section, in order |
| Qci.ExtractParenSection | internal/ems/configuration/srsranconf/sib_rb_parser.go:140-154 | the parenthesised value of the first qci_config |
| Qci.FindInt32InBlock | internal/ems/configuration/srsranconf/sib_rb_parser.go:213-232 | the integer read for a key, zero if absent, clamped if too large |
| Qci.ParseRB | internal/ems/configuration/srsranconf/sib_rb_parser.go:102-138 | one profile per block, those without a number dropped, failure when none is left |
| QciFile.RendererFindsAgain | internal/ems/configuration/renderer.go:411-443 | after an edit of one block the renderer finds every profile where it was |
| QciProfiles.ObjectsAgain | internal/ems/configuration/srsranconf/sib_rb_parser.go:102-183 | after an edit of one block the reader extracts the same texts but for that block |
| QciProfiles.ReaderSeesTheEdit | internal/ems/configuration/srsranconf/sib_rb_parser.go:102-138 | exactly one field of exactly one profile changes |
| QciPatch.ReplacementEdits | internal/ems/configuration/renderer.go:345-347 | replacing a field reads back in both scanners and leaves every other managed key of the block alone |
| QciTheorem.InsertionEdits | internal/ems/configuration/renderer.go:458-469 | inserting an absent field reads back in both scanners and leaves every other managed key of the block alone |
| QciTheorem.InsertPlace | internal/ems/configuration/renderer.go:458-489 | an insertion happens exactly when a container is there, before its closing brace |
| QciTheorem.EditBlockIsExact | internal/ems/configuration/renderer.go:344-354 | editing a well-formed block succeeds exactly when the field or a container is there, and sets just the field |
| QciTheorem.PatchIsExact | internal/ems/configuration/renderer.go:329-355 | no byte outside the profile's block changes, the reader sees the new number in that field only, and the renderer finds every profile as before |
| QciTheorem.PatchIsTheEdit | internal/ems/configuration/srsranconf/sib_rb_parser.go:102-138 | the file's profiles change exactly as the candidate's profiles do under the same edit |
| QciReady.EditKeepsReady | internal/ems/configuration/renderer.go:329-355 | a block that is well formed for edits is so again after an edit |
| RbBatch.PatchReads | internal/ems/configuration/renderer.go:329-355 | what the reader gives for every profile and field after one patch |
| RbBatch.RbBatchIsExact | internal/ems/configuration/renderer.go:77-93 | after a batch that succeeds every named field reads as the candidate's value, every other field of every profile as before |
| RbBatch.RbBatchSucceeds | internal/ems/configuration/renderer.go:77-93 | a batch succeeds exactly when each of its keys names a field of a profile that the candidate holds and that the file, as it is before the batch, can take |
| RbExample.RbIsTame | internal/ems/configuration/srsranconf/sib_rb_parser.go:102-138 | a small rb.conf that is ready for edits and reads as one profile |
| Ini.PatchIniAssignment | internal/ems/configuration/renderer.go:259-302 | the loop over the lines replaces, inserts or appends as the specification says |
| Ini.StripInlineComment | internal/ems/configuration/srsranconf/parser.go:399-435 | the text before the first comment that is not inside a string, trimmed |
| Ini.ParseEnb | internal/ems/configuration/srsranconf/parser.go:83-130 | the fold of sections and keys, the last assignment winning |
| IniLines.EntryStands | internal/ems/configuration/srsranconf/parser.go:449-468 | what the reader takes for an assignment is a line the renderer takes for one |
| IniPlaces.FindPlaces | internal/ems/configuration/renderer.go:259-291 | the place found is the first line of the section that assigns the key, or a place inside the section, or none because no header opens it |
| IniValues.WrittenItem | internal/ems/configuration/renderer.go:707-720 | a written line is read as the key and exactly the value |
| IniTheorem.IniRoundTrip | internal/ems/configuration/renderer.go:259-302 | the reader returns the new value for that section and key and the old value for every other, if and only if the text ends in a line feed, the line goes elsewhere than its end, or its last line is blank |
| IniTheorem.FinishedRoundTrip | internal/ems/configuration/renderer.go:259-302 | so the round trip holds for every text that ends in a line feed |
| IniExamples.UnfinishedLineIsGlued | internal/ems/configuration/renderer.go:293-301 | a text without final line feed at which the new key has no value afterwards and the last one a wrong value |
| IniAgain.PatchAgain | internal/ems/configuration/renderer.go:259-302 | patching twice changes nothing more if and only if the value holds no '#' |
| IniExamples.HashIsCopied | internal/ems/configuration/renderer.go:707-720 | a value at which the second patch changes the text again |
| IniBatch.PatchKeepsNeat | internal/ems/configuration/renderer.go:259-302 | a patch keeps the text tidy for every managed section and key, whether it replaces, inserts or appends |
| Numbers.IntRoundTrip | internal/ems/configuration/srsranconf/sib_rb_parser.go:225-232 | a printed 32-bit integer is read back as itself |
| Numbers.NumberIsSafe | internal/ems/configuration/renderer.go:192-250 | a printed number is one scalar and contains no key |
| Numbers.QuoteIsSafe | internal/ems/configuration/renderer.go:219-220 | a quoted string is one scalar and contains no key, whatever it quotes |
| Config.PreviewEdit | internal/ems/configuration/store.go:316-331 | the preview is the edit's result and changes nothing |
| Edits.ApplyReads | internal/ems/configuration/store.go:580-1037 | what every leaf reads after one change, profile creation included |
| Edits.AllOrNothing | internal/ems/configuration/store.go:337-351 | an edit is accepted exactly when each of its changes is |
| Edits.EditIsConfluent | internal/ems/configuration/store.go:316-356 | if changes of one leaf give it one value, every order of the changes gives the same outcome, validation included, and the same readings |
| Edits.ConfluenceIsExact | internal/ems/configuration/store.go:316-356 | for every list of changes: the order does not matter if and only if a change is refused or no leaf gets two different values |
| Edits.SpellingsClash | internal/ems/configuration/renderer.go:385-409 | two spellings of a profile number are distinct keys whose order does not matter if and only if both give the same value |
| Edits.TwoSpellings | internal/ems/configuration/renderer.go:385-409 | such an edit whose order matters |
| Reduction.EditKeepsTyped | internal/ems/configuration/store.go:580-1037 | stored values keep their types and stored strings stay trimmed |
| Reduction.ExtractChanges | internal/ems/netconfcm/manager.go:311-341 | the loop keeps the leaves whose value differs from the candidate's |
| Reduction.DroppingUnchangedLeaves | internal/ems/netconfcm/manager.go:311-341 | editing with the reduced list gives the same outcome and the same candidate as editing with every leaf |
| Routing.RoutingIsComplete | internal/ems/configuration/store.go:551-578 | every accepted key marks exactly one file, and exactly that file's patch table knows it |
| SafeTexts.SoundTexts | internal/ems/configuration/renderer.go:192-250 | every value of a typed configuration is safe to write, given that of the two plain strings |
| Rendering.RenderEnbConfig | internal/ems/configuration/renderer.go:20-37 | the fold of the INI patches over the dirty keys |
| Rendering.RenderRbConfig | internal/ems/configuration/renderer.go:77-93 | the fold of the profile patches over the dirty keys, with their failures |
| Store.ConfigStore.constructor | internal/ems/configuration/store.go:255-262 | the candidate starts as the running configuration, with nothing dirty |
| Store.ConfigStore.Edit | internal/ems/configuration/store.go:337-356 | the candidate moves only if all changes apply and the result is valid; the marks of the applied prefix stay in any case |
| Store.ConfigStore.ResetCandidate | internal/ems/configuration/store.go:358-367 | candidate back to running, all marks cleared |
| Store.ConfigStore.BackupDirtyFiles | internal/ems/configuration/store.go:428-460 | the bytes of every dirty file, or failure if one cannot be read |
| Store.ConfigStore.WriteTemp | internal/ems/configuration/store.go:1146-1190 | a new temporary file, or none left behind unless its removal fails |
| Store.ConfigStore.StageDirtyFiles | internal/ems/configuration/store.go:467-522 | every dirty file rendered into its own temporary file, or no temporary file left |
| Store.ConfigStore.CommitStaged | internal/ems/configuration/store.go:1192-1207 | all renames succeed and install the rendered bytes, or the first failure stops them; other files untouched |
| Store.ConfigStore.CleanupStaged | internal/ems/configuration/store.go:1209-1217 | the staged temporary files are gone unless a removal fails |
| Store.ConfigStore.AtomicWrite | internal/ems/configuration/store.go:1134-1144 | the file is replaced as a whole or not at all |
| Store.ConfigStore.RestoreDirtyFiles | internal/ems/configuration/store.go:524-549 | files still marked dirty get their backup, no other file changes |
| Store.ConfigStore.PersistCandidate | internal/ems/configuration/store.go:381-404 | succeeds exactly when candidate, files and file steps allow; otherwise every file is as before; no temporary file survives |
| Store.ConfigStore.FinalizeCommit | internal/ems/configuration/store.go:406-420 | the valid candidate becomes running and the marks are cleared |
| Store.ConfigStore.RollbackPersist | internal/ems/configuration/store.go:422-426 | files still marked dirty get their backup, no other file changes |
| Commits.Commit | internal/ems/netconfcm/manager.go:192-229 | persist, restart, finalize or roll back as one outcome; no temporary file survives and clean files are untouched |
| Commits.CommitIsAtomic | internal/ems/configuration/store.go:381-426 | either all dirty files are rendered and the candidate runs, or all files and running are as before; the exact condition for each |
| Commits.RollbackNeedsMarks | internal/ems/netconfcm/manager.go:196-216 | a rollback restores the files if and only if every changed file is still marked dirty |
| Commits.ResetInBetween | internal/ems/netconfcm/manager.go:196-216 | a reset between persisting and rolling back leaves the new files with the old running configuration |
| Blocked.CommitGoesThrough | internal/ems/configuration/store.go:381-404 | without failing file steps a commit persists exactly when the candidate is valid, every dirty file is there and every dirty key can be written to its file |
| Blocked.FailedEditBlocksCommit | internal/ems/configuration/store.go:337-351 | a commit goes through after a failed edit if and only if it would have before and every key the edit marked can be written to its file |
| Blocked.AbsentProfileIsNotWritable | internal/ems/configuration/renderer.go:77-93 | a field of a profile that the candidate lacks cannot be written |
| Blocked.BlockedUntilReset | internal/ems/configuration/store.go:337-404 | once a dirty key cannot be written, over every run of edits and commits every commit fails, and files and running stay as they are |
| Blocked.FailedEditSticks | internal/ems/configuration/store.go:337-404 | so every run after a failed edit that marked such a key is blocked until a reset |
| Blocked.ResetUnblocks | internal/ems/configuration/store.go:358-367 | after a reset a valid running configuration can be committed |
| Blocked.FailedPowerEditBlocks | internal/ems/configuration/store.go:337-351 | an edit that fails at its second change and blocks every later commit, on a sib.conf that lacks its first key |
| Interleaving.PersistedAgrees | internal/ems/configuration/store.go:381-404 | the files that a commit installs agree with its candidate, all four of them |
| Interleaving.LateFinalize | internal/ems/netconfcm/manager.go:192-222 | after any edits and resets between persisting and finalizing, files and running agree if and only if the candidate of that moment has the persisted values at every leaf that the files hold |
| Interleaving.QuietInBetween | internal/ems/netconfcm/manager.go:192-222 | if those steps leave the candidate as it was, the commit ends as an uninterrupted one |
| Interleaving.ResetThenFinalize | internal/ems/netconfcm/manager.go:192-222 | a reset in between leaves the new files behind the old running configuration, in agreement if and only if they hold the same values |
| Interleaving.EditThenFinalize | internal/ems/netconfcm/manager.go:192-222 | an edit of pci in between is made running behind a file that holds the persisted pci |
| Overlapping.ActsStand | internal/ems/netconfcm/manager.go:185-222 | over every run of edits and persists of any number of commits the files agree with the candidate that was persisted last |
| Overlapping.FinalizeAmongCommits | internal/ems/netconfcm/manager.go:185-222 | finalizing among them leaves files and running in agreement if and only if the candidate of that moment has the values persisted last at every leaf the files hold |
| Overlapping.RollbackAmongCommits | internal/ems/netconfcm/manager.go:185-222 | a rollback among them, and a finalizing then: which files are old and which new, and the exact condition for agreement with what is running |
| Overlapping.RollbackUnderCommit | internal/ems/netconfcm/manager.go:185-222 | between another commit's persisting and finalizing, the rollback leaves agreement if and only if the old files hold the new values |
| Overlapping.RollbackLosesPci | internal/ems/netconfcm/manager.go:185-222 | two commits of one candidate after which a new pci runs behind a file with the old one |
| Locks.LockManager.constructor | internal/ems/netconfcm/locks.go:25-31 | an empty lock table |
| Locks.LockManager.ExpireLocks | internal/ems/netconfcm/locks.go:183-196 | exactly the stale locks of known sessions go, in any order of iteration |
| Locks.LockManager.ExpireSessions | internal/ems/netconfcm/locks.go:197-202 | exactly the stale session entries go |
| Locks.LockManager.ExpireLocked | internal/ems/netconfcm/locks.go:178-204 | the table after expiry, the sessions that lost something, and whether the candidate lock did |
| Locks.LockManager.TouchLocked | internal/ems/netconfcm/locks.go:206-216 | the session entry is renewed and keeps a known name |
| Locks.LockManager.Acquire | internal/ems/netconfcm/locks.go:43-63 | the new table and reply of a lock request |
| Locks.LockManager.Free | internal/ems/netconfcm/locks.go:65-88 | the new table and reply of an unlock request |
| Locks.LockManager.Check | internal/ems/netconfcm/locks.go:90-106 | the new table and reply of an access check |
| Locks.LockManager.ReleaseSession | internal/ems/netconfcm/locks.go:108-124 | all locks and the entry of the session go; whether the candidate lock was among them |
| Locks.LockManager.ResetAll | internal/ems/netconfcm/locks.go:126-139 | the table is empty |
| Locks.LockManager.Refresh | internal/ems/netconfcm/locks.go:141-163 | every named session and its locks are renewed |
| LockRuns.LockOwnership | internal/ems/netconfcm/locks.go:43-204 | over every run a lock leaves its session only by its own unlock, its release, a reset, or more than ttl after its last renewal |
| LockRuns.HeldLockExcludes | internal/ems/netconfcm/locks.go:43-106 | a held lock refuses every other session |
| Manager.ConfigManager.EditConfig | internal/ems/netconfcm/manager.go:82-119 | lock check, option checks, reduction, preview or edit, and the last editor on success |
| Manager.ConfigManager.Validate | internal/ems/netconfcm/manager.go:121-157 | the verdict on a payload or a datastore, with no state change |
| Manager.ConfigManager.Lock | internal/ems/netconfcm/manager.go:159-161 | the reply of the lock request, and only the lock table changes |
| Manager.ConfigManager.Unlock | internal/ems/netconfcm/manager.go:163-170 | an unlock that is not refused resets candidate and last editor |
| Manager.ConfigManager.DiscardChanges | internal/ems/netconfcm/manager.go:172-183 | with access, candidate and last editor are reset |
| Manager.ConfigManager.Commit | internal/ems/netconfcm/manager.go:185-230 | both lock checks, then the commit as one outcome; a commit that cannot be persisted keeps candidate and editor; lock table, clean files and temporary files also when a restoring write fails |
| Manager.ConfigManager.SessionClose | internal/ems/netconfcm/manager.go:232-239 | locks released; candidate reset if the session held it or was the last editor |
| Manager.ConfigManager.KeepAlive | internal/ems/netconfcm/manager.go:250-252 | only the lock table is renewed |
| Manager.ConfigManager.SweepExpiredSessions | internal/ems/netconfcm/manager.go:254-266 | candidate reset exactly when its lock expired or the last editor is among the expired sessions |
| Isolation.StepIsIsolated | internal/ems/netconfcm/manager.go:82-309 | one request of another session, keep-alive or sweep leaves the owner's configuration alone |
| Isolation.CandidateIsolation | internal/ems/netconfcm/manager.go:82-309 | over every run of such events candidate, running, marks and files are unchanged while the owner stays fresh |
| Isolation.DepartureDropsCandidate | internal/ems/netconfcm/manager.go:232-266 | a session that closes takes its candidate and all its locks with it; a sweep that finds a session stale resets its candidate and removes every stale lock |
| Departure.LockHidesDeparture | internal/ems/netconfcm/locks.go:43-63 | after a lock request a sweep at the same time changes nothing, and differs from the sweep alone if and only if the candidate lock or the last editor was stale and something is pending |
| Departure.AdmitHidesDeparture | internal/ems/netconfcm/locks.go:90-106 | the same for the access check of an edit, a discard or a commit |
| Departure.EditKeepsDeparted | internal/ems/netconfcm/manager.go:82-119 | an edit request builds on the pending changes of a departed session, and a sweep after it finds nothing to drop |
| Departure.CommitKeepsDeparted | internal/ems/netconfcm/manager.go:185-230 | a commit does too, and makes them running when it succeeds |
| Departure.OrphanStays | internal/ems/netconfcm/manager.go:232-266 | a candidate whose editor the table has forgotten survives every run of sweeps and passive requests |
| Departure.FirstLookDecides | internal/ems/netconfcm/manager.go:159-266 | once everything of the last editor is stale, its candidate is dropped if a sweep looks first, and kept over every later run if another session's request does |
| Departure.StrangerCommitsTheEdit | internal/ems/netconfcm/manager.go:159-230 | from an empty lock table: a session locks the candidate, edits and goes stale; another one is granted the lock and its commit makes the edit running |
| Isolation.StaleRunningLockDropsCandidate | internal/ems/netconfcm/manager.go:254-266 | under a fresh candidate lock of the last editor, a sweep changes the configuration if and only if the editor's running lock or session entry is stale and something is pending |
| Isolation.OlderLockCostsTheEdit | internal/ems/netconfcm/manager.go:254-266 | from an empty lock table: locking running, later candidate, and editing ends in such a sweep |
| Isolation.UnlockDropsCandidate | internal/ems/netconfcm/manager.go:163-170 | an unlock changes the configuration if and only if it names a datastore that nobody else holds after expiry and something is pending |
| Isolation.StrangerDropsCandidate | internal/ems/netconfcm/manager.go:163-170 | another session drops the lock holder's candidate by unlocking running, which nobody has locked |
| Agreement.RenderSucceeds | internal/ems/configuration/renderer.go:39-75 | a dirty file renders exactly when each of its dirty keys is readable in it |
| PowerKey.CommitLeavesReader | internal/ems/configuration/srsranconf/sib_rb_parser.go:213-232 | a commit does not change what the reader finds under a key of its own that stands apart from the managed ones |
| PowerKey.PowerIsNotReadBack | internal/ems/configuration/srsranconf/sib_rb_parser.go:86-87 | after a successful commit of reference_signal_power its key holds the running number, and the reader's rs_power gives it if and only if it gave it before |
| PowerKey.PowerIsHeld | internal/ems/configuration/renderer.go:227-228 | a commit of the leaf succeeds only if sib.conf has the renderer's key, and keeps it |
| SibAgreement.PowerInItsBlock | internal/ems/configuration/srsranconf/sib_rb_parser.go:86-87 | the same for the nested block in which ParseSIB looks: it finds there what it found before the commit |
| Examples.ReaderSeesTheOldPower | internal/ems/configuration/srsranconf/sib_rb_parser.go:86-87 | a file with both names: the patch is read back by the renderer, and the reader still gives its old number |
| Agreement.CommitKeepsInv | internal/ems/configuration/store.go:381-426 | a commit, whatever fails, keeps disk and running in agreement |
| Agreement.DiskAgreesWithRunning | internal/ems/configuration/store.go:337-426 | over every run each rr.conf and sib.conf leaf its file holds reads as running, no key gains or loses its value, and the candidate differs only where a dirty key with its file marked accounts for it |
| SibBlocks.ExtractNamedBlock | internal/ems/configuration/srsranconf/sib_rb_parser.go:185-211 | the brace block that is the value of the first assignment to the name |
| SibBlocks.TwoBlocksRead | internal/ems/configuration/srsranconf/sib_rb_parser.go:199-211 | a key whose first assignment lies in the nested block is read there as in the whole file |
| SibShape.PatchKeepsShape | internal/ems/configuration/renderer.go:312-327 | a patch of sib.conf leaves every key in the blocks where the reader looks |
| SibExample.SibIsShaped | internal/ems/configuration/srsranconf/sib_rb_parser.go:53-100 | a small sib.conf of that shape |
| SibAgreement.SibShapeOverRuns | internal/ems/configuration/store.go:337-426 | over every run agreement holds and the keys stay in those blocks |
| SibAgreement.ReaderAgreesWithRunning | internal/ems/configuration/srsranconf/sib_rb_parser.go:53-100 | over every run what ParseSIB finds for a leaf in its block is the text of the running value, and the number it makes of it the running number |
| RrLines.LineIsEntry | internal/ems/configuration/srsranconf/parser.go:449-468 | an assignment that has its line to itself, with blanks, a semicolon and a comment, is read as the key and exactly the value |
| RrReader.ParseRR | internal/ems/configuration/srsranconf/parser.go:316-397 | the accepted text of each key, first or last as the key wants, failing without frequency or cell identity |
| RrReader.LaterLineWins | internal/ems/configuration/srsranconf/parser.go:373-384 | of the keys whose last value counts, a replaced line decides if and only if no acceptable line follows |
| RrShape.PatchKeepsShape | internal/ems/configuration/renderer.go:312-327 | a patch of rr.conf leaves every managed key alone on its one line, where the renderer finds it |
| RrShape.LastLineIsRead | internal/ems/configuration/srsranconf/parser.go:373-384 | the exact condition for reading back a patched key that has several lines |
| RrExample.SecondOffsetIsRead | internal/ems/configuration/srsranconf/parser.go:373-376 | a file with two a3_offset lines: the patch succeeds and the reader still gives the second number |
| RrAgreement.LinesAgreeWithRunning | internal/ems/configuration/srsranconf/parser.go:316-397 | over every run ParseRR has for each key that rr.conf holds the text of the running value, if it accepts that, and for no other key anything |
| RrAgreement.TypedIsAccepted | internal/ems/configuration/srsranconf/parser.go:340-384 | it accepts every number that fits its Go type, every flag and every non-empty string |
| RbAgreement.RbAgreesWithRunning | internal/ems/configuration/store.go:337-426 | over every run rb.conf holds exactly the running profiles with their numbers |
| EnbAgreement.EnbBatchIsExact | internal/ems/configuration/renderer.go:20-37 | after a batch every leaf in it reads as the candidate's value and every other leaf of enb.conf as before |
| EnbAgreement.EnbAgreesWithRunning | internal/ems/configuration/store.go:337-426 | over every run each leaf that enb.conf holds reads as its running value |
| StartState.StartIsThere | internal/ems/configuration/store.go:255-262 | a store with three files from which the theorems about runs start |
| Validity.ConfigurationsStayValid | internal/ems/configuration/store.go:337-420 | over every run candidate and running stay valid with distinct profile numbers |
| Tca.ExactTimeToTrigger | internal/ems/fcaps/tca/engine.go:262-331 | a raise, and symmetrically a clear, happens at precisely the first call of an unbroken streak whose age reaches the duration |
| Tca.NeitherRestartsTimers | internal/ems/fcaps/tca/engine.go:262-331 | a call that is neither violation nor clear flips nothing and restarts both timers |
| Tca.StreakIsMaximal | internal/ems/fcaps/tca/engine.go:262-331 | the streak start is the earliest call of the unbroken run |
| TcaEngine.CodesAreDistinct | internal/ems/fcaps/tca/engine.go:86-217 | no two rules share an alarm code |
| TcaEngine.CodesAreCanonical | internal/ems/fcaps/alarms/dictionary.go:240-255 | normalisation leaves each of the seventeen codes alone, so raising and clearing meet on one record |
| TcaEngine.Engine.Apply | internal/ems/fcaps/tca/engine.go:262-331 | one transition of states, alarm records and emitted events |
| TcaEngine.Engine.EvaluatePerDN | internal/ems/fcaps/tca/engine.go:235-260 | the loop over a report is the sequence of its transitions |
| TcaEngine.EngineNeverDisagrees | internal/ems/fcaps/alarms/manager.go:22-83 | over every run a rule is active exactly when its record is, events alternate, and counts add up |
| TcaEngine.AgreementAfterRestart | internal/ems/fcaps/alarms/store.go:26-36 | over every run from any loaded records engine and record agree on an alarm if and only if it was not active at the start or has been raised since; counts add up in any case |
| TcaEngine.ClearIsMissed | internal/ems/fcaps/tca/engine.go:262-331 | a loaded active alarm whose condition is only ever seen cleared stays active |
| TcaEngine.KeyFollowsItsCalls | internal/ems/fcaps/tca/engine.go:262-331 | the state of one key depends on its own calls only |
| Alarms.Store.Upsert | internal/ems/fcaps/alarms/store.go:48-106 | new, repeated and changed alarms, and whether the change is worth an event |
| Alarms.Store.Touch | internal/ems/fcaps/alarms/store.go:110-123 | only an active record is counted again |
| Alarms.Store.Clear | internal/ems/fcaps/alarms/store.go:151-167 | only an active record is cleared, with its history kept |
| Alarms.Store.ClearComponent | internal/ems/fcaps/alarms/store.go:126-148 | exactly the active records of the component are cleared, and returned as they are then |
| Framing.ReadNetconf | internal/ems/netconf/server.go:113-126 | the growing buffer returns the text before the first end marker and leaves the stream right after it |
| Framing.MessageRoundTrip | internal/ems/netconf/server.go:113-131 | a framed message is read back if and only if it neither contains the marker nor ends in its first half |
| Framing.StreamRoundTrip | internal/ems/netconf/server.go:113-131 | a list of messages is read back with the stream consumed if and only if each of them is such |
| Wildcard.WildcardMatch | internal/ems/domain/pm/registry.go:141-166 | the greedy loop decides exactly the glob meaning, for every pattern and value |
| Wildcard.GreedyPart | internal/ems/domain/pm/registry.go:150-164 | taking the leftmost occurrence of a part loses no match |
| Notifications.NotificationQueue.constructor | internal/ems/fcaps/alarms/notifications.go:25-30 | an empty queue with the default capacity for a limit that is not positive |
| Notifications.NotificationQueue.Append | internal/ems/fcaps/alarms/notifications.go:66-82 | the message is numbered and the newest messages are kept, by shifting in place |
| Notifications.NotificationQueue.Drain | internal/ems/fcaps/alarms/notifications.go:84-103 | the oldest messages are returned and removed, by shifting in place |
| Notifications.RunIsConsistent | internal/ems/fcaps/alarms/notifications.go:66-103 | over every run the queue is the last part of what was accepted, with consecutive numbers |
| Notifications.EachMessageOnce | internal/ems/fcaps/alarms/notifications.go:66-103 | each number is drained, dropped or queued, exactly once |

## Left out

- Overlay.PatchRoundTrip: scalar-safe values only, which is what a value must be for any overlay to work; numbers, flags and quoted strings are proved safe, the plain strings `cell_id` and `tac` and the strings of `enb.conf` are not checked by the source and stay a hypothesis.
- Agreement.DiskAgreesWithRunning: covers rr.conf and sib.conf as the overlay reads them (first assignment of the key); their own readers are covered by RrAgreement.LinesAgreeWithRunning and SibAgreement.ReaderAgreesWithRunning, on files of the shape stated there.
- SibAgreement.ReaderAgreesWithRunning: the float alpha and the quoted cell_barred are given as texts.
- IniTheorem.IniRoundTrip: on a text with the same headers for renderer and reader, the section at most once and the key at most once in it.
- IniAgain.PatchAgain: on such a text that ends in a line feed.
- EnbAgreement.EnbAgreesWithRunning: strings edited into enb.conf are safe by hypothesis, since the source writes them unquoted and unchecked; numbers and flags are proved safe.
- RbBatch.RbBatchIsExact: on files whose profile blocks assign each managed name apart from the others, fields to scalars and containers to blocks; RbBatch.RbBatchSucceeds says when a batch on such a file succeeds.
- Commits.Commit: the functional outcome is stated when restoring writes succeed, and the absence of temporary files when removals succeed; with failing restores only untouched clean files are stated.
- Isolation.CandidateIsolation: Unlock, EditFlat and ResetSessions are outside the step set; for the first of them Isolation.UnlockDropsCandidate gives the exact effect.
- TcaEngine.Engine.EvaluatePerDN: metric selection, thresholds and the choice of the managed object for low throughput (which depends on map order) enter as the violation and clear flags of each call.
- Alarms.Store.Upsert: the persistence of the alarm store and the texts of the alarm dictionary are not modelled.
- Interleaving.LateFinalize: the validation inside FinalizeCommit is that of Store.ConfigStore.FinalizeCommit; here the finalizing step is taken. Commits among the steps in between are in Overlapping.
- Overlapping.FinalizeAmongCommits: a reset between two persists, after which the marks no longer account for what the files hold, is not among the steps.
- PowerKey.PowerIsNotReadBack: rs_power is looked up in the whole file; SibAgreement.PowerInItsBlock looks in the nested block.
- RrReader.ParseRR: gives the accepted texts in place of the typed fields; the strings edited into rr.conf are safe by hypothesis in RrAgreement.LinesAgreeWithRunning.
- Manager.ConfigManager.Commit: as Commits.Commit, the outcome in full is stated when restoring writes succeed.
- TextParser.EqualFold: ASCII case only.
- Qci.FindInt32InBlock: quoted values with escapes (strconv.Unquote) are not modelled.
- Notifications.NotificationQueue.Append: numbers are unbounded, so wrap-around of the 64-bit counter is not modelled.
- Rendering.RenderEnbConfig: the dirty keys come in any order; the source sorts them.
- Qci.ParseRB: quoted values with escapes (strconv.Unquote) are not modelled, and the text is read whole.
- Ini.ParseEnb: gives the raw text per section and key; the conversion to typed fields, the inclusion of other files and the line length limit of bufio.Scanner are not modelled.
- Config.PreviewEdit: json.Number, float32 and int64 inputs are not among the dynamic types; floats are numbers of thousandths, so rounding at the third decimal is not modelled; net.ParseIP is a parameter.
- Store.ConfigStore.Edit: configurations are values, so the copying of the profile slice that keeps candidate and running unaliased is not visible; the mutexes make each method one step.
- Locks.LockManager.Acquire: times are integers with zero for an unset time; saturation of time differences is not modelled.
- Manager.ConfigManager.EditConfig: YANG validation and leaf extraction are a parameter, writing the JSON artifacts and logging are left out.
- Unicode whitespace and case folding beyond ASCII, in TrimSpace, ToLower and EqualFold.
- File modes, ownership, fsync and the names of temporary files.
- HTTP services, Docker and process control, metrics, mediation, snapshots, health tracking and DN helpers.
