# A verified model of Nodal's careful parts

Nodal decides when a working copy may be thrown away, rewrites files it does not own and must later
restore, and resumes Git operations that were interrupted. This project models those parts in Dafny
and proves what they promise, over all inputs, all runs and all points at which a process may stop.

| part | modules |
|---|---|
| Which clone may be deleted: the uniqueness proof over a commit graph, and its fold into groups | `CommitGraph`, `Unique`, `UniqueSafety`, `UniqueCounts`, `Origin`, `Machine`, `GroupFigures` |
| Disk use with shared files counted once | `Inspect`, `Survey` |
| Hooks spliced into somebody's JSON and cut out byte for byte | `Json`, `JsonReading`, `JsonPrinting`, `Scanner`, `StringTracking`, `Settings`, `HookText`, `Markers`, `SettingsRoundTrip`, `ExactInverse`, `Reinstall`, `InstallLayout`, `InstallReads`, `InstallReplaces`, `Strip`, `Fallback` |
| Uncommitted work carried into another checkout | `Trees`, `Carry`, `CarryProofs` |
| A merge: commit, squash, rebase, fast-forward; killed, undone, run again, stopped, carried on or given up | `Commits`, `Repository`, `MergeStages`, `Integration`, `MergeRuns`, `MergeProofs`, `MergeCommands`, `MergeContents`, `MergeRepeated`, `MergeTakenBack`, `MergeSessions`, `MergeAgain`, `MergeGivenUp`, `MergeExamples` |
| A home's copy of a checkout's refs | `Refresh`, `RefreshRuns` |
| The environment a home delivers, and the exclude block | `Lines`, `Dotenv`, `Export`, `Exclude`, `ExcludeRuns` |
| The workspace and schema keys | `Digest`, `Inputs`, `Utf8`, `Fingerprint`, `FingerprintProofs` |
| The walk for repositories | `Walk` |
| Duplicate windows, and the forty-line cap | `Duplication`, `Ledger` |
| Shared definitions | `Wrappers`, `Ascending`, `Sorting`, `Lexicographic`, `Text` |

What the source does to an object in place is a class with methods here, each tied to a function of
the state before it; what the source promises is then proved of those functions.

## How the world is modelled

- Git is state and contracts. A clone's objects are a graph with a shallow boundary, and
  `rev-list --count A --not B` counts reachable commits. A merge's commits are values (tree, parents,
  note), so two commits are one exactly when an identifier would be. `git merge-base` is any function
  that answers a best common ancestor whenever there is one. Replaying commits is an answer given from
  outside, another one for each command. A patch is, for each path, what it needs to find and what it leaves.
- A process may be killed after any number of writes. Each Git command and each copied file is one write;
  in `RefreshRuns` a stamp may also be written in part. A merge that was killed is undone by the next
  command before that does anything, from what the journal says had begun.
- A hash is any function that does not collide on the strings the compared keys hash. Nothing is
  asked of it elsewhere, so the real hash can satisfy it.
- Text is a sequence of characters; where the source works on bytes a character stands for one byte.

## What the proofs found

- The documentation of the settings scanner says that a brace or a key name inside a string is not taken
  for structure (`crates/nodal-core/src/adapters/settings.rs:449-454`). The code ends a string at every
  quote, an escaped one included. `StringTracking.ScanFollowsStringsExactly` says exactly when the scan
  is right, and `StringTracking.EscapedQuoteHidesTheKey` gives a file whose `hooks` object is not found.
- Installing hooks and removing them is the identity except for one layout: an empty container whose
  opening line and closing brace stand as Nodal writes them (`ExactInverse.RoundTripExactly`). What is lost
  then is `Reinstall.WhatIsLost`, and `Reinstall.EmptyHooksAreLost` is such a file. After another member the
  removal leaves a comma before the closing brace, which is no JSON, and a second install is refused
  (`Reinstall.SecondAddIsRefused`).
- The region goes in before the members the file has, and of two members of one name a reader takes the later.
  So a hook for an event the file already answers, or any hook where `hooks` is no object, is written and
  never read (`InstallReads.InstallTakesEffectExactly`).
- The dotenv reader trims every trailing quote, so a value that ends in a double quote comes back
  with a backslash in its place (`Dotenv.QuotedValueComesBackExactly`).
- Taking the exclude block out again is exact only under the condition of
  `ExcludeRuns.TakingOutRestoresExactly`; a file of one blank line comes back empty.
- A stamp has to be new, not only different from its neighbours: if refs go from A to B and back to A with
  the first stamp again, a home refreshed in between holds B and matches
  (`RefreshRuns.MatchIsCurrentExactly`).
- The record of a branch tip is never written over and survives a merge that finished. When a later merge of
  the same unit is taken back, the files return to the old record and the record is deleted, so the work the
  later merge was about is in neither (`MergeTakenBack.TakenBackExactly`, `MergeExamples.SecondMergeLosesItsWork`).
- A stopped rebase is carried on onto the commit it was begun on. When the target has moved since, done does
  not mean that the target is in the branch (`MergeStages.DoneIsOnTheTargetExactly`); the fast-forward then refuses.
- The documentation of the abort says that it puts the branch back where the merge found it
  (`crates/nodal-core/src/lifecycle/ops/merge.rs:244`). It goes to the record, which is taken after the commit
  stage: that is where the merge found it only if there was nothing to commit (`MergeGivenUp.GivenUpExactly`,
  `MergeExamples.AbortLeavesTheCommit`).
- Undoing a killed merge resets the index. A file forced into it over an ignore rule is then not merged by the
  rerun, which answers that there was nothing to do (`MergeExamples.ForcedFileIsNotMerged`); exactly when a
  merge survives its kills is `MergeAgain.KilledAgainExactly`.
- A command that carried a stopped rebase on and was killed is undone to the record and not to the conflict it
  started from. Run again it is the first merge begun again, and the conflict comes again
  (`MergeGivenUp.ResumedRunsAgain`).
- The undo of a merge killed at the fast-forward puts the target where that merge had found it, also when
  somebody else moved it since (`MergeSessions.UndoKeepsTheTargetExactly`, `MergeExamples.UndoRewindsTheTarget`).
- The stages are called repeatable (`crates/nodal-core/src/lifecycle/ops/merge.rs:450`, `:513`, `:538`). Begun anew
  together, with nothing undone, they end the same exactly under the conditions of `MergeRepeated`: commits a replay
  made two of are folded, and a file beside a carried-on rebase is committed (`MergeExamples.FileBesideIsCommitted`).
- A clone that fails after it was sized leaves its files marked as met, so the bytes it was first to hold reach
  no group (`Survey.SurveyMachine`, `Survey.SharedFileIsLost`).
- In the URL of a remote everything up to the last `@` is taken for a user, in the path too, so two hosts can have
  one name and their clones be of one group (`Origin.OneNameForTwoHosts`, `crates/nodal-core/src/doctor/origin.rs:46`).
- A clone without a remote is said to be its own group (`crates/nodal-core/src/doctor/machine.rs:108`). It shares
  one with every clone made from its folder (`GroupFigures.FolderSharesItsGroup`).
- Adding is said to leave no two entries of Nodal for one event (`crates/nodal-core/src/adapters/settings.rs:138-141`). A
  changed command does replace the old one (`InstallReplaces.OldHooksAreReplaced`), but where the region of the very
  hooks stands already only that is taken out, and an old hook beside it stays
  (`InstallReplaces.BesideTheRegionExactly`).

## Model

| member | source | states |
|---|---|---|
| `CommitGraph.AncestorsAreLeast` | crates/nodal-core/src/doctor/unique.rs:210-240 | what `rev-list` reaches is the least set holding the starting commits and closed under parents |
| `CommitGraph.NothingOutside` | crates/nodal-core/src/doctor/unique.rs:210-240 | a count of zero is exactly: every commit of the revision is behind one of the held tips this store has |
| `Unique.Confirmed` | crates/nodal-core/src/doctor/unique.rs:189-207 | the loop over the witnesses answers the tips the first one able to answer still reaches, and who that was |
| `Unique.Believed` | crates/nodal-core/src/doctor/unique.rs:476-490 | what a clone's own refs are worth: the witnesses' tips for its branches and its own confirmed ones, sorted and without repeats |
| `Unique.CountHolders` | crates/nodal-core/src/doctor/unique.rs:539-565 | the counter map holds every tip met with the number of witnessable clones that hold it |
| `Unique.HeldByOthers` | crates/nodal-core/src/doctor/unique.rs:539-565 | for each clone exactly the tips some other witnessable clone holds: a shared tip for both, a sole tip for neither |
| `Unique.Prove` | crates/nodal-core/src/doctor/unique.rs:159-166 | one proof for each clone of a group, each the proof defined for that clone alone |
| `UniqueSafety.TrustedIsSeenOnRemote` | crates/nodal-core/src/doctor/unique.rs:476-499 | every tip this run trusts is behind a remote-tracking ref of a freshest witness |
| `UniqueSafety.ElsewhereIsSecondCopy` | crates/nodal-core/src/doctor/unique.rs:539-570 | a tip held elsewhere is in another readable, non-shallow clone with everything behind it |
| `UniqueSafety.NothingUniqueExactly` | crates/nodal-core/src/doctor/unique.rs:210-260 | where Git answered, "only copy of nothing" is reported if and only if every commit of HEAD is behind a trusted tip or one held elsewhere |
| `UniqueSafety.DeletionSafety` | crates/nodal-core/src/doctor/unique.rs:159-260 | over any commit graph: if a clone is the only copy of nothing, each commit its HEAD has is in another whole clone or behind a remote-tracking ref of a freshest witness |
| `UniqueSafety.FreshestAreTheLatest` | crates/nodal-core/src/doctor/unique.rs:503-528 | the freshest witnesses are exactly the other clones that are complete, readable, heard after the subject, and that none of these heard later than; so no clone vouches for itself |
| `UniqueSafety.OlderReadingChangesNothing` | crates/nodal-core/src/doctor/unique.rs:281-283 | a clone that is older, incomplete, unreadable, or older than the latest qualifying reading leaves what is trusted unchanged, wherever it is listed |
| `UniqueSafety.NewestReadingDecidesAlone` | crates/nodal-core/src/doctor/unique.rs:503-516 | a qualifying clone heard after every other one is asked alone |
| `UniqueCounts.VouchedCounts` | crates/nodal-core/src/doctor/unique.rs:210-241 | of a clone that is vouched for or names no remote ref: `off_remote` is the number of commits of its HEAD behind no trusted tip, `only_copy` the number behind no tip of another clone besides; both are missing exactly when Git did not answer a question that was asked, and the reason names it |
| `UniqueCounts.UnvouchedCounts` | crates/nodal-core/src/doctor/unique.rs:252-260 | of a clone nobody vouches for: no `off_remote`, a zero exactly when every commit of its HEAD is behind a tip of another clone, and otherwise the reason |
| `UniqueCounts.NothingToCount` | crates/nodal-core/src/doctor/unique.rs:210-216 | no figure for a clone that could not be read, with the reason, and zeros for one without a commit |
| `UniqueCounts.TrustedExactly` | crates/nodal-core/src/doctor/unique.rs:476-499 | trusted are exactly where the first witness naming one of the clone's branches has that branch, and its own tips that the first witness Git answers in stores and has behind a remote ref |
| `UniqueCounts.VouchersExactly` | crates/nodal-core/src/doctor/unique.rs:503-528 | the witnesses are exactly the other clones that fetch every branch, were read and heard later than the subject, and of these the latest |
| `UniqueCounts.HeldByOthersExactly` | crates/nodal-core/src/doctor/unique.rs:539-570 | held elsewhere are exactly the tips another clone has that was read and is not shallow |
| `Machine.MakeGroup` | crates/nodal-core/src/doctor/machine.rs:133-149 | a group is its clones sorted, each with the proof of what it is the only copy of, and their totals |
| `Machine.NothingUniqueOfRows` | crates/nodal-core/src/doctor/machine.rs:152-176 | the closing word of a group says of every row: checked, nothing uncommitted, only copy of nothing |
| `Machine.NothingUniqueIsSafe` | crates/nodal-core/src/doctor/machine.rs:133-176 | that word makes each clone of the group, deleted alone, lose no commit of its HEAD |
| `GroupFigures.RowsOfGroup` | crates/nodal-core/src/doctor/machine.rs:133-149 | the rows stand largest first and then by path, each with the figures of its own clone and otherwise as it was |
| `GroupFigures.GroupSays` | crates/nodal-core/src/doctor/machine.rs:152-176 | unpushed and unique are the commits behind no trusted tip, and behind none of another clone, once for each clone that has them; unchecked, unwitnessed and dirty are the numbers of clones that are so |
| `GroupFigures.OneGroupExactly` | crates/nodal-core/src/doctor/origin.rs:8-69 | clones of a remote are of one group exactly when host, but for its case, and path are one, whatever form, user, default port or ending either recorded |
| `GroupFigures.FolderSharesItsGroup` | crates/nodal-core/src/doctor/machine.rs:122-125 | a clone without a remote shares its group with clones made from its folder |
| `Origin.OneNameForTwoHosts` | crates/nodal-core/src/doctor/origin.rs:45-51 | an `@` in the path of a URL drops the host from its name |
| `Inspect.Links.Repeat` | crates/nodal-core/src/doctor/inspect.rs:243-245 | a file is a repeat exactly when it has several links and its inode was met before; the set then holds it |
| `Inspect.CountFile` | crates/nodal-core/src/doctor/inspect.rs:191-236 | one file adds its length to the bytes and to its bucket, and to the repeated bytes exactly when met before |
| `Inspect.PrefixOf` | crates/nodal-core/src/doctor/inspect.rs:249-252 | the bucket of a path is the first ignored directory it sits in, and none when it sits in none |
| `Inspect.Measure` | crates/nodal-core/src/doctor/inspect.rs:191-236 | the work queue ends with every file's bytes in the total, each bucket the bytes under its prefix, and the not repeated bytes the sizes of the distinct files first met here |
| `Survey.DistinctIsFresh` | crates/nodal-core/src/doctor/machine.rs:200-204 | repeated bytes never exceed the bytes of a row, so the saturating subtraction never saturates |
| `Survey.Collect` | crates/nodal-core/src/doctor/machine.rs:109-120 | the clones of one remote stand under its key in the order they came, and no byte is lost between groups |
| `Survey.Groups` | crates/nodal-core/src/doctor/machine.rs:109-120 | one group for each remote, none twice, largest first, and the groups' distinct bytes add up to the clones' |
| `Survey.RowSays` | crates/nodal-core/src/doctor/inspect.rs:59-78 | a row names its clone as read, with its bytes, those of them no clone before had, and partial exactly when some file could not be read |
| `Survey.Inspected` | crates/nodal-core/src/doctor/machine.rs:39-71 | the clones shown and skipped are the repositories that did not fail and did, in order; each row holds the clone's own bytes and those counted for another before it |
| `Survey.SurveyMachine` | crates/nodal-core/src/doctor/machine.rs:39-71 | over a whole survey the groups' distinct bytes, with the bytes first met in clones that failed after sizing, are the sizes of the distinct files met; and all of them exactly when those clones were first to hold no byte |
| `Survey.NothingElseIsLost` | crates/nodal-core/src/doctor/machine.rs:39-71 | the rows shown and the bytes lost add up to every distinct file met, once |
| `Survey.NothingIsLostExactly` | crates/nodal-core/src/doctor/machine.rs:39-71 | no byte is lost if and only if every clone that failed after sizing was first to hold none |
| `Survey.SharedFileIsLost` | crates/nodal-core/src/doctor/inspect.rs:50-78 | two clones share a file and the first fails after sizing: no group has its bytes |
| `Scanner.Scan.TakeCharacter` | crates/nodal-core/src/adapters/settings.rs:483-500 | how one character moves the string state |
| `Scanner.FindOpening` | crates/nodal-core/src/adapters/settings.rs:455-473 | the loop answers the offset the character-by-character specification gives |
| `Scanner.OpeningIsFirstTable` | crates/nodal-core/src/adapters/settings.rs:455-473 | for every layout of a JSON object whose strings show the scan no structure, the answer is just after the brace of the first top-level member taken for the key whose value is an object, and None without one |
| `Scanner.OpeningFindsTheKey` | crates/nodal-core/src/adapters/settings.rs:455-473 | with no quote spelled in a name, that member is the first with exactly that key |
| `Scanner.SkipValue` | crates/nodal-core/src/adapters/settings.rs:455-500 | braces, brackets, commas and key text inside strings and nested values never count |
| `StringTracking.QuoteAlwaysToggles` | crates/nodal-core/src/adapters/settings.rs:488-500 | every quote, escaped or not, turns the string state over |
| `StringTracking.ScanFollowsStringsExactly` | crates/nodal-core/src/adapters/settings.rs:483-500 | the scan knows at every character whether it is in a string if and only if no string is spelled with a quote in it |
| `StringTracking.EscapedQuoteHidesTheKey` | crates/nodal-core/src/adapters/settings.rs:455-500 | the text `{"a":"\"","hooks":{}}` holds a `hooks` object the scan does not find |
| `ExactInverse.IndentFoundAgain` | crates/nodal-core/src/adapters/settings.rs:507-512 | put back where it was measured, the region's own first line gives the same indentation |
| `ExactInverse.IndentIsStable` | crates/nodal-core/src/adapters/settings.rs:507-512 | text far enough after a place does not change the indentation read there |
| `SettingsRoundTrip.OnlyWhereItWasPut` | crates/nodal-core/src/adapters/settings.rs:271-311 | a spliced region stands only where it was put, and its other-ending form stands nowhere |
| `SettingsRoundTrip.WiderOnlyWhereItFits` | crates/nodal-core/src/adapters/settings.rs:283-311 | the wider candidate is found only where the container was empty and stood as this program writes one |
| `ExactInverse.CutUndoesSplice` | crates/nodal-core/src/adapters/settings.rs:249-296 | cutting what was just spliced gives back the same bytes, or the container goes with it, and which is decided by the layout |
| `ExactInverse.RoundTripExactly` | crates/nodal-core/src/adapters/settings.rs:148-185 | for every text that reads as an object and holds no marker, removing what was added restores the bytes if and only if it held no empty container laid out as this program writes one |
| `ExactInverse.NothingToRemove` | crates/nodal-core/src/adapters/settings.rs:175-185 | a file that nowhere holds the marker has nothing to remove |
| `JsonReading.ReadingIsTheMeaning` | crates/nodal-core/src/adapters/settings.rs:423-436 | no two layouts of a JSON object are one text, so reading a text gives what its layout means |
| `JsonPrinting.RenderedReadsBack` | crates/nodal-core/src/adapters/settings.rs:405-421 | a document written anew reads back as the document |
| `Reinstall.InstallOverNothing` | crates/nodal-core/src/adapters/settings.rs:148-194 | where there is no text but whitespace, adding writes the region, adding again answers None, and removing leaves an empty document |
| `Reinstall.SecondAddExactly` | crates/nodal-core/src/adapters/settings.rs:148-170 | adding twice answers None the second time if and only if the file was not the excepted one, or what is left of it takes the region back as it was |
| `Reinstall.WhatIsLost` | crates/nodal-core/src/adapters/settings.rs:271-296 | for the excepted layout, exactly what the removal leaves: the file without the container's member and the character after it |
| `Reinstall.EmptyHooksAreLost` | crates/nodal-core/src/adapters/settings.rs:148-185 | such a file: an empty `hooks` object on its own line goes with the removal; adding again finds nothing to do |
| `Reinstall.SecondAddIsRefused` | crates/nodal-core/src/adapters/settings.rs:148-185 | another: the removal leaves a comma before the brace, and adding again is refused as no JSON object |
| `InstallReads.InstallReads` | crates/nodal-core/src/adapters/settings.rs:148-170 | after adding, the text reads as an object with every other member unchanged and the hooks in it, except where the file said something under `hooks` or under the event, which stands |
| `InstallReads.InstallTakesEffectExactly` | crates/nodal-core/src/adapters/settings.rs:148-170 | an added hook is read if and only if the file said nothing under `hooks`, or had an object there with nothing under its event |
| `InstallReads.AnsweredEventHidesTheHook` | crates/nodal-core/src/adapters/settings.rs:240-311 | in `{"hooks":{"Stop":[]}}` the hook added for `Stop` stands before the member that hides it |
| `InstallReplaces.OldHooksAreReplaced` | crates/nodal-core/src/adapters/settings.rs:138-155 | of a file with this program's hooks and without the region of these ones: it reads as an object, other members unchanged; under each event everybody else's hooks if there was anything of theirs, and the new hook if not; so one hook of this program at most, and none but the new |
| `InstallReplaces.ChangedCommandReplacesTheOld` | crates/nodal-core/src/adapters/settings.rs:138-155 | the same of any file that does not spell one of the new commands |
| `InstallReplaces.AddReads` | crates/nodal-core/src/adapters/settings.rs:148-183 | of a file with the region of these hooks, or with no hook of this program: an object with other members unchanged, and under each event what stood beside the region, or the new hook where nothing did |
| `InstallReplaces.BesideTheRegionExactly` | crates/nodal-core/src/adapters/settings.rs:138-171 | of this program's hooks none but the new stand afterwards exactly when none but these stood beside the region |
| `InstallReplaces.EntrySays` | crates/nodal-core/src/adapters/settings.rs:385-396 | an installed hook says `command`, its command, and its timeout in digits where it has one |
| `Strip.NodalExactly` | crates/nodal-core/src/adapters/settings.rs:540-543 | an entry is this program's exactly when its command is text that holds `nodal claude-code` |
| `Strip.RetainOthers` | crates/nodal-core/src/adapters/settings.rs:518-559 | the retain loop keeps exactly the entries that are not this program's, in order |
| `Strip.StripDocument` | crates/nodal-core/src/adapters/settings.rs:518-533 | the in-place fallback computes the stripped document |
| `Strip.OtherHooksSurvive` | crates/nodal-core/src/adapters/settings.rs:518-566 | under every event stand exactly the other hooks, in their order |
| `Strip.OtherMembersSurvive` | crates/nodal-core/src/adapters/settings.rs:518-533 | every other top-level member is unchanged |
| `Strip.GroupKeepsOtherMembers` | crates/nodal-core/src/adapters/settings.rs:518-538 | a group that stays keeps everything but its own hooks |
| `Strip.NoMarkerLeft` | crates/nodal-core/src/adapters/settings.rs:518-556 | no hook entry carries the marker afterwards |
| `Strip.EmptiedGoesExactly` | crates/nodal-core/src/adapters/settings.rs:518-538 | an event is left exactly when something of somebody else's stands under it, as the strip makes it, and `hooks` exactly with such an event, or where it is no object |
| `Strip.GroupsLeftExactly` | crates/nodal-core/src/adapters/settings.rs:518-538 | left of an event's groups are exactly those not only this program's |
| `Fallback.RemovalReadsBack` | crates/nodal-core/src/adapters/settings.rs:175-207 | from text to text: with no region but hooks of this program, the removal writes a file that reads without them, with every other hook in order and every other member unchanged |
| `Carry.Home.Apply` | crates/nodal-core/src/git/carry.rs:350-375 | one patch written, recognised or applied, and its file removed, cut after any number of writes |
| `Carry.Home.RefuseCollisions` | crates/nodal-core/src/git/carry.rs:386-397 | the first untracked path standing in the home with other content |
| `Carry.Home.PlaceUntracked` | crates/nodal-core/src/git/carry.rs:420-441 | each untracked path copied as what it is, cut after any number of writes |
| `Carry.Home.Reproduce` | crates/nodal-core/src/git/carry.rs:333-342 | the whole step as writes that may stop anywhere |
| `CarryProofs.StagedStep` | crates/nodal-core/src/git/carry.rs:79-101 | from anything a killed run left, the staged patch is applied once and recognised in the index ever after |
| `CarryProofs.UnstagedStep` | crates/nodal-core/src/git/carry.rs:79-101 | the unstaged patch finds the index's content and is recognised under any number of copies |
| `CarryProofs.CopyStep` | crates/nodal-core/src/git/carry.rs:386-441 | copying adds one path a write, and a path already copied is itself |
| `CarryProofs.CarriesExactlyWhenNothingIsInTheWay` | crates/nodal-core/src/git/carry.rs:386-412 | from a clean checkout a run is done exactly when no untracked path stands there with other bytes, another target or another kind and nothing stands where a file is added; otherwise the checkout is as it was |
| `CarryProofs.CarryIsResumable` | crates/nodal-core/src/git/carry.rs:325-375 | after any runs killed anywhere, one that is not killed reaches the state an undisturbed run reaches, and a further run changes nothing |
| `CarryProofs.CollisionWritesNothing` | crates/nodal-core/src/git/carry.rs:376-397 | in any state and for any number of writes: the collision is answered exactly when an untracked path stands as another file, it names such a path, and nothing was written |
| `CarryProofs.NothingOfTheHomeIsLost` | crates/nodal-core/src/git/carry.rs:376-412 | however often and wherever a carry is killed or refused, every file of the home that is in no commit stands with its bytes or its target |
| `Commits.OneOver` | crates/nodal-core/src/git/merge.rs:235-239 | a commit made on another is exactly one commit over it |
| `Commits.BehindIsAntisymmetric` | crates/nodal-core/src/git/merge.rs:226-229 | no two commits are behind each other |
| `Repository.Checkout.CommitEverything` | crates/nodal-core/src/git/merge.rs:55-66 | add everything, then commit it or nothing |
| `Repository.Checkout.Fold` | crates/nodal-core/src/git/merge.rs:77-95 | one commit with the branch's tree on the merge base, when there are two or more |
| `Repository.Checkout.RebaseOnto` | crates/nodal-core/src/git/merge.rs:104-112 | continue, leave alone, or rebase |
| `Repository.Checkout.Continue` | crates/nodal-core/src/git/merge.rs:118-123 | a stopped rebase carried on; one that cannot go on is a conflict still |
| `Repository.Checkout.Stop` | crates/nodal-core/src/git/merge.rs:130-136 | a stopped rebase put back |
| `Repository.Checkout.Forward` | crates/nodal-core/src/git/merge.rs:163-178 | the four answers of a fast-forward |
| `Repository.Checkout.Move` | crates/nodal-core/src/git/merge.rs:198-205 | through the working tree for the checked-out branch, refused where a change would be lost |
| `Repository.Checkout.PutBack` | crates/nodal-core/src/git/merge.rs:185-190 | a branch put back where it was |
| `Repository.Checkout.TakeBack` | crates/nodal-core/src/git/merge.rs:289-295 | branch and index back, files left |
| `Repository.Checkout.Record` | crates/nodal-core/src/lifecycle/ops/merge.rs:479-486 | the tip recorded once and never written over |
| `MergeStages.CommitTakesTheWork` | crates/nodal-core/src/git/merge.rs:49-66 | the commit holds exactly what could be added, moves no file, and a second run finds nothing |
| `MergeStages.TakingBackUndoesTheCommit` | crates/nodal-core/src/git/merge.rs:282-295 | taking it back restores branch and files, and the index exactly when nothing was staged |
| `MergeStages.SquashFoldsToOne` | crates/nodal-core/src/git/merge.rs:68-95 | tree, index and files unchanged, and exactly one commit over the merge base |
| `MergeStages.SquashedStaysSquashed` | crates/nodal-core/src/git/merge.rs:68-95 | a second squash answers None, whichever merge base Git gives then |
| `MergeStages.RebaseEnds` | crates/nodal-core/src/git/merge.rs:97-123 | done leaves the branch on what the rebase goes onto, the recorded target where one had stopped; a conflict leaves every branch where it was; a failure changes nothing |
| `MergeStages.DoneIsOnTheTargetExactly` | crates/nodal-core/src/git/merge.rs:104-123 | of a stopped rebase carried on, done means the target is in the branch's history if and only if it is in that of the commit the rebase was begun on |
| `MergeStages.RebasedStaysRebased` | crates/nodal-core/src/git/merge.rs:97-112 | after done, a second rebase is nothing whatever Git answers, if and only if the target is in the branch's history |
| `MergeStages.StoppingAgain` | crates/nodal-core/src/git/merge.rs:114-123 | a rebase stopped, carried on and stopped again is still the one first begun |
| `MergeStages.AbortUndoesTheRebase` | crates/nodal-core/src/git/merge.rs:125-136 | branch, index and every committed file come back, however often the rebase was carried on and stopped |
| `MergeStages.ForwardNeverRewrites` | crates/nodal-core/src/git/merge.rs:155-205 | the branch moves exactly when it is behind the commit and nothing local is in the way; its old tip stays an ancestor, no other branch moves, no local change is lost |
| `MergeStages.ForwardAnswersExactly` | crates/nodal-core/src/git/merge.rs:163-178 | unknown, already there, moved elsewhere and where, or not to be moved: each answer exactly when it is so |
| `MergeStages.RestoreUndoesTheForward` | crates/nodal-core/src/git/merge.rs:180-205 | putting back after a fast-forward is possible and exact, the index exactly when nothing was staged |
| `MergeStages.PuttingBackExactly` | crates/nodal-core/src/git/merge.rs:180-205 | with nothing changed locally a branch goes back to a commit if and only if no untracked file stands where the commit has one |
| `Integration.AncestorExactly` | crates/nodal-core/src/git/integration.rs:130-152 | `Integrated(Ancestor)` exactly when the tip is in the base's history; level on both sides exactly when they are one commit |
| `Integration.StandingExactly` | crates/nodal-core/src/git/integration.rs:130-173 | the counts are of the commits one side has and the other has not; a branch with any is absorbed, in conflict, unknown or open exactly by what merging answered |
| `MergeRuns.RunMerge` | crates/nodal-core/src/lifecycle/ops/merge.rs:278-331 | a command on the two repositories, stage by stage or carried on where a rebase had stopped, cut after any number of writes |
| `MergeRuns.RunAbort` | crates/nodal-core/src/lifecycle/ops/merge.rs:244-272 | the abort on the home: rebase stopped, branch at the record, record gone; none of it where the branch cannot move but the first |
| `MergeCommands.MergedKeepsTheWork` | crates/nodal-core/src/lifecycle/ops/merge.rs:278-331 | the work as it stood before the squash is on record, the target's old tip is in its new history, and at most one commit came on it if and only if the branch was on the target or Git replays one commit at most |
| `MergeContents.RebaseDeliversThePicks` | crates/nodal-core/src/git/merge.rs:97-123 | after done, the branch's tip stands on what was gone onto by one commit for each pick, with its tree, its note and the one before as only parent; the files are the tip's, those not tracked as they were, no other branch moved |
| `MergeContents.ConflictKeepsThePicks` | crates/nodal-core/src/git/merge.rs:97-123 | a rebase that stopped has the commits replayed so far under a detached HEAD, and index and files as Git left them |
| `MergeContents.MergedDeliversTheWork` | crates/nodal-core/src/lifecycle/ops/merge.rs:278-331 | what the target receives: where the branch was on it, the home's work, with no file of the home moved; where not, the replayed commits on its old tip, and the home's files are the last one's |
| `MergeContents.ResumedDeliversThePicks` | crates/nodal-core/src/lifecycle/ops/merge.rs:286-331 | what the target receives of a stopped rebase carried on: the commits replayed now, on those replayed before it stopped |
| `MergeCommands.MergedTwiceIsMergedOnce` | crates/nodal-core/src/git/merge.rs:49-112 | after a merge begun on its branch ended merged, any command changes nothing wherever it is cut, and a whole one answers that the target had not to move |
| `MergeCommands.ResumedTwiceExactly` | crates/nodal-core/src/lifecycle/ops/merge.rs:286-306 | after a stopped rebase was carried on to a merge, one more command changes nothing if and only if a tip was on record and every file beside the rebase that could be added is one of the tip |
| `MergeRepeated.CutShortOfTheRebase` | crates/nodal-core/src/git/merge.rs:49-95 | the stages cut short of the rebase, however often, and begun anew with nothing undone end as if never cut, in every outcome |
| `MergeRepeated.StagesRepeatExactly` | crates/nodal-core/src/git/merge.rs:49-112 | the stages of a merge that would end merged, cut anywhere and begun anew with nothing undone, end in the same state if and only if the branch was on the target or Git replays one commit at most |
| `MergeRepeated.ResumedStagesRepeatExactly` | crates/nodal-core/src/git/merge.rs:104-123 | the same of the two stages that carry a rebase on, if and only if a tip is on record, the branch comes at most one commit over the target, and no file beside the rebase could be added |
| `MergeTakenBack.TakenBackExactly` | crates/nodal-core/src/lifecycle/mod.rs:489-511 | a merge killed anywhere, or refused by any stage, is undone as deep as it had begun: the checkout always, the files if and only if the squash had not begun or every path comes back from the record, the home if and only if besides no tip was on record or none had begun to be |
| `MergeTakenBack.OwnRecordSurvivesExactly` | crates/nodal-core/src/lifecycle/ops/merge.rs:508-553 | with its own tip on record every file the merge could commit comes back, and the others if and only if no replay put a file over one |
| `MergeTakenBack.SecondMergeTakenBack` | crates/nodal-core/src/lifecycle/ops/merge.rs:471-522 | after a finished merge and new work, a second merge killed after its squash: the record is lost, and the work comes back only if it is the first merge's |
| `MergeSessions.AnyMixThatMerges` | crates/nodal-core/src/lifecycle/mod.rs:383-430 | from any session and through any mix of commands killed and undone by the next, refused, stopped, carried on and given up, and of a person's work, a command that ends merged leaves the target at the unit's tip over its own old tip, nothing else of the checkout touched, and a standing of `Integrated(Ancestor)`, 0 and 0; a target nobody else moves never loses a commit |
| `MergeSessions.FailedUndoLeaves` | crates/nodal-core/src/lifecycle/mod.rs:489-511 | an undo that fails stops there: nothing done if the target cannot be put back, and the target put back and the rebase stopped if the branch cannot |
| `MergeSessions.UndoKeepsTheTargetExactly` | crates/nodal-core/src/lifecycle/ops/merge.rs:622-626 | a target moved by somebody else since a kill keeps its commits through the undo if and only if the fast-forward had not begun, or the checkout refuses, or the move was backwards |
| `MergeAgain.KilledOnceExactly` | crates/nodal-core/src/lifecycle/mod.rs:383-430 | a merge killed at a given write, undone and run again is as if never killed if and only if that kill was harmless, a condition on what is staged, on record and ignored for that write |
| `MergeAgain.KilledAgainExactly` | crates/nodal-core/src/lifecycle/mod.rs:383-430 | a merge killed any number of times anywhere, undone by the next command each time and run again, passes from its record on through the same homes to the same end, merged, refused or in a conflict, if and only if the ignored files staged are those `HEAD` has, no tip but its own is on record, and no replay puts a file over one it cannot commit |
| `MergeGivenUp.GivenUpExactly` | crates/nodal-core/src/lifecycle/ops/merge.rs:244-272 | a merge stopped, carried on and stopped again with any work between, then aborted: back at the record if and only if nothing stands in the way; without an older record always, with every file that could be committed, the others if and only if they stayed, and with the branch where the merge found it if and only if there was nothing to commit |
| `MergeGivenUp.AbortGoesToTheRecord` | crates/nodal-core/src/lifecycle/ops/merge.rs:244-272 | from any stopped state with a tip on record, an abort goes to that tip if and only if no untracked file is in its way |
| `MergeGivenUp.ResumedIsTakenBackExactly` | crates/nodal-core/src/lifecycle/ops/merge.rs:547-638 | a command that carried a rebase on and was killed or refused is undone to the record, if and only if nothing stands in the way; the checkout always |
| `MergeGivenUp.ResumedRunsAgain` | crates/nodal-core/src/lifecycle/mod.rs:383-430 | such a command run again after its undo is the first merge begun again from its record, with the conflict unresolved, if and only if the record is its own and the files beside it stayed |
| `MergeExamples.ForcedFileIsNotMerged` | crates/nodal-core/src/git/merge.rs:289-295 | a file forced into the index over an ignore rule: killed after its record, undone and run again, the merge answers that there was nothing to merge |
| `MergeExamples.SecondMergeLosesItsWork` | crates/nodal-core/src/lifecycle/ops/merge.rs:471-522 | one file merged and another lost, from the files and the record, by the undo of a second merge |
| `MergeExamples.AbortLeavesTheCommit` | crates/nodal-core/src/lifecycle/ops/merge.rs:244-272 | one new file, a conflict and an abort: the branch is at the commit the merge made |
| `MergeExamples.FileBesideIsCommitted` | crates/nodal-core/src/git/merge.rs:118-123 | a carried-on rebase with a file beside it: the stages begun anew after a cut commit that file |
| `MergeExamples.UndoRewindsTheTarget` | crates/nodal-core/src/lifecycle/ops/merge.rs:622-626 | a target moved between a kill at the fast-forward and the next command is put back, and the other commit is on it no more |
| `Refresh.LineIsExact` | crates/nodal-core/src/context/refresh.rs:79-81 | two readings write one line exactly when they are equal |
| `Refresh.Reading.See` | crates/nodal-core/src/context/refresh.rs:132-138 | one path folded in: one more entry, and the later time |
| `Refresh.Reading.Walk` | crates/nodal-core/src/context/refresh.rs:145-156 | a directory folded in: the latest time of everything under it, and how many paths answered |
| `Refresh.TakeStamp` | crates/nodal-core/src/context/refresh.rs:121-129 | the stamp of a checkout, unreadable without a Git directory |
| `Refresh.ReadingsDiffer` | crates/nodal-core/src/context/refresh.rs:35-41 | a later write, or more or fewer paths, changes the line |
| `Refresh.HeldExactly` | crates/nodal-core/src/context/refresh.rs:90-112 | once a stamp is recorded, that reading and no other is held, and none in a home without a Git directory; a write cut short makes nothing held |
| `Refresh.RefreshedOnce` | crates/nodal-core/src/context/refresh.rs:173-179 | a stamp that holds costs no fetch; otherwise the home mirrors the checkout or is as it was; and after success the same stamp costs none |
| `Refresh.Home.Record` | crates/nodal-core/src/context/refresh.rs:104-112 | an unreadable stamp is never written, and a write that fails leaves at most the start of a line |
| `Refresh.Home.Ensure` | crates/nodal-core/src/context/refresh.rs:173-179 | fetch unless the stamp is held, and record it only after a fetch that worked |
| `RefreshRuns.RunIsHonest` | crates/nodal-core/src/context/survey.rs:149-218 | under every interleaving of ref updates, surveys, failed fetches, failed writes and deaths: a stamp recorded in full says the mirror was fetched at or after the version it was read from |
| `RefreshRuns.StepsAreEnsure` | crates/nodal-core/src/context/refresh.rs:173-179 | a survey's steps at a home, left alone, are the refresh of it with the same luck |
| `RefreshRuns.CutLinesAreTorn` | crates/nodal-core/src/context/refresh.rs:104-112 | a write cut short leaves nothing any stamp matches |
| `RefreshRuns.SkippingIsCurrent` | crates/nodal-core/src/context/survey.rs:198-202 | a home a survey skips has a mirror no older than the survey's start, when its stamp was not used before |
| `RefreshRuns.FinishingIsCurrent` | crates/nodal-core/src/context/survey.rs:198-202 | so has a home it refreshed |
| `RefreshRuns.MatchIsCurrentExactly` | crates/nodal-core/src/context/refresh.rs:90-129 | in every run a match means the mirror is current if and only if the present stamp was not given before while the refs were other |
| `Dotenv.EscapeDotenv` | crates/nodal-core/src/env/files.rs:645-658 | the escaping loop |
| `Dotenv.WriteDotenv` | crates/nodal-core/src/env/files.rs:524-534 | a header of comments and one line for each variable that is not a person's own |
| `Dotenv.Unescape` | crates/nodal-core/src/env/files.rs:597-613 | trim, take the quotes off, and undo the escapes |
| `Dotenv.QuotedValueComesBackExactly` | crates/nodal-core/src/env/files.rs:597-658 | a value comes back exactly when it does not end in a double quote; one that does comes back with a backslash there |
| `Dotenv.DeliveryComesBackExactly` | crates/nodal-core/src/env/files.rs:524-613 | whatever comments stand first, reading the file back gives the delivered pairs in order if and only if no delivered value ends in a double quote |
| `Dotenv.DeliveredExactly` | crates/nodal-core/src/env/files.rs:524-543 | delivered are the variables of every place but those of somebody's own secrets, in order |
| `Dotenv.SecretsDoNotShow` | crates/nodal-core/src/env/files.rs:524-543 | activations that differ in nothing but secrets write one file |
| `Dotenv.ValuesAreInert` | crates/nodal-core/src/env/files.rs:520-535 | between the quotes nothing of a value expands or ends them |
| `Export.RenderExport` | crates/nodal-core/src/env/files.rs:561-571 | one export line for each pair |
| `Export.QuotedIsRead` | crates/nodal-core/src/env/files.rs:561-571 | a value goes through single quotes whole, whatever it holds |
| `Export.ShellReadsTheSame` | crates/nodal-core/src/env/files.rs:545-571 | a shell under sections 2.2.1 and 2.2.2 of the POSIX.1-2017 Shell Command Language assigns every name its value, for every value |
| `Exclude.LinesOf` | crates/nodal-core/src/env/files.rs:420-428 | the lines of the rows hidden one way, each once |
| `Exclude.InfoExclude.Add` | crates/nodal-core/src/env/files.rs:444-474 | only missing lines are added, under one marker |
| `Exclude.InfoExclude.TakeOut` | crates/nodal-core/src/env/files.rs:491-512 | the marker and every line of the table taken out, and whether anything was |
| `ExcludeRuns.OneBlockWhateverIsAsked` | crates/nodal-core/src/env/files.rs:430-474 | after any calls the file is as it was with one block after it: the marker once, each missing line asked for once |
| `ExcludeRuns.RepeatsAddNothing` | crates/nodal-core/src/env/files.rs:430-474 | asking again adds nothing |
| `ExcludeRuns.TakingOutRestoresExactly` | crates/nodal-core/src/env/files.rs:476-512 | taking the block out restores the text if and only if it held no line of Nodal's, ends its last line, has no carriage return before a newline, and is not one blank line |
| `ExcludeRuns.LinesComeBackExactly` | crates/nodal-core/src/env/files.rs:491-512 | reading lines and writing them again is the identity exactly on texts without such returns |
| `Digest.FieldsAreExact` | crates/nodal-core/src/fingerprint/digest.rs:34-51 | no two sequences of fields have one length-prefixed form |
| `Digest.HexIsExact` | crates/nodal-core/src/fingerprint/digest.rs:59-76 | hex tells bytes apart |
| `Digest.HexSpellsBytes` | crates/nodal-core/src/fingerprint/digest.rs:59-76 | two lower-case digits for each byte, the higher one first |
| `Digest.Hasher.Feed` | crates/nodal-core/src/fingerprint/digest.rs:43-51 | a field goes in after its length |
| `Digest.Hasher.Finish` | crates/nodal-core/src/fingerprint/digest.rs:59-67 | the digest of the fields fed |
| `Digest.DigestIsExact` | crates/nodal-core/src/fingerprint/digest.rs:34-67 | where the hash does not collide, digests are equal exactly when the fields are |
| `Inputs.MatchesWhatItIsAbout` | crates/nodal-core/src/fingerprint/inputs.rs:44-57 | a row matches the path itself, a path ending in the name, one ending in a name that starts so, or one below the directory |
| `Inputs.CoversWhatItIsAbout` | crates/nodal-core/src/fingerprint/inputs.rs:76-78 | a class covers exactly what some row of it is about |
| `Utf8.TextExactly` | crates/nodal-core/src/fingerprint/inputs.rs:57-60 | a name is text exactly when it encodes Unicode scalar values |
| `Fingerprint.Select` | crates/nodal-core/src/fingerprint/mod.rs:234-252 | one pass fills every class's bucket, then each is sorted |
| `Fingerprint.SubDigest` | crates/nodal-core/src/fingerprint/mod.rs:262-271 | the digest of one class: domain, name, then path, mode and id of each input |
| `Fingerprint.ComputeKey` | crates/nodal-core/src/fingerprint/mod.rs:91-109 | a key from the named digests of its classes, the platform in the workspace key only |
| `FingerprintProofs.BucketIsCanonical` | crates/nodal-core/src/fingerprint/mod.rs:234-252 | a bucket depends on the multiset selected and on nothing else |
| `FingerprintProofs.PathBytesAreExact` | crates/nodal-core/src/fingerprint/mod.rs:262-271 | paths are told apart by their bytes |
| `FingerprintProofs.FingerprintIsExact` | crates/nodal-core/src/fingerprint/mod.rs:79-110 | two trees have one key exactly when, for every class of the key and every path, mode and object id, equally many entries that are no directory and that a row of the class is about have these, and, for workspaces, the platform is one |
| `FingerprintProofs.PartsSeparate` | crates/nodal-core/src/fingerprint/mod.rs:258-271 | parts never share a digest, whatever feeds them, and one part has one exactly for the same inputs |
| `FingerprintProofs.DomainsSeparate` | crates/nodal-core/src/fingerprint/digest.rs:17-30 | keys of the two kinds and digests of parts never coincide |
| `Walk.Walker.Visit` | crates/nodal-core/src/doctor/scan.rs:163-192 | one directory: a repository, or its children while depth remains |
| `Walk.Walker.Descend` | crates/nodal-core/src/doctor/scan.rs:195-223 | a child entered unless it is no directory, avoided, or a remote mount |
| `Walk.WalkFrom` | crates/nodal-core/src/doctor/scan.rs:128-139 | every repository of every root, sorted, each once |
| `Walk.WalkIsExact` | crates/nodal-core/src/doctor/scan.rs:151-213 | on every finite tree exactly the signed directories within the bound with no signed, unlisted, avoided, linked or remotely mounted directory on the way |
| `Walk.RootsAreWalkedExactly` | crates/nodal-core/src/doctor/scan.rs:128-156 | the same over any roots |
| `Walk.TurnsBackExactly` | crates/nodal-core/src/doctor/scan.rs:195-297 | the walk turns back exactly at an avoided directory or below one, and at a directory on another device whose innermost mount is of a remote type |
| `Duplication.Normalise` | ci/duplication.py:66-74 | the kept lines, collapsed |
| `Duplication.CommentsDoNotCount` | ci/duplication.py:66-74 | blank and comment lines change nothing measured |
| `Duplication.DroppedExactly` | ci/duplication.py:66-74 | a line is dropped exactly when nothing but gaps stands in it, or in front of two slashes |
| `Duplication.CollapsedExactly` | ci/duplication.py:66-74 | two lines collapse to one text exactly when they are of the same words |
| `Duplication.GapsDoNotCount` | ci/duplication.py:66-74 | how much stands between words, or around them, changes nothing |
| `Duplication.CountWindows` | ci/duplication.py:95-98 | the map counts every window of a file by its digest |
| `Duplication.Mark` | ci/duplication.py:101-106 | marked are exactly the lines some repeated window covers |
| `Duplication.Measure` | ci/duplication.py:87-112 | the two counts: lines some repeated window covers, and lines, of which there are never fewer |
| `Duplication.RepeatedAtTwoPlaces` | ci/duplication.py:77-98 | a window is repeated exactly when it stands at two different places of the corpus |
| `Duplication.DuplicatedExactly` | ci/duplication.py:77-112 | a line is duplicated exactly when some six lines that cover it, with seventy-two characters between them, stand at another place of the corpus too |
| `Duplication.FileOrderDoesNotMatter` | ci/duplication.py:87-112 | neither count depends on the order of files |
| `Ledger.Share` | crates/nodal-core/src/context/render.rs:337-343 | never more than the room, all of it whenever something is left out, and half of it to each list that needs it |
| `Ledger.ShownOf` | crates/nodal-core/src/context/render.rs:279-325 | shown and reported dropped add up to the files, and to Git's count of commits; something is dropped only when it must be |
| `Ledger.DroppedSays` | crates/nodal-core/src/context/render.rs:319-325 | the line about what is left out counts the commits and the files not shown |
| `Ledger.SiblingLines` | crates/nodal-core/src/context/render.rs:279-301 | at most forty lines, and exactly forty when anything was dropped |

## Left out

- Command lines, prompts, printed reports, the MCP server, logging and error wording.
- SQLite, Docker, `/proc` and directory syscalls: their answers are parameters. The journal of a killed merge is the last stage it may say had begun, the branch tip and the target; killed between a write and its mark, a run may have either of two.
- Runs another process or another machine still owns, and a journal no plan can be rebuilt from, which are left as they are.
- Several clones deleted together, and branches of a clone other than HEAD: the uniqueness proof speaks of neither.
- What a server holds now: `heard` is an ordered value and nothing more.
- Failing Git processes inside the uniqueness proof are a set of questions that fail, not a cause each.
- Integer widths: counts and byte totals are unbounded, as are the scanner's depth and the reader's `u32` counts; the eight-byte length prefix of a digest field is the one width that is modelled.
- Offsets into text count characters; the scanner looks only for ASCII characters, so byte offsets would fall at the same places.
- Decoding of JSON numbers: a number is its text. Of two members with one key the later one's value stands, as `serde_json` has it.
- `add_member`, `remove_member` and `holds_member` of the settings file, and the file locations it is looked for in.
- Merge conflicts, mode-only changes and hunks inside one file when a patch is applied: a patch fits a path whole or not at all, and applying it is one write.
- A copy cut in the middle: each untracked file is copied by one write.
- Reading the checkout before a carry (its refusals of submodules, kinds and ceilings) and the counts it reports.
- Author, date and message of commits beyond one note, hooks and configured identity.
- The snapshot of the home a run takes before its first step, on a ref of its own.
- A merge whose stages are switched off, and removing the unit after it; a rebase killed by the machine is one that stops.
- The fetch of the target into the home and the refs Nodal keeps for it; what a merge hook runs.
- Modification times a filesystem rounds: a stamp is what the reading says.
- The home's worktrees adopted in place, which a survey reads as they stand, and the rest of what a survey reports.
- File modes of the delivered environment, the manifest, and the pointer lines in vendor files.
- The recipe, command and port digests, which use the same encoding with one field.
- What the walk reports as skipped and how many entries it looked at; resolving symbolic links in a root; reading `mountinfo`.
- The list of worst files of the duplicate measure, splitting a file at its tests, and collecting the corpora.
- The top three ignored directories of a clone and the order of groups with equal figures.
- InstallReads.InstallReads: files with two names that read alike, or with a quote spelled in a name or misread by the scan, and events with characters JSON escapes.
- The words of the dotenv header: any comment lines may stand there.
- Reading one repository of a survey: it is a parameter that may fail before or after the sizing.
- Digest fields of 2 to the 64th bytes or more, which no slice can hold.
- ExactInverse.RoundTripExactly: hooks are asked to be one or more, each with the marker in its command and no newline in its event name, as every adapter writes them.
- InstallReplaces.OldHooksAreReplaced: what is left of the document is asked to print without misleading the scan.
- Walk.TurnsBackExactly: mounts are asked to be listed longest first, as they are sorted when read.
