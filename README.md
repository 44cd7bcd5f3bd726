# AutoFolderDeletion: the age-based archival sweep

`AutoFolderDeletion` is a small Java service. Once per period it walks a list of
configured folders below `ROOT_PATH` (`FOLDER_NAMES`) and archives whatever has not
been modified for `DELETION_FREQUENCY_DAYS` days into a flat directory
`TEMP_PATH`. The walk is depth first:

- A folder that is old enough is moved into the archive as a whole, and its
  contents are not looked at.
- Any other folder is listed. Its subfolders go through the same folder rule.
- Every other entry goes through the file rule: it is moved if it is itself old
  enough.
- Each move first deletes any archive entry of the same file name, then moves
  with `REPLACE_EXISTING`.
- Errors are handled unevenly. Failed moves and deletes are logged and
  swallowed. A failing `getLastModifiedTime` or `newDirectoryStream` ends the
  whole sweep.

The model replaces the disk with an abstract filesystem:

- Working tree: `FileSystem.Node`, a `File(name, mtime)` or `Dir(name, mtime,
  children)`. The top level is a map from entry name to node.
- Archive: a map from file name to node.
- Paths are sequences of components below `ROOT_PATH`.
- The clock is a number of milliseconds.
- The log is a sequence of events. It also records each age test with the
  threshold it used.

Which filesystem calls fail, and how far the clock runs after each age test,
is given by an `Env` value. The clock step is looked up by the position of the
test in the log, so each test has its own step, also when one path is tested
twice. `Env` stands in for the nondeterminism of the real filesystem. Most
properties below hold for every environment. These are the exceptions:

- The lemmas that require the predicate `Properties.TraversalSound`, which
  says no stat or listing fails: `EntryNeverThrows`, `ChildrenNeverThrow` and
  `SweepProperties.SweepCompletes`.
- `Properties.AttemptsAreFrontier` and `FrontierChildren` also assume a
  frozen clock (`Frozen`).
- `Archive.FolderStepLands` assumes that the old archive entry can be
  removed and the source can be moved.
- `Archive.AbsentEntryDoesNotBlock` assumes that the source can be moved and
  the archive has no entry of that name.
- Each lemma in `Scenarios` fixes one environment.

The project has two layers:

- `Traversal` and `Archive` describe a sweep as functions of the state.
- `Sweeper.Sweeper` is a class holding the working tree, the archive, the clock
  and the log. Its methods change these one filesystem call at a time, as the
  Java methods do. Each method is proved to produce exactly the state the
  corresponding function describes.

The properties are proved in `Properties` and `SweepProperties` as lemmas about
the functions. `EndState` states what a walk leaves behind. The working tree
is `Remains`: the tree with every subtree whose move the log records cut
away. The archive is `Replay`: the log's deletions and moves applied in
order. `Scenarios` works three concrete sweeps out in full.

Where the program's behaviour differs from a plain reading of its design, the
model follows the code:

- `Files.deleteIfExists` in `deleteFileFromTemp` throws on a non-empty
  directory, so a file cannot replace an archived folder of the same name.
  That error is logged, and the move fails too (`Archive.FileBlockedByNonEmptyDir`).
- `deleteFolderFromTemp` logs an error when the archive has no such entry,
  because `Files.walk` throws `NoSuchFileException`. `deleteFileFromTemp`
  treats a missing entry as success.
- `File::delete` failures inside `deleteFolderFromTemp` are silent. An entry
  that cannot be removed stays, and the step is still logged as a deletion.
- `DELETION_FREQUENCY_DAYS` is not validated: zero or a negative value is
  accepted, and the threshold is then now or a time in the future.
- Archive placement is flat. `ROOT_PATH/A/B/x.txt` is archived as
  `TEMP_PATH/x.txt`, not under a mirrored path.
- The top-level loop body is the same code as `handleSubfolder`, and the model
  uses one definition for both. A configured name that is a regular file and
  is not old enough therefore fails at `newDirectoryStream`
  (`NotDirectoryException`) and ends the sweep. A configured name that does
  not exist fails at `getLastModifiedTime` and ends the sweep as well.

## Model

| member | source | states |
|---|---|---|
| Threshold.CalculateDeletionThreshold | aa5/src/main/java/com/smicc/aa5/AutoFolderDeletion.java:184-193 | the threshold lies a whole number of days before now; it is strictly before now for a positive day count, equal to now for zero and after now for a negative count |
| Threshold.IsOlderThanThreshold | aa5/src/main/java/com/smicc/aa5/AutoFolderDeletion.java:176-182 | an entry qualifies exactly when it is more than `days` whole days old at the moment of the test |
| Threshold.ThresholdMonotone | aa5/src/main/java/com/smicc/aa5/AutoFolderDeletion.java:178 | a later clock reading never gives an earlier threshold |
| Threshold.AtThresholdNotOlder | aa5/src/main/java/com/smicc/aa5/AutoFolderDeletion.java:181 | the test is strict: an entry modified exactly at the threshold does not qualify |
| Threshold.OlderStaysOlder | aa5/src/main/java/com/smicc/aa5/AutoFolderDeletion.java:176-193 | an entry that qualifies at one test still qualifies at every later one |
| Archive.DeleteFolderFromTemp | aa5/src/main/java/com/smicc/aa5/AutoFolderDeletion.java:151-163 | only the entry of that name may disappear and no entry changes; it disappears exactly when it exists and can be removed; one event is logged, an error exactly when the entry is missing; the clock is untouched |
| Archive.DeleteFileFromTemp | aa5/src/main/java/com/smicc/aa5/AutoFolderDeletion.java:165-174 | only the entry of that name may disappear; it stays exactly when it exists and is a non-empty directory or cannot be removed; the one logged event is an error exactly when the entry stayed; a missing entry is not an error |
| Archive.MoveToTemp | aa5/src/main/java/com/smicc/aa5/AutoFolderDeletion.java:131-149 | never throws; the move lands exactly when the source can be moved and the target name is not a non-empty directory; then the archive maps the source's file name to the node and the source leaves the tree; otherwise nothing changes; one event is logged |
| Archive.ArchiveNodeLog | aa5/src/main/java/com/smicc/aa5/AutoFolderDeletion.java:69-73 | an archive step (delete, then move) never throws or reads the clock; it logs the delete outcome, then the move outcome, and the move is logged as done exactly when the node left the tree |
| Archive.ArchiveNodeEffect | aa5/src/main/java/com/smicc/aa5/AutoFolderDeletion.java:97-102 | after a successful step the archive equals the old archive with the file name mapped to the moved node; after a failed step the archive is unchanged or has lost that entry |
| Archive.FolderStepLands | aa5/src/main/java/com/smicc/aa5/AutoFolderDeletion.java:151-163 | a folder step always lands unless the old entry cannot be removed or the source cannot be moved: REPLACE_EXISTING then meets no non-empty target |
| Archive.AbsentEntryDoesNotBlock | aa5/src/main/java/com/smicc/aa5/AutoFolderDeletion.java:160-162 | a missing archive entry never stops the step; the node lands under its file name |
| Archive.FileBlockedByNonEmptyDir | aa5/src/main/java/com/smicc/aa5/AutoFolderDeletion.java:165-174 | a file whose name is held in the archive by a non-empty directory stays in the tree, the archive is unchanged and two errors are logged |
| Archive.SameNameTwice | aa5/src/main/java/com/smicc/aa5/AutoFolderDeletion.java:134 | two successful steps for the same file name leave exactly one entry under it, the second node, and change no other entry |
| Archive.ArchiveNodeKeyed | aa5/src/main/java/com/smicc/aa5/AutoFolderDeletion.java:144 | an archive keyed by entry names stays so after a step whose node carries its path's file name |
| Archive.ArchiveNode | aa5/src/main/java/com/smicc/aa5/AutoFolderDeletion.java:97-102 | a delete-then-move step never throws and leaves the clock alone; the node either leaves the tree or stays whole, and when it leaves, the archive holds it under the file name of its path |
| Traversal.Check | aa5/src/main/java/com/smicc/aa5/AutoFolderDeletion.java:176-182 | an age test leaves the archive alone, lets the clock only advance and logs the threshold computed from the clock at that moment |
| Traversal.HandleFile | aa5/src/main/java/com/smicc/aa5/AutoFolderDeletion.java:120-130 | a failing stat propagates and changes nothing; otherwise nothing propagates; a file that does not qualify stays and leaves the archive unchanged; the clock and log only grow |
| Traversal.HandleSubfolder | aa5/src/main/java/com/smicc/aa5/AutoFolderDeletion.java:92-118 | what is left of a folder is nothing or one entry with its name, time and kind; the clock and log only grow |
| Traversal.HandleEntry | aa5/src/main/java/com/smicc/aa5/AutoFolderDeletion.java:106-115 | one listed child leaves at most one entry behind |
| Traversal.HandleChildren | aa5/src/main/java/com/smicc/aa5/AutoFolderDeletion.java:105-116 | the listing loop leaves at most as many children as it had; the clock and log only grow |
| Traversal.Replace | aa5/src/main/java/com/smicc/aa5/AutoFolderDeletion.java:68-73 | after a top-level folder is handled, its entry holds what is left of it, or is gone when nothing is left; no other top-level entry changes |
| Traversal.AutoMoveAndDeleteFiles | aa5/src/main/java/com/smicc/aa5/AutoFolderDeletion.java:59-90 | a sweep never adds top-level entries, leaves every entry whose name is not configured exactly as it was, and only lets the clock and log grow |
| Sweeper.Sweeper.CheckAge | aa5/src/main/java/com/smicc/aa5/AutoFolderDeletion.java:176-193 | the method answers the age test against the clock as it was, and the new state is the one `Traversal.Check` gives |
| Sweeper.Sweeper.DeleteFolderFromTemp | aa5/src/main/java/com/smicc/aa5/AutoFolderDeletion.java:151-163 | the new archive and log are those of `Archive.DeleteFolderFromTemp` |
| Sweeper.Sweeper.DeleteFileFromTemp | aa5/src/main/java/com/smicc/aa5/AutoFolderDeletion.java:165-174 | the new archive and log are those of `Archive.DeleteFileFromTemp` |
| Sweeper.Sweeper.MoveToTemp | aa5/src/main/java/com/smicc/aa5/AutoFolderDeletion.java:131-149 | the new archive, log and what is left of the source are those of `Archive.MoveToTemp` |
| Sweeper.Sweeper.HandleFile | aa5/src/main/java/com/smicc/aa5/AutoFolderDeletion.java:120-130 | new state, what is left and whether an exception escapes are those of `Traversal.HandleFile` |
| Sweeper.Sweeper.HandleSubfolder | aa5/src/main/java/com/smicc/aa5/AutoFolderDeletion.java:92-118 | new state, what is left and whether an exception escapes are those of `Traversal.HandleSubfolder` |
| Sweeper.Sweeper.HandleEntry | aa5/src/main/java/com/smicc/aa5/AutoFolderDeletion.java:106-115 | the isDirectory dispatch gives what `Traversal.HandleEntry` gives |
| Sweeper.Sweeper.ListAndHandle | aa5/src/main/java/com/smicc/aa5/AutoFolderDeletion.java:105-116 | the loop over the directory stream, stopping at the first child that throws, gives what `Traversal.HandleChildren` gives from the first child |
| Sweeper.Sweeper.AutoMoveAndDeleteFiles | aa5/src/main/java/com/smicc/aa5/AutoFolderDeletion.java:59-90 | the loop over the configured names leaves the working tree, archive, clock and log that `Traversal.AutoMoveAndDeleteFiles` gives, and reports whether it ended early |
| Properties.CheckThenArchive | aa5/src/main/java/com/smicc/aa5/AutoFolderDeletion.java:122-128 | an age test followed by an archive step logs only events about that path, exactly one age test, and a completed move exactly when the node left the tree |
| Properties.SubfolderEvents | aa5/src/main/java/com/smicc/aa5/AutoFolderDeletion.java:92-118 | handling a folder touches only it and its descendants; it is tested exactly once unless its stat fails; one whose stat fails or that does not qualify is never itself attempted; one whose stat succeeds and that qualifies is the only attempt made; it leaves the tree exactly when its move is logged |
| Properties.ListedFolderEvents | aa5/src/main/java/com/smicc/aa5/AutoFolderDeletion.java:103-117 | a folder that stays and is listed is tested once and never itself attempted or moved, and its listing touches only its descendants |
| Properties.FileEvents | aa5/src/main/java/com/smicc/aa5/AutoFolderDeletion.java:120-130 | handling a file touches only that path; the file is tested exactly once unless its stat fails; it is attempted exactly when its stat succeeds and it qualifies; it leaves the tree exactly when its move is logged |
| Properties.EntryEvents | aa5/src/main/java/com/smicc/aa5/AutoFolderDeletion.java:106-115 | the same for a listed child of either kind: it touches only its own path and what lies below it; it is tested exactly once unless its stat fails; it is attempted alone when its stat succeeds and it qualifies, and never otherwise; it leaves the tree exactly when its move, as a folder or as a file, is logged |
| Properties.QualifyingAttempted | aa5/src/main/java/com/smicc/aa5/AutoFolderDeletion.java:122-128 | an age test followed by an archive step makes exactly one attempt, at that path |
| Properties.ChildrenEvents | aa5/src/main/java/com/smicc/aa5/AutoFolderDeletion.java:105-116 | the listing loop touches only strict descendants; when nothing escapes, each child is tested exactly once, in listing order |
| Properties.QualifyingFolderMovesWhole | aa5/src/main/java/com/smicc/aa5/AutoFolderDeletion.java:97-102 | a folder that qualifies is handled as one unit: no descendant is tested or attempted, nothing escapes, and when the move lands the archive entry under its file name is the whole folder |
| Properties.OtherFolderVisitsChildren | aa5/src/main/java/com/smicc/aa5/AutoFolderDeletion.java:103-117 | a folder that does not qualify stays under its own name and time and is never attempted; when nothing escapes, each immediate child is tested exactly once, in order |
| Properties.AtThresholdStays | aa5/src/main/java/com/smicc/aa5/AutoFolderDeletion.java:176-182 | an entry whose time equals the threshold of its own test is never itself attempted and stays in the tree |
| Properties.EntryNeverThrows | aa5/src/main/java/com/smicc/aa5/AutoFolderDeletion.java:136-138 | without stat or listing failures nothing escapes from a listed entry, whatever deletes and moves fail |
| Properties.ChildrenNeverThrow | aa5/src/main/java/com/smicc/aa5/AutoFolderDeletion.java:146-148 | the same for the listing loop |
| Properties.StatFailureStopsSiblings | aa5/src/main/java/com/smicc/aa5/AutoFolderDeletion.java:94 | a child whose stat throws ends the listing loop: the state is unchanged and the remaining siblings are left as they are |
| Properties.ListingFailureEnds | aa5/src/main/java/com/smicc/aa5/AutoFolderDeletion.java:104-105 | a folder that stays and cannot be listed, empty or not, and a regular file reached through the folder rule, throw after their single age test, with nothing else done and the node kept |
| Properties.ListedThrowsWithLoop | aa5/src/main/java/com/smicc/aa5/AutoFolderDeletion.java:103-117 | a listed folder throws exactly when its listing loop throws, and leaves the loop's state |
| Properties.ChildFailureEndsLoop | aa5/src/main/java/com/smicc/aa5/AutoFolderDeletion.java:105-116 | a child that throws ends the listing loop: the loop throws with the child's state, and the later siblings stay as they were |
| Properties.ArchiveAttempt | aa5/src/main/java/com/smicc/aa5/AutoFolderDeletion.java:131-149 | an archive step is one attempt, at its own path |
| Properties.AttemptsAreFrontier | aa5/src/main/java/com/smicc/aa5/AutoFolderDeletion.java:92-130 | with a frozen clock and no stat or listing failures, the archive attempts of a sweep of an entry are exactly the frontier: every entry older than the threshold with no qualifying ancestor, each once, in depth-first order |
| Properties.FrontierChildren | aa5/src/main/java/com/smicc/aa5/AutoFolderDeletion.java:105-116 | the same for the listing loop and the frontiers of the children in order |
| SweepProperties.CheckOrdered | aa5/src/main/java/com/smicc/aa5/AutoFolderDeletion.java:178 | an age test keeps the logged thresholds non-decreasing and not later than the current one |
| SweepProperties.ArchiveOrdered | aa5/src/main/java/com/smicc/aa5/AutoFolderDeletion.java:131-174 | an archive step keeps them so |
| SweepProperties.SubfolderOrdered | aa5/src/main/java/com/smicc/aa5/AutoFolderDeletion.java:92-118 | handling a folder keeps them so |
| SweepProperties.ChildrenOrdered | aa5/src/main/java/com/smicc/aa5/AutoFolderDeletion.java:105-116 | the listing loop keeps them so |
| SweepProperties.SweepOrdered | aa5/src/main/java/com/smicc/aa5/AutoFolderDeletion.java:59-90 | a sweep keeps them so |
| SweepProperties.SweepThresholdsNonDecreasing | aa5/src/main/java/com/smicc/aa5/AutoFolderDeletion.java:184-193 | the thresholds of the successive age tests of one sweep never decrease |
| SweepProperties.SubfolderKeyed | aa5/src/main/java/com/smicc/aa5/AutoFolderDeletion.java:144 | handling a folder keeps every archive entry under its own name |
| SweepProperties.ChildrenKeyed | aa5/src/main/java/com/smicc/aa5/AutoFolderDeletion.java:134 | the listing loop keeps every archive entry under its own name |
| SweepProperties.SweepKeyed | aa5/src/main/java/com/smicc/aa5/AutoFolderDeletion.java:134 | a sweep keeps the archive keyed: every entry sits under its own name before and after, and the top level keeps its entries under their names |
| SweepProperties.WalkFailureEndsSweep | aa5/src/main/java/com/smicc/aa5/AutoFolderDeletion.java:59-90 | a configured name whose walk throws, at whatever depth, ends the sweep with the state the walk left, whatever names follow |
| SweepProperties.AbortSkipsRest | aa5/src/main/java/com/smicc/aa5/AutoFolderDeletion.java:59-61 | once a prefix of the names has thrown, the names after it are never looked at |
| SweepProperties.SweepSplits | aa5/src/main/java/com/smicc/aa5/AutoFolderDeletion.java:61-62 | names are handled in list order: a sweep over a + b that gets through a is a sweep over a followed by a sweep over b |
| SweepProperties.TopLevelFileAborts | aa5/src/main/java/com/smicc/aa5/AutoFolderDeletion.java:76 | a configured name that is a regular file and does not qualify fails at the listing and ends the sweep; the working tree and the archive are unchanged |
| SweepProperties.MissingFolderAborts | aa5/src/main/java/com/smicc/aa5/AutoFolderDeletion.java:62-65 | a configured name missing from ROOT_PATH ends the sweep there, and no later name is looked at |
| SweepProperties.SweepCompletes | aa5/src/main/java/com/smicc/aa5/AutoFolderDeletion.java:59-90 | with no stat or listing failures, a sweep over distinct names of existing folders runs to its end whatever moves and deletes fail |
| SweepProperties.SweepTouchesOnlyConfigured | aa5/src/main/java/com/smicc/aa5/AutoFolderDeletion.java:61-62 | only paths below ROOT_PATH/name for a configured name are ever tested or moved |
| EndState.CheckArchiveMoved | aa5/src/main/java/com/smicc/aa5/AutoFolderDeletion.java:122-128 | an age test followed by an archive step moves its own path exactly when the node left the tree, and no other path |
| EndState.FileRemains | aa5/src/main/java/com/smicc/aa5/AutoFolderDeletion.java:120-130 | what handleFile keeps of a file is the file, unless the log records its move |
| EndState.SubfolderRemains | aa5/src/main/java/com/smicc/aa5/AutoFolderDeletion.java:92-118 | what handleSubfolder keeps of a folder is the folder with every subtree whose move the log records cut away, and nothing if the folder itself moved; this holds also when the walk threw |
| EndState.ListedRemains | aa5/src/main/java/com/smicc/aa5/AutoFolderDeletion.java:103-117 | a listed folder that does not qualify stays, with what is left of its children |
| EndState.EntryRemains | aa5/src/main/java/com/smicc/aa5/AutoFolderDeletion.java:106-115 | the same for a listed child of either kind |
| EndState.ChildrenRemains | aa5/src/main/java/com/smicc/aa5/AutoFolderDeletion.java:105-116 | the listing loop keeps, in order, what is left of each handled child; after a child that threw, every later sibling stays as it was |
| EndState.KeptAfterStop | aa5/src/main/java/com/smicc/aa5/AutoFolderDeletion.java:105-116 | when a child throws and all its moves lie inside it, the loop keeps what is left of that child followed by every later sibling exactly as it was |
| EndState.SweepRemains | aa5/src/main/java/com/smicc/aa5/AutoFolderDeletion.java:59-90 | with each name configured once, after a sweep every top-level entry is what is left of it once the moves the log records are cut away; entries that were not configured, or not reached, stay as they were, also when the sweep aborted |
| EndState.DeleteReplays | aa5/src/main/java/com/smicc/aa5/AutoFolderDeletion.java:151-174 | each delete step changes the archive as its logged event says: a logged deletion removes the entry unless it cannot be removed, any other event changes nothing |
| EndState.MoveReplays | aa5/src/main/java/com/smicc/aa5/AutoFolderDeletion.java:131-149 | each move changes the archive as its logged event says: a logged move puts the node under its file name, a failed one changes nothing |
| EndState.CheckArchiveReplays | aa5/src/main/java/com/smicc/aa5/AutoFolderDeletion.java:122-128 | the archive after an age test and an archive step is the replay of their three logged events |
| EndState.FileArchive | aa5/src/main/java/com/smicc/aa5/AutoFolderDeletion.java:120-130 | the archive after handleFile is the replay of its log |
| EndState.SubfolderArchive | aa5/src/main/java/com/smicc/aa5/AutoFolderDeletion.java:92-118 | the archive after handleSubfolder is the replay of its log, each move placing the subtree found at the moved path |
| EndState.ListedArchive | aa5/src/main/java/com/smicc/aa5/AutoFolderDeletion.java:103-117 | the same for a folder that is listed |
| EndState.EntryArchive | aa5/src/main/java/com/smicc/aa5/AutoFolderDeletion.java:106-115 | the same for a listed child of either kind |
| EndState.ChildrenArchive | aa5/src/main/java/com/smicc/aa5/AutoFolderDeletion.java:105-116 | the same for the listing loop, each move looked up in the listed folder |
| EndState.SubtreeChild | aa5/src/main/java/com/smicc/aa5/AutoFolderDeletion.java:106 | below one child, looking a path up from the folder and from the child give the same node |
| EndState.SweepArchive | aa5/src/main/java/com/smicc/aa5/AutoFolderDeletion.java:59-90 | with each name configured once, the archive after a sweep is the replay of the whole log on the archive before it, each move placing the subtree of ROOT_PATH found at the moved path under that path's file name: placement is flat |
| Scenarios.FolderAMoves | aa5/src/main/java/com/smicc/aa5/AutoFolderDeletion.java:68-73 | a 40-day-old folder, with days = 30, replaces an older archive entry of the same name as a whole |
| Scenarios.FolderBStays | aa5/src/main/java/com/smicc/aa5/AutoFolderDeletion.java:74-87 | a 5-day-old folder stays, and a 35-day-old file inside it is archived under its own name |
| Scenarios.OldFolderAndOldFile | aa5/src/main/java/com/smicc/aa5/AutoFolderDeletion.java:59-130 | a whole sweep over both: A leaves the working tree, B stays with no children, and the archive holds A and old.txt at the top |
| Scenarios.ListingFailureSkipsLaterFolders | aa5/src/main/java/com/smicc/aa5/AutoFolderDeletion.java:76 | a folder that cannot be listed ends the sweep after its single age test: later folders are not tested and nothing is moved |
| Scenarios.NestedListingFailureEndsSweep | aa5/src/main/java/com/smicc/aa5/AutoFolderDeletion.java:76-110 | an empty folder one level down that cannot be listed throws through its parent and ends the sweep: two age tests, nothing moved, the later folder never tested |

## Left out

- The `main` loop, `Thread.sleep` and interrupt handling are not modelled. They only schedule sweeps and never terminate.
- `loadConfiguration` is not modelled (file I/O, `Properties.load`, `System.exit`). `ROOT_PATH`'s entries, the days and the folder names are parameters.
- Real `java.nio.file` behaviour (symlinks, permissions, cross-device moves, concurrent changes by other processes) is abstracted into the `Env` fault sets. They say which stat, listing, move and delete calls throw.
- The logger's messages are modelled as log events. Their text and severity are not.
- `Archive.DeleteFolderFromTemp`: the bottom-up walk is modelled as all-or-nothing. An undeletable entry stays whole; in reality the walk deletes whatever it can inside it.
- `Threshold.CalculateDeletionThreshold`: `Calendar.add(DAY_OF_MONTH, …)` is modelled as exact 86 400 000 ms days, so daylight-saving transitions are not modelled.
- Java `int` overflow in `-DELETION_FREQUENCY_DAYS` for the smallest `int` is not modelled; days are unbounded integers.
- Directory stream order is unspecified in Java. The model takes children in their stored sequence order, and every property holds for any order of that sequence.
- `UncheckedIOException` from inside `Files.walk`'s stream and `DirectoryIteratorException` while iterating a listing are not modelled. Listing either throws at the start or yields all children.
- A directory's modification time changing when an entry inside it is moved away is not modelled. Times are fixed for the duration of a sweep.
- `TEMP_PATH` is assumed to lie outside `ROOT_PATH`, and configured folder names are single path components.
- The working tree is changed by rebuilding what is left of each node (the `kept` result) rather than by deleting deep paths in place. Within one configured name, no part of the tree is read after the walk has changed it. A name listed twice is walked again on what its first walk left, which `Traversal.Replace` put back into ROOT_PATH.
- Properties.AttemptsAreFrontier: holds only with a frozen clock and no stat or listing failures. With a running clock the threshold moves between checks, and a failure ends the walk early.
- Properties.FrontierChildren: holds only with a frozen clock and no stat or listing failures, for the same reasons.
- EndState.SweepRemains and EndState.SweepArchive: proved only when each configured name appears once in the list and no folder holds two entries of the same name. The second always holds on a real file system. For a name listed twice, the second walk sees what the first left.
- Traversal.HandleSubfolder, Traversal.HandleEntry, Traversal.HandleChildren and Traversal.AutoMoveAndDeleteFiles: their own contracts state only bounds on what they return. What they leave in the tree and the archive is stated by the `EndState` lemmas.
