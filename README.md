# Files copy: filters, copy walk and ZIP archive

This project models the core of a desktop files-copy application. The user
selects files and directories under a source directory and picks a target
directory. Optionally they set file filters: a file-type list and a date
option. The application then does four things:

- it filters the selection with one walk of the source tree
  (`FileFilterApplication.apply`);
- it sizes the work;
- it copies the filtered directories and files to the target with a second
  walk, which honours a cancel request;
- if asked, it packs the target directory into a ZIP archive beside it
  (`ZipFileCreator.zip`).

The model is split into one module per source file, plus three shared ones:

- `Wrappers`: `Option` and `Result`.
- `Paths`: a path is a list of name components. `StartsWith`, `Relativize`,
  `Resolve` and `Parent` are the `java.nio.file.Path` operations the source
  uses.
- `FileTree`: the source tree as a value (`Node`). `Walk` is the pre-order
  visit sequence of `Files.walkFileTree`. An optional prune set models a
  `preVisitDirectory` that answers `SKIP_SUBTREE`. The module proves that
  visits stay under the start path, that paths are distinct, what pruning
  removes, and that a parent is visited before its children.
- `DateOptions` (`DateOption.java`): the four options, `getFormattedString`,
  `toString`, the label map and `lookup`.
- `Filters` (`FileFilters.java`): a class with the three settings updated in
  place, its defaults and `FILE_EXTENSIONS`.
- `FilterApplication` (`FileFilterApplication.java`): a `FilterVisitor` class
  whose `filteredFiles` set is updated in place during a recursive walk. It
  is proved equal to a pure specification, `Kept`. Failures to read a
  file's modification date are specified by `FirstUnreadable`.
- `CopyDialogs` (`CopyDialog.java`): directory verification, work sizing,
  the copy walk as a loop over visits that updates the target file system
  (a map from path to entry) and the copied counters, and the ZIP decision.
  The loop is proved equal to `CopyFrom`, a fold of `Step` over the visits.
- `ZipFiles` (`ZipFileCreator.java`): archive naming, entry naming, the walk,
  and the 512-byte streaming loop. `FileInput` and `ZipOutput` are classes
  whose positions and entry lists change in place.

Time, the cancel button and unreadable files are parameters:

- `today` is a day number;
- a file's modification date is an `Option<int>` day number, and `None`
  means reading it fails;
- `cancel[i]` is the answer of `isCancelled()` at the i-th visit;
- `unreadable` is the set of files that cannot be opened while zipping.

The file-type filter compares strings exactly. The date filter uses the
strict `isAfter` of the source. So under TODAY no file dated today or
earlier passes (`DateWindows`); only a modification date later than today
does.

## Model

| member | source | states |
|---|---|---|
| Paths.ResolveRelativize | src/main/java/com/app/beta/CopyDialog.java:349 | resolving a path's relativization against the same base gives the path back |
| Paths.RelativizeInjective | src/main/java/com/app/check/ZipFileCreator.java:38 | two paths under one base with the same relative path are equal |
| Paths.StartsWithTransitive | src/main/java/com/app/beta/FileFilterApplication.java:91 | the startsWith relation is transitive |
| FileTree.InWalkChildren | src/main/java/com/app/beta/FileFilterApplication.java:36 | a visit is in a directory's child walk iff it is in the walk of one of its children |
| FileTree.WalkUnder | src/main/java/com/app/beta/FileFilterApplication.java:36 | the walk starts at its start directory and every later visit is strictly below it |
| FileTree.WalkChildrenUnder | src/main/java/com/app/beta/FileFilterApplication.java:36 | every visit of a child walk is strictly below the directory, under one of its children |
| FileTree.WalkDistinct | src/main/java/com/app/beta/FileFilterApplication.java:36 | in a tree with distinct sibling names, the walk visits each path once |
| FileTree.WalkChildrenDistinct | src/main/java/com/app/beta/FileFilterApplication.java:36 | siblings with distinct names give a child walk with distinct paths |
| FileTree.WalkPruned | src/main/java/com/app/beta/FileFilterApplication.java:39-48 | with SKIP_SUBTREE for unselected directories, a visit happens iff it happens in the full walk and every directory above it is selected |
| FileTree.WalkChildrenPruned | src/main/java/com/app/beta/FileFilterApplication.java:39-48 | the same characterization for a child walk |
| FileTree.WalkParentFirst | src/main/java/com/app/beta/CopyDialog.java:325-397 | every visit after the first has its parent directory visited and entered earlier in the walk |
| FileTree.WalkChildrenParentFirst | src/main/java/com/app/beta/CopyDialog.java:325-397 | the same for a child walk, where the parent may be the enclosing directory |
| FileTree.ConsParentsFirst | src/main/java/com/app/beta/CopyDialog.java:325-397 | a directory visit followed by a child walk whose first-level parent is that directory keeps parents before children |
| FileTree.AppendParentsFirst | src/main/java/com/app/beta/CopyDialog.java:325-397 | appending the walk of one more child to a sibling walk keeps parents before children |
| DateOptions.LowerSpaced | src/main/java/com/app/check/DateOption.java:33-34 | the result has the input's length and holds no capital and no '_': capitals become their small letters, '_' becomes a space, and every other character is kept |
| DateOptions.Labels | src/main/java/com/app/check/DateOption.java:15-36 | toString gives "All days", "Today", "Last 7 days" and "Last 30 days" |
| DateOptions.LabelAllDays | src/main/java/com/app/check/DateOption.java:15-36 | toString of ALL_DAYS is "All days" |
| DateOptions.LabelToday | src/main/java/com/app/check/DateOption.java:16-36 | toString of TODAY is "Today" |
| DateOptions.LabelLast7Days | src/main/java/com/app/check/DateOption.java:17-36 | toString of LAST_7_DAYS is "Last 7 days" |
| DateOptions.LabelLast30Days | src/main/java/com/app/check/DateOption.java:18-36 | toString of LAST_30_DAYS is "Last 30 days" |
| DateOptions.FormattingIdempotent | src/main/java/com/app/check/DateOption.java:31-36 | formatting an already formatted string changes nothing |
| DateOptions.MapKeyIsLabel | src/main/java/com/app/check/DateOption.java:42-47 | the map key of a constant, formatted again, equals its toString |
| DateOptions.LabelsDistinct | src/main/java/com/app/check/DateOption.java:20-24 | distinct constants have distinct labels |
| DateOptions.KeysDistinct | src/main/java/com/app/check/DateOption.java:42-47 | the map keys do not collide, so the map builder does not throw on a duplicate key |
| DateOptions.LabelMapHasLabel | src/main/java/com/app/check/DateOption.java:42-47 | every constant's label is a key that maps back to that constant |
| DateOptions.LabelMapOnlyLabels | src/main/java/com/app/check/DateOption.java:42-47 | every key of the map is some constant's label |
| DateOptions.LookupToString | src/main/java/com/app/check/DateOption.java:53-56 | lookup of a constant's label returns that constant |
| DateOptions.LookupOnlyLabels | src/main/java/com/app/check/DateOption.java:53-56 | lookup finds something only for a label, and returns null for any other string |
| DateOptions.ValuesComplete | src/main/java/com/app/check/DateOption.java:15-18 | the enum has exactly four distinct constants, listed in order |
| Filters.FileFilters.constructor | src/main/java/com/app/beta/FileFilters.java:33-38 | a new instance has allFiles false, ALL_DAYS and the type list ["All"] |
| Filters.FileFilters.GetDefault | src/main/java/com/app/beta/FileFilters.java:44-47 | returns a fresh instance holding the defaults |
| Filters.FileFilters.SetAllFiles | src/main/java/com/app/beta/FileFilters.java:49-56 | the getter returns the value set and the other settings are unchanged |
| Filters.FileFilters.SetDateOption | src/main/java/com/app/beta/FileFilters.java:58-65 | the getter returns the value set and the other settings are unchanged |
| Filters.FileFilters.SetFileTypes | src/main/java/com/app/beta/FileFilters.java:67-74 | the getter returns the list set and the other settings are unchanged |
| Filters.FileExtensionsShape | src/main/java/com/app/beta/FileFilters.java:24-27 | twenty dot-free tokens, with "All" first and "" (no extension) last |
| Filters.FileExtensionsDistinct | src/main/java/com/app/beta/FileFilters.java:24-27 | no extension is offered twice |
| FilterApplication.LastIndexOf | src/main/java/com/app/beta/FileFilterApplication.java:103 | -1 iff the character is absent, otherwise the index of its last occurrence |
| FilterApplication.GetFileExtension | src/main/java/com/app/beta/FileFilterApplication.java:100-105 | no dot gives ""; otherwise the dot-free suffix after the last dot |
| FilterApplication.ExtensionOfDotted | src/main/java/com/app/beta/FileFilterApplication.java:100-105 | the extension of stem + "." + ext is ext whenever ext holds no dot |
| FilterApplication.OfferedExtensionsMatchable | src/main/java/com/app/beta/FileFilters.java:24-27 | for every offered extension e other than "All", the extension of stem + "." + e is e, so choosing e can match a file |
| FilterApplication.OfferedExtensionsDotFree | src/main/java/com/app/beta/FileFilters.java:24-27 | no offered extension contains a dot |
| FilterApplication.DefaultTypesAdmitAll | src/main/java/com/app/beta/FileFilterApplication.java:94-98 | the default list ["All"] admits every file |
| FilterApplication.SingleTypeFilter | src/main/java/com/app/beta/FileFilterApplication.java:94-98 | a one-type list other than "All" admits exactly the files with that extension |
| FilterApplication.DateReadOnlyWhenBounded | src/main/java/com/app/beta/FileFilterApplication.java:107-128 | ALL_DAYS passes without reading the date; any other option fails iff the date cannot be read |
| FilterApplication.DateOptionsNested | src/main/java/com/app/beta/FileFilterApplication.java:114-122 | a file passing TODAY passes LAST_7_DAYS, and one passing LAST_7_DAYS passes LAST_30_DAYS |
| FilterApplication.DateWindows | src/main/java/com/app/beta/FileFilterApplication.java:114-122 | a file dated today or earlier fails TODAY; such a date passes LAST_n_DAYS iff it is fewer than n days old |
| FilterApplication.FilterVisitor.constructor | src/main/java/com/app/beta/FileFilterApplication.java:34 | the visitor starts with an empty result set |
| FilterApplication.FilterVisitor.PreVisitDirectory | src/main/java/com/app/beta/FileFilterApplication.java:39-48 | a directory is entered iff it is selected |
| FilterApplication.FilterVisitor.VisitFile | src/main/java/com/app/beta/FileFilterApplication.java:51-65 | fails iff the date must be read and cannot be; otherwise adds the file iff it is selected and passes both filters |
| FilterApplication.FilterVisitor.PostVisitDirectory | src/main/java/com/app/beta/FileFilterApplication.java:67-77 | adds the directory iff the set already holds a path strictly below it |
| FilterApplication.FilterVisitor.WalkFrom | src/main/java/com/app/beta/FileFilterApplication.java:36-78 | the walk fails with the first unreadable date in walk order, and otherwise adds exactly Kept |
| FilterApplication.Apply | src/main/java/com/app/beta/FileFilterApplication.java:29-81 | the result is Filtered for the selection and the filters' date option and types; allFiles is not consulted |
| FilterApplication.InKeptChildren | src/main/java/com/app/beta/FileFilterApplication.java:67-77 | a path is kept among siblings iff it is kept under one of them |
| FilterApplication.KeptChildrenUnder | src/main/java/com/app/beta/FileFilterApplication.java:36-78 | every path kept among siblings is strictly below the directory, under one of the siblings |
| FilterApplication.FirstUnreadableChildrenStops | src/main/java/com/app/beta/FileFilterApplication.java:107-115 | once a date read has failed, later siblings do not change the error |
| FilterApplication.KeptUnder | src/main/java/com/app/beta/FileFilterApplication.java:29-81 | every filtered path is under the source directory |
| FilterApplication.KeptChildrenPick | src/main/java/com/app/beta/FileFilterApplication.java:67-77 | below a given child, membership is decided by that child's subtree alone |
| FilterApplication.KeptSelectedAndReached | src/main/java/com/app/beta/FileFilterApplication.java:39-62 | every filtered path is selected and is visited by the pruned walk |
| FilterApplication.KeptUnderSelectedDirectories | src/main/java/com/app/beta/FileFilterApplication.java:39-62 | every filtered path is selected, exists in the tree, and every directory above it is selected |
| FilterApplication.KeptFileIff | src/main/java/com/app/beta/FileFilterApplication.java:51-65 | a visited file is in the result iff it is selected and passes the type and date filters |
| FilterApplication.KeptFileIffInTree | src/main/java/com/app/beta/FileFilterApplication.java:39-65 | any file of the tree is in the result iff every directory from the source down to it is selected and the file is selected and passes both filters |
| FilterApplication.KeptDirIff | src/main/java/com/app/beta/FileFilterApplication.java:67-77 | a visited directory is in the result iff it is selected and the result holds a path strictly below it |
| FilterApplication.KeptAncestorClosed | src/main/java/com/app/beta/FileFilterApplication.java:67-77 | every directory between the source and a filtered path is filtered too |
| FilterApplication.KeptReachedByFilteredWalk | src/main/java/com/app/beta/CopyDialog.java:344-347 | a walk that skips every directory outside the filtered set still visits every filtered path, so the copy walk reaches the whole filter result |
| FilterApplication.KeptHasFile | src/main/java/com/app/beta/FileFilterApplication.java:16-22 | every filtered path has a filtered file at or below it, so empty directories are removed |
| FilterApplication.RootKeptIffNonEmpty | src/main/java/com/app/beta/FileFilterApplication.java:67-77 | the source directory is in the result iff the result is not empty |
| FilterApplication.UnreadableIffReached | src/main/java/com/app/beta/FileFilterApplication.java:107-138 | the filter fails iff the walk reaches a selected file of a wanted type under a bounded date option whose date cannot be read, and then names that file |
| FilterApplication.UnreadableChildrenIffReached | src/main/java/com/app/beta/FileFilterApplication.java:107-138 | the same for a child walk |
| CopyDialogs.VerifyDirectories | src/main/java/com/app/beta/CopyDialog.java:214-236 | rejects a missing target and a target equal to or below the source; otherwise reports a target that is not a listable directory (the NullPointerException of requireNonNull) and accepts the rest, warning iff the target has entries |
| CopyDialogs.AcceptedTargetOutsideSource | src/main/java/com/app/beta/CopyDialog.java:222-228 | an accepted target differs from the source, and a copied path lands outside the source unless the target is an ancestor of the source |
| CopyDialogs.LoggedDirs | src/main/java/com/app/beta/CopyDialog.java:312-314 | the logged directory count is the count clamped at zero |
| CopyDialogs.WorkSizeTotal | src/main/java/com/app/beta/CopyDialog.java:307-311 | directories minus one plus files is the size of the filtered set minus one |
| CopyDialogs.WorkSizeAfterFilter | src/main/java/com/app/beta/CopyDialog.java:310 | when anything was filtered the source is among the directories, so the directory count is never negative |
| CopyDialogs.CopyDialog.constructor | src/main/java/com/app/beta/CopyDialog.java:80-94 | the dialog opened for a source directory has no target, no filters, zip off and zero counters |
| CopyDialogs.CopyDialog.ApplyFileFilters | src/main/java/com/app/beta/CopyDialog.java:464-476 | filters left unset become the defaults, set ones are kept, and the result is Filtered for them |
| CopyDialogs.CopyDialog.CopyFiles | src/main/java/com/app/beta/CopyDialog.java:325-397 | the loop's target, counters, progress updates and outcome are those of CopyFrom over the pruned walk |
| CopyDialogs.CopyDialog.CopyRoutine | src/main/java/com/app/beta/CopyDialog.java:284-411 | unset filters become fresh defaults and filters already set are the ones applied; the target, counters, progress and outcome are those of Routine: a filter failure fails the task with the target untouched and zero counters, otherwise the pruned walk is copied with the work size as progress maximum; the ZIP is made iff the copy completed, zip is selected and a file was copied |
| CopyDialogs.CopyFromConsistent | src/main/java/com/app/beta/CopyDialog.java:349-393 | the counter equals directories plus files copied, the k-th progress update reports k of the work size, and the counters never decrease |
| CopyDialogs.CancelStops | src/main/java/com/app/beta/CopyDialog.java:335-342 | a cancel seen at a visit ends the walk there as Terminated, with the state reached before that visit |
| CopyDialogs.CountableStep | src/main/java/com/app/beta/CopyDialog.java:344-393 | the filtered non-source paths left to visit shrink by one exactly when the current visit is one of them |
| CopyDialogs.CopyFromCountBound | src/main/java/com/app/beta/CopyDialog.java:349-393 | the progress counter grows by at most the number of filtered paths still to visit |
| CopyDialogs.ProgressWithinTotal | src/main/java/com/app/beta/CopyDialog.java:307-393 | starting from an existing target directory, every progress update satisfies 0 < workDone <= max = the work size |
| CopyDialogs.CopyFromTargets | src/main/java/com/app/beta/CopyDialog.java:349-393 | the copy removes nothing from the target, and writes only targets of filtered paths it visits |
| CopyDialogs.CopyWritesFilteredOnly | src/main/java/com/app/beta/CopyDialog.java:344-347 | every target entry the copy creates or changes comes from a filtered path whose enclosing directories are all filtered |
| CopyDialogs.TargetInjective | src/main/java/com/app/beta/CopyDialog.java:349 | distinct source paths map to distinct targets |
| CopyDialogs.TargetParent | src/main/java/com/app/beta/CopyDialog.java:349 | the target of a path's parent is the parent of its target |
| CopyDialogs.CopiesAt | src/main/java/com/app/beta/CopyDialog.java:349-393 | the expected copy holds each visited filtered path's entry at its target |
| CopyDialogs.CopiesKeys | src/main/java/com/app/beta/CopyDialog.java:349-393 | every key of the expected copy is the target of a visited filtered path |
| CopyDialogs.StepSucceeds | src/main/java/com/app/beta/CopyDialog.java:349-393 | without a cancel, a step whose target is absent or of the same kind succeeds and writes the expected entry |
| CopyDialogs.ParentIndex | src/main/java/com/app/beta/CopyDialog.java:325-397 | the parent of a visited non-source path was visited earlier |
| CopyDialogs.StepWhenCompatible | src/main/java/com/app/beta/CopyDialog.java:349-393 | one copy step succeeds when the parent exists and the target is compatible |
| CopyDialogs.OtherTargetsDiffer | src/main/java/com/app/beta/CopyDialog.java:349 | two different visits have different targets |
| CopyDialogs.CanCompleteNext | src/main/java/com/app/beta/CopyDialog.java:349-393 | a copy that can complete still can after one more visit |
| CopyDialogs.CopyFromCompletes | src/main/java/com/app/beta/CopyDialog.java:325-397 | without a cancel and with compatible targets, the copy completes and the target becomes its old contents overridden by the expected copy |
| CopyDialogs.CompletesStep | src/main/java/com/app/beta/CopyDialog.java:344-393 | a copy that can complete takes one successful step to the expected next target, and can still complete from there |
| CopyDialogs.CopiesStep | src/main/java/com/app/beta/CopyDialog.java:349-393 | one step's write followed by the copies still to come equals the old target overridden by all the copies from that visit on |
| CopyDialogs.WalkIsShaped | src/main/java/com/app/beta/CopyDialog.java:325-397 | the pruned walk starts at the source, has distinct paths, and visits parents first |
| CopyDialogs.CopyIntoEmptyTarget | src/main/java/com/app/beta/CopyDialog.java:319-397 | into an existing empty target, an uncancelled copy completes and the target becomes its old contents with the copies of the filtered paths the pruned walk visits laid over them |
| CopyDialogs.CopiesCoverFiltered | src/main/java/com/app/beta/CopyDialog.java:344-393 | with the filter's result as the filtered set, every filtered path has its copy at its target, holding the directory or the file's bytes found at that path |
| CopyDialogs.RoutineCopiesFilteredTree | src/main/java/com/app/beta/CopyDialog.java:299-397 | when no date is unreadable and nothing is cancelled, copying into an existing empty target completes, and below the target there is exactly one entry per filtered path other than the source, at its resolved relative path, with the source's directory or bytes |
| CopyDialogs.CopyAgainChangesNothing | src/main/java/com/app/beta/CopyDialog.java:358-388 | copying again onto a finished copy completes and leaves the target as it was, because existing directories are tolerated and files are replaced |
| CopyDialogs.CopiesCompatible | src/main/java/com/app/beta/CopyDialog.java:358-388 | on a finished copy every visited filtered path's target already holds an entry of the same kind |
| CopyDialogs.CopiedTargetStaysDir | src/main/java/com/app/beta/CopyDialog.java:358-366 | a target directory stays a directory after the copy |
| ZipFiles.ArchiveBesideInput | src/main/java/com/app/check/ZipFileCreator.java:26-28 | the archive is a sibling of the input directory, not inside it |
| ZipFiles.FirstUnopenable | src/main/java/com/app/check/ZipFileCreator.java:42-43 | the index of the first visited file that cannot be opened, or the walk's length |
| ZipFiles.FileInput.constructor | src/main/java/com/app/check/ZipFileCreator.java:42-43 | a stream at the start of the file's bytes |
| ZipFiles.FileInput.Read | src/main/java/com/app/check/ZipFileCreator.java:48 | -1 at end of file, otherwise between 1 and buffer-size next bytes copied into the buffer and the position advanced by that count |
| ZipFiles.ZipOutput.constructor | src/main/java/com/app/check/ZipFileCreator.java:29-30 | an open archive with no entries |
| ZipFiles.ZipOutput.PutNextEntry | src/main/java/com/app/check/ZipFileCreator.java:39-40 | appends an empty entry under a fresh name and opens it |
| ZipFiles.ZipOutput.Write | src/main/java/com/app/check/ZipFileCreator.java:50 | appends the first len buffer bytes to the open entry and changes nothing else |
| ZipFiles.ZipOutput.CloseEntry | src/main/java/com/app/check/ZipFileCreator.java:54 | closes the open entry, keeping the entries |
| ZipFiles.ZipOutput.Close | src/main/java/com/app/check/ZipFileCreator.java:59 | closes the archive, keeping the entries |
| ZipFiles.Zip | src/main/java/com/app/check/ZipFileCreator.java:23-61 | no parent fails before any output; otherwise the archive holds one entry per file in walk order, each named relative to the input with the file's bytes, and the archive path is returned; the first unopenable file stops it after its empty entry is added |
| ZipFiles.WalkFiles | src/main/java/com/app/check/ZipFileCreator.java:32-57 | stops at the first file that cannot be opened, leaving an empty entry for it after the entries of the earlier files; otherwise writes the entries of every file |
| ZipFiles.VisitFile | src/main/java/com/app/check/ZipFileCreator.java:35-56 | fails iff the file cannot be opened, leaving its new entry empty; otherwise appends one closed entry with the file's bytes |
| ZipFiles.StreamFile | src/main/java/com/app/check/ZipFileCreator.java:45-51 | the 512-byte read/write loop leaves exactly the file's bytes in the open entry |
| ZipFiles.EntryOrigin | src/main/java/com/app/check/ZipFileCreator.java:38-39 | every entry is named after a visited file, relative to the input, and holds that file's bytes |
| ZipFiles.EntriesSnoc | src/main/java/com/app/check/ZipFileCreator.java:35-56 | one more visit adds its file's entry, and nothing for a directory |
| ZipFiles.EntryNamesFresh | src/main/java/com/app/check/ZipFileCreator.java:39-40 | the name of the next file is not among the entries written so far, so putNextEntry never meets a duplicate |
| ZipFiles.EveryFileArchived | src/main/java/com/app/check/ZipFileCreator.java:32-57 | every file the walk visits has an entry with its relative name and bytes |
| ZipFiles.EntryNamesDistinct | src/main/java/com/app/check/ZipFileCreator.java:32-57 | the entries of a whole tree have distinct names |
| ZipFiles.EntriesDistinct | src/main/java/com/app/check/ZipFileCreator.java:38-39 | a walk with distinct paths gives entries with distinct names |
| ZipFiles.EntryNamesResolve | src/main/java/com/app/check/ZipFileCreator.java:38 | resolving an entry's name against the input gives the visited file it came from |

## Left out

- The JavaFX user interface is not modelled: dialogs, alerts, buttons, the tree view, the progress-bar binding and the `Task` state handlers. Directory verification returns a verdict instead of showing an alert.
- Concurrency is replaced by the `cancel` oracle: one `isCancelled()` answer per visit. `Thread.sleep` and races between the end of the walk and the ZIP step are not modelled.
- Logging is left out (`LogFileHandler.java`, `TextAreaLogHandler.java`). Only the clamped directory count that is logged is modelled (`LoggedDirs`).
- The clock and the time zone are parameters. `today` and modification dates are day numbers, so `LocalDate.now()`, `Instant` and `ZoneId.systemDefault()` are not modelled.
- The byte format of ZIP (headers, DEFLATE compression) is not modelled. An archive is the ordered list of its entries' names and bytes.
- Entry names are relative component lists. Joining them with the platform separator is not modelled.
- Case mapping in `getFormattedString` covers ASCII letters only. The enum names contain no other letters.
- `FileFilters.toString` is not modelled. It only feeds the log.
- The defaulting of an empty type list in `getFilters` (CopyDialog.java:263-268) is not modelled. It belongs to the filters dialog.
- Source and target are separate stores: the source is a tree value and the target a map. A target that is an ancestor of the source is allowed by `VerifyDirectories`, but the copy then writing into the tree it walks is not modelled.
- `Zip` walks a tree value, not the map the copy produced. `CopyRoutine` returns the zip decision and does not call `Zip`.
- Failure to create the archive's output stream (CopyDialog.java:405, ZipFileCreator.java:29-30) is not modelled. The `NullPointerException` when the target listing fails in `verifyDirectories` (CopyDialog.java:230) is modelled as the verdict `NotListable`.
- A directory that cannot be opened, or an entry whose attributes the walk cannot read, is not modelled in any of the three walks: `SimpleFileVisitor.visitFileFailed` rethrows the `IOException`, so in the source `apply`, the copy task and `zip` all fail with it. In the model every directory lists its children.
- The filter's `postVisitDirectory` ignores its `exc` argument (FileFilterApplication.java:67-77), so in the source an error part-way through listing a directory leaves a partial filtered set and no failure. Since listing never fails in the model, this case does not arise.
- Read and write `IOException`s inside the 512-byte streaming loop (ZipFileCreator.java:48-50) are not modelled. They end `zip` with the exception. Only a file that cannot be opened is modelled, through `unreadable`.
- `Files.copy` failures other than an existing target (`FileAlreadyExistsException`, `DirectoryNotEmptyException`) and a missing parent (`NoSuchFileException`) are not modelled; access denied or a full disk would escape the visitor and fail the task.
- Filters.FileFilters.SetFileTypes: stores the list as a value. The source keeps the caller's `ObservableList` by reference (FileFilters.java:69), so later changes to that list show through `getFileTypes`; that aliasing is not modelled.
- File attributes copied by `Files.copy` are not modelled. A copied directory is an entry without contents.
- JavaFX's clamping of `updateProgress` arguments is not modelled. The updates are recorded as the source computes them.
- ZipFiles.ZipOutput.PutNextEntry: requires a name not yet used instead of modelling the `ZipException` for a duplicate entry. `EntryNamesFresh` shows a tree walk never produces one.
- CopyDialogs.CopyDialog.CopyRoutine: requires a chosen target. The source dereferences `targetDir` without a check, and the copy button is enabled only after a target was chosen and verified.
- CopyDialogs.CopyAgainChangesNothing: covers only targets whose existing entries match the source's kinds. An existing file where a directory is copied fails the step (`Step` models that failure), but no lemma characterizes the resulting state.
- CopyDialogs.CopyIntoEmptyTarget: covers an existing empty target directory only; other starting targets are covered by `CopyFromCompletes` under its compatibility condition. `RoutineCopiesFilteredTree` ties the result to the whole filtered set.
