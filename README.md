# Clones Syncer: a Dafny model of its directory-mirroring engine

The Clones Syncer Unity plugin keeps clones of a Unity project up to date with the
master project. It does this one top-level folder at a time: Assets, Packages,
ProjectSettings and UserSettings.

The plugin has three editor windows, and each one runs a one-way mirroring walk:

- **Editor ClonesSyncer window** (`Editor/ClonesSyncerWindow.cs`). `SynchronizeDirectories`
  makes a target directory agree with a source directory in place.
  - It copies a file only when the target lacks it, or holds it with another length or
    last write time.
  - It deletes the target files and subdirectories that the walk did not visit.
  - It recurses into every source subdirectory whose name is not excluded.
  - An access denial is rethrown as an error that names the target path.
- **Older Scripts ClonesSyncer window** (`Scripts/ClonesSyncerWindow.cs`). It runs the same
  walk. Its exclusion patterns come from one comma-separated setting, and its exceptions
  propagate unchanged.
- **ClonedProjectsSynchronizer window** (`Scripts/ClonedProjectsSynchronizerWindow.cs`). It
  deletes each destination folder outright. Then `CopyDirectory` copies every non-excluded
  file and subdirectory again, without comparing.

All three windows use the same exclusion test. A base name is skipped when some pattern,
after `String.Trim()`, is an ordinal substring of it. Around each walk sit three loops:

- `OperateClone` walks each selected folder in turn and stops at the first exception.
- `SynchronizeAll` runs `OperateClone` on every clone and collects the failing indices.
- `RefreshSubfoldersList` builds the folder list from the four include flags.

## How the model is built

- `SystemIO` is the part of `System.IO` the walkers call.
  - A disk is a map from paths to file metadata (length and last write time, in UTC),
    plus a set of directories.
  - The class `FileSystem` holds that state. Its methods `CreateDirectory`, `GetFiles`,
    `GetDirectories`, `CopyFile`, `DeleteFile` and `DeleteDirectory` each change it the way
    the .NET call does on a case-sensitive volume, and fail the way the .NET call fails.
    Names are compared ordinally, with case.
  - Entries in `locked` are the paths the process may not write: an existing entry there
    may not be overwritten or deleted, and `File.Copy` may not create a file there either.
  - A ghost `journal` records every copy and every deletion.
- The master project and the clones live on two `FileSystem` objects. The project root
  (`Application.dataPath + "/.."`) and each clone root are plain path inputs.
- `MirrorSpec` states what a walk promises.
  - `Mirrors` holds when the target tree equals the source tree minus every entry whose
    name, or the name of a directory above it, is excluded.
  - `Justified` says which copies and deletions a walk may perform at all.
- `IncrementalSync` models `SynchronizeDirectories`; both ClonesSyncer windows share it.
  - Each loop is a method with its invariants: the copy loop, the obsolete-file loop, the
    subdirectory loop and the obsolete-directory loop.
  - The only difference between the two windows is an `ErrorPolicy`: `WrapAccessDenied` for
    the Editor window, `Propagate` for the Scripts window.
- `FullCopy` models `CopyDirectory`.
- `CloneOperations` models the folder loop of `OperateClone` in both its forms, and the
  clone loop of `SynchronizeAll`.
- `Folders` models the folder list.
- `Exclusion` models the exclusion test and the comma split.
- The three windows are the classes
  - `EditorWindow.ClonesSyncerWindow`,
  - `ScriptsWindow.ClonesSyncerWindow` and
  - `SynchronizerWindow.ClonedProjectsSynchronizerWindow`.

  Each holds the window's fields: the clone list, the include flags, the patterns and the
  folder list.

### Two behaviours of the code that the model keeps

- **Excluded target entries are deleted.** The obsolete sets are built from every target
  name (`Editor/ClonesSyncerWindow.cs:287`, `:327`). An excluded source entry `continue`s
  (`:292`, `:332`) before its name is removed from the set. So a target file or directory
  with an excluded name, such as `.git`, is deleted. The access-denied message at
  `Editor/ClonesSyncerWindow.cs:304` reflects this: it asks the user to delete protected
  folders such as `.git` by hand and to add them to the exclusion list.
  `MirrorSpec.ExcludedEntriesAbsent` states it.
- **Every pattern is applied.** A stored `ExclusionPattern` carries an `isActive` flag
  (`Editor/ClonesSyncerSettingsManager.cs:40`). The Editor window keeps its patterns in a
  `List<string>` field (`Editor/ClonesSyncerWindow.cs:18`). Line `:66` assigns it the
  result of `GetExclusionPatterns()`, which is a `List<ExclusionPattern>`
  (`Editor/ClonesSyncerSettingsManager.cs:118-121`), so the source text does not
  type-check there. The model follows the window's field type: patterns are plain
  strings. The walk tests `pattern.Trim()` for every entry (`:292`, `:332`) and has no
  `isActive` to read, so in the model every pattern applies.

## Model

| member | source | states |
|---|---|---|
| SystemIO.FileSystem.CreateDirectory | Editor/ClonesSyncerWindow.cs:282 | `Directory.CreateDirectory` succeeds exactly when no prefix of the path is a file. On success it adds the path and all its ancestors as directories and nothing else. On failure it changes nothing. |
| SystemIO.FileSystem.GetFiles | Editor/ClonesSyncerWindow.cs:284-285 | The listing names each file directly inside the directory exactly once, in no particular order. |
| SystemIO.FileSystem.GetDirectories | Editor/ClonesSyncerWindow.cs:324-325 | The listing names each subdirectory exactly once, in no particular order. |
| SystemIO.FileSystem.CopyFile | Editor/ClonesSyncerWindow.cs:300 | `File.Copy` with overwrite succeeds exactly when the source file exists, the target's parent is a directory, and the target is neither a directory nor locked. The target then gets the source's length and write time, and the copy is journalled. Each failure raises its own exception and changes nothing. |
| SystemIO.FileSystem.DeleteFile | Editor/ClonesSyncerWindow.cs:316 | `File.Delete` removes exactly that file; a missing file is no error. A locked file, or a directory at the path, gives access denied, as `File.Delete` throws `UnauthorizedAccessException` for both. |
| SystemIO.FileSystem.DeleteDirectory | Editor/ClonesSyncerWindow.cs:346 | A recursive `Directory.Delete` removes the directory and everything below it. It fails, changing nothing, when the directory is missing or a locked entry lies below it. |
| Exclusion.ExcludedIffSomePattern | Editor/ClonesSyncerWindow.cs:292 | A name is excluded if and only if some pattern, trimmed, occurs in it as an ordinal substring. |
| Exclusion.TrimStartSpec | Editor/ClonesSyncerWindow.cs:292 | `TrimStart` drops exactly the leading white space: what remains is a suffix, the dropped part is all white space, and the result does not start with white space. |
| Exclusion.TrimEndSpec | Editor/ClonesSyncerWindow.cs:292 | `TrimEnd` drops exactly the trailing white space: what remains is a prefix, the dropped part is all white space, and the result does not end with white space. |
| Exclusion.TrimIsCore | Editor/ClonesSyncerWindow.cs:292 | `Trim` yields the slice of the pattern between two runs of white space, and that slice neither starts nor ends with white space. |
| Exclusion.BlankTrimsToEmpty | Editor/ClonesSyncerWindow.cs:292 | A pattern made only of white space trims to "". |
| Exclusion.BlankPatternExcludesAll | Editor/ClonesSyncerWindow.cs:292 | One blank pattern in the list excludes every name. |
| Exclusion.ExcludedByOccurrence | Editor/ClonesSyncerWindow.cs:332 | A directory name in which some trimmed pattern occurs, at any offset, is excluded. |
| Exclusion.GitPatternExcludesGitNames | Editor/ClonesSyncerWindow.cs:292 | The pattern ".git" excludes every name containing ".git", such as ".gitignore" and ".github". |
| Exclusion.PaddedPatternExample | Editor/ClonesSyncerWindow.cs:292 | Spaces around a pattern do not matter: " .git " excludes ".gitignore". |
| Exclusion.GitPatternKeepsAssets | Editor/ClonesSyncerWindow.cs:292 | The pattern ".git" does not exclude "Assets". |
| Exclusion.SplitJoinRoundTrip | Scripts/ClonesSyncerWindow.cs:240 | Splitting the setting at commas and joining the pieces with commas gives the setting back, and no piece holds a comma. |
| Exclusion.RemoveEmptyEntriesKeeps | Scripts/ClonesSyncerWindow.cs:240 | `RemoveEmptyEntries` keeps exactly the non-empty pieces, white-space-only ones included. |
| Exclusion.SplitPatternsSpec | Scripts/ClonesSyncerWindow.cs:240 | The patterns are exactly the non-empty comma-free pieces of the setting. |
| Exclusion.SplitTrailingBlank | Scripts/ClonesSyncerWindow.cs:240 | A comma-free word followed by ", " splits into the word and a lone blank. |
| Exclusion.TrailingBlankExcludesAll | Scripts/ClonesSyncerWindow.cs:240 | The setting ".git, " parses to [".git", " "], and the blank entry excludes every name. |
| MirrorSpec.ObstructedLifts | Editor/ClonesSyncerWindow.cs:336 | A target entry in the way of a subdirectory's walk is in the way of the parent's walk, strictly inside its target. |
| MirrorSpec.NothingJustifiedWhenMirrored | Editor/ClonesSyncerWindow.cs:280-353 | When the target already mirrors the source, no copy and no deletion is justified. A second run on an unchanged project therefore has nothing to do. |
| MirrorSpec.MirrorIsUnique | Editor/ClonesSyncerWindow.cs:280-353 | Two well-formed disks that both mirror the source at the target, and differ at most inside it, are equal. The result of a successful walk is determined. |
| MirrorSpec.JustifiedCopyIsVisible | Editor/ClonesSyncerWindow.cs:292 | No justified copy passes through an excluded name: excluded source entries are never copied. |
| MirrorSpec.ExcludedEntriesAbsent | Editor/ClonesSyncerWindow.cs:287-352 | A mirror holds nothing whose path passes through an excluded name, so excluded target entries are deleted. |
| IncrementalSync.Report | Editor/ClonesSyncerWindow.cs:302-304 | Only an access denial is wrapped, and only under the Editor policy. The raised exception always carries the original System.IO exception (`Cause(r) == e`), as the wrapper's "Original error" does. The same wrapper sits at `:318-320` and `:348-350`. |
| IncrementalSync.ReportDenied | Editor/ClonesSyncerWindow.cs:302-304 | Under either policy, a reported exception is blamed as a denial inside the target exactly when the original exception was an access denial at a locked entry strictly inside it. |
| IncrementalSync.IsFileDifferent | Editor/ClonesSyncerWindow.cs:355-364 | True if and only if the target file is missing or its length or last write time differs from the source's. The older window's copy (Scripts/ClonesSyncerWindow.cs:310-319) is the same test. |
| IncrementalSync.SyncFile | Editor/ClonesSyncerWindow.cs:296-306 | The copy happens if and only if the file is different. After it, the target file carries the source's metadata. A failed copy changes nothing and reports a denied or misplaced entry. |
| IncrementalSync.CopyJustified | Editor/ClonesSyncerWindow.cs:296-306 | Every copy the loop performs is justified: the file is visible in the source and missing or different in the target. |
| IncrementalSync.InSyncNeedsNoCopy | Editor/ClonesSyncerWindow.cs:296 | A target file that already agrees with its source file is not copied. |
| IncrementalSync.CopyFiles | Editor/ClonesSyncerWindow.cs:289-309 | On success every visible source file is in the target with its metadata, other files directly inside are as before, and the names left over are exactly the target names that are not visible source files. Every write is a justified copy. A run on files that already agree changes nothing. |
| IncrementalSync.ObsoleteJustified | Editor/ClonesSyncerWindow.cs:311-322 | Each leftover target file has no visible source file, excluded names included, so its deletion is justified. |
| IncrementalSync.DeleteObsoleteFiles | Editor/ClonesSyncerWindow.cs:311-322 | On success exactly the obsolete files are gone; on failure the error is an access denial inside the target. |
| IncrementalSync.FilePhaseAgrees | Editor/ClonesSyncerWindow.cs:287-322 | After both file loops, every file directly inside the target agrees with the source. |
| IncrementalSync.InSyncLeavesNoObsolete | Editor/ClonesSyncerWindow.cs:308-322 | When the files already agree, nothing is obsolete. |
| IncrementalSync.SyncFiles | Editor/ClonesSyncerWindow.cs:284-322 | The file phase leaves directories and deeper files alone. Its writes are justified. On success the top files agree, and if they agreed already nothing is written. |
| IncrementalSync.DirsBelowShrinks | Editor/ClonesSyncerWindow.cs:336 | The recursion goes into a strictly smaller set of source directories, so it terminates. |
| IncrementalSync.SubInSync | Editor/ClonesSyncerWindow.cs:336 | If the parent's subtrees agree, each visible subdirectory is already in sync, so the recursive call has nothing to do. |
| IncrementalSync.LiftLog | Editor/ClonesSyncerWindow.cs:336 | Writes justified for a visible subdirectory's walk are justified for the parent's walk. |
| IncrementalSync.BlamedLifts | Editor/ClonesSyncerWindow.cs:336 | A failure of a subdirectory's walk is a denial or an I/O failure strictly inside the parent's target. |
| IncrementalSync.WalkSubdirectory | Editor/ClonesSyncerWindow.cs:329-339 | One turn of the subdirectory loop mirrors one more visible subdirectory and leaves the rest untouched. On failure the target's top files are as before. |
| IncrementalSync.WalkSubdirectories | Editor/ClonesSyncerWindow.cs:324-339 | Every visible source subdirectory is mirrored, and the names left over are exactly the target subdirectories not walked. |
| IncrementalSync.ObsoleteDirJustified | Editor/ClonesSyncerWindow.cs:327-352 | Each target subdirectory not walked, excluded ones included, has no visible source counterpart, so its recursive deletion is justified. |
| IncrementalSync.DeleteObsoleteDirectory | Editor/ClonesSyncerWindow.cs:343-351 | One recursive delete removes the subtree and nothing else. A failure is a reported access denial and changes nothing. |
| IncrementalSync.DeleteObsoleteDirectories | Editor/ClonesSyncerWindow.cs:341-352 | On success nothing remains at or below any obsolete subdirectory; nothing outside them changes. |
| IncrementalSync.DirPhaseAgrees | Editor/ClonesSyncerWindow.cs:324-352 | After both directory loops, everything deeper than the top files agrees with the source. |
| IncrementalSync.InSyncLeavesNoObsoleteDir | Editor/ClonesSyncerWindow.cs:338-352 | When every subtree already agrees, no target subdirectory is obsolete. |
| IncrementalSync.SyncSubdirectories | Editor/ClonesSyncerWindow.cs:324-352 | The directory phase leaves the top files alone. Its writes are justified. On success all subtrees agree, and if they agreed already nothing is written. |
| IncrementalSync.MirrorsSplit | Editor/ClonesSyncerWindow.cs:280-353 | A mirror is exactly the top files agreeing plus everything deeper agreeing. |
| IncrementalSync.WalkFrame | Editor/ClonesSyncerWindow.cs:280-353 | A walk changes no file outside its target tree, and no directory except ancestors of the target it creates. |
| IncrementalSync.CombineLogs | Editor/ClonesSyncerWindow.cs:280-353 | The writes of both phases are justified against the target as it was before the walk. |
| IncrementalSync.SynchronizeDirectories | Editor/ClonesSyncerWindow.cs:280-353 | Nothing outside the target changes, and every copy or deletion is justified. On success the target mirrors the visible source tree. A failure is blamed on a denial inside the target, a missing source directory, or an I/O failure at a target entry that stands in the walk's way: a target directory where the source has a file, or a target file on the way to a directory the walk must create. A target already in sync is left untouched, with no write at all. The older window's walk (Scripts/ClonesSyncerWindow.cs:258-308) is the same, with every exception propagated. |
| FullCopy.CopyVisibleFiles | Scripts/ClonedProjectsSynchronizerWindow.cs:225-233 | Every visible source file is copied over the destination, with no comparison, and only such copies are made. |
| FullCopy.CopiedLifts | Scripts/ClonedProjectsSynchronizerWindow.cs:241 | A copy made while copying a visible subdirectory is a copy of a visible file of the parent. |
| FullCopy.CopyBlamedLifts | Scripts/ClonedProjectsSynchronizerWindow.cs:241 | A failure while copying a listed subdirectory is a failure strictly inside the parent's destination. |
| FullCopy.CopySubdirectory | Scripts/ClonedProjectsSynchronizerWindow.cs:237-242 | One visible subdirectory is copied over its destination, and everything else is left alone. |
| FullCopy.CopySubdirectories | Scripts/ClonedProjectsSynchronizerWindow.cs:235-243 | Every visible source subdirectory is copied over its destination. |
| FullCopy.CopyPhasesOverlay | Scripts/ClonedProjectsSynchronizerWindow.cs:225-243 | After both loops, the destination is its old content with the visible source tree laid over it. |
| FullCopy.CreationKeepsOverlay | Scripts/ClonedProjectsSynchronizerWindow.cs:223 | Creating the destination and its ancestors first does not change the overlay. |
| FullCopy.CopyDirectory | Scripts/ClonedProjectsSynchronizerWindow.cs:221-244 | Nothing outside the destination changes, and only copies of visible source files are made. On success the destination is its old content overlaid with the visible source tree. Failures are blamed on a missing source, a locked entry, or an I/O failure at a destination entry standing in the copy's way. |
| FullCopy.OverlayOnVacantMirrors | Scripts/ClonedProjectsSynchronizerWindow.cs:206-210 | Overlaying onto an emptied destination yields an exact mirror: no stale or excluded entries survive. |
| Folders.KeepSpec | Editor/ClonesSyncerWindow.cs:365-384 | Filtering by the flags keeps order, keeps exactly the enabled folders, and repeats none. |
| Folders.SelectedFoldersSpec | Editor/ClonesSyncerWindow.cs:365-384 | The selection is a subsequence of the four folders, without repetition, holding exactly the enabled ones. |
| Folders.SelectedByFlag | Editor/ClonesSyncerWindow.cs:365-384 | Each folder is selected if and only if its own flag is set. |
| Folders.SelectedFoldersUnfold | Editor/ClonesSyncerWindow.cs:365-384 | The selection is the flag-by-flag concatenation in the order the flags are tested. |
| Folders.AllFlagsSelectAll | Editor/ClonesSyncerWindow.cs:25 | With every flag set, the selection is the whole of the fixed four-folder list. |
| CloneOperations.InSyncKept | Editor/ClonesSyncerWindow.cs:264-270 | A mirrored folder stays mirrored while a tree apart from it is synchronized. |
| CloneOperations.OthersInSync | Editor/ClonesSyncerWindow.cs:264-270 | The folders handled earlier stay mirrored while the next folder is synchronized. |
| CloneOperations.FoldersLogStep | Editor/ClonesSyncerWindow.cs:264-270 | A folder's writes are justified against the clone as it was before `OperateClone`. |
| CloneOperations.NothingToDoWhenInSync | Editor/ClonesSyncerWindow.cs:259-278 | When every folder already mirrors the project, no write of `OperateClone` is justified. |
| CloneOperations.FailureHasCause | Editor/ClonesSyncerWindow.cs:264-270 | A folder fails only for a cause found on the disks: a locked entry inside the clone folder, a missing project folder, or a clone entry in the walk's way. |
| CloneOperations.SyncFolder | Editor/ClonesSyncerWindow.cs:264-270 | One folder is synchronized. Earlier folders stay mirrored and later ones are untouched. A failure is a folder failure: a denial inside the folder, a missing project folder, or a clone entry in the walk's way. |
| CloneOperations.SyncFolders | Editor/ClonesSyncerWindow.cs:259-278 | On success every folder mirrors the project. On the first failure the earlier folders mirror it, the later ones are untouched, and the failing folder's error is a folder failure with a cause on the disks. All writes are justified. A clone already in sync gets no write. |
| CloneOperations.RemoveTreeFrame | Scripts/ClonedProjectsSynchronizerWindow.cs:206-209 | Deleting the destination folder changes nothing outside it and leaves nothing below it. |
| CloneOperations.WipeLogCombine | Scripts/ClonedProjectsSynchronizerWindow.cs:206-210 | A folder's writes are the deletion of the existing folder followed by copies of visible source files. |
| CloneOperations.WipeFolder | Scripts/ClonedProjectsSynchronizerWindow.cs:203-210 | An existing destination folder is deleted, then the source folder is copied. On success the destination mirrors the source. A failure is a denied delete below the folder, a missing project folder, or a destination entry in the copy's way. |
| CloneOperations.WipeFolders | Scripts/ClonedProjectsSynchronizerWindow.cs:196-219 | Every folder is wiped and copied in turn. On success all mirror the project. On the first failure the earlier ones do, the later ones are untouched, and the failing folder's error has a cause on the disks. |
| CloneOperations.OperateFolders | Editor/ClonesSyncerWindow.cs:259-278 | When `OperateClone` returns true, every folder mirrors the project and only the folders changed. When it returns false, it names the folder that threw and the exception. That exception has a cause on the disks, the folders before it mirror the project, and the folders after it are untouched. Nothing outside the clone root changes, but for the directories on the way to it, and every write is justified. An incremental run on a clone already in sync returns true and writes nothing. |
| CloneOperations.FailedIndicesSpec | Editor/ClonesSyncerWindow.cs:239-246 | The failure list rises strictly, stays in range, and names exactly the clones whose `OperateClone` returned false. |
| CloneOperations.ProgressStep | Editor/ClonesSyncerWindow.cs:239-246 | One more `OperateClone` keeps the batch facts: each turn did what `OperateClone` may do, from the disk the previous one left; nothing changed outside the clones handled; the journal grew only by their writes; with apart roots, earlier successful clones still mirror. |
| CloneOperations.BatchWritesInsideClones | Editor/ClonesSyncerWindow.cs:236-257 | Every write of `SynchronizeAll` lies strictly below some clone root, inside one of the selected folders. |
| CloneOperations.SynchronizeClones | Editor/ClonesSyncerWindow.cs:236-257 | Every clone is attempted. The failure list is increasing, in range, and holds exactly the indices whose `OperateClone` returned false. For each clone, the record of its `OperateClone` says what the clone holds and, on failure, which folder threw and why. Nothing changes outside the clone roots but for the directories on the way to them, and every write is one `OperateClone` may make. With apart clone roots, each successful clone mirrors the project at the end. An incremental run over clones all in sync reports none and writes nothing. |
| EditorWindow.ClonesSyncerWindow.constructor | Editor/ClonesSyncerWindow.cs:59-75 | `OnEnable` loads the settings and leaves a folder list matching the flags. |
| EditorWindow.ClonesSyncerWindow.RefreshSubfoldersList | Editor/ClonesSyncerWindow.cs:365-384 | The folder list becomes exactly the enabled folders in the fixed order; the flags, clones and patterns are unchanged. |
| EditorWindow.ClonesSyncerWindow.OperateClone | Editor/ClonesSyncerWindow.cs:259-278 | This is `OperateClone` over the selected folders, or all four with `forceAllFolders`, with access denials wrapped. True means every folder mirrors the project. False names the folder that threw and an exception with a cause on the disks, with earlier folders mirrored and later ones untouched. |
| EditorWindow.ClonesSyncerWindow.SynchronizeAll | Editor/ClonesSyncerWindow.cs:236-257 | This is `SynchronizeAll` over the clone list with the window's folders and patterns. Exactly the failing indices are reported, each with the folder and cause of its failure. Nothing outside the clone roots changes, but for the directories on the way to them. |
| ScriptsWindow.ClonesSyncerWindow.constructor | Scripts/ClonesSyncerWindow.cs:49-64 | `OnEnable` loads the settings and leaves a folder list matching the flags. |
| ScriptsWindow.ClonesSyncerWindow.RefreshSubfoldersList | Scripts/ClonesSyncerWindow.cs:320-339 | The folder list becomes exactly the enabled folders in the fixed order. |
| ScriptsWindow.ClonesSyncerWindow.OperateClone | Scripts/ClonesSyncerWindow.cs:236-256 | The setting is split into patterns first. Then it behaves as the Editor `OperateClone`, with exceptions propagated: true means every folder mirrors the project, and false names the failing folder and a cause on the disks. |
| ScriptsWindow.ClonesSyncerWindow.SynchronizeAll | Scripts/ClonesSyncerWindow.cs:210-234 | Every clone is attempted, and exactly the failing indices are reported, each with the folder and cause of its failure. Nothing outside the clone roots changes, but for the directories on the way to them. An up-to-date set of clones is left untouched. |
| SynchronizerWindow.ClonedProjectsSynchronizerWindow.constructor | Scripts/ClonedProjectsSynchronizerWindow.cs:31-44 | `OnEnable` loads the settings and leaves a folder list matching the flags. |
| SynchronizerWindow.ClonedProjectsSynchronizerWindow.RefreshSubfoldersList | Scripts/ClonedProjectsSynchronizerWindow.cs:245-264 | The folder list becomes exactly the enabled folders in the fixed order. |
| SynchronizerWindow.ClonedProjectsSynchronizerWindow.OperateClone | Scripts/ClonedProjectsSynchronizerWindow.cs:196-219 | The setting is split, then each selected folder is wiped and copied. True means every folder mirrors the project. False names the failing folder and a cause on the disks. All writes are folder deletions or copies of visible files. |
| SynchronizerWindow.ClonedProjectsSynchronizerWindow.SynchronizeAll | Scripts/ClonedProjectsSynchronizerWindow.cs:170-194 | Every clone is attempted, and exactly the failing indices are reported, each with the folder and cause of its failure. Nothing outside the clone roots changes, but for the directories on the way to them. |

## Left out

- The editor GUI is not modelled. This covers `OnGUI`, the parameter panels, the list callbacks, dialogs, progress bars and console logging. It is host UI and carries no synchronization logic.
- `AddClone`, `SelectCloneFolder` and `SynchronizeClone` are not modelled. They are dialog wrappers around `OperateClone`. The `AddClone` of the two ClonesSyncer windows passes `forceAllFolders` (`Editor/ClonesSyncerWindow.cs:207`, `Scripts/ClonesSyncerWindow.cs:176`), which their `OperateClone` members cover. The `AddClone` of the ClonedProjectsSynchronizer window calls `OperateClone(targetPath)` on the selected folders (`Scripts/ClonedProjectsSynchronizerWindow.cs:136`), which `SynchronizerWindow.ClonedProjectsSynchronizerWindow.OperateClone` covers.
- Opening a clone in Unity and the platform tables are not modelled. They are process launching and static data.
- The settings managers are left out; their values arrive as constructor parameters. The `ExclusionPattern.isActive` flag is never read by the code, so it is absent.
- `Path.Combine`, `Path.GetFileName` and `Path.GetFullPath` are not modelled. Paths are sequences of names, and the project root and clone roots are inputs.
- File contents are not modelled. A file is its length and last write time, and `File.Copy` is assumed to carry both over. Without that assumption a copied file could still look different, and the idempotence results would not hold.
- The order of `Directory.GetFiles` and `Directory.GetDirectories` is unspecified. Listings are arbitrary duplicate-free sequences, and every result holds for any order.
- Recursive `Directory.Delete` is atomic in the model. It either removes the whole subtree or fails with no change. The .NET call can fail partway.
- Exception messages and exceptions on reading the source are not modelled. Errors carry only their kind and the offending path.
- The `_operating` flag is left out: it only disables the UI. The platform field of a registered clone is also left out, because only its path is used here.
- The master project and the clones are two separate disks. The model therefore does not cover a clone folder that lies inside the project folder it mirrors.
- `CloneOperations.SyncFolders` and the `OperateClone` members require a list of distinct folder names. `RefreshSubfoldersList` and the fixed four-folder list always produce one.
- CloneOperations.SynchronizeClones: the claim that each successful clone still mirrors the project at the end is made only when no clone root lies inside another. The code does not check this, and a later clone's walk could change an earlier one. What each `OperateClone` did is stated for every clone without that condition.
- EditorWindow.ClonesSyncerWindow.SynchronizeAll: mirroring of the successful clones at the end is stated only for clone roots that are apart, for the same reason.
- ScriptsWindow.ClonesSyncerWindow.SynchronizeAll: mirroring of the successful clones at the end is stated only for clone roots that are apart, for the same reason.
- SynchronizerWindow.ClonedProjectsSynchronizerWindow.SynchronizeAll: mirroring of the successful clones at the end is stated only for clone roots that are apart, for the same reason.
- Case-insensitive volumes are not modelled. Names are compared ordinally and with case, as the walk's `HashSet<string>` compares them (`Editor/ClonesSyncerWindow.cs:287`, `:327`). On a volume that ignores case (the Windows and macOS defaults), take a source file `A.txt` and a target file `a.txt`. The set lookup at `:296` misses, `File.Copy` at `:300` overwrites `a.txt`, and `:308` removes nothing. The obsolete-file loop at `:311-316` then deletes the file it has just written. A directory renamed only in case is wiped the same way by `:327-351`. The walk still reports success. On such volumes the model's success postconditions do not hold.
