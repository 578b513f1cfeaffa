// The older ClonesSyncer window under Scripts/: the same incremental synchronization as
// the Editor window, with the exclusion patterns kept as one comma-separated setting and
// every exception left to propagate unchanged.

module ScriptsWindow {
  import opened SystemIO
  import opened Exclusion
  import opened MirrorSpec
  import opened IncrementalSync
  import opened Folders
  import opened CloneOperations

  class ClonesSyncerWindow {
    /** The roots of the registered clones. */
    var clonesList: seq<Path>
    var includeAssets: bool
    var includePackages: bool
    var includeProjectSettings: bool
    var includeUserSettings: bool
    /** The comma-separated exclusion setting. */
    var exclusionPatterns: string
    var foldersToCopy: seq<Name>
    /** The master project root, Application.dataPath + "/..". */
    const projectRoot: Path

    function Flags(): Selection
      reads this
    {
      Selection(includeAssets, includePackages, includeProjectSettings, includeUserSettings)
    }

    /** The folder list matches the include flags. */
    ghost predicate Valid()
      reads this
    {
      foldersToCopy == SelectedFolders(Flags())
    }

    /** OnEnable: takes the stored settings and builds the folder list. */
    constructor (root: Path, clones: seq<Path>, assets: bool, packages: bool, projectSettings: bool,
                 userSettings: bool, patterns: string)
      ensures Valid()
      ensures projectRoot == root && clonesList == clones && exclusionPatterns == patterns
      ensures Flags() == Selection(assets, packages, projectSettings, userSettings)
    {
      projectRoot, clonesList, exclusionPatterns := root, clones, patterns;
      includeAssets, includePackages, includeProjectSettings, includeUserSettings := assets, packages, projectSettings, userSettings;
      foldersToCopy := [];
      new;
      RefreshSubfoldersList();
    }

    /** RefreshSubfoldersList: rebuilds the folder list from the include flags. */
    method RefreshSubfoldersList()
      modifies this
      ensures Valid()
      ensures Flags() == old(Flags()) && clonesList == old(clonesList) && exclusionPatterns == old(exclusionPatterns)
    {
      var folders: seq<Name> := [];
      if includeAssets {
        folders := folders + ["Assets"];
      }
      if includePackages {
        folders := folders + ["Packages"];
      }
      if includeProjectSettings {
        folders := folders + ["ProjectSettings"];
      }
      if includeUserSettings {
        folders := folders + ["UserSettings"];
      }
      SelectedFoldersUnfold(Flags());
      foldersToCopy := folders;
    }

    /** The pattern list OperateClone splits from the setting. */
    function ExclusionArray(): seq<string>
      reads this
    {
      SplitPatterns(exclusionPatterns)
    }

    /** OperateClone(targetPath, forceAllFolders): splits the exclusion setting, then
        synchronizes every selected folder, or all four, into the clone at `targetPath`;
        false when an exception stopped it. */
    method OperateClone(project: FileSystem, disk: FileSystem, targetPath: Path, forceAllFolders: bool)
      returns (ok: bool, ghost failedAt: nat, ghost failure: CloneError)
      requires Valid() && project != disk && project.Valid() && disk.Valid()
      modifies disk
      ensures disk.Valid()
      ensures FrameOutside(old(disk.State()), disk.State(), targetPath)
      ensures FoldersLog(project.State(), projectRoot, old(disk.State()), targetPath, ExclusionArray(),
                         if forceAllFolders then AllFolders else foldersToCopy, old(disk.journal), disk.journal)
      ensures Operated(Incremental(Propagate), project.State(), projectRoot, targetPath,
                       if forceAllFolders then AllFolders else foldersToCopy, ExclusionArray(), disk.locked,
                       Turn(ok, failedAt, failure, old(disk.State()), disk.State()))
      ensures AllInSync(project.State(), projectRoot, old(disk.State()), targetPath, ExclusionArray(),
                        Names(if forceAllFolders then AllFolders else foldersToCopy)) ==>
                ok && disk.State() == old(disk.State()) && disk.journal == old(disk.journal)
    {
      var folders := if forceAllFolders then AllFolders else foldersToCopy;
      SelectedFoldersSpec(Flags());
      AllFoldersDistinct();
      var exclusionArray := SplitPatterns(exclusionPatterns);
      ok, failedAt, failure := OperateFolders(project, disk, projectRoot, targetPath, folders, exclusionArray, Incremental(Propagate));
    }

    /** SynchronizeAll: synchronizes every clone and returns the indices of those that
        failed. */
    method SynchronizeAll(project: FileSystem, disk: FileSystem)
      returns (failIndexes: seq<nat>, ghost turns: seq<Turn>)
      requires Valid() && project != disk && project.Valid() && disk.Valid()
      modifies disk
      ensures disk.Valid()
      ensures |turns| == |clonesList| && Increasing(failIndexes)
      ensures forall k :: 0 <= k < |failIndexes| ==> failIndexes[k] < |clonesList|
      ensures forall i :: 0 <= i < |clonesList| ==> (i in failIndexes <==> !turns[i].ok)
      ensures Progress(Incremental(Propagate), project.State(), projectRoot, clonesList, foldersToCopy, ExclusionArray(), disk.locked,
                       old(disk.State()), old(disk.journal), turns, disk.State(), disk.journal)
      ensures (forall i :: 0 <= i < |clonesList| ==>
                 AllInSync(project.State(), projectRoot, old(disk.State()), clonesList[i], ExclusionArray(), Names(foldersToCopy))) ==>
                failIndexes == [] && disk.State() == old(disk.State()) && disk.journal == old(disk.journal)
    {
      SelectedFoldersSpec(Flags());
      failIndexes, turns := SynchronizeClones(project, disk, projectRoot, clonesList, foldersToCopy, SplitPatterns(exclusionPatterns),
                                                  Incremental(Propagate));
    }
  }
}
