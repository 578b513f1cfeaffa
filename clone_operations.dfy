// The loops around the walkers: OperateClone's loop over the selected top-level folders of
// one clone, in its incremental form (both ClonesSyncer windows) and its wipe-then-copy
// form (ClonedProjectsSynchronizer window), and SynchronizeAll's loop over the clones.
// The project root (Application.dataPath + "/..") is `pr`, a clone root is `root`; folder
// `f` is synchronized from `pr + [f]` into `root + [f]`.

module CloneOperations {
  import opened SystemIO
  import opened MirrorSpec
  import opened IncrementalSync
  import opened FullCopy
  import opened Folders

  /** How OperateClone treats each folder. */
  datatype Mode =
    | Incremental(policy: ErrorPolicy)   // SynchronizeDirectories
    | WipeThenCopy                       // Directory.Delete of an existing folder, then CopyDirectory

  /** The exception that stopped OperateClone. */
  datatype CloneError =
    | WalkFailed(walk: SyncError)   // thrown by SynchronizeDirectories
    | WipeFailed(wipe: FsError)     // thrown by Directory.Delete or CopyDirectory

  /** `e` is an exception the walk of folder `f` into the clone at `root` may end with, the
      project disk being `S` and the clone disk `D` as the walk left it: a write denied
      inside the target folder, the project folder missing, or a file or directory of the
      clone standing in the walk's way. */
  ghost predicate FolderFailure(mode: Mode, S: Disk, pr: Path, D: Disk, root: Path, f: Name, locked: set<Path>, e: CloneError) {
    var s, t := pr + [f], root + [f];
    match mode
    case Incremental(policy) =>
      && e.WalkFailed?
      && Blamed(e.walk, policy, s, t, locked)
      && Grounded(e.walk, S, s, D, t)
      && (e.walk == Io(DirectoryNotFound(s)) ==> s !in S.dirs)
    case WipeThenCopy =>
      && e.WipeFailed?
      && WipeBlamed(e.wipe, s, t, locked)
      && CopyGrounded(e.wipe, S, s, D, t)
      && (e.wipe == DirectoryNotFound(s) ==> s !in S.dirs)
  }

  /** A folder walk fails only for a reason found on the disks: a locked entry inside the
      target folder, a missing project folder, or a clone entry in the walk's way. So a
      clone with none of these cannot fail. */
  lemma FailureHasCause(mode: Mode, S: Disk, pr: Path, D: Disk, root: Path, f: Name, locked: set<Path>, e: CloneError)
    requires FolderFailure(mode, S, pr, D, root, f, locked, e)
    ensures || (exists q :: q in locked && Below(root + [f], q))
            || pr + [f] !in S.dirs
            || (exists p :: Obstructed(S, pr + [f], D, root + [f], p))
  {
    var s, t := pr + [f], root + [f];
    if mode.Incremental? {
      var w := e.walk;
      var p := if w.AccessDeniedAt? then w.path else w.cause.path;
      if Denied(w, mode.policy, t, locked) {
        var q :| q in locked && Below(p, q);
        assert q[..|t|] == q[..|p|][..|t|];
        assert Below(t, q);
      } else if w.Io? && w.cause.IoFailure? {
        assert Obstructed(S, s, D, t, p);
      }
    } else {
      var w := e.wipe;
      if w.AccessDenied? && w.path in locked && StrictlyBelow(t, w.path) {
        assert Below(t, w.path);
      } else if w.IoFailure? {
        assert Obstructed(S, s, D, t, w.path);
      }
    }
  }

  function Names(fs: seq<Name>): set<Name> {
    set f | f in fs
  }

  lemma NamesSnoc(fs: seq<Name>, i: nat)
    requires i < |fs|
    ensures Names(fs[..i + 1]) == Names(fs[..i]) + {fs[i]}
    ensures Distinct(fs) ==> fs[i] !in Names(fs[..i])
  {
    assert fs[..i + 1] == fs[..i] + [fs[i]];
    if Distinct(fs) {
      forall k | 0 <= k < i ensures fs[..i][k] != fs[i] {
        assert fs[..i][k] == fs[k];
      }
    }
  }

  /** Every folder of `fs` in the clone at `root` mirrors the same folder of the project. */
  ghost predicate AllInSync(S: Disk, pr: Path, T: Disk, root: Path, patterns: seq<string>, fs: set<Name>) {
    forall f :: f in fs ==> InSync(S, pr + [f], T, root + [f], patterns)
  }

  /** Going from `O` to `D` changed nothing outside the folders `done` of `root`, except by
      creating `root` and its ancestors. */
  ghost predicate ChangedOnly(O: Disk, D: Disk, root: Path, done: set<Name>) {
    && (forall p :: !Under(root, done, p) ==> (p in D.files <==> p in O.files))
    && (forall p :: !Under(root, done, p) && p in O.files && p in D.files ==> D.files[p] == O.files[p])
    && (forall p :: !Under(root, done, p) ==> (p in O.dirs ==> p in D.dirs) && (p in D.dirs ==> p in O.dirs || Below(p, root)))
  }

  /** Neither of `a` and `b` lies at or below the other. */
  predicate Apart(a: Path, b: Path) {
    !Below(a, b) && !Below(b, a)
  }

  /** Whatever lies at or below one of two apart paths is apart from the other. */
  lemma ApartBelow(t: Path, u: Path, p: Path)
    requires Apart(t, u) && Below(t, p)
    ensures Apart(u, p)
  {
    if |u| <= |t| {
      assert p[..|u|] == t[..|u|];
    } else if |u| <= |p| {
      assert p[..|t|] == p[..|u|][..|t|];
    }
  }

  /** A folder of a clone root is apart from every root apart from it. */
  lemma ApartChild(a: Path, b: Path, f: Name)
    requires Apart(a, b)
    ensures Apart(a + [f], b)
  {
    if |b| <= |a| {
      assert (a + [f])[..|b|] == a[..|b|];
    }
    if |a| < |b| {
      assert b[..|a|] == b[..|a| + 1][..|a|];
    }
  }

  lemma SiblingsApart(root: Path, f: Name, g: Name)
    requires f != g
    ensures Apart(root + [f], root + [g])
  {
    assert (root + [f])[|root|] == f && (root + [g])[|root|] == g;
  }

  /** A mirrored folder stays mirrored while a tree apart from it changes. */
  lemma InSyncKept(S: Disk, s: Path, D: Disk, E: Disk, t: Path, u: Path, patterns: seq<string>)
    requires InSync(S, s, D, t, patterns) && FrameOutside(D, E, u) && Apart(t, u)
    ensures InSync(S, s, E, t, patterns)
  {
    assert t[..|t|] == t;
    ApartBelow(t, u, t);
    forall rel | rel != [] ensures Agree(S, s, E, t, patterns, rel) {
      assert Agree(S, s, D, t, patterns, rel);
      assert (t + rel)[..|t|] == t;
      ApartBelow(t, u, t + rel);
    }
  }

  /** Every mirrored folder of a clone stays mirrored while a tree apart from the clone
      root changes. */
  lemma AllInSyncKept(S: Disk, pr: Path, D: Disk, E: Disk, root: Path, u: Path, patterns: seq<string>, fs: set<Name>)
    requires AllInSync(S, pr, D, root, patterns, fs) && FrameOutside(D, E, u) && Apart(root, u)
    ensures AllInSync(S, pr, E, root, patterns, fs)
  {
    forall f | f in fs ensures InSync(S, pr + [f], E, root + [f], patterns) {
      ApartChild(root, u, f);
      InSyncKept(S, pr + [f], D, E, root + [f], u, patterns);
    }
  }

  /** The folders already handled stay mirrored while another folder changes. */
  lemma OthersInSync(S: Disk, pr: Path, D: Disk, E: Disk, root: Path, patterns: seq<string>, done: set<Name>, f: Name)
    requires AllInSync(S, pr, D, root, patterns, done) && FrameOutside(D, E, root + [f]) && f !in done
    ensures AllInSync(S, pr, E, root, patterns, done)
  {
    forall g | g in done ensures InSync(S, pr + [g], E, root + [g], patterns) {
      SiblingsApart(root, g, f);
      InSyncKept(S, pr + [g], D, E, root + [g], root + [f], patterns);
    }
  }

  /** The folder loop has handled the names in `done`: each mirrors the project, and
      nothing changed outside them. */
  ghost predicate FoldersSoFar(S: Disk, pr: Path, O: Disk, root: Path, patterns: seq<string>, D: Disk, done: set<Name>) {
    ChangedOnly(O, D, root, done) && AllInSync(S, pr, D, root, patterns, done)
  }

  lemma ChangedOnlyStep(O: Disk, D: Disk, E: Disk, root: Path, done: set<Name>, f: Name)
    requires ChangedOnly(O, D, root, done) && FrameOutside(D, E, root + [f])
    ensures ChangedOnly(O, E, root, done + {f})
  {
    forall p | !Under(root, done + {f}, p)
      ensures (p in E.files <==> p in O.files) && (p in O.files && p in E.files ==> E.files[p] == O.files[p])
      ensures (p in O.dirs ==> p in E.dirs) && (p in E.dirs ==> p in O.dirs || Below(p, root))
    {
      UnderChild(root, done, f, p);
      if Below(p, root + [f]) && p != root + [f] {
        assert p == (root + [f])[..|p|] == root[..|p|];
      }
    }
  }

  lemma ChangedOnlyFrame(O: Disk, D: Disk, root: Path, done: set<Name>)
    requires ChangedOnly(O, D, root, done)
    ensures FrameOutside(O, D, root)
  {
  }

  lemma FrameOutsideTrans(A: Disk, B: Disk, C: Disk, t: Path)
    requires FrameOutside(A, B, t) && FrameOutside(B, C, t)
    ensures FrameOutside(A, C, t)
  {
  }

  /** A folder of `root` outside `done` is as it was before the loop. */
  lemma FolderPristine(O: Disk, D: Disk, root: Path, done: set<Name>, f: Name, p: Path)
    requires ChangedOnly(O, D, root, done) && f !in done && Below(root + [f], p)
    ensures p in D.files <==> p in O.files
    ensures p in O.files && p in D.files ==> D.files[p] == O.files[p]
    ensures p in D.dirs <==> p in O.dirs
  {
    assert p[..|root| + 1] == root + [f];
    assert p[|root|] == f && p[..|root|] == root;
  }

  // ---------------------------------------------------------------------------------
  // The incremental folder loop.

  /** A write of the incremental walk of some folder, judged against the clone as it was
      before OperateClone. */
  ghost predicate FolderJustified(S: Disk, pr: Path, O: Disk, root: Path, patterns: seq<string>, folders: seq<Name>, op: Op) {
    exists f :: f in folders && Justified(S, pr + [f], O, root + [f], patterns, op)
  }

  ghost predicate FoldersLog(S: Disk, pr: Path, O: Disk, root: Path, patterns: seq<string>, folders: seq<Name>,
                             j0: seq<Op>, j: seq<Op>) {
    && |j0| <= |j| && j[..|j0|] == j0
    && forall k :: |j0| <= k < |j| ==> FolderJustified(S, pr, O, root, patterns, folders, j[k])
  }

  lemma FoldersLogStep(S: Disk, pr: Path, O: Disk, D: Disk, root: Path, patterns: seq<string>, folders: seq<Name>,
                       done: set<Name>, f: Name, j0: seq<Op>, J: seq<Op>, J2: seq<Op>)
    requires FoldersLog(S, pr, O, root, patterns, folders, j0, J)
    requires JournalJustified(S, pr + [f], D, root + [f], patterns, J, J2)
    requires ChangedOnly(O, D, root, done) && f !in done && f in folders
    ensures FoldersLog(S, pr, O, root, patterns, folders, j0, J2)
  {
    assert J2[..|j0|] == J2[..|J|][..|j0|];
    forall k | |J| <= k < |J2| ensures FolderJustified(S, pr, O, root, patterns, folders, J2[k]) {
      var op := J2[k];
      assert Justified(S, pr + [f], D, root + [f], patterns, op);
      FolderPristine(O, D, root, done, f, op.path);
      Rejudge(S, pr + [f], O, D, root + [f], patterns, op);
    }
  }

  /** When every folder already mirrors the project, no write is justified: a second
      OperateClone on an unchanged project copies and deletes nothing. */
  lemma NothingToDoWhenInSync(S: Disk, pr: Path, O: Disk, root: Path, patterns: seq<string>, folders: seq<Name>, op: Op)
    requires AllInSync(S, pr, O, root, patterns, Names(folders))
    ensures !FolderJustified(S, pr, O, root, patterns, folders, op)
  {
    forall f | f in folders ensures !Justified(S, pr + [f], O, root + [f], patterns, op) {
      NothingJustifiedWhenMirrored(S, pr + [f], O, root + [f], patterns, op);
    }
  }

  /** One turn of the folder loop of a ClonesSyncer window: SynchronizeDirectories of one
      folder. */
  method SyncFolder(project: FileSystem, clones: FileSystem, pr: Path, root: Path, folders: seq<Name>,
                    patterns: seq<string>, policy: ErrorPolicy, folder: Name,
                    ghost O: Disk, ghost done: set<Name>, ghost j0: seq<Op>)
    returns (r: Outcome<SyncError>)
    requires project != clones && project.Valid() && clones.Valid()
    requires folder in folders && folder !in done
    requires FoldersSoFar(project.State(), pr, O, root, patterns, clones.State(), done)
    requires FoldersLog(project.State(), pr, O, root, patterns, folders, j0, clones.journal)
    modifies clones
    ensures clones.Valid()
    ensures FoldersLog(project.State(), pr, O, root, patterns, folders, j0, clones.journal)
    ensures r.Pass? ==> FoldersSoFar(project.State(), pr, O, root, patterns, clones.State(), done + {folder})
    ensures r.Fail? ==> ChangedOnly(O, clones.State(), root, done + {folder})
    ensures r.Fail? ==> AllInSync(project.State(), pr, clones.State(), root, patterns, done)
    ensures r.Fail? ==> FolderFailure(Incremental(policy), project.State(), pr, clones.State(), root, folder, clones.locked, WalkFailed(r.error))
    ensures InSync(project.State(), pr + [folder], old(clones.State()), root + [folder], patterns) ==>
              r.Pass? && clones.State() == old(clones.State()) && clones.journal == old(clones.journal)
  {
    ghost var S, D, J := project.State(), clones.State(), clones.journal;
    r := SynchronizeDirectories(project, clones, pr + [folder], root + [folder], patterns, policy);
    FoldersLogStep(S, pr, O, D, root, patterns, folders, done, folder, j0, J, clones.journal);
    ChangedOnlyStep(O, D, clones.State(), root, done, folder);
    OthersInSync(S, pr, D, clones.State(), root, patterns, done, folder);
  }

  /** OperateClone of a ClonesSyncer window: SynchronizeDirectories for every folder in
      turn, stopping at the first exception. */
  method SyncFolders(project: FileSystem, clones: FileSystem, pr: Path, root: Path, folders: seq<Name>,
                     patterns: seq<string>, policy: ErrorPolicy)
    returns (r: Outcome<SyncError>, ghost failedAt: nat)
    requires project != clones && project.Valid() && clones.Valid() && Distinct(folders)
    modifies clones
    ensures clones.Valid()
    ensures FrameOutside(old(clones.State()), clones.State(), root)
    ensures FoldersLog(project.State(), pr, old(clones.State()), root, patterns, folders, old(clones.journal), clones.journal)
    ensures r.Pass? ==> FoldersSoFar(project.State(), pr, old(clones.State()), root, patterns, clones.State(), Names(folders))
    ensures r.Fail? ==> failedAt < |folders|
    ensures r.Fail? ==> FolderFailure(Incremental(policy), project.State(), pr, clones.State(), root, folders[failedAt], clones.locked, WalkFailed(r.error))
    ensures r.Fail? ==> AllInSync(project.State(), pr, clones.State(), root, patterns, Names(folders[..failedAt]))
    ensures r.Fail? ==> ChangedOnly(old(clones.State()), clones.State(), root, Names(folders[..failedAt + 1]))
    ensures AllInSync(project.State(), pr, old(clones.State()), root, patterns, Names(folders)) ==>
              r.Pass? && clones.State() == old(clones.State()) && clones.journal == old(clones.journal)
  {
    ghost var S, O, j0 := project.State(), clones.State(), clones.journal;
    ghost var idle := AllInSync(S, pr, O, root, patterns, Names(folders));
    failedAt := 0;
    for i := 0 to |folders|
      invariant clones.Valid()
      invariant FoldersSoFar(S, pr, O, root, patterns, clones.State(), Names(folders[..i]))
      invariant FoldersLog(S, pr, O, root, patterns, folders, j0, clones.journal)
      invariant idle ==> clones.State() == O && clones.journal == j0
    {
      NamesSnoc(folders, i);
      assert folders[i] in Names(folders);
      r := SyncFolder(project, clones, pr, root, folders, patterns, policy, folders[i], O, Names(folders[..i]), j0);
      if r.Fail? {
        failedAt := i;
        ChangedOnlyFrame(O, clones.State(), root, Names(folders[..i + 1]));
        return;
      }
    }
    assert folders[..|folders|] == folders;
    ChangedOnlyFrame(O, clones.State(), root, Names(folders));
    r := Pass;
  }

  // ---------------------------------------------------------------------------------
  // The wipe-then-copy folder loop.

  /** A recursive delete of a directory changes nothing outside it. */
  lemma RemoveTreeFrame(D: Disk, t: Path)
    requires WellFormed(D) && t in D.dirs
    ensures FrameOutside(D, RemoveTree(D, t), t)
    ensures forall p :: StrictlyBelow(t, p) ==> p !in RemoveTree(D, t).files && p !in RemoveTree(D, t).dirs
  {
    assert t[..|t|] == t;
    forall p | Below(t, p) && !StrictlyBelow(t, p) ensures p == t && p !in D.files {
      assert p == p[..|t|];
    }
  }

  /** A write of the wipe-then-copy of one folder: the deletion of the existing target
      folder, or a copy of a visible source file into it. */
  ghost predicate WipeWrite(S: Disk, s: Path, O: Disk, t: Path, patterns: seq<string>, op: Op) {
    (op == DeletedDir(t) && t in O.dirs) || CopiedFrom(S, s, t, patterns, op)
  }

  ghost predicate WipeLog(S: Disk, s: Path, O: Disk, t: Path, patterns: seq<string>, j0: seq<Op>, j: seq<Op>) {
    && |j0| <= |j| && j[..|j0|] == j0
    && forall k :: |j0| <= k < |j| ==> WipeWrite(S, s, O, t, patterns, j[k])
  }

  /** Why the wipe-then-copy of one folder may fail: the recursive delete met a locked
      entry, or CopyDirectory failed. */
  ghost predicate WipeBlamed(e: FsError, s: Path, t: Path, locked: set<Path>) {
    || CopyBlamed(e, s, t, locked)
    || (e == AccessDenied(t) && exists q :: q in locked && Below(t, q))
  }

  /** A write of the wipe-then-copy of some folder, judged against the clone as it was
      before OperateClone. */
  ghost predicate FolderWipeWrite(S: Disk, pr: Path, O: Disk, root: Path, patterns: seq<string>, folders: seq<Name>, op: Op) {
    exists f :: f in folders && WipeWrite(S, pr + [f], O, root + [f], patterns, op)
  }

  ghost predicate WipeFoldersLog(S: Disk, pr: Path, O: Disk, root: Path, patterns: seq<string>, folders: seq<Name>,
                                 j0: seq<Op>, j: seq<Op>) {
    && |j0| <= |j| && j[..|j0|] == j0
    && forall k :: |j0| <= k < |j| ==> FolderWipeWrite(S, pr, O, root, patterns, folders, j[k])
  }

  lemma WipeLogCombine(S: Disk, s: Path, D: Disk, t: Path, patterns: seq<string>, j0: seq<Op>, J: seq<Op>, J2: seq<Op>)
    requires J == j0 || (J == j0 + [DeletedDir(t)] && t in D.dirs)
    requires CopyLog(S, s, t, patterns, J, J2)
    ensures WipeLog(S, s, D, t, patterns, j0, J2)
  {
    assert J2[..|j0|] == J2[..|J|][..|j0|];
    forall k | |j0| <= k < |J2| ensures WipeWrite(S, s, D, t, patterns, J2[k]) {
      if k < |J| {
        assert J2[k] == J[k];
      }
    }
  }

  lemma WipeFoldersLogStep(S: Disk, pr: Path, O: Disk, D: Disk, root: Path, patterns: seq<string>, folders: seq<Name>,
                           done: set<Name>, f: Name, j0: seq<Op>, J: seq<Op>, J2: seq<Op>)
    requires WipeFoldersLog(S, pr, O, root, patterns, folders, j0, J)
    requires WipeLog(S, pr + [f], D, root + [f], patterns, J, J2)
    requires ChangedOnly(O, D, root, done) && f !in done && f in folders
    ensures WipeFoldersLog(S, pr, O, root, patterns, folders, j0, J2)
  {
    assert J2[..|j0|] == J2[..|J|][..|j0|];
    assert root + [f] in D.dirs ==> root + [f] in O.dirs by {
      assert (root + [f])[..|root + [f]|] == root + [f];
      FolderPristine(O, D, root, done, f, root + [f]);
    }
    forall k | |J| <= k < |J2| ensures FolderWipeWrite(S, pr, O, root, patterns, folders, J2[k]) {
      assert WipeWrite(S, pr + [f], D, root + [f], patterns, J2[k]);
    }
  }

  /** One turn of the folder loop of the ClonedProjectsSynchronizer window: deletes the
      target folder when it exists, then copies the source folder into it. */
  method WipeFolder(project: FileSystem, clones: FileSystem, pr: Path, root: Path, folder: Name, patterns: seq<string>)
    returns (r: Outcome<FsError>)
    requires project != clones && project.Valid() && clones.Valid()
    modifies clones
    ensures clones.Valid()
    ensures FrameOutside(old(clones.State()), clones.State(), root + [folder])
    ensures WipeLog(project.State(), pr + [folder], old(clones.State()), root + [folder], patterns, old(clones.journal), clones.journal)
    ensures r.Pass? ==> InSync(project.State(), pr + [folder], clones.State(), root + [folder], patterns)
    ensures r.Fail? ==> FolderFailure(WipeThenCopy, project.State(), pr, clones.State(), root, folder, clones.locked, WipeFailed(r.error))
  {
    var t := root + [folder];
    ghost var S, D, j0 := project.State(), clones.State(), clones.journal;
    if t in clones.dirs {
      r := clones.DeleteDirectory(t);
      if r.Fail? {
        return;
      }
      RemoveTreeFrame(D, t);
    } else {
      forall p | StrictlyBelow(t, p) ensures p !in D.files && p !in D.dirs {
        NothingBelowNonDir(D, t, p);
      }
    }
    ghost var P, J := clones.State(), clones.journal;
    r := CopyDirectory(project, clones, pr + [folder], t, patterns);
    FrameOutsideTrans(D, P, clones.State(), t);
    WipeLogCombine(S, pr + [folder], D, t, patterns, j0, J, clones.journal);
    if r.Pass? {
      OverlayOnVacantMirrors(S, pr + [folder], P, clones.State(), t, patterns);
    }
  }

  /** OperateClone of the ClonedProjectsSynchronizer window: wipes and copies every folder
      in turn, stopping at the first exception. */
  method WipeFolders(project: FileSystem, clones: FileSystem, pr: Path, root: Path, folders: seq<Name>, patterns: seq<string>)
    returns (r: Outcome<FsError>, ghost failedAt: nat)
    requires project != clones && project.Valid() && clones.Valid() && Distinct(folders)
    modifies clones
    ensures clones.Valid()
    ensures FrameOutside(old(clones.State()), clones.State(), root)
    ensures WipeFoldersLog(project.State(), pr, old(clones.State()), root, patterns, folders, old(clones.journal), clones.journal)
    ensures r.Pass? ==> FoldersSoFar(project.State(), pr, old(clones.State()), root, patterns, clones.State(), Names(folders))
    ensures r.Fail? ==> failedAt < |folders|
    ensures r.Fail? ==> FolderFailure(WipeThenCopy, project.State(), pr, clones.State(), root, folders[failedAt], clones.locked, WipeFailed(r.error))
    ensures r.Fail? ==> AllInSync(project.State(), pr, clones.State(), root, patterns, Names(folders[..failedAt]))
    ensures r.Fail? ==> ChangedOnly(old(clones.State()), clones.State(), root, Names(folders[..failedAt + 1]))
  {
    ghost var S, O, j0 := project.State(), clones.State(), clones.journal;
    failedAt := 0;
    for i := 0 to |folders|
      invariant clones.Valid()
      invariant FoldersSoFar(S, pr, O, root, patterns, clones.State(), Names(folders[..i]))
      invariant WipeFoldersLog(S, pr, O, root, patterns, folders, j0, clones.journal)
    {
      ghost var D, J := clones.State(), clones.journal;
      ghost var done := Names(folders[..i]);
      NamesSnoc(folders, i);
      r := WipeFolder(project, clones, pr, root, folders[i], patterns);
      WipeFoldersLogStep(S, pr, O, D, root, patterns, folders, done, folders[i], j0, J, clones.journal);
      ChangedOnlyStep(O, D, clones.State(), root, done, folders[i]);
      OthersInSync(S, pr, D, clones.State(), root, patterns, done, folders[i]);
      if r.Fail? {
        failedAt := i;
        ChangedOnlyFrame(O, clones.State(), root, Names(folders[..i + 1]));
        return;
      }
    }
    assert folders[..|folders|] == folders;
    ChangedOnlyFrame(O, clones.State(), root, Names(folders));
    r := Pass;
  }

  // ---------------------------------------------------------------------------------
  // One clone, and all clones.

  /** What OperateClone did to one clone: its result, the folder it stopped at and the
      exception that stopped it when the result is false, and the clone disk it started
      from and the one it left. */
  datatype Turn = Turn(ok: bool, failedAt: nat, failure: CloneError, before: Disk, after: Disk)

  /** `turn` is what OperateClone may do to the clone at `root`. It changes nothing outside
      the folders it handles, but for creating the way to `root`. When it returns true every
      folder mirrors the project. When it returns false, the walk of folder `failedAt` threw
      `failure`, the folders before it mirror the project and the folders after it are
      untouched. */
  ghost predicate Operated(mode: Mode, S: Disk, pr: Path, root: Path, folders: seq<Name>,
                           patterns: seq<string>, locked: set<Path>, turn: Turn) {
    var D := turn.after;
    && (turn.ok ==> ChangedOnly(turn.before, D, root, Names(folders)) && AllInSync(S, pr, D, root, patterns, Names(folders)))
    && (!turn.ok ==>
          && turn.failedAt < |folders|
          && FolderFailure(mode, S, pr, D, root, folders[turn.failedAt], locked, turn.failure)
          && AllInSync(S, pr, D, root, patterns, Names(folders[..turn.failedAt]))
          && ChangedOnly(turn.before, D, root, Names(folders[..turn.failedAt + 1])))
  }

  /** A write OperateClone may perform in the clone at `root`, judged against the clone
      disk `pre` it started from. */
  ghost predicate ModeWrite(mode: Mode, S: Disk, pr: Path, pre: Disk, root: Path, patterns: seq<string>, folders: seq<Name>, op: Op) {
    if mode.Incremental? then FolderJustified(S, pr, pre, root, patterns, folders, op)
    else FolderWipeWrite(S, pr, pre, root, patterns, folders, op)
  }

  /** OperateClone: runs the folder loop of the window's mode into the clone at `root`,
      reporting success as a boolean; the folder it stopped at and the exception that
      stopped it are returned alongside. */
  method OperateFolders(project: FileSystem, clones: FileSystem, pr: Path, root: Path, folders: seq<Name>,
                        patterns: seq<string>, mode: Mode)
    returns (ok: bool, ghost failedAt: nat, ghost failure: CloneError)
    requires project != clones && project.Valid() && clones.Valid() && Distinct(folders)
    modifies clones
    ensures clones.Valid()
    ensures FrameOutside(old(clones.State()), clones.State(), root)
    ensures Operated(mode, project.State(), pr, root, folders, patterns, clones.locked,
                     Turn(ok, failedAt, failure, old(clones.State()), clones.State()))
    ensures mode.Incremental? ==>
              FoldersLog(project.State(), pr, old(clones.State()), root, patterns, folders, old(clones.journal), clones.journal)
    ensures mode.WipeThenCopy? ==>
              WipeFoldersLog(project.State(), pr, old(clones.State()), root, patterns, folders, old(clones.journal), clones.journal)
    ensures mode.Incremental? && AllInSync(project.State(), pr, old(clones.State()), root, patterns, Names(folders)) ==>
              ok && clones.State() == old(clones.State()) && clones.journal == old(clones.journal)
  {
    if mode.Incremental? {
      var r: Outcome<SyncError>;
      r, failedAt := SyncFolders(project, clones, pr, root, folders, patterns, mode.policy);
      ok := r.Pass?;
      failure := WalkFailed(if r.Fail? then r.error else Io(IoFailure(root)));
    } else {
      var r: Outcome<FsError>;
      r, failedAt := WipeFolders(project, clones, pr, root, folders, patterns);
      ok := r.Pass?;
      failure := WipeFailed(if r.Fail? then r.error else IoFailure(root));
    }
  }

  /** Every clone root lies apart from every other. */
  predicate AllApart(roots: seq<Path>) {
    forall i, j :: 0 <= i < |roots| && 0 <= j < |roots| && i != j ==> Apart(roots[i], roots[j])
  }

  /** Each turn starts from the clone disk the previous one left, the first from `O`. */
  ghost predicate Chained(O: Disk, turns: seq<Turn>) {
    && (|turns| > 0 ==> turns[0].before == O)
    && forall j :: 0 < j < |turns| ==> turns[j].before == turns[j - 1].after
  }

  /** The clone disk after the last turn. */
  function LastDisk(O: Disk, turns: seq<Turn>): Disk {
    if turns == [] then O else turns[|turns| - 1].after
  }

  /** Going from `a` to `b` changed nothing outside the trees of the first `n` roots, except
      by creating directories on the way to one of them. */
  ghost predicate FrameOutsideRoots(a: Disk, b: Disk, roots: seq<Path>, n: nat)
    requires n <= |roots|
  {
    && (forall p :: (forall i :: 0 <= i < n ==> !StrictlyBelow(roots[i], p)) ==>
          (p in b.files <==> p in a.files) && (p in a.files && p in b.files ==> b.files[p] == a.files[p]))
    && (forall p :: (forall i :: 0 <= i < n ==> !Below(roots[i], p)) ==>
          (p in a.dirs ==> p in b.dirs) && (p in b.dirs ==> p in a.dirs || exists i :: 0 <= i < n && Below(p, roots[i])))
  }

  lemma FrameOutsideRootsStep(O: Disk, D: Disk, E: Disk, roots: seq<Path>, n: nat)
    requires n < |roots| && FrameOutsideRoots(O, D, roots, n) && FrameOutside(D, E, roots[n])
    ensures FrameOutsideRoots(O, E, roots, n + 1)
  {
    forall p | forall i :: 0 <= i < n + 1 ==> !StrictlyBelow(roots[i], p)
      ensures (p in E.files <==> p in O.files) && (p in O.files && p in E.files ==> E.files[p] == O.files[p])
    {
      assert !StrictlyBelow(roots[n], p);
    }
    forall p | forall i :: 0 <= i < n + 1 ==> !Below(roots[i], p)
      ensures (p in O.dirs ==> p in E.dirs) && (p in E.dirs ==> p in O.dirs || exists i :: 0 <= i < n + 1 && Below(p, roots[i]))
    {
      assert !Below(roots[n], p);
    }
  }

  /** A write OperateClone may perform in one of the first `n` clones, judged against the
      clone disk that clone's turn started from. */
  ghost predicate BatchWrite(mode: Mode, S: Disk, pr: Path, roots: seq<Path>, folders: seq<Name>, patterns: seq<string>,
                             turns: seq<Turn>, n: nat, op: Op)
    requires n <= |roots| && n <= |turns|
  {
    exists i :: 0 <= i < n && ModeWrite(mode, S, pr, turns[i].before, roots[i], patterns, folders, op)
  }

  /** The journal grew from `j0` to `j` by writes of the first `n` clones. */
  ghost predicate BatchLog(mode: Mode, S: Disk, pr: Path, roots: seq<Path>, folders: seq<Name>, patterns: seq<string>,
                           turns: seq<Turn>, n: nat, j0: seq<Op>, j: seq<Op>)
    requires n <= |roots| && n <= |turns|
  {
    && |j0| <= |j| && j[..|j0|] == j0
    && forall k :: |j0| <= k < |j| ==> BatchWrite(mode, S, pr, roots, folders, patterns, turns, n, j[k])
  }

  lemma BatchLogStep(mode: Mode, S: Disk, pr: Path, roots: seq<Path>, folders: seq<Name>, patterns: seq<string>,
                     turns: seq<Turn>, turn: Turn, j0: seq<Op>, J: seq<Op>, J2: seq<Op>)
    requires |turns| < |roots|
    requires BatchLog(mode, S, pr, roots, folders, patterns, turns, |turns|, j0, J)
    requires mode.Incremental? ==> FoldersLog(S, pr, turn.before, roots[|turns|], patterns, folders, J, J2)
    requires mode.WipeThenCopy? ==> WipeFoldersLog(S, pr, turn.before, roots[|turns|], patterns, folders, J, J2)
    ensures BatchLog(mode, S, pr, roots, folders, patterns, turns + [turn], |turns| + 1, j0, J2)
  {
    var n, T := |turns|, turns + [turn];
    assert J2[..|j0|] == J2[..|J|][..|j0|];
    forall k | |j0| <= k < |J2| ensures BatchWrite(mode, S, pr, roots, folders, patterns, T, n + 1, J2[k]) {
      if k < |J| {
        assert J2[k] == J[k];
        assert BatchWrite(mode, S, pr, roots, folders, patterns, turns, n, J[k]);
        var i :| 0 <= i < n && ModeWrite(mode, S, pr, turns[i].before, roots[i], patterns, folders, J[k]);
        assert T[i] == turns[i];
      } else {
        assert T[n] == turn;
        assert ModeWrite(mode, S, pr, T[n].before, roots[n], patterns, folders, J2[k]);
      }
    }
  }

  /** Every write of the batch lies in one of the selected folders of one of the clones. */
  lemma BatchWritesInsideClones(mode: Mode, S: Disk, pr: Path, roots: seq<Path>, folders: seq<Name>, patterns: seq<string>,
                                turns: seq<Turn>, n: nat, j0: seq<Op>, j: seq<Op>, k: nat)
    requires n <= |roots| && n <= |turns|
    requires BatchLog(mode, S, pr, roots, folders, patterns, turns, n, j0, j) && |j0| <= k < |j|
    ensures exists i, f :: 0 <= i < n && f in folders && Below(roots[i] + [f], j[k].path) && StrictlyBelow(roots[i], j[k].path)
  {
    assert BatchWrite(mode, S, pr, roots, folders, patterns, turns, n, j[k]);
    var i :| 0 <= i < n && ModeWrite(mode, S, pr, turns[i].before, roots[i], patterns, folders, j[k]);
    var D, op := turns[i].before, j[k];
    var f :| f in folders && (if mode.Incremental? then Justified(S, pr + [f], D, roots[i] + [f], patterns, op)
                              else WipeWrite(S, pr + [f], D, roots[i] + [f], patterns, op));
    var t := roots[i] + [f];
    assert Below(t, op.path) by {
      if op.path == t {
        assert op.path[..|t|] == t;
      }
    }
    assert op.path[..|roots[i]|] == t[..|roots[i]|] == roots[i];
  }

  /** The entries of a failure list rise strictly. */
  predicate Increasing(xs: seq<nat>) {
    forall i, j :: 0 <= i < j < |xs| ==> xs[i] < xs[j]
  }

  /** The indices of the turns that returned false, in order. */
  function FailedIndices(turns: seq<Turn>): seq<nat> {
    if turns == [] then []
    else FailedIndices(turns[..|turns| - 1]) + (if turns[|turns| - 1].ok then [] else [|turns| - 1])
  }

  /** The failure list names exactly the turns that returned false, each once, rising. */
  lemma {:induction false} FailedIndicesSpec(turns: seq<Turn>)
    ensures Increasing(FailedIndices(turns))
    ensures forall k :: 0 <= k < |FailedIndices(turns)| ==> FailedIndices(turns)[k] < |turns|
    ensures forall i :: 0 <= i < |turns| ==> (i in FailedIndices(turns) <==> !turns[i].ok)
  {
    if turns != [] {
      var n := |turns| - 1;
      var init := turns[..n];
      var F, tail := FailedIndices(init), if turns[n].ok then [] else [n];
      FailedIndicesSpec(init);
      assert FailedIndices(turns) == F + tail;
      assert n !in F;
      forall i | 0 <= i < n ensures (i in F + tail <==> !turns[i].ok) {
        assert init[i] == turns[i];
      }
    }
  }

  lemma FailedIndicesSnoc(turns: seq<Turn>, turn: Turn)
    ensures FailedIndices(turns + [turn]) == FailedIndices(turns) + (if turn.ok then [] else [|turns|])
  {
    assert (turns + [turn])[..|turns|] == turns;
  }

  /** After the first |turns| clones: each turn did what OperateClone may do, each started
      from the disk the previous one left, the clone disk `E` is the last one left,
      nothing changed outside the clones handled, the journal `J` grew only by their
      writes, and when the roots lie apart every clone that succeeded still mirrors. */
  ghost predicate Progress(mode: Mode, S: Disk, pr: Path, roots: seq<Path>, folders: seq<Name>, patterns: seq<string>,
                           locked: set<Path>, O: Disk, j0: seq<Op>, turns: seq<Turn>, E: Disk, J: seq<Op>)
    requires |turns| <= |roots|
  {
    && (forall j :: 0 <= j < |turns| ==> Operated(mode, S, pr, roots[j], folders, patterns, locked, turns[j]))
    && Chained(O, turns) && E == LastDisk(O, turns)
    && FrameOutsideRoots(O, E, roots, |turns|)
    && BatchLog(mode, S, pr, roots, folders, patterns, turns, |turns|, j0, J)
    && (AllApart(roots) ==> forall j :: 0 <= j < |turns| && turns[j].ok ==> AllInSync(S, pr, E, roots[j], patterns, Names(folders)))
  }

  lemma OperatedSnoc(mode: Mode, S: Disk, pr: Path, roots: seq<Path>, folders: seq<Name>, patterns: seq<string>,
                      locked: set<Path>, turns: seq<Turn>, turn: Turn)
    requires |turns| < |roots|
    requires forall j :: 0 <= j < |turns| ==> Operated(mode, S, pr, roots[j], folders, patterns, locked, turns[j])
    requires Operated(mode, S, pr, roots[|turns|], folders, patterns, locked, turn)
    ensures forall j :: 0 <= j < |turns| + 1 ==> Operated(mode, S, pr, roots[j], folders, patterns, locked, (turns + [turn])[j])
  {
    forall j | 0 <= j < |turns| + 1 ensures Operated(mode, S, pr, roots[j], folders, patterns, locked, (turns + [turn])[j]) {
      if j < |turns| { assert (turns + [turn])[j] == turns[j]; }
    }
  }

  lemma ChainedSnoc(O: Disk, turns: seq<Turn>, turn: Turn)
    requires Chained(O, turns) && turn.before == LastDisk(O, turns)
    ensures Chained(O, turns + [turn]) && LastDisk(O, turns + [turn]) == turn.after
  {
    var T := turns + [turn];
    forall j | 0 < j < |T| ensures T[j].before == T[j - 1].after {
      if j < |turns| { assert T[j] == turns[j] && T[j - 1] == turns[j - 1]; }
    }
  }

  /** The clones that succeeded before stay mirrored while the next clone, apart from them,
      changes. */
  lemma SucceededKept(S: Disk, pr: Path, roots: seq<Path>, folders: seq<Name>, patterns: seq<string>,
                      turns: seq<Turn>, turn: Turn)
    requires |turns| < |roots| && AllApart(roots)
    requires forall j :: 0 <= j < |turns| && turns[j].ok ==> AllInSync(S, pr, turn.before, roots[j], patterns, Names(folders))
    requires FrameOutside(turn.before, turn.after, roots[|turns|])
    requires turn.ok ==> AllInSync(S, pr, turn.after, roots[|turns|], patterns, Names(folders))
    ensures forall j :: 0 <= j < |turns| + 1 && (turns + [turn])[j].ok ==> AllInSync(S, pr, turn.after, roots[j], patterns, Names(folders))
  {
    var i, T := |turns|, turns + [turn];
    forall j | 0 <= j < i + 1 && T[j].ok ensures AllInSync(S, pr, turn.after, roots[j], patterns, Names(folders)) {
      if j < i {
        assert T[j] == turns[j];
        AllInSyncKept(S, pr, turn.before, turn.after, roots[j], roots[i], patterns, Names(folders));
      }
    }
  }

  lemma ProgressStep(mode: Mode, S: Disk, pr: Path, roots: seq<Path>, folders: seq<Name>, patterns: seq<string>,
                     locked: set<Path>, O: Disk, j0: seq<Op>, turns: seq<Turn>, J: seq<Op>, turn: Turn, J2: seq<Op>)
    requires |turns| < |roots|
    requires Progress(mode, S, pr, roots, folders, patterns, locked, O, j0, turns, turn.before, J)
    requires Operated(mode, S, pr, roots[|turns|], folders, patterns, locked, turn)
    requires FrameOutside(turn.before, turn.after, roots[|turns|])
    requires mode.Incremental? ==> FoldersLog(S, pr, turn.before, roots[|turns|], patterns, folders, J, J2)
    requires mode.WipeThenCopy? ==> WipeFoldersLog(S, pr, turn.before, roots[|turns|], patterns, folders, J, J2)
    ensures Progress(mode, S, pr, roots, folders, patterns, locked, O, j0, turns + [turn], turn.after, J2)
  {
    BatchLogStep(mode, S, pr, roots, folders, patterns, turns, turn, j0, J, J2);
    FrameOutsideRootsStep(O, turn.before, turn.after, roots, |turns|);
    OperatedSnoc(mode, S, pr, roots, folders, patterns, locked, turns, turn);
    ChainedSnoc(O, turns, turn);
    if AllApart(roots) {
      SucceededKept(S, pr, roots, folders, patterns, turns, turn);
    }
  }

  /** SynchronizeAll: runs OperateClone on every clone in turn, whatever the outcome of the
      others, and collects the indices of the clones where it returned false; `turns`
      records what each OperateClone did. */
  method SynchronizeClones(project: FileSystem, clones: FileSystem, pr: Path, roots: seq<Path>, folders: seq<Name>,
                           patterns: seq<string>, mode: Mode)
    returns (failIndexes: seq<nat>, ghost turns: seq<Turn>)
    requires project != clones && project.Valid() && clones.Valid() && Distinct(folders)
    modifies clones
    ensures clones.Valid()
    ensures |turns| == |roots| && Increasing(failIndexes)
    ensures forall k :: 0 <= k < |failIndexes| ==> failIndexes[k] < |roots|
    ensures forall i :: 0 <= i < |roots| ==> (i in failIndexes <==> !turns[i].ok)
    ensures Progress(mode, project.State(), pr, roots, folders, patterns, clones.locked,
                     old(clones.State()), old(clones.journal), turns, clones.State(), clones.journal)
    ensures mode.Incremental? && (forall i :: 0 <= i < |roots| ==> AllInSync(project.State(), pr, old(clones.State()), roots[i], patterns, Names(folders))) ==>
              failIndexes == [] && clones.State() == old(clones.State()) && clones.journal == old(clones.journal)
  {
    ghost var S, O, j0 := project.State(), clones.State(), clones.journal;
    ghost var idle := mode.Incremental? && forall i :: 0 <= i < |roots| ==> AllInSync(S, pr, O, roots[i], patterns, Names(folders));
    failIndexes, turns := [], [];
    for i: nat := 0 to |roots|
      invariant clones.Valid()
      invariant |turns| == i && failIndexes == FailedIndices(turns)
      invariant Progress(mode, S, pr, roots, folders, patterns, clones.locked, O, j0, turns, clones.State(), clones.journal)
      invariant idle ==> failIndexes == [] && clones.State() == O && clones.journal == j0
    {
      ghost var D, J := clones.State(), clones.journal;
      var ok;
      ghost var failedAt, failure;
      ok, failedAt, failure := OperateFolders(project, clones, pr, roots[i], folders, patterns, mode);
      if !ok {
        failIndexes := failIndexes + [i];
      }
      ghost var turn := Turn(ok, failedAt, failure, D, clones.State());
      FailedIndicesSnoc(turns, turn);
      ProgressStep(mode, S, pr, roots, folders, patterns, clones.locked, O, j0, turns, J, turn, clones.journal);
      turns := turns + [turn];
    }
    FailedIndicesSpec(turns);
  }
}
