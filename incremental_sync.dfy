// The incremental walk shared by the two ClonesSyncer windows: SynchronizeDirectories
// creates the target directory, copies the visible source files the target lacks or holds
// with another length or write time, deletes the target files the source does not list,
// recurses into the visible source subdirectories and deletes the remaining target
// subdirectories.

module IncrementalSync {
  import opened SystemIO
  import opened Exclusion
  import opened MirrorSpec

  /** How a walker reports an UnauthorizedAccessException from a copy or a deletion. */
  datatype ErrorPolicy =
    | WrapAccessDenied   // rethrown as an exception naming the target path (Editor window)
    | Propagate          // left to propagate unchanged (Scripts window)

  /** The exception that ends a walk. */
  datatype SyncError =
    | AccessDeniedAt(path: Path)   // "This file access has been denied : <path> ..."
    | Io(cause: FsError)

  /** The System.IO exception behind a walk's exception: the wrapped denial carries it as
      its "Original error". */
  function Cause(r: SyncError): FsError {
    match r
    case AccessDeniedAt(p) => AccessDenied(p)
    case Io(c) => c
  }

  /** The exception a walker raises for an exception of a copy or a deletion. Only a
      denial is wrapped, only under the Editor policy, and the exception it raises always
      carries the original one. */
  function Report(e: FsError, policy: ErrorPolicy): (r: SyncError)
    ensures r.AccessDeniedAt? <==> policy.WrapAccessDenied? && e.AccessDenied?
    ensures Cause(r) == e
  {
    if policy.WrapAccessDenied? && e.AccessDenied? then AccessDeniedAt(e.path) else Io(e)
  }

  /** IsFileDifferent: the target file is missing, or its length or last write time is not
      the source's. */
  function IsFileDifferent(from: Disk, sp: Path, to: Disk, tp: Path): (r: bool)
    requires sp in from.files
    ensures r <==> tp !in to.files || to.files[tp] != from.files[sp]
  {
    if tp !in to.files then true
    else
      var source, target := from.files[sp], to.files[tp];
      source.length != target.length || source.mtimeUtc != target.mtimeUtc
  }

  /** `p` is an entry directly inside `t`. */
  predicate ChildOf(t: Path, p: Path) {
    |p| == |t| + 1 && p[..|t|] == t
  }

  /** Some entry at or below `p` is locked, strictly inside `t`. */
  ghost predicate DeniedBelow(t: Path, p: Path, locked: set<Path>) {
    StrictlyBelow(t, p) && exists q :: q in locked && Below(p, q)
  }

  /** An access denial on a write inside `t`, reported as the policy says. */
  ghost predicate Denied(e: SyncError, policy: ErrorPolicy, t: Path, locked: set<Path>) {
    match e
    case AccessDeniedAt(p) => policy.WrapAccessDenied? && DeniedBelow(t, p, locked)
    case Io(c) => policy.Propagate? && c.AccessDenied? && DeniedBelow(t, c.path, locked)
  }

  /** A reported exception counts as a denial inside `t` exactly when the System.IO
      exception was an access denial at a locked entry strictly inside `t`, whichever
      policy reported it. */
  lemma ReportDenied(e: FsError, policy: ErrorPolicy, t: Path, locked: set<Path>)
    ensures Denied(Report(e, policy), policy, t, locked) <==> e.AccessDenied? && DeniedBelow(t, e.path, locked)
  {
    if policy.WrapAccessDenied? && !e.AccessDenied? {
      assert Report(e, policy) == Io(e);
    }
  }

  /** Why a walk from `s` into `t` may fail: a write was denied, the source directory is
      missing, or a file stands where the walk needs a directory or a directory where it
      needs a file. */
  ghost predicate Blamed(e: SyncError, policy: ErrorPolicy, s: Path, t: Path, locked: set<Path>) {
    || Denied(e, policy, t, locked)
    || e == Io(DirectoryNotFound(s))
    || (e.Io? && e.cause.IoFailure? && Below(t, e.cause.path))
  }

  /** An IOException that ends the walk from `s` into `t` is met where the target disk
      `tgt`, as the walk leaves it, stands in the way. */
  ghost predicate Grounded(e: SyncError, src: Disk, s: Path, tgt: Disk, t: Path) {
    e.Io? && e.cause.IoFailure? ==> Obstructed(src, s, tgt, t, e.cause.path)
  }

  /** A copy or deletion of a file directly inside `t`. */
  predicate FileOpAt(t: Path, op: Op) {
    ChildOf(t, op.path) && !op.DeletedDir?
  }

  /** Every file directly inside `t` agrees with the source. */
  ghost predicate TopFilesAgree(src: Disk, s: Path, tgt: Disk, t: Path, patterns: seq<string>) {
    forall n :: FilesAgree(src, s, tgt, t, patterns, [n])
  }

  lemma ChildFacts(t: Path, n: Name)
    ensures ChildOf(t, t + [n]) && (t + [n])[|t|] == n && (t + [n])[|t|..] == [n]
    ensures StrictlyBelow(t, t + [n]) && Parent(t + [n]) == t
  {
    assert (t + [n])[..|t|] == t;
  }

  lemma ChildIsAppend(t: Path, p: Path)
    requires ChildOf(t, p)
    ensures p == t + [p[|t|]]
  {
  }

  lemma VisibleName(n: Name, patterns: seq<string>)
    ensures Visible([n], patterns) <==> !IsExcluded(n, patterns)
  {
    VisibleCons(n, [], patterns);
    assert [n] + [] == [n];
  }

  /** The paths `t + [n]` for the names `n`. */
  function Inside(t: Path, names: set<Name>): set<Path> {
    set n | n in names :: t + [n]
  }

  lemma InsideFacts(t: Path, names: set<Name>, p: Path)
    ensures p in Inside(t, names) <==> ChildOf(t, p) && p[|t|] in names
  {
    if ChildOf(t, p) && p[|t|] in names {
      ChildIsAppend(t, p);
    }
    if p in Inside(t, names) {
      var n :| n in names && p == t + [n];
      ChildFacts(t, n);
    }
  }

  /** The files of `m` that are not directly inside `t`. */
  ghost function Outside(m: map<Path, Meta>, t: Path): map<Path, Meta> {
    map p | p in m && !ChildOf(t, p) :: m[p]
  }

  /** `Outside` keeps every entry not directly inside `t`. */
  lemma OutsideAt(m: map<Path, Meta>, t: Path, p: Path)
    requires !ChildOf(t, p)
    ensures p in Outside(m, t) <==> p in m
    ensures p in m ==> Outside(m, t)[p] == m[p]
  {
  }

  lemma OutsideUpdate(m: map<Path, Meta>, t: Path, p: Path, v: Meta)
    requires ChildOf(t, p)
    ensures Outside(m[p := v], t) == Outside(m, t)
  {
  }

  lemma OutsideMinus(m: map<Path, Meta>, t: Path, names: set<Name>)
    ensures Outside(m - Inside(t, names), t) == Outside(m, t)
  {
    forall p | p in Inside(t, names) ensures ChildOf(t, p) {
      InsideFacts(t, names, p);
    }
  }

  /** The failures of the file phase: a denied copy or deletion, or a source file whose
      target path is a directory. */
  ghost predicate FileError(e: SyncError, policy: ErrorPolicy, t: Path, locked: set<Path>) {
    Denied(e, policy, t, locked) || (e.Io? && e.cause.IoFailure? && ChildOf(t, e.cause.path))
  }

  /** The journal grew from `j0` to `j` by justified writes to files directly inside `t`. */
  ghost predicate FileLog(S: Disk, s: Path, O: Disk, t: Path, patterns: seq<string>, j0: seq<Op>, j: seq<Op>) {
    JournalJustified(S, s, O, t, patterns, j0, j) && forall k :: |j0| <= k < |j| ==> FileOpAt(t, j[k])
  }

  lemma FileLogAppend(S: Disk, s: Path, O: Disk, t: Path, patterns: seq<string>, j0: seq<Op>, j: seq<Op>, op: Op)
    requires FileLog(S, s, O, t, patterns, j0, j)
    requires Justified(S, s, O, t, patterns, op) && FileOpAt(t, op)
    ensures FileLog(S, s, O, t, patterns, j0, j + [op])
  {
    assert (j + [op])[..|j0|] == j[..|j0|];
  }

  /** The visible names of a listing. */
  function Shown(names: seq<Name>, patterns: seq<string>): set<Name> {
    set n | n in names && !IsExcluded(n, patterns)
  }

  /** The copy loop has handled the names in `done`: each names a source file whose length
      and write time the target file now has; every other file directly inside `t`, and
      everything else, is as in `O`. */
  ghost predicate CopiedSoFar(S: Disk, s: Path, O: Disk, t: Path, D: Disk, done: set<Name>) {
    && D.dirs == O.dirs
    && Outside(D.files, t) == Outside(O.files, t)
    && (forall n :: n in done ==> s + [n] in S.files && t + [n] in D.files && D.files[t + [n]] == S.files[s + [n]])
    && (forall n :: n !in done ==> (t + [n] in D.files <==> t + [n] in O.files))
    && (forall n :: n !in done && t + [n] in O.files ==> t + [n] in D.files && D.files[t + [n]] == O.files[t + [n]])
  }

  lemma CopyStep(S: Disk, s: Path, O: Disk, t: Path, D: Disk, done: set<Name>, name: Name, E: Disk)
    requires CopiedSoFar(S, s, O, t, D, done) && name !in done && s + [name] in S.files
    requires E.dirs == D.dirs && E.files == D.files[t + [name] := S.files[s + [name]]]
    ensures CopiedSoFar(S, s, O, t, E, done + {name})
  {
    ChildFacts(t, name);
    OutsideUpdate(D.files, t, t + [name], S.files[s + [name]]);
    forall n | n != name ensures t + [n] != t + [name] {
      assert (t + [n])[|t|] == n;
    }
  }

  lemma CopyJustified(S: Disk, s: Path, O: Disk, t: Path, patterns: seq<string>, D: Disk, done: set<Name>, name: Name)
    requires CopiedSoFar(S, s, O, t, D, done) && name !in done
    requires s + [name] in S.files && !IsExcluded(name, patterns)
    requires IsFileDifferent(S, s + [name], D, t + [name])
    ensures Justified(S, s, O, t, patterns, Copied(t + [name])) && FileOpAt(t, Copied(t + [name]))
  {
    ChildFacts(t, name);
    VisibleName(name, patterns);
  }

  /** A target file that already agrees with its source file is not copied again. */
  lemma InSyncNeedsNoCopy(S: Disk, s: Path, O: Disk, t: Path, patterns: seq<string>, name: Name)
    requires TopFilesAgree(S, s, O, t, patterns)
    requires s + [name] in S.files && !IsExcluded(name, patterns)
    ensures !IsFileDifferent(S, s + [name], O, t + [name])
  {
    VisibleName(name, patterns);
    assert FilesAgree(S, s, O, t, patterns, [name]);
  }

  /** The target files left over by the copy loop have no visible source file; deleting them
      is justified. */
  lemma ObsoleteJustified(S: Disk, s: Path, O: Disk, t: Path, patterns: seq<string>, D: Disk,
                          done: set<Name>, obsolete: set<Name>, n: Name)
    requires CopiedSoFar(S, s, O, t, D, done)
    requires forall m :: m in done <==> s + [m] in S.files && !IsExcluded(m, patterns)
    requires forall m :: m in obsolete <==> t + [m] in O.files && m !in done
    requires n in obsolete
    ensures t + [n] in D.files
    ensures Justified(S, s, O, t, patterns, Deleted(t + [n])) && FileOpAt(t, Deleted(t + [n]))
  {
    ChildFacts(t, n);
    VisibleName(n, patterns);
  }

  /** After the copy loop and the deletion of the obsolete files, every file directly inside
      `t` agrees with the source. */
  lemma FilePhaseAgrees(S: Disk, s: Path, O: Disk, t: Path, patterns: seq<string>, D: Disk,
                        done: set<Name>, obsolete: set<Name>, F: Disk)
    requires CopiedSoFar(S, s, O, t, D, done)
    requires forall m :: m in done <==> s + [m] in S.files && !IsExcluded(m, patterns)
    requires forall m :: m in obsolete <==> t + [m] in O.files && m !in done
    requires F.files == D.files - Inside(t, obsolete)
    ensures TopFilesAgree(S, s, F, t, patterns)
  {
    forall n ensures FilesAgree(S, s, F, t, patterns, [n]) {
      ChildFacts(t, n);
      VisibleName(n, patterns);
      InsideFacts(t, obsolete, t + [n]);
    }
  }

  /** When the files already agree, the copy loop leaves nothing obsolete. */
  lemma InSyncLeavesNoObsolete(S: Disk, s: Path, O: Disk, t: Path, patterns: seq<string>,
                               done: set<Name>, obsolete: set<Name>)
    requires TopFilesAgree(S, s, O, t, patterns)
    requires forall m :: m in done <==> s + [m] in S.files && !IsExcluded(m, patterns)
    requires forall m :: m in obsolete <==> t + [m] in O.files && m !in done
    ensures obsolete == {}
  {
    forall n | n in obsolete ensures false {
      VisibleName(n, patterns);
    }
  }

  /** One step of the copy loop: copies the source file over the target file unless the
      target file is listed and has the same length and last write time. */
  method SyncFile(project: FileSystem, clones: FileSystem, s: Path, t: Path, name: Name,
                  listed: bool, policy: ErrorPolicy)
    returns (r: Outcome<SyncError>, ghost copied: bool)
    requires project != clones && clones.Valid()
    requires s + [name] in project.files && t in clones.dirs
    requires listed <==> t + [name] in clones.files
    modifies clones
    ensures clones.Valid() && clones.dirs == old(clones.dirs)
    ensures copied <==> IsFileDifferent(project.State(), s + [name], old(clones.State()), t + [name])
    ensures r.Pass? ==> clones.files == old(clones.files)[t + [name] := project.files[s + [name]]]
    ensures r.Pass? ==> clones.journal == old(clones.journal) + if copied then [Copied(t + [name])] else []
    ensures r.Pass? && !copied ==> clones.files == old(clones.files)
    ensures r.Fail? ==> copied && clones.files == old(clones.files) && clones.journal == old(clones.journal)
    ensures r.Fail? ==> FileError(r.error, policy, t, clones.locked)
    ensures r.Fail? ==> Grounded(r.error, project.State(), s, clones.State(), t)
  {
    var tp := t + [name];
    ChildFacts(t, name);
    var stale := !listed || IsFileDifferent(project.State(), s + [name], clones.State(), tp);
    copied := stale;
    if stale {
      var c := clones.CopyFile(project, s + [name], tp);
      if c.Fail? {
        assert Below(tp, tp);
        r := Fail(Report(c.error, policy));
        return;
      }
    } else {
      assert clones.files[tp := project.files[s + [name]]] == clones.files;
    }
    r := Pass;
  }

  /** The visible names of the first `i + 1` entries of a listing. */
  lemma ShownSnoc(names: seq<Name>, i: nat, patterns: seq<string>)
    requires i < |names|
    ensures Shown(names[..i + 1], patterns) == Shown(names[..i], patterns) + if IsExcluded(names[i], patterns) then {} else {names[i]}
    ensures Distinct(names) ==> names[i] !in Shown(names[..i], patterns)
  {
    assert names[..i + 1] == names[..i] + [names[i]];
  }

  /** The copy loop of SynchronizeDirectories; also returns the target names it did not
      handle, the obsolete files. */
  method CopyFiles(project: FileSystem, clones: FileSystem, s: Path, t: Path, patterns: seq<string>,
                   policy: ErrorPolicy, sourceFiles: seq<Name>, targetFileSet: set<Name>)
    returns (r: Outcome<SyncError>, obsolete: set<Name>)
    requires project != clones && clones.Valid() && t in clones.dirs
    requires Distinct(sourceFiles) && forall n :: n in sourceFiles ==> s + [n] in project.files
    requires forall n :: n in targetFileSet <==> t + [n] in clones.files
    modifies clones
    ensures clones.Valid() && clones.dirs == old(clones.dirs)
    ensures Outside(clones.files, t) == Outside(old(clones.files), t)
    ensures FileLog(project.State(), s, old(clones.State()), t, patterns, old(clones.journal), clones.journal)
    ensures r.Pass? ==> CopiedSoFar(project.State(), s, old(clones.State()), t, clones.State(), Shown(sourceFiles, patterns))
    ensures r.Pass? ==> obsolete == targetFileSet - Shown(sourceFiles, patterns)
    ensures r.Fail? ==> FileError(r.error, policy, t, clones.locked)
    ensures r.Fail? ==> Grounded(r.error, project.State(), s, clones.State(), t)
    ensures TopFilesAgree(project.State(), s, old(clones.State()), t, patterns) ==>
              r.Pass? && clones.files == old(clones.files) && clones.journal == old(clones.journal)
  {
    ghost var S, pre, j0 := project.State(), clones.State(), clones.journal;
    ghost var done: set<Name> := {};
    obsolete := targetFileSet;
    for i := 0 to |sourceFiles|
      invariant clones.Valid()
      invariant done == Shown(sourceFiles[..i], patterns)
      invariant obsolete == targetFileSet - done
      invariant CopiedSoFar(S, s, pre, t, clones.State(), done)
      invariant FileLog(S, s, pre, t, patterns, j0, clones.journal)
      invariant TopFilesAgree(S, s, pre, t, patterns) ==> clones.files == pre.files && clones.journal == j0
    {
      var name := sourceFiles[i];
      ShownSnoc(sourceFiles, i, patterns);
      if !IsExcluded(name, patterns) {
        ghost var D, J := clones.State(), clones.journal;
        assert name !in done;
        ghost var copied;
        r, copied := SyncFile(project, clones, s, t, name, name in obsolete, policy);
        if r.Fail? {
          return;
        }
        if copied {
          CopyJustified(S, s, pre, t, patterns, D, done, name);
          FileLogAppend(S, s, pre, t, patterns, j0, J, Copied(t + [name]));
        }
        if TopFilesAgree(S, s, pre, t, patterns) {
          InSyncNeedsNoCopy(S, s, pre, t, patterns, name);
        }
        CopyStep(S, s, pre, t, D, done, name, clones.State());
        done := done + {name};
        obsolete := obsolete - {name};
      }
    }
    assert sourceFiles[..|sourceFiles|] == sourceFiles;
    r := Pass;
  }

  /** The deletion loop over the obsolete files: deletes `t + [n]` for each name `n`,
      stopping at the first failure. */
  method DeleteObsoleteFiles(clones: FileSystem, t: Path, names: set<Name>, policy: ErrorPolicy,
                             ghost S: Disk, ghost s: Path, ghost O: Disk, ghost patterns: seq<string>,
                             ghost j0: seq<Op>)
    returns (r: Outcome<SyncError>)
    requires clones.Valid()
    requires forall n :: n in names ==> t + [n] in clones.files && Justified(S, s, O, t, patterns, Deleted(t + [n]))
    requires FileLog(S, s, O, t, patterns, j0, clones.journal)
    modifies clones
    ensures clones.Valid() && clones.dirs == old(clones.dirs)
    ensures Outside(clones.files, t) == Outside(old(clones.files), t)
    ensures r.Pass? ==> clones.files == old(clones.files) - Inside(t, names)
    ensures FileLog(S, s, O, t, patterns, j0, clones.journal)
    ensures r.Fail? ==> Denied(r.error, policy, t, clones.locked)
    ensures names == {} ==> r.Pass? && clones.files == old(clones.files) && clones.journal == old(clones.journal)
  {
    var pending := names;
    OutsideMinus(old(clones.files), t, names - pending);
    while pending != {}
      invariant pending <= names
      invariant clones.Valid() && clones.dirs == old(clones.dirs)
      invariant clones.files == old(clones.files) - Inside(t, names - pending)
      invariant Outside(clones.files, t) == Outside(old(clones.files), t)
      invariant FileLog(S, s, O, t, patterns, j0, clones.journal)
      invariant names == {} ==> clones.journal == old(clones.journal)
      decreases pending
    {
      var name :| name in pending;
      var p := t + [name];
      ChildFacts(t, name);
      InsideFacts(t, names - pending, p);
      ghost var J := clones.journal;
      var d := clones.DeleteFile(p);
      if d.Fail? {
        assert Below(p, p);
        r := Fail(Report(d.error, policy));
        return;
      }
      FileLogAppend(S, s, O, t, patterns, j0, J, Deleted(p));
      assert Inside(t, names - (pending - {name})) == Inside(t, names - pending) + {p};
      pending := pending - {name};
      OutsideMinus(old(clones.files), t, names - pending);
    }
    r := Pass;
  }

  /** The file phase of SynchronizeDirectories: makes the files directly inside `t` agree
      with the files directly inside `s`. */
  method SyncFiles(project: FileSystem, clones: FileSystem, s: Path, t: Path,
                   patterns: seq<string>, policy: ErrorPolicy)
    returns (r: Outcome<SyncError>)
    requires project != clones && clones.Valid()
    requires s in project.dirs && t in clones.dirs
    modifies clones
    ensures clones.Valid() && clones.dirs == old(clones.dirs)
    ensures Outside(clones.files, t) == Outside(old(clones.files), t)
    ensures FileLog(project.State(), s, old(clones.State()), t, patterns, old(clones.journal), clones.journal)
    ensures r.Pass? ==> TopFilesAgree(project.State(), s, clones.State(), t, patterns)
    ensures r.Fail? ==> FileError(r.error, policy, t, clones.locked)
    ensures r.Fail? ==> Grounded(r.error, project.State(), s, clones.State(), t)
    ensures TopFilesAgree(project.State(), s, old(clones.State()), t, patterns) ==>
              r.Pass? && clones.files == old(clones.files) && clones.journal == old(clones.journal)
  {
    ghost var S, pre, j0 := project.State(), clones.State(), clones.journal;
    var sourceFiles := project.GetFiles(s);
    var targetFiles := clones.GetFiles(t);
    var targetFileSet := set n | n in targetFiles;
    var obsolete;
    r, obsolete := CopyFiles(project, clones, s, t, patterns, policy, sourceFiles, targetFileSet);
    if r.Fail? {
      return;
    }
    ghost var D, done := clones.State(), Shown(sourceFiles, patterns);
    assert forall m :: m in done <==> s + [m] in S.files && !IsExcluded(m, patterns);
    forall n | n in obsolete
      ensures t + [n] in D.files && Justified(S, s, pre, t, patterns, Deleted(t + [n]))
    {
      ObsoleteJustified(S, s, pre, t, patterns, D, done, obsolete, n);
    }
    if TopFilesAgree(S, s, pre, t, patterns) {
      InSyncLeavesNoObsolete(S, s, pre, t, patterns, done, obsolete);
    }
    r := DeleteObsoleteFiles(clones, t, obsolete, policy, S, s, pre, patterns, j0);
    if r.Pass? {
      FilePhaseAgrees(S, s, pre, t, patterns, D, done, obsolete, clones.State());
    }
  }

  // ---------------------------------------------------------------------------------
  // The directory phase and the recursion.

  /** The directories of `dirs` at or below `p`; the recursion shrinks this set. */
  function DirsBelow(dirs: set<Path>, p: Path): set<Path> {
    set q | q in dirs && Below(p, q)
  }

  lemma DirsBelowShrinks(dirs: set<Path>, s: Path, n: Name)
    requires s in dirs
    ensures DirsBelow(dirs, s + [n]) < DirsBelow(dirs, s)
  {
    assert s[..|s|] == s;
    assert s in DirsBelow(dirs, s) && s !in DirsBelow(dirs, s + [n]);
    forall q | q in DirsBelow(dirs, s + [n]) ensures q in DirsBelow(dirs, s) {
      assert q[..|s|] == (q[..|s| + 1])[..|s|];
    }
  }

  /** `p` lies at or below `t + [n]` for some `n` in `names`. */
  predicate Under(t: Path, names: set<Name>, p: Path) {
    |t| < |p| && p[..|t|] == t && p[|t|] in names
  }

  lemma UnderChild(t: Path, names: set<Name>, n: Name, p: Path)
    ensures Under(t, names + {n}, p) <==> Under(t, names, p) || Below(t + [n], p)
    ensures Under(t, names, t + [n]) <==> n in names
  {
    ChildFacts(t, n);
    if Below(t + [n], p) {
      assert p[..|t|] == p[..|t| + 1][..|t|];
    }
    if |t| < |p| && p[..|t|] == t && p[|t|] == n {
      assert p[..|t| + 1] == t + [n];
    }
  }

  /** Going from `O` to `D` changed directories only in the subtrees `t + [n]`, `n` in
      `done`, and files only strictly inside those subtrees. */
  ghost predicate Untouched(O: Disk, D: Disk, t: Path, done: set<Name>) {
    && (forall p :: !(Under(t, done, p) && |p| > |t| + 1) ==> (p in D.files <==> p in O.files))
    && (forall p :: !(Under(t, done, p) && |p| > |t| + 1) && p in O.files && p in D.files ==> D.files[p] == O.files[p])
    && (forall p :: !Under(t, done, p) ==> (p in D.dirs <==> p in O.dirs))
  }

  /** Going from `A` to `B` changed directories only strictly inside `t`, and files only
      two or more levels inside `t`. */
  ghost predicate DeepFrame(A: Disk, B: Disk, t: Path) {
    && (forall p :: !(StrictlyBelow(t, p) && |p| > |t| + 1) ==> (p in B.files <==> p in A.files))
    && (forall p :: !(StrictlyBelow(t, p) && |p| > |t| + 1) && p in A.files && p in B.files ==> B.files[p] == A.files[p])
    && (forall p :: !StrictlyBelow(t, p) ==> (p in B.dirs <==> p in A.dirs))
  }

  lemma UntouchedIsDeepFrame(O: Disk, D: Disk, t: Path, done: set<Name>)
    requires Untouched(O, D, t, done)
    ensures DeepFrame(O, D, t)
  {
  }

  /** Everything inside `t` except the files directly inside it agrees with the source. */
  ghost predicate DeepAgree(S: Disk, s: Path, T: Disk, t: Path, patterns: seq<string>) {
    forall rel :: rel != [] ==> DirsAgree(S, s, T, t, patterns, rel) && (|rel| > 1 ==> FilesAgree(S, s, T, t, patterns, rel))
  }

  /** The directory loop has handled the names in `done`: each names a visible source
      directory that the target now mirrors; nothing changed outside their subtrees. */
  ghost predicate SubtreesSoFar(S: Disk, s: Path, O: Disk, t: Path, patterns: seq<string>, D: Disk, done: set<Name>) {
    && (forall n :: n in done ==> s + [n] in S.dirs && t + [n] in D.dirs && Mirrors(S, s + [n], D, t + [n], patterns))
    && Untouched(O, D, t, done)
  }

  /** The journal grew from `j0` to `j` by justified writes, none of them to a file directly
      inside `t`. */
  ghost predicate DeepLog(S: Disk, s: Path, O: Disk, t: Path, patterns: seq<string>, j0: seq<Op>, j: seq<Op>) {
    JournalJustified(S, s, O, t, patterns, j0, j) && forall k :: |j0| <= k < |j| ==> !FileOpAt(t, j[k])
  }

  lemma DeepLogAppend(S: Disk, s: Path, O: Disk, t: Path, patterns: seq<string>, j0: seq<Op>, j: seq<Op>, op: Op)
    requires DeepLog(S, s, O, t, patterns, j0, j)
    requires Justified(S, s, O, t, patterns, op) && !FileOpAt(t, op)
    ensures DeepLog(S, s, O, t, patterns, j0, j + [op])
  {
    assert (j + [op])[..|j0|] == j[..|j0|];
  }

  /** Agreement at `[n] + rest` below `s` and `t` is agreement at `rest` below `s + [n]`
      and `t + [n]`, for a visible `n`. */
  lemma AgreeShift(S: Disk, s: Path, T: Disk, t: Path, patterns: seq<string>, n: Name, rest: Path)
    requires !IsExcluded(n, patterns)
    ensures FilesAgree(S, s, T, t, patterns, [n] + rest) <==> FilesAgree(S, s + [n], T, t + [n], patterns, rest)
    ensures DirsAgree(S, s, T, t, patterns, [n] + rest) <==> DirsAgree(S, s + [n], T, t + [n], patterns, rest)
  {
    assert t + ([n] + rest) == (t + [n]) + rest;
    assert s + ([n] + rest) == (s + [n]) + rest;
    VisibleCons(n, rest, patterns);
  }

  /** A justified write of the walk of a visible subdirectory `n` is a justified write of
      the walk of its parent, provided the disk it is judged against did not change there. */
  lemma LiftJustified(S: Disk, s: Path, P: Disk, O: Disk, t: Path, patterns: seq<string>, n: Name, op: Op)
    requires Justified(S, s + [n], P, t + [n], patterns, op) && !IsExcluded(n, patterns)
    requires op.DeletedDir? ==> (op.path in P.dirs <==> op.path in O.dirs)
    requires !op.DeletedDir? ==> (op.path in P.files <==> op.path in O.files)
    requires !op.DeletedDir? && op.path in P.files && op.path in O.files ==> P.files[op.path] == O.files[op.path]
    ensures Justified(S, s, O, t, patterns, op) && !FileOpAt(t, op)
  {
    var p := op.path;
    var rest := p[|t| + 1..];
    assert p[..|t|] == p[..|t| + 1][..|t|];
    assert p[|t|] == p[..|t| + 1][|t|] == n;
    assert p[|t|..] == [n] + rest;
    assert s + p[|t|..] == (s + [n]) + rest;
    VisibleCons(n, rest, patterns);
  }

  /** A write of the walk of subdirectory `n`, judged against the state before the
      directory loop, when the loop has not touched `n`'s subtree before that walk. */
  lemma LiftWrite(S: Disk, s: Path, O: Disk, P: Disk, t: Path, patterns: seq<string>, done: set<Name>, n: Name, op: Op)
    requires Justified(S, s + [n], P, t + [n], patterns, op)
    requires Untouched(O, P, t, done) && n !in done && !IsExcluded(n, patterns)
    ensures Justified(S, s, O, t, patterns, op) && !FileOpAt(t, op)
  {
    var p := op.path;
    UnderChild(t, done, n, p);
    assert Below(t + [n], p);
    assert !Under(t, done, p);
    LiftJustified(S, s, P, O, t, patterns, n, op);
  }

  /** The writes of a subdirectory walk, judged against the state before the directory
      loop. */
  lemma LiftWrites(S: Disk, s: Path, O: Disk, P: Disk, t: Path, patterns: seq<string>, done: set<Name>, n: Name,
                   J: seq<Op>, J2: seq<Op>)
    requires JournalJustified(S, s + [n], P, t + [n], patterns, J, J2)
    requires Untouched(O, P, t, done) && n !in done && !IsExcluded(n, patterns)
    ensures DeepLog(S, s, O, t, patterns, J, J2)
  {
    forall k | |J| <= k < |J2| ensures Justified(S, s, O, t, patterns, J2[k]) && !FileOpAt(t, J2[k]) {
      LiftWrite(S, s, O, P, t, patterns, done, n, J2[k]);
    }
  }

  lemma DeepLogTrans(S: Disk, s: Path, O: Disk, t: Path, patterns: seq<string>, j0: seq<Op>, J: seq<Op>, J2: seq<Op>)
    requires DeepLog(S, s, O, t, patterns, j0, J) && DeepLog(S, s, O, t, patterns, J, J2)
    ensures DeepLog(S, s, O, t, patterns, j0, J2)
  {
    assert J2[..|j0|] == J2[..|J|][..|j0|];
  }

  lemma LiftLog(S: Disk, s: Path, O: Disk, P: Disk, t: Path, patterns: seq<string>, done: set<Name>, n: Name,
                j0: seq<Op>, J: seq<Op>, J2: seq<Op>)
    requires DeepLog(S, s, O, t, patterns, j0, J)
    requires JournalJustified(S, s + [n], P, t + [n], patterns, J, J2)
    requires Untouched(O, P, t, done) && n !in done && !IsExcluded(n, patterns)
    ensures DeepLog(S, s, O, t, patterns, j0, J2)
  {
    LiftWrites(S, s, O, P, t, patterns, done, n, J, J2);
    DeepLogTrans(S, s, O, t, patterns, j0, J, J2);
  }

  /** A subtree that is already mirrored stays mirrored while a sibling subtree changes. */
  lemma MirrorKept(S: Disk, s: Path, D: Disk, E: Disk, t: Path, u: Path, patterns: seq<string>)
    requires Mirrors(S, s, D, t, patterns) && t in D.dirs
    requires FrameOutside(D, E, u) && |u| == |t| && u != t
    ensures Mirrors(S, s, E, t, patterns) && t in E.dirs
  {
    forall rel | rel != [] ensures Agree(S, s, E, t, patterns, rel) {
      assert Agree(S, s, D, t, patterns, rel);
      assert (t + rel)[..|t|] == t;
    }
  }

  /** One step of the directory loop, after the walk of `t + [name]` succeeded. */
  lemma SubtreeStep(S: Disk, s: Path, O: Disk, t: Path, patterns: seq<string>, D: Disk, E: Disk,
                    done: set<Name>, name: Name)
    requires SubtreesSoFar(S, s, O, t, patterns, D, done) && name !in done
    requires WellFormed(D) && t in D.dirs && FrameOutside(D, E, t + [name])
    requires s + [name] in S.dirs && t + [name] in E.dirs && Mirrors(S, s + [name], E, t + [name], patterns)
    ensures SubtreesSoFar(S, s, O, t, patterns, E, done + {name})
  {
    UntouchedStep(O, D, E, t, done, name);
    forall n | n in done ensures t + [n] in E.dirs && Mirrors(S, s + [n], E, t + [n], patterns) {
      ChildFacts(t, n);
      ChildFacts(t, name);
      MirrorKept(S, s + [n], D, E, t + [n], t + [name], patterns);
    }
  }

  /** The frame of one step of the directory loop, whether or not the walk succeeded. */
  lemma UntouchedStep(O: Disk, D: Disk, E: Disk, t: Path, done: set<Name>, name: Name)
    requires Untouched(O, D, t, done)
    requires WellFormed(D) && t in D.dirs && FrameOutside(D, E, t + [name])
    ensures Untouched(O, E, t, done + {name})
  {
    forall p ensures !Under(t, done + {name}, p) ==> !Below(t + [name], p) {
      UnderChild(t, done, name, p);
    }
    forall p | !Under(t, done + {name}, p) && p in E.dirs ensures p in D.dirs {
      if Below(p, t + [name]) {
        assert p == (t + [name])[..|p|];
        if |p| <= |t| {
          assert p == t[..|p|];
          AncestorsAreDirs(D, t, |p|);
        } else {
          UnderChild(t, done, name, p);
        }
      }
    }
    forall p | !(Under(t, done + {name}, p) && |p| > |t| + 1) ensures !StrictlyBelow(t + [name], p) {
      UnderChild(t, done, name, p);
    }
  }

  /** One step of the deletion loop over the obsolete directories. */
  lemma DirDeleteStep(O: Disk, D: Disk, E: Disk, t: Path, gone: set<Name>, name: Name)
    requires Untouched(O, D, t, gone) && forall p :: Under(t, gone, p) ==> p !in D.files && p !in D.dirs
    requires WellFormed(D) && name !in gone && t + [name] in D.dirs
    requires E == RemoveTree(D, t + [name])
    ensures Untouched(O, E, t, gone + {name})
    ensures forall p :: Under(t, gone + {name}, p) ==> p !in E.files && p !in E.dirs
  {
    ChildFacts(t, name);
    UnderChild(t, gone, name, t + [name]);
    forall p ensures Under(t, gone + {name}, p) <==> Under(t, gone, p) || Below(t + [name], p) {
      UnderChild(t, gone, name, p);
    }
    forall p | Below(t + [name], p) && !(|p| > |t| + 1) ensures p == t + [name] {
      assert p == p[..|t| + 1];
    }
  }

  /** Nothing is left at or below `t + [n]` for the names `n` in `gone`. */
  ghost predicate Cleared(D: Disk, t: Path, gone: set<Name>) {
    forall p :: Under(t, gone, p) ==> p !in D.files && p !in D.dirs
  }

  lemma UntouchedGrow(O: Disk, D: Disk, t: Path, a: set<Name>, b: set<Name>)
    requires Untouched(O, D, t, a) && a <= b
    ensures Untouched(O, D, t, b)
  {
  }

  /** One turn of the deletion loop over the obsolete directories: Directory.Delete of
      `t + [name]` with everything below it. */
  method DeleteObsoleteDirectory(clones: FileSystem, t: Path, name: Name, policy: ErrorPolicy,
                                 ghost S: Disk, ghost s: Path, ghost O: Disk, ghost patterns: seq<string>,
                                 ghost j0: seq<Op>, ghost start: Disk, ghost gone: set<Name>)
    returns (r: Outcome<SyncError>)
    requires clones.Valid() && name !in gone
    requires t + [name] in clones.dirs && Justified(S, s, O, t, patterns, DeletedDir(t + [name]))
    requires Untouched(start, clones.State(), t, gone) && Cleared(clones.State(), t, gone)
    requires DeepLog(S, s, O, t, patterns, j0, clones.journal)
    modifies clones
    ensures clones.Valid()
    ensures DeepLog(S, s, O, t, patterns, j0, clones.journal)
    ensures r.Pass? ==> Untouched(start, clones.State(), t, gone + {name}) && Cleared(clones.State(), t, gone + {name})
    ensures r.Fail? ==> clones.State() == old(clones.State()) && Denied(r.error, policy, t, clones.locked)
  {
    var p := t + [name];
    ChildFacts(t, name);
    ghost var D, J := clones.State(), clones.journal;
    var d := clones.DeleteDirectory(p);
    if d.Fail? {
      assert Below(p, p);
      return Fail(Report(d.error, policy));
    }
    DeepLogAppend(S, s, O, t, patterns, j0, J, DeletedDir(p));
    DirDeleteStep(start, D, clones.State(), t, gone, name);
    r := Pass;
  }

  /** The deletion loop over the obsolete directories: deletes `t + [n]` with everything
      below it for each name `n`, stopping at the first failure. */
  method DeleteObsoleteDirectories(clones: FileSystem, t: Path, names: set<Name>, policy: ErrorPolicy,
                                   ghost S: Disk, ghost s: Path, ghost O: Disk, ghost patterns: seq<string>,
                                   ghost j0: seq<Op>)
    returns (r: Outcome<SyncError>)
    requires clones.Valid()
    requires forall n :: n in names ==> t + [n] in clones.dirs && Justified(S, s, O, t, patterns, DeletedDir(t + [n]))
    requires DeepLog(S, s, O, t, patterns, j0, clones.journal)
    modifies clones
    ensures clones.Valid()
    ensures Untouched(old(clones.State()), clones.State(), t, names)
    ensures r.Pass? ==> forall p :: Under(t, names, p) ==> p !in clones.files && p !in clones.dirs
    ensures DeepLog(S, s, O, t, patterns, j0, clones.journal)
    ensures r.Fail? ==> Denied(r.error, policy, t, clones.locked)
    ensures names == {} ==> r.Pass? && clones.State() == old(clones.State()) && clones.journal == old(clones.journal)
  {
    ghost var start := clones.State();
    ghost var handled: set<Name> := {};
    var pending := names;
    while pending != {}
      invariant handled + pending == names && handled !! pending
      invariant clones.Valid()
      invariant Untouched(start, clones.State(), t, handled)
      invariant Cleared(clones.State(), t, handled)
      invariant DeepLog(S, s, O, t, patterns, j0, clones.journal)
      invariant names == {} ==> clones.State() == start && clones.journal == old(clones.journal)
      decreases pending
    {
      var name :| name in pending;
      ChildFacts(t, name);
      UnderChild(t, handled, name, t + [name]);
      r := DeleteObsoleteDirectory(clones, t, name, policy, S, s, O, patterns, j0, start, handled);
      if r.Fail? {
        UntouchedGrow(start, clones.State(), t, handled, names);
        return;
      }
      handled, pending := handled + {name}, pending - {name};
    }
    r := Pass;
  }

  /** Inside a handled subtree the target agrees with the source. */
  lemma AgreeInHandledSubtree(S: Disk, s: Path, D: Disk, F: Disk, t: Path, patterns: seq<string>, n: Name, rest: Path)
    requires !IsExcluded(n, patterns) && s + [n] in S.dirs && t + [n] in D.dirs && Mirrors(S, s + [n], D, t + [n], patterns)
    requires (t + [n]) + rest in F.dirs <==> (t + [n]) + rest in D.dirs
    requires rest != [] ==> ((t + [n]) + rest in F.files <==> (t + [n]) + rest in D.files)
    requires rest != [] && (t + [n]) + rest in F.files ==> F.files[(t + [n]) + rest] == D.files[(t + [n]) + rest]
    ensures DirsAgree(S, s, F, t, patterns, [n] + rest)
    ensures rest != [] ==> FilesAgree(S, s, F, t, patterns, [n] + rest)
  {
    AgreeShift(S, s, F, t, patterns, n, rest);
    if rest != [] {
      assert Agree(S, s + [n], D, t + [n], patterns, rest);
    } else {
      VisibleName(n, patterns);
      assert [n] + rest == [n] && (t + [n]) + rest == t + [n] && (s + [n]) + rest == s + [n];
    }
  }

  /** Nothing lies at or below a path that is not a directory of a well-formed disk, but
      possibly a file at the path itself. */
  lemma AbsentBelow(d: Disk, q: Path, rest: Path)
    requires WellFormed(d) && q !in d.dirs
    ensures q + rest !in d.dirs && (rest != [] ==> q + rest !in d.files)
  {
    if rest == [] {
      assert q + rest == q;
    } else {
      assert (q + rest)[..|q|] == q;
      NothingBelowNonDir(d, q, q + rest);
    }
  }

  /** Where the source has no visible directory `n`, the target holds nothing at or below
      `t + [n]`, and agrees. */
  lemma AgreeOutsideSubtrees(S: Disk, s: Path, F: Disk, t: Path, patterns: seq<string>, n: Name, rest: Path)
    requires WellFormed(S) && !(s + [n] in S.dirs && !IsExcluded(n, patterns))
    requires (t + [n]) + rest !in F.dirs && (rest != [] ==> (t + [n]) + rest !in F.files)
    ensures DirsAgree(S, s, F, t, patterns, [n] + rest)
    ensures rest != [] ==> FilesAgree(S, s, F, t, patterns, [n] + rest)
  {
    assert t + ([n] + rest) == (t + [n]) + rest;
    assert s + ([n] + rest) == (s + [n]) + rest;
    if IsExcluded(n, patterns) {
      VisibleCons(n, rest, patterns);
    } else {
      AbsentBelow(S, s + [n], rest);
    }
  }

  /** A path inside child `n` of `t` is under a set of children exactly when `n` is in it. */
  lemma UnderInChild(t: Path, names: set<Name>, n: Name, rest: Path)
    ensures Under(t, names, (t + [n]) + rest) <==> n in names
    ensures |(t + [n]) + rest| > |t| + 1 <==> rest != []
  {
    var p := (t + [n]) + rest;
    assert p[..|t|] == t && p[|t|] == n by {
      assert p[..|t| + 1] == t + [n];
    }
  }

  /** Inside a subdirectory the loop walked, the target agrees with the source. */
  lemma AgreeInWalked(S: Disk, s: Path, D: Disk, F: Disk, t: Path, patterns: seq<string>,
                      obsolete: set<Name>, n: Name, rest: Path)
    requires !IsExcluded(n, patterns) && s + [n] in S.dirs && t + [n] in D.dirs && Mirrors(S, s + [n], D, t + [n], patterns)
    requires Untouched(D, F, t, obsolete) && n !in obsolete
    ensures DirsAgree(S, s, F, t, patterns, [n] + rest)
    ensures rest != [] ==> FilesAgree(S, s, F, t, patterns, [n] + rest)
  {
    UnderInChild(t, obsolete, n, rest);
    AgreeInHandledSubtree(S, s, D, F, t, patterns, n, rest);
  }

  /** Inside an obsolete subdirectory, which is gone, the target agrees with the source. */
  lemma AgreeInRemoved(S: Disk, s: Path, F: Disk, t: Path, patterns: seq<string>,
                       obsolete: set<Name>, n: Name, rest: Path)
    requires WellFormed(S) && !(s + [n] in S.dirs && !IsExcluded(n, patterns)) && n in obsolete
    requires forall p :: Under(t, obsolete, p) ==> p !in F.files && p !in F.dirs
    ensures DirsAgree(S, s, F, t, patterns, [n] + rest)
    ensures rest != [] ==> FilesAgree(S, s, F, t, patterns, [n] + rest)
  {
    UnderInChild(t, obsolete, n, rest);
    AgreeOutsideSubtrees(S, s, F, t, patterns, n, rest);
  }

  /** Where neither the source shows nor the target held subdirectory `n`, the target still
      holds nothing there, and agrees. */
  lemma AgreeInAbsent(S: Disk, s: Path, O: Disk, D: Disk, F: Disk, t: Path, patterns: seq<string>,
                      done: set<Name>, obsolete: set<Name>, n: Name, rest: Path)
    requires WellFormed(S) && WellFormed(O) && !(s + [n] in S.dirs && !IsExcluded(n, patterns))
    requires t + [n] !in O.dirs && n !in done && n !in obsolete
    requires Untouched(O, D, t, done) && Untouched(D, F, t, obsolete)
    ensures DirsAgree(S, s, F, t, patterns, [n] + rest)
    ensures rest != [] ==> FilesAgree(S, s, F, t, patterns, [n] + rest)
  {
    UnderInChild(t, done, n, rest);
    UnderInChild(t, obsolete, n, rest);
    AbsentBelow(O, t + [n], rest);
    AgreeOutsideSubtrees(S, s, F, t, patterns, n, rest);
  }

  /** After the directory loop and the deletion of the obsolete directories, the target
      agrees with the source at relative path `rel`. */
  lemma DirPhaseAgreesAt(S: Disk, s: Path, O: Disk, t: Path, patterns: seq<string>, D: Disk,
                         done: set<Name>, obsolete: set<Name>, F: Disk, rel: Path)
    requires WellFormed(S) && WellFormed(O) && rel != []
    requires SubtreesSoFar(S, s, O, t, patterns, D, done)
    requires forall m :: m in done <==> s + [m] in S.dirs && !IsExcluded(m, patterns)
    requires forall m :: m in obsolete <==> t + [m] in O.dirs && m !in done
    requires Untouched(D, F, t, obsolete) && forall p :: Under(t, obsolete, p) ==> p !in F.files && p !in F.dirs
    ensures DirsAgree(S, s, F, t, patterns, rel) && (|rel| > 1 ==> FilesAgree(S, s, F, t, patterns, rel))
  {
    var n, rest := rel[0], rel[1..];
    assert rel == [n] + rest;
    if n in done {
      AgreeInWalked(S, s, D, F, t, patterns, obsolete, n, rest);
    } else if n in obsolete {
      AgreeInRemoved(S, s, F, t, patterns, obsolete, n, rest);
    } else {
      AgreeInAbsent(S, s, O, D, F, t, patterns, done, obsolete, n, rest);
    }
  }

  /** After the directory loop and the deletion of the obsolete directories, everything
      inside `t` but the files directly inside it agrees with the source. */
  lemma DirPhaseAgrees(S: Disk, s: Path, O: Disk, t: Path, patterns: seq<string>, D: Disk,
                       done: set<Name>, obsolete: set<Name>, F: Disk)
    requires WellFormed(S) && WellFormed(O)
    requires SubtreesSoFar(S, s, O, t, patterns, D, done)
    requires forall m :: m in done <==> s + [m] in S.dirs && !IsExcluded(m, patterns)
    requires forall m :: m in obsolete <==> t + [m] in O.dirs && m !in done
    requires Untouched(D, F, t, obsolete) && forall p :: Under(t, obsolete, p) ==> p !in F.files && p !in F.dirs
    ensures DeepAgree(S, s, F, t, patterns)
  {
    forall rel | rel != []
      ensures DirsAgree(S, s, F, t, patterns, rel) && (|rel| > 1 ==> FilesAgree(S, s, F, t, patterns, rel))
    {
      DirPhaseAgreesAt(S, s, O, t, patterns, D, done, obsolete, F, rel);
    }
  }

  /** The walk of a visible source subdirectory starts in sync when the parent's subtrees
      already agree. */
  lemma SubInSync(S: Disk, s: Path, O: Disk, t: Path, patterns: seq<string>, n: Name)
    requires DeepAgree(S, s, O, t, patterns)
    requires s + [n] in S.dirs && !IsExcluded(n, patterns)
    ensures InSync(S, s + [n], O, t + [n], patterns)
  {
    VisibleName(n, patterns);
    assert DirsAgree(S, s, O, t, patterns, [n]);
    forall rest | rest != [] ensures Agree(S, s + [n], O, t + [n], patterns, rest) {
      AgreeShift(S, s, O, t, patterns, n, rest);
      assert |[n] + rest| > 1;
    }
  }

  /** A mirror is the files directly inside `t` agreeing and everything deeper agreeing. */
  lemma MirrorsSplit(S: Disk, s: Path, T: Disk, t: Path, patterns: seq<string>)
    ensures Mirrors(S, s, T, t, patterns) <==> TopFilesAgree(S, s, T, t, patterns) && DeepAgree(S, s, T, t, patterns)
  {
    if Mirrors(S, s, T, t, patterns) {
      forall n ensures FilesAgree(S, s, T, t, patterns, [n]) {
        assert Agree(S, s, T, t, patterns, [n]);
      }
      forall rel | rel != []
        ensures DirsAgree(S, s, T, t, patterns, rel) && (|rel| > 1 ==> FilesAgree(S, s, T, t, patterns, rel))
      {
        assert Agree(S, s, T, t, patterns, rel);
      }
    }
    if TopFilesAgree(S, s, T, t, patterns) && DeepAgree(S, s, T, t, patterns) {
      forall rel | rel != [] ensures Agree(S, s, T, t, patterns, rel) {
        assert DirsAgree(S, s, T, t, patterns, rel);
        if |rel| == 1 {
          var n := rel[0];
          assert rel == [n];
          assert FilesAgree(S, s, T, t, patterns, [n]);
        }
      }
    }
  }

  /** When every subtree already agrees, the directory loop finds nothing obsolete. */
  lemma InSyncLeavesNoObsoleteDir(S: Disk, s: Path, O: Disk, t: Path, patterns: seq<string>,
                                  done: set<Name>, obsolete: set<Name>)
    requires DeepAgree(S, s, O, t, patterns)
    requires forall m :: m in done <==> s + [m] in S.dirs && !IsExcluded(m, patterns)
    requires forall m :: m in obsolete <==> t + [m] in O.dirs && m !in done
    ensures obsolete == {}
  {
    forall n | n in obsolete ensures false {
      VisibleName(n, patterns);
    }
  }

  /** The failure of a subdirectory walk is a failure of its parent's walk. */
  lemma BlamedLifts(e: SyncError, policy: ErrorPolicy, s: Path, t: Path, n: Name, locked: set<Path>)
    requires Blamed(e, policy, s + [n], t + [n], locked) && e != Io(DirectoryNotFound(s + [n]))
    ensures Denied(e, policy, t, locked) || (e.Io? && e.cause.IoFailure? && StrictlyBelow(t, e.cause.path))
  {
    ChildFacts(t, n);
    var p := if e.AccessDeniedAt? then e.path else e.cause.path;
    if Below(t + [n], p) {
      assert p[..|t|] == p[..|t| + 1][..|t|];
    }
  }

  /** A target subdirectory the directory loop did not handle has no visible source
      counterpart, so deleting it is justified. */
  lemma ObsoleteDirJustified(S: Disk, s: Path, O: Disk, t: Path, patterns: seq<string>, D: Disk,
                             done: set<Name>, obsolete: set<Name>, n: Name)
    requires Untouched(O, D, t, done)
    requires forall m :: m in done <==> s + [m] in S.dirs && !IsExcluded(m, patterns)
    requires forall m :: m in obsolete <==> t + [m] in O.dirs && m !in done
    requires n in obsolete
    ensures t + [n] in D.dirs && Justified(S, s, O, t, patterns, DeletedDir(t + [n]))
  {
    ChildFacts(t, n);
    UnderChild(t, done, n, t + [n]);
    VisibleName(n, patterns);
  }

  lemma DeepFrameTrans(A: Disk, B: Disk, C: Disk, t: Path)
    requires DeepFrame(A, B, t) && DeepFrame(B, C, t)
    ensures DeepFrame(A, C, t)
  {
  }

  /** The directory phase leaves the files directly inside `t` as they were. */
  lemma TopFilesKept(S: Disk, s: Path, D: Disk, F: Disk, t: Path, patterns: seq<string>)
    requires TopFilesAgree(S, s, D, t, patterns) && DeepFrame(D, F, t)
    ensures TopFilesAgree(S, s, F, t, patterns)
  {
    forall n ensures FilesAgree(S, s, F, t, patterns, [n]) {
      assert FilesAgree(S, s, D, t, patterns, [n]);
      assert |t + [n]| == |t| + 1;
    }
  }

  /** Every prefix of a directory of a well-formed disk is a directory, and none is a file. */
  lemma AncestryIsDirs(d: Disk, t: Path)
    requires WellFormed(d) && t in d.dirs
    ensures Ancestry(t) <= d.dirs
    ensures forall k :: 0 <= k <= |t| ==> t[..k] !in d.files
  {
    forall k | 0 <= k <= |t| ensures t[..k] in d.dirs {
      AncestorsAreDirs(d, t, k);
    }
    forall q | q in Ancestry(t) ensures q in d.dirs {
      assert q == t[..|q|];
    }
  }

  /** The frame of one walk: creating `t` adds at most its ancestors, the file phase
      changes only the files directly inside `t`, the directory phase only what lies
      strictly inside it. */
  lemma WalkFrame(O: Disk, C: Disk, D: Disk, F: Disk, t: Path)
    requires C.files == O.files && O.dirs <= C.dirs <= O.dirs + Ancestry(t)
    requires D.dirs == C.dirs && Outside(D.files, t) == Outside(C.files, t)
    requires DeepFrame(D, F, t)
    ensures FrameOutside(O, F, t)
  {
    forall p | !StrictlyBelow(t, p)
      ensures (p in F.files <==> p in O.files) && (p in O.files && p in F.files ==> F.files[p] == O.files[p])
    {
      assert !ChildOf(t, p);
      assert p in D.files <==> p in Outside(D.files, t);
      assert p in C.files <==> p in Outside(C.files, t);
      if p in D.files && p in C.files {
        assert D.files[p] == Outside(D.files, t)[p] == Outside(C.files, t)[p] == C.files[p];
      }
    }
  }

  /** A write justified against one state is justified against another that holds the
      same entry at its path. */
  lemma Rejudge(S: Disk, s: Path, A: Disk, B: Disk, t: Path, patterns: seq<string>, op: Op)
    requires Justified(S, s, B, t, patterns, op)
    requires op.DeletedDir? ==> (op.path in B.dirs ==> op.path in A.dirs)
    requires !op.DeletedDir? ==> (op.path in B.files <==> op.path in A.files)
    requires !op.DeletedDir? && op.path in A.files && op.path in B.files ==> A.files[op.path] == B.files[op.path]
    ensures Justified(S, s, A, t, patterns, op)
  {
  }

  /** The writes of the file phase and of the directory phase are justified against the
      target as it was before the walk. */
  lemma CombineLogs(S: Disk, s: Path, O: Disk, C: Disk, D: Disk, t: Path, patterns: seq<string>,
                    j0: seq<Op>, J1: seq<Op>, J2: seq<Op>)
    requires C.files == O.files && O.dirs <= C.dirs <= O.dirs + Ancestry(t)
    requires D.dirs == C.dirs && Outside(D.files, t) == Outside(C.files, t)
    requires FileLog(S, s, C, t, patterns, j0, J1)
    requires DeepLog(S, s, D, t, patterns, J1, J2)
    ensures JournalJustified(S, s, O, t, patterns, j0, J2)
  {
    assert J2[..|j0|] == J2[..|J1|][..|j0|];
    forall k | |j0| <= k < |J2| ensures Justified(S, s, O, t, patterns, J2[k]) {
      var op := J2[k];
      var p := op.path;
      if k < |J1| {
        assert J2[k] == J1[k];
        Rejudge(S, s, O, C, t, patterns, op);
      } else {
        assert StrictlyBelow(t, p) && !FileOpAt(t, op);
        assert !Below(p, t);
        if !op.DeletedDir? {
          assert p in D.files <==> p in Outside(D.files, t);
          assert p in C.files <==> p in Outside(C.files, t);
          if p in D.files && p in C.files {
            assert D.files[p] == Outside(D.files, t)[p] == Outside(C.files, t)[p];
          }
        }
        Rejudge(S, s, O, D, t, patterns, op);
      }
    }
  }

  /** One turn of the directory loop for a visible source subdirectory `name`: the
      recursive SynchronizeDirectories from `s + [name]` into `t + [name]`. */
  method WalkSubdirectory(project: FileSystem, clones: FileSystem, s: Path, t: Path, patterns: seq<string>,
                          policy: ErrorPolicy, name: Name, ghost O: Disk, ghost done: set<Name>, ghost j0: seq<Op>)
    returns (r: Outcome<SyncError>)
    requires project != clones && project.Valid() && clones.Valid()
    requires s in project.dirs && t in O.dirs
    requires s + [name] in project.dirs && !IsExcluded(name, patterns) && name !in done
    requires SubtreesSoFar(project.State(), s, O, t, patterns, clones.State(), done)
    requires DeepLog(project.State(), s, O, t, patterns, j0, clones.journal)
    modifies clones
    decreases DirsBelow(project.dirs, s), 0
    ensures clones.Valid()
    ensures DeepLog(project.State(), s, O, t, patterns, j0, clones.journal)
    ensures r.Pass? ==> SubtreesSoFar(project.State(), s, O, t, patterns, clones.State(), done + {name})
    ensures r.Fail? ==> DeepFrame(O, clones.State(), t)
    ensures r.Fail? ==> Denied(r.error, policy, t, clones.locked) ||
                        (r.error.Io? && r.error.cause.IoFailure? && StrictlyBelow(t, r.error.cause.path))
    ensures r.Fail? ==> Grounded(r.error, project.State(), s, clones.State(), t)
    ensures DeepAgree(project.State(), s, old(clones.State()), t, patterns) ==>
              r.Pass? && clones.State() == old(clones.State()) && clones.journal == old(clones.journal)
  {
    ghost var S, D, J := project.State(), clones.State(), clones.journal;
    UnderChild(t, done, name, t);
    assert t in D.dirs;
    DirsBelowShrinks(project.dirs, s, name);
    if DeepAgree(S, s, D, t, patterns) {
      SubInSync(S, s, D, t, patterns, name);
    }
    r := SynchronizeDirectories(project, clones, s + [name], t + [name], patterns, policy);
    LiftLog(S, s, O, D, t, patterns, done, name, j0, J, clones.journal);
    if r.Fail? {
      BlamedLifts(r.error, policy, s, t, name, clones.locked);
      if r.error.Io? && r.error.cause.IoFailure? {
        ObstructedLifts(S, s, clones.State(), t, name, r.error.cause.path);
      }
      UntouchedStep(O, D, clones.State(), t, done, name);
      UntouchedIsDeepFrame(O, clones.State(), t, done + {name});
      return;
    }
    SubtreeStep(S, s, O, t, patterns, D, clones.State(), done, name);
  }

  /** The directory loop of SynchronizeDirectories: walks every visible listed source
      subdirectory into the target subdirectory of the same name; also returns the target
      names it did not walk, the obsolete directories. */
  method WalkSubdirectories(project: FileSystem, clones: FileSystem, s: Path, t: Path, patterns: seq<string>,
                            policy: ErrorPolicy, sourceDirs: seq<Name>, targetDirSet: set<Name>)
    returns (r: Outcome<SyncError>, obsolete: set<Name>)
    requires project != clones && project.Valid() && clones.Valid()
    requires s in project.dirs && t in clones.dirs
    requires Distinct(sourceDirs) && forall n :: n in sourceDirs ==> s + [n] in project.dirs
    modifies clones
    decreases DirsBelow(project.dirs, s), 1
    ensures clones.Valid()
    ensures DeepLog(project.State(), s, old(clones.State()), t, patterns, old(clones.journal), clones.journal)
    ensures r.Pass? ==> SubtreesSoFar(project.State(), s, old(clones.State()), t, patterns, clones.State(), Shown(sourceDirs, patterns))
    ensures r.Pass? ==> obsolete == targetDirSet - Shown(sourceDirs, patterns)
    ensures r.Fail? ==> DeepFrame(old(clones.State()), clones.State(), t)
    ensures r.Fail? ==> Denied(r.error, policy, t, clones.locked) ||
                        (r.error.Io? && r.error.cause.IoFailure? && StrictlyBelow(t, r.error.cause.path))
    ensures r.Fail? ==> Grounded(r.error, project.State(), s, clones.State(), t)
    ensures DeepAgree(project.State(), s, old(clones.State()), t, patterns) ==>
              r.Pass? && clones.State() == old(clones.State()) && clones.journal == old(clones.journal)
  {
    ghost var S, O, j0 := project.State(), clones.State(), clones.journal;
    ghost var idle := DeepAgree(S, s, O, t, patterns);
    ghost var done: set<Name> := {};
    obsolete := targetDirSet;
    for i := 0 to |sourceDirs|
      invariant clones.Valid()
      invariant done == Shown(sourceDirs[..i], patterns)
      invariant obsolete == targetDirSet - done
      invariant SubtreesSoFar(S, s, O, t, patterns, clones.State(), done)
      invariant DeepLog(S, s, O, t, patterns, j0, clones.journal)
      invariant idle ==> clones.State() == O && clones.journal == j0
    {
      var name := sourceDirs[i];
      ShownSnoc(sourceDirs, i, patterns);
      if !IsExcluded(name, patterns) {
        r := WalkSubdirectory(project, clones, s, t, patterns, policy, name, O, done, j0);
        if r.Fail? {
          return;
        }
        done := done + {name};
        obsolete := obsolete - {name};
      }
    }
    assert sourceDirs[..|sourceDirs|] == sourceDirs;
    r := Pass;
  }

  /** The directory phase of SynchronizeDirectories: walks every visible source
      subdirectory, then deletes the target subdirectories that were not walked. */
  method SyncSubdirectories(project: FileSystem, clones: FileSystem, s: Path, t: Path,
                            patterns: seq<string>, policy: ErrorPolicy)
    returns (r: Outcome<SyncError>)
    requires project != clones && project.Valid() && clones.Valid()
    requires s in project.dirs && t in clones.dirs
    modifies clones
    decreases DirsBelow(project.dirs, s), 2
    ensures clones.Valid()
    ensures DeepFrame(old(clones.State()), clones.State(), t)
    ensures DeepLog(project.State(), s, old(clones.State()), t, patterns, old(clones.journal), clones.journal)
    ensures r.Pass? ==> DeepAgree(project.State(), s, clones.State(), t, patterns)
    ensures r.Fail? ==> Denied(r.error, policy, t, clones.locked) ||
                        (r.error.Io? && r.error.cause.IoFailure? && StrictlyBelow(t, r.error.cause.path))
    ensures r.Fail? ==> Grounded(r.error, project.State(), s, clones.State(), t)
    ensures DeepAgree(project.State(), s, old(clones.State()), t, patterns) ==>
              r.Pass? && clones.State() == old(clones.State()) && clones.journal == old(clones.journal)
  {
    ghost var S, O, j0 := project.State(), clones.State(), clones.journal;
    var sourceDirs := project.GetDirectories(s);
    var targetDirs := clones.GetDirectories(t);
    var targetDirSet := set n | n in targetDirs;
    var obsolete;
    r, obsolete := WalkSubdirectories(project, clones, s, t, patterns, policy, sourceDirs, targetDirSet);
    if r.Fail? {
      return;
    }
    ghost var D, done := clones.State(), Shown(sourceDirs, patterns);
    assert forall m :: m in done <==> s + [m] in S.dirs && !IsExcluded(m, patterns);
    forall n | n in obsolete
      ensures t + [n] in clones.dirs && Justified(S, s, O, t, patterns, DeletedDir(t + [n]))
    {
      ObsoleteDirJustified(S, s, O, t, patterns, D, done, obsolete, n);
    }
    if DeepAgree(S, s, O, t, patterns) {
      InSyncLeavesNoObsoleteDir(S, s, O, t, patterns, done, obsolete);
    }
    r := DeleteObsoleteDirectories(clones, t, obsolete, policy, S, s, O, patterns, j0);
    UntouchedIsDeepFrame(O, D, t, done);
    UntouchedIsDeepFrame(D, clones.State(), t, obsolete);
    DeepFrameTrans(O, D, clones.State(), t);
    if r.Pass? {
      DirPhaseAgrees(S, s, O, t, patterns, D, done, obsolete, clones.State());
    }
  }

  /** SynchronizeDirectories(sourceDir, targetDir): creates `t`, then makes the files and,
      recursively, the subdirectories inside it agree with those inside `s`, skipping every
      excluded name. */
  method SynchronizeDirectories(project: FileSystem, clones: FileSystem, s: Path, t: Path,
                                patterns: seq<string>, policy: ErrorPolicy)
    returns (r: Outcome<SyncError>)
    requires project != clones && project.Valid() && clones.Valid()
    modifies clones
    decreases DirsBelow(project.dirs, s), 3
    ensures clones.Valid()
    ensures FrameOutside(old(clones.State()), clones.State(), t)
    ensures JournalJustified(project.State(), s, old(clones.State()), t, patterns, old(clones.journal), clones.journal)
    ensures r.Pass? ==> InSync(project.State(), s, clones.State(), t, patterns)
    ensures r.Fail? ==> Blamed(r.error, policy, s, t, clones.locked)
    ensures r.Fail? ==> Grounded(r.error, project.State(), s, clones.State(), t)
    ensures r == Fail(Io(DirectoryNotFound(s))) ==> s !in project.dirs
    ensures InSync(project.State(), s, old(clones.State()), t, patterns) ==>
              r.Pass? && clones.State() == old(clones.State()) && clones.journal == old(clones.journal)
  {
    ghost var S, O, j0 := project.State(), clones.State(), clones.journal;
    ghost var idle := InSync(S, s, O, t, patterns);
    if idle {
      AncestryIsDirs(O, t);
      MirrorsSplit(S, s, O, t, patterns);
    }
    var c := clones.CreateDirectory(t);
    assert Below(t, t) by {
      assert t[..|t|] == t;
    }
    if c.Fail? {
      WalkFrame(O, O, O, O, t);
      return Fail(Io(c.error));
    }
    ghost var C := clones.State();
    assert idle ==> C == O && clones.journal == j0;
    if s !in project.dirs {
      WalkFrame(O, C, C, C, t);
      return Fail(Io(DirectoryNotFound(s)));
    }
    r := SyncFiles(project, clones, s, t, patterns, policy);
    ghost var D, J1 := clones.State(), clones.journal;
    assert idle ==> r.Pass? && D == O && J1 == j0;
    if r.Fail? {
      WalkFrame(O, C, D, D, t);
      CombineLogs(S, s, O, C, D, t, patterns, j0, J1, J1);
      return;
    }
    r := SyncSubdirectories(project, clones, s, t, patterns, policy);
    assert idle ==> r.Pass? && clones.State() == O && clones.journal == j0;
    WalkFrame(O, C, D, clones.State(), t);
    CombineLogs(S, s, O, C, D, t, patterns, j0, J1, clones.journal);
    if r.Pass? {
      TopFilesKept(S, s, D, clones.State(), t, patterns);
      MirrorsSplit(S, s, clones.State(), t, patterns);
    }
  }
}
