// The copy walk of the ClonedProjectsSynchronizer window: CopyDirectory creates the
// destination, copies every visible source file over it without comparing, and recurses
// into every visible source subdirectory. It never deletes; the window wipes each
// destination folder before calling it.

module FullCopy {
  import opened SystemIO
  import opened Exclusion
  import opened MirrorSpec
  import opened IncrementalSync

  /** At relative path `rel`, the target `T` holds what the visible source holds there and
      otherwise what `O` held: a directory where either has one, a file where either has
      one, with the source's length and write time where the source has a visible file. */
  ghost predicate Overlaid(S: Disk, s: Path, O: Disk, T: Disk, t: Path, patterns: seq<string>, rel: Path) {
    && (t + rel in T.dirs <==> t + rel in O.dirs || (s + rel in S.dirs && Visible(rel, patterns)))
    && (t + rel in T.files <==> t + rel in O.files || (s + rel in S.files && Visible(rel, patterns)))
    && (t + rel in T.files ==>
          T.files[t + rel] == if s + rel in S.files && Visible(rel, patterns) then S.files[s + rel] else O.files[t + rel])
  }

  /** The tree at `t` on `T` is the tree at `t` on `O` with the visible source tree at `s`
      copied over it. */
  ghost predicate Overlays(S: Disk, s: Path, O: Disk, T: Disk, t: Path, patterns: seq<string>) {
    forall rel :: rel != [] ==> Overlaid(S, s, O, T, t, patterns, rel)
  }

  /** A copy of a visible source file into the corresponding place below `t`. */
  ghost predicate CopiedFrom(S: Disk, s: Path, t: Path, patterns: seq<string>, op: Op) {
    op.Copied? && StrictlyBelow(t, op.path) &&
    var rel := op.path[|t|..];
    s + rel in S.files && Visible(rel, patterns)
  }

  /** The journal grew from `j0` to `j` by copies of visible source files only. */
  ghost predicate CopyLog(S: Disk, s: Path, t: Path, patterns: seq<string>, j0: seq<Op>, j: seq<Op>) {
    && |j0| <= |j| && j[..|j0|] == j0
    && forall k :: |j0| <= k < |j| ==> CopiedFrom(S, s, t, patterns, j[k])
  }

  /** Why CopyDirectory may fail: the source directory is missing, a write hit a locked path
      inside `t`, or a file stands where a directory is needed or the other way round. */
  ghost predicate CopyBlamed(e: FsError, s: Path, t: Path, locked: set<Path>) {
    || e == DirectoryNotFound(s)
    || (e.AccessDenied? && e.path in locked && StrictlyBelow(t, e.path))
    || (e.IoFailure? && Below(t, e.path))
  }

  /** An IOException that ends the copy from `s` into `t` is met where the target disk
      `tgt`, as the copy leaves it, stands in the way. */
  ghost predicate CopyGrounded(e: FsError, src: Disk, s: Path, tgt: Disk, t: Path) {
    e.IoFailure? ==> Obstructed(src, s, tgt, t, e.path)
  }

  /** The failures of the walk of a subdirectory of `t`. */
  ghost predicate DeepCopyError(e: FsError, t: Path, locked: set<Path>) {
    || (e.AccessDenied? && e.path in locked && StrictlyBelow(t, e.path))
    || (e.IoFailure? && StrictlyBelow(t, e.path))
  }

  /** The subdirectory loop has copied the names in `done` over their target
      subdirectories; nothing changed outside their subtrees. */
  ghost predicate OverlaidSoFar(S: Disk, s: Path, O: Disk, t: Path, patterns: seq<string>, D: Disk, done: set<Name>) {
    && (forall n :: n in done ==> t + [n] in D.dirs && Overlays(S, s + [n], O, D, t + [n], patterns))
    && Untouched(O, D, t, done)
  }

  lemma CopyLogAppend(S: Disk, s: Path, t: Path, patterns: seq<string>, j0: seq<Op>, j: seq<Op>, op: Op)
    requires CopyLog(S, s, t, patterns, j0, j) && CopiedFrom(S, s, t, patterns, op)
    ensures CopyLog(S, s, t, patterns, j0, j + [op])
  {
    assert (j + [op])[..|j0|] == j[..|j0|];
  }

  /** Copying a visible source file directly inside `s` to the same name inside `t`. */
  lemma CopiedTopFile(S: Disk, s: Path, t: Path, patterns: seq<string>, name: Name)
    requires s + [name] in S.files && !IsExcluded(name, patterns)
    ensures CopiedFrom(S, s, t, patterns, Copied(t + [name]))
  {
    ChildFacts(t, name);
    VisibleName(name, patterns);
  }

  /** A copy made by the walk of a visible subdirectory `n` is a copy of the walk of its
      parent. */
  lemma CopiedLifts(S: Disk, s: Path, t: Path, patterns: seq<string>, n: Name, op: Op)
    requires CopiedFrom(S, s + [n], t + [n], patterns, op) && !IsExcluded(n, patterns)
    ensures CopiedFrom(S, s, t, patterns, op)
  {
    var p := op.path;
    var rest := p[|t| + 1..];
    assert p[..|t|] == p[..|t| + 1][..|t|];
    assert p[|t|] == p[..|t| + 1][|t|] == n;
    assert p[|t|..] == [n] + rest;
    assert s + p[|t|..] == (s + [n]) + rest;
    VisibleCons(n, rest, patterns);
  }

  lemma CopyLogLift(S: Disk, s: Path, t: Path, patterns: seq<string>, n: Name, j0: seq<Op>, J: seq<Op>, J2: seq<Op>)
    requires CopyLog(S, s, t, patterns, j0, J) && CopyLog(S, s + [n], t + [n], patterns, J, J2)
    requires !IsExcluded(n, patterns)
    ensures CopyLog(S, s, t, patterns, j0, J2)
  {
    assert J2[..|j0|] == J2[..|J|][..|j0|];
    forall k | |J| <= k < |J2| ensures CopiedFrom(S, s, t, patterns, J2[k]) {
      CopiedLifts(S, s, t, patterns, n, J2[k]);
    }
  }

  /** The failure of the walk of a listed subdirectory is a failure strictly inside `t`. */
  lemma CopyBlamedLifts(e: FsError, s: Path, t: Path, n: Name, locked: set<Path>)
    requires CopyBlamed(e, s + [n], t + [n], locked) && e != DirectoryNotFound(s + [n])
    ensures DeepCopyError(e, t, locked)
  {
    ChildFacts(t, n);
    if Below(t + [n], e.path) {
      assert e.path[..|t|] == e.path[..|t| + 1][..|t|];
    }
  }

  /** An overlay judged against a state that agrees strictly below `t` with the one it was
      computed from. */
  lemma OverlayRebase(S: Disk, s: Path, P: Disk, O: Disk, T: Disk, t: Path, patterns: seq<string>)
    requires Overlays(S, s, P, T, t, patterns)
    requires forall p :: StrictlyBelow(t, p) ==> (p in P.dirs <==> p in O.dirs) && (p in P.files <==> p in O.files)
    requires forall p :: StrictlyBelow(t, p) && p in P.files && p in O.files ==> P.files[p] == O.files[p]
    ensures Overlays(S, s, O, T, t, patterns)
  {
    forall rel | rel != [] ensures Overlaid(S, s, O, T, t, patterns, rel) {
      assert Overlaid(S, s, P, T, t, patterns, rel);
      assert StrictlyBelow(t, t + rel) by {
        assert (t + rel)[..|t|] == t;
      }
    }
  }

  /** An overlaid subtree stays overlaid while a sibling subtree changes. */
  lemma OverlayKept(S: Disk, s: Path, O: Disk, D: Disk, E: Disk, t: Path, u: Path, patterns: seq<string>)
    requires Overlays(S, s, O, D, t, patterns) && t in D.dirs
    requires FrameOutside(D, E, u) && |u| == |t| && u != t
    ensures Overlays(S, s, O, E, t, patterns) && t in E.dirs
  {
    forall rel | rel != [] ensures Overlaid(S, s, O, E, t, patterns, rel) {
      assert Overlaid(S, s, O, D, t, patterns, rel);
      assert (t + rel)[..|t|] == t;
    }
  }

  /** One step of the subdirectory loop, after the walk of `t + [name]` succeeded. */
  lemma OverlayStep(S: Disk, s: Path, O: Disk, t: Path, patterns: seq<string>, D: Disk, E: Disk,
                    done: set<Name>, name: Name)
    requires OverlaidSoFar(S, s, O, t, patterns, D, done) && name !in done
    requires WellFormed(D) && t in D.dirs && FrameOutside(D, E, t + [name])
    requires t + [name] in E.dirs && Overlays(S, s + [name], D, E, t + [name], patterns)
    ensures OverlaidSoFar(S, s, O, t, patterns, E, done + {name})
  {
    UntouchedStep(O, D, E, t, done, name);
    forall p | StrictlyBelow(t + [name], p) ensures !Under(t, done, p) {
      UnderChild(t, done, name, p);
    }
    OverlayRebase(S, s + [name], D, O, E, t + [name], patterns);
    forall n | n in done ensures t + [n] in E.dirs && Overlays(S, s + [n], O, E, t + [n], patterns) {
      ChildFacts(t, n);
      ChildFacts(t, name);
      OverlayKept(S, s + [n], O, D, E, t + [n], t + [name], patterns);
    }
  }

  /** After the copies, at a name directly inside `t`. */
  lemma OverlaidAtTop(S: Disk, s: Path, O: Disk, F: Disk, t: Path, patterns: seq<string>, n: Name,
                      copiedFile: bool, copiedDir: bool)
    requires copiedFile <==> s + [n] in S.files && !IsExcluded(n, patterns)
    requires copiedDir <==> s + [n] in S.dirs && !IsExcluded(n, patterns)
    requires t + [n] in F.dirs <==> copiedDir || t + [n] in O.dirs
    requires copiedFile ==> t + [n] in F.files && F.files[t + [n]] == S.files[s + [n]]
    requires !copiedFile ==> (t + [n] in F.files <==> t + [n] in O.files)
    requires !copiedFile && t + [n] in F.files && t + [n] in O.files ==> F.files[t + [n]] == O.files[t + [n]]
    ensures Overlaid(S, s, O, F, t, patterns, [n])
  {
    VisibleName(n, patterns);
  }

  /** After the copies, strictly inside a subtree the walk copied over. */
  lemma OverlaidInCopied(S: Disk, s: Path, O: Disk, D: Disk, F: Disk, t: Path, patterns: seq<string>, n: Name, rest: Path)
    requires !IsExcluded(n, patterns) && rest != [] && Overlays(S, s + [n], D, F, t + [n], patterns)
    requires (t + [n]) + rest in D.dirs <==> (t + [n]) + rest in O.dirs
    requires (t + [n]) + rest in D.files <==> (t + [n]) + rest in O.files
    requires (t + [n]) + rest in D.files && (t + [n]) + rest in O.files ==> D.files[(t + [n]) + rest] == O.files[(t + [n]) + rest]
    ensures Overlaid(S, s, O, F, t, patterns, [n] + rest)
  {
    assert Overlaid(S, s + [n], D, F, t + [n], patterns, rest);
    assert t + ([n] + rest) == (t + [n]) + rest;
    assert s + ([n] + rest) == (s + [n]) + rest;
    VisibleCons(n, rest, patterns);
  }

  /** After the copies, strictly inside a subtree the walk did not enter. */
  lemma OverlaidOutside(S: Disk, s: Path, O: Disk, F: Disk, t: Path, patterns: seq<string>, n: Name, rest: Path)
    requires WellFormed(S) && rest != [] && !(s + [n] in S.dirs && !IsExcluded(n, patterns))
    requires (t + [n]) + rest in F.dirs <==> (t + [n]) + rest in O.dirs
    requires (t + [n]) + rest in F.files <==> (t + [n]) + rest in O.files
    requires (t + [n]) + rest in F.files && (t + [n]) + rest in O.files ==> F.files[(t + [n]) + rest] == O.files[(t + [n]) + rest]
    ensures Overlaid(S, s, O, F, t, patterns, [n] + rest)
  {
    assert t + ([n] + rest) == (t + [n]) + rest;
    assert s + ([n] + rest) == (s + [n]) + rest;
    if IsExcluded(n, patterns) {
      VisibleCons(n, rest, patterns);
    } else {
      AbsentBelow(S, s + [n], rest);
    }
  }

  /** After the file loop and the subdirectory loop, the target at `rel` is the source
      copied over the state before the walk. */
  lemma CopyPhasesOverlayAt(S: Disk, s: Path, O: Disk, D: Disk, F: Disk, t: Path, patterns: seq<string>,
                            files: set<Name>, dirs: set<Name>, rel: Path)
    requires WellFormed(S) && rel != []
    requires D.dirs == O.dirs && CopiedSoFar(S, s, O, t, D, files)
    requires forall m :: m in files <==> s + [m] in S.files && !IsExcluded(m, patterns)
    requires OverlaidSoFar(S, s, D, t, patterns, F, dirs)
    requires forall m :: m in dirs <==> s + [m] in S.dirs && !IsExcluded(m, patterns)
    ensures Overlaid(S, s, O, F, t, patterns, rel)
  {
    var n, rest := rel[0], rel[1..];
    assert rel == [n] + rest;
    var p := (t + [n]) + rest;
    assert t + rel == p;
    assert |p| > |t| + 1 <==> rest != [];
    assert p[..|t|] == t && p[|t|] == n by {
      assert p[..|t| + 1] == t + [n];
    }
    if rest == [] {
      assert p == t + [n];
      OverlaidAtTop(S, s, O, F, t, patterns, n, n in files, n in dirs);
    } else {
      assert !ChildOf(t, p);
      OutsideAt(D.files, t, p);
      OutsideAt(O.files, t, p);
      if n in dirs {
        OverlaidInCopied(S, s, O, D, F, t, patterns, n, rest);
      } else {
        OverlaidOutside(S, s, O, F, t, patterns, n, rest);
      }
    }
  }

  lemma CopyPhasesOverlay(S: Disk, s: Path, O: Disk, D: Disk, F: Disk, t: Path, patterns: seq<string>,
                          files: set<Name>, dirs: set<Name>)
    requires WellFormed(S)
    requires D.dirs == O.dirs && CopiedSoFar(S, s, O, t, D, files)
    requires forall m :: m in files <==> s + [m] in S.files && !IsExcluded(m, patterns)
    requires OverlaidSoFar(S, s, D, t, patterns, F, dirs)
    requires forall m :: m in dirs <==> s + [m] in S.dirs && !IsExcluded(m, patterns)
    ensures Overlays(S, s, O, F, t, patterns)
  {
    forall rel | rel != [] ensures Overlaid(S, s, O, F, t, patterns, rel) {
      CopyPhasesOverlayAt(S, s, O, D, F, t, patterns, files, dirs, rel);
    }
  }

  /** Creating `t` first changes nothing strictly below it, so an overlay judged against
      the state after the creation is one judged against the state before. */
  lemma CreationKeepsOverlay(S: Disk, s: Path, O: Disk, C: Disk, T: Disk, t: Path, patterns: seq<string>)
    requires C.files == O.files && O.dirs <= C.dirs <= O.dirs + Ancestry(t)
    requires Overlays(S, s, C, T, t, patterns)
    ensures Overlays(S, s, O, T, t, patterns)
  {
    OverlayRebase(S, s, C, O, T, t, patterns);
  }

  /** Copied over a destination that holds nothing below it, the visible source tree is
      mirrored exactly. */
  lemma OverlayOnVacantMirrors(S: Disk, s: Path, O: Disk, T: Disk, t: Path, patterns: seq<string>)
    requires Overlays(S, s, O, T, t, patterns)
    requires forall p :: StrictlyBelow(t, p) ==> p !in O.files && p !in O.dirs
    ensures Mirrors(S, s, T, t, patterns)
  {
    forall rel | rel != [] ensures Agree(S, s, T, t, patterns, rel) {
      assert Overlaid(S, s, O, T, t, patterns, rel);
      assert StrictlyBelow(t, t + rel) by {
        assert (t + rel)[..|t|] == t;
      }
    }
  }

  /** The file loop of CopyDirectory: File.Copy(filePath, destFilePath, true) for every
      visible listed source file, with no comparison. */
  method CopyVisibleFiles(project: FileSystem, clones: FileSystem, s: Path, t: Path, patterns: seq<string>,
                          sourceFiles: seq<Name>)
    returns (r: Outcome<FsError>)
    requires project != clones && clones.Valid() && t in clones.dirs
    requires Distinct(sourceFiles) && forall n :: n in sourceFiles ==> s + [n] in project.files
    modifies clones
    ensures clones.Valid()
    ensures CopyLog(project.State(), s, t, patterns, old(clones.journal), clones.journal)
    ensures r.Pass? ==> CopiedSoFar(project.State(), s, old(clones.State()), t, clones.State(), Shown(sourceFiles, patterns))
    ensures clones.dirs == old(clones.dirs) && Outside(clones.files, t) == Outside(old(clones.files), t)
    ensures r.Fail? ==> CopyBlamed(r.error, s, t, clones.locked) && r.error != DirectoryNotFound(s)
    ensures r.Fail? ==> CopyGrounded(r.error, project.State(), s, clones.State(), t)
  {
    ghost var S, O, j0 := project.State(), clones.State(), clones.journal;
    ghost var done: set<Name> := {};
    for i := 0 to |sourceFiles|
      invariant clones.Valid()
      invariant done == Shown(sourceFiles[..i], patterns)
      invariant CopiedSoFar(S, s, O, t, clones.State(), done)
      invariant CopyLog(S, s, t, patterns, j0, clones.journal)
    {
      var name := sourceFiles[i];
      ShownSnoc(sourceFiles, i, patterns);
      if !IsExcluded(name, patterns) {
        ghost var D, J := clones.State(), clones.journal;
        ChildFacts(t, name);
        var c := clones.CopyFile(project, s + [name], t + [name]);
        if c.Fail? {
          return Fail(c.error);
        }
        CopiedTopFile(S, s, t, patterns, name);
        CopyLogAppend(S, s, t, patterns, j0, J, Copied(t + [name]));
        CopyStep(S, s, O, t, D, done, name, clones.State());
        done := done + {name};
      }
    }
    assert sourceFiles[..|sourceFiles|] == sourceFiles;
    r := Pass;
  }

  lemma CopyLogTrans(S: Disk, s: Path, t: Path, patterns: seq<string>, j0: seq<Op>, J: seq<Op>, J2: seq<Op>)
    requires CopyLog(S, s, t, patterns, j0, J) && CopyLog(S, s, t, patterns, J, J2)
    ensures CopyLog(S, s, t, patterns, j0, J2)
  {
    assert J2[..|j0|] == J2[..|J|][..|j0|];
  }

  /** One turn of the subdirectory loop of CopyDirectory for a visible source
      subdirectory `name`: the recursive CopyDirectory into `t + [name]`. */
  method CopySubdirectory(project: FileSystem, clones: FileSystem, s: Path, t: Path, patterns: seq<string>,
                          name: Name, ghost O: Disk, ghost done: set<Name>, ghost j0: seq<Op>)
    returns (r: Outcome<FsError>)
    requires project != clones && project.Valid() && clones.Valid()
    requires s in project.dirs && t in O.dirs
    requires s + [name] in project.dirs && !IsExcluded(name, patterns) && name !in done
    requires OverlaidSoFar(project.State(), s, O, t, patterns, clones.State(), done)
    requires CopyLog(project.State(), s, t, patterns, j0, clones.journal)
    modifies clones
    decreases DirsBelow(project.dirs, s), 0
    ensures clones.Valid()
    ensures CopyLog(project.State(), s, t, patterns, j0, clones.journal)
    ensures r.Pass? ==> OverlaidSoFar(project.State(), s, O, t, patterns, clones.State(), done + {name})
    ensures r.Fail? ==> DeepFrame(O, clones.State(), t) && DeepCopyError(r.error, t, clones.locked)
    ensures r.Fail? ==> CopyGrounded(r.error, project.State(), s, clones.State(), t)
  {
    ghost var S, D, J := project.State(), clones.State(), clones.journal;
    UnderChild(t, done, name, t);
    assert t in D.dirs;
    DirsBelowShrinks(project.dirs, s, name);
    r := CopyDirectory(project, clones, s + [name], t + [name], patterns);
    CopyLogLift(S, s, t, patterns, name, j0, J, clones.journal);
    if r.Fail? {
      CopyBlamedLifts(r.error, s, t, name, clones.locked);
      if r.error.IoFailure? {
        ObstructedLifts(S, s, clones.State(), t, name, r.error.path);
      }
      UntouchedStep(O, D, clones.State(), t, done, name);
      UntouchedIsDeepFrame(O, clones.State(), t, done + {name});
      return;
    }
    OverlayStep(S, s, O, t, patterns, D, clones.State(), done, name);
  }

  /** The subdirectory loop of CopyDirectory: copies every visible listed source
      subdirectory into the target subdirectory of the same name. */
  method CopySubdirectories(project: FileSystem, clones: FileSystem, s: Path, t: Path, patterns: seq<string>,
                            sourceDirs: seq<Name>)
    returns (r: Outcome<FsError>)
    requires project != clones && project.Valid() && clones.Valid()
    requires s in project.dirs && t in clones.dirs
    requires Distinct(sourceDirs) && forall n :: n in sourceDirs ==> s + [n] in project.dirs
    modifies clones
    decreases DirsBelow(project.dirs, s), 1
    ensures clones.Valid()
    ensures CopyLog(project.State(), s, t, patterns, old(clones.journal), clones.journal)
    ensures r.Pass? ==> OverlaidSoFar(project.State(), s, old(clones.State()), t, patterns, clones.State(), Shown(sourceDirs, patterns))
    ensures r.Fail? ==> DeepFrame(old(clones.State()), clones.State(), t) && DeepCopyError(r.error, t, clones.locked)
    ensures r.Fail? ==> CopyGrounded(r.error, project.State(), s, clones.State(), t)
  {
    ghost var S, O, j0 := project.State(), clones.State(), clones.journal;
    ghost var done: set<Name> := {};
    for i := 0 to |sourceDirs|
      invariant clones.Valid()
      invariant done == Shown(sourceDirs[..i], patterns)
      invariant OverlaidSoFar(S, s, O, t, patterns, clones.State(), done)
      invariant CopyLog(S, s, t, patterns, j0, clones.journal)
    {
      var name := sourceDirs[i];
      ShownSnoc(sourceDirs, i, patterns);
      if !IsExcluded(name, patterns) {
        r := CopySubdirectory(project, clones, s, t, patterns, name, O, done, j0);
        if r.Fail? {
          return;
        }
        done := done + {name};
      }
    }
    assert sourceDirs[..|sourceDirs|] == sourceDirs;
    r := Pass;
  }

  /** CopyDirectory(sourceDir, destinationDir): creates `t`, then copies the visible source
      files and, recursively, the visible source subdirectories over it. */
  method CopyDirectory(project: FileSystem, clones: FileSystem, s: Path, t: Path, patterns: seq<string>)
    returns (r: Outcome<FsError>)
    requires project != clones && project.Valid() && clones.Valid()
    modifies clones
    decreases DirsBelow(project.dirs, s), 2
    ensures clones.Valid()
    ensures FrameOutside(old(clones.State()), clones.State(), t)
    ensures CopyLog(project.State(), s, t, patterns, old(clones.journal), clones.journal)
    ensures r.Pass? ==> s in project.dirs && t in clones.dirs && Overlays(project.State(), s, old(clones.State()), clones.State(), t, patterns)
    ensures r.Fail? ==> CopyBlamed(r.error, s, t, clones.locked)
    ensures r.Fail? ==> CopyGrounded(r.error, project.State(), s, clones.State(), t)
    ensures r == Fail(DirectoryNotFound(s)) ==> s !in project.dirs
  {
    ghost var S, O, j0 := project.State(), clones.State(), clones.journal;
    var c := clones.CreateDirectory(t);
    assert Below(t, t) by {
      assert t[..|t|] == t;
    }
    if c.Fail? {
      WalkFrame(O, O, O, O, t);
      return Fail(c.error);
    }
    ghost var C := clones.State();
    if s !in project.dirs {
      WalkFrame(O, C, C, C, t);
      return Fail(DirectoryNotFound(s));
    }
    var sourceFiles := project.GetFiles(s);
    r := CopyVisibleFiles(project, clones, s, t, patterns, sourceFiles);
    ghost var D, J1 := clones.State(), clones.journal;
    if r.Fail? {
      WalkFrame(O, C, D, D, t);
      return;
    }
    var sourceDirs := project.GetDirectories(s);
    r := CopySubdirectories(project, clones, s, t, patterns, sourceDirs);
    CopyLogTrans(S, s, t, patterns, j0, J1, clones.journal);
    if r.Pass? {
      UntouchedIsDeepFrame(D, clones.State(), t, Shown(sourceDirs, patterns));
    }
    WalkFrame(O, C, D, clones.State(), t);
    if r.Pass? {
      assert forall m :: m in Shown(sourceFiles, patterns) <==> s + [m] in S.files && !IsExcluded(m, patterns);
      assert forall m :: m in Shown(sourceDirs, patterns) <==> s + [m] in S.dirs && !IsExcluded(m, patterns);
      CopyPhasesOverlay(S, s, C, D, clones.State(), t, patterns, Shown(sourceFiles, patterns), Shown(sourceDirs, patterns));
      CreationKeepsOverlay(S, s, O, C, clones.State(), t, patterns);
    }
  }
}
