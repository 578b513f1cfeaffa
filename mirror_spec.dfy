// What the walkers promise about the target tree, stated on disk snapshots: which
// entries a mirror holds, what a walk may leave untouched, and which copies and
// deletions a walk may perform.

module MirrorSpec {
  import opened SystemIO
  import opened Exclusion

  /** No component of the relative path `rel` is excluded: the walkers reach it. */
  predicate Visible(rel: Path, patterns: seq<string>) {
    forall i :: 0 <= i < |rel| ==> !IsExcluded(rel[i], patterns)
  }

  /** At relative path `rel`, the tree at `t` on `tgt` holds a file exactly when the tree at
      `s` on `src` holds a visible one, with the same length and last write time. */
  ghost predicate FilesAgree(src: Disk, s: Path, tgt: Disk, t: Path, patterns: seq<string>, rel: Path) {
    && (t + rel in tgt.files <==> s + rel in src.files && Visible(rel, patterns))
    && (t + rel in tgt.files ==> tgt.files[t + rel] == src.files[s + rel])
  }

  /** At relative path `rel`, the tree at `t` on `tgt` holds a directory exactly when the
      tree at `s` on `src` holds a visible one. */
  ghost predicate DirsAgree(src: Disk, s: Path, tgt: Disk, t: Path, patterns: seq<string>, rel: Path) {
    t + rel in tgt.dirs <==> s + rel in src.dirs && Visible(rel, patterns)
  }

  ghost predicate Agree(src: Disk, s: Path, tgt: Disk, t: Path, patterns: seq<string>, rel: Path) {
    FilesAgree(src, s, tgt, t, patterns, rel) && DirsAgree(src, s, tgt, t, patterns, rel)
  }

  /** The tree at `t` on `tgt` is the tree at `s` on `src` minus every entry whose name,
      or the name of a directory above it, is excluded. */
  ghost predicate Mirrors(src: Disk, s: Path, tgt: Disk, t: Path, patterns: seq<string>) {
    forall rel :: rel != [] ==> Agree(src, s, tgt, t, patterns, rel)
  }

  /** A synchronization from `s` into `t` has nothing to do: both directories exist and
      the target already mirrors the source. */
  ghost predicate InSync(src: Disk, s: Path, tgt: Disk, t: Path, patterns: seq<string>) {
    s in src.dirs && t in tgt.dirs && Mirrors(src, s, tgt, t, patterns)
  }

  /** Going from `a` to `b` changed no file outside the tree strictly below `t`, and no
      directory outside the tree at `t` except by creating ancestors of `t`. */
  ghost predicate FrameOutside(a: Disk, b: Disk, t: Path) {
    && (forall p :: !StrictlyBelow(t, p) ==> (p in b.files <==> p in a.files))
    && (forall p :: !StrictlyBelow(t, p) && p in a.files && p in b.files ==> b.files[p] == a.files[p])
    && (forall p :: !Below(t, p) ==> (p in a.dirs ==> p in b.dirs) && (p in b.dirs ==> p in a.dirs || Below(p, t)))
  }

  /** The target disk `tgt` stands in the way of a walk from `s` into `t` at `p`, at or
      below `t`: a directory occupies `p` where the source has a file to copy there, or a
      file occupies `p` or one of its ancestors where the walk has to create the directory
      `t` or one with a source counterpart. File.Copy and Directory.CreateDirectory throw an
      IOException in exactly these places. */
  ghost predicate Obstructed(src: Disk, s: Path, tgt: Disk, t: Path, p: Path) {
    Below(t, p) &&
    var rel := p[|t|..];
    || (p in tgt.dirs && s + rel in src.files)
    || ((p == t || s + rel in src.dirs) && exists k :: 0 <= k <= |p| && p[..k] in tgt.files)
  }

  /** An obstruction met by the walk of a source subdirectory `n` is one of the walk of
      its parent. */
  lemma ObstructedLifts(src: Disk, s: Path, tgt: Disk, t: Path, n: Name, p: Path)
    requires Obstructed(src, s + [n], tgt, t + [n], p) && s + [n] in src.dirs
    ensures Obstructed(src, s, tgt, t, p) && StrictlyBelow(t, p)
  {
    assert p[..|t|] == p[..|t| + 1][..|t|] == (t + [n])[..|t|] == t;
    assert p[|t|..] == [n] + p[|t| + 1..];
    assert s + p[|t|..] == (s + [n]) + p[|t| + 1..];
    if p == t + [n] {
      assert p[|t| + 1..] == [];
    }
  }

  /** A write that a synchronization from `s` into `t` may perform, judged against the
      target as it was before the synchronization (`pre`): a copy of a visible source file
      that the target lacks or holds with another length or write time; a deletion of a
      target file or directory that has no visible counterpart in the source. */
  ghost predicate Justified(src: Disk, s: Path, pre: Disk, t: Path, patterns: seq<string>, op: Op) {
    StrictlyBelow(t, op.path) &&
    var rel := op.path[|t|..];
    match op
    case Copied(p) =>
      s + rel in src.files && Visible(rel, patterns) && (p in pre.files ==> pre.files[p] != src.files[s + rel])
    case Deleted(p) =>
      p in pre.files && !(s + rel in src.files && Visible(rel, patterns))
    case DeletedDir(p) =>
      p in pre.dirs && !(s + rel in src.dirs && Visible(rel, patterns))
  }

  /** `after` extends `before` with writes that are all justified. */
  ghost predicate JournalJustified(src: Disk, s: Path, pre: Disk, t: Path, patterns: seq<string>,
                                   before: seq<Op>, after: seq<Op>) {
    && |before| <= |after| && after[..|before|] == before
    && forall i :: |before| <= i < |after| ==> Justified(src, s, pre, t, patterns, after[i])
  }

  /** A visible relative path is a visible name followed by a visible path. */
  lemma VisibleCons(n: Name, rest: Path, patterns: seq<string>)
    ensures Visible([n] + rest, patterns) <==> !IsExcluded(n, patterns) && Visible(rest, patterns)
  {
    var rel := [n] + rest;
    assert rel[0] == n;
    assert forall i :: 0 <= i < |rest| ==> rel[i + 1] == rest[i];
    if !IsExcluded(n, patterns) && Visible(rest, patterns) {
      forall i | 0 <= i < |rel| ensures !IsExcluded(rel[i], patterns) {
        if i > 0 {
          assert rel[i] == rest[i - 1];
        }
      }
    }
  }

  /** A mirror holds nothing whose path passes through an excluded name, whatever the
      target held before: excluded target entries do not survive a synchronization. */
  lemma ExcludedEntriesAbsent(src: Disk, s: Path, tgt: Disk, t: Path, patterns: seq<string>, rel: Path, i: nat)
    requires Mirrors(src, s, tgt, t, patterns)
    requires i < |rel| && IsExcluded(rel[i], patterns)
    ensures t + rel !in tgt.files && t + rel !in tgt.dirs
  {
    assert Agree(src, s, tgt, t, patterns, rel);
  }

  /** Nothing lies below a path that is not a directory of a well-formed disk. */
  lemma NothingBelowNonDir(d: Disk, q: Path, p: Path)
    requires WellFormed(d) && q !in d.dirs && StrictlyBelow(q, p)
    ensures p !in d.files && p !in d.dirs
  {
    if p in d.files || p in d.dirs {
      AncestorsAreDirs(d, p, |q|);
    }
  }

  /** When the target already mirrors the source, no write is justified: a second
      synchronization has nothing to copy and nothing to delete. */
  lemma NothingJustifiedWhenMirrored(src: Disk, s: Path, pre: Disk, t: Path, patterns: seq<string>, op: Op)
    requires Mirrors(src, s, pre, t, patterns)
    ensures !Justified(src, s, pre, t, patterns, op)
  {
    if StrictlyBelow(t, op.path) {
      var rel := op.path[|t|..];
      assert t + rel == op.path;
      assert Agree(src, s, pre, t, patterns, rel);
    }
  }

  /** A mirror is unique: two well-formed disks that both mirror the source at `t`, and
      differ at most inside `t`, are the same disk. */
  lemma MirrorIsUnique(src: Disk, s: Path, a: Disk, b: Disk, t: Path, patterns: seq<string>)
    requires WellFormed(a) && WellFormed(b) && t in a.dirs && t in b.dirs
    requires Mirrors(src, s, a, t, patterns) && Mirrors(src, s, b, t, patterns)
    requires FrameOutside(a, b, t)
    ensures a == b
  {
    forall p | StrictlyBelow(t, p)
      ensures (p in a.files <==> p in b.files) && (p in a.dirs <==> p in b.dirs)
      ensures p in a.files && p in b.files ==> a.files[p] == b.files[p]
    {
      var rel := p[|t|..];
      assert t + rel == p;
      assert Agree(src, s, a, t, patterns, rel) && Agree(src, s, b, t, patterns, rel);
    }
    forall p | p in b.dirs ensures p in a.dirs {
      if Below(t, p) && !StrictlyBelow(t, p) {
        assert p == t;
      } else if !Below(t, p) && Below(p, t) {
        AncestorsAreDirs(a, t, |p|);
      }
    }
    forall p | p in a.dirs ensures p in b.dirs {
      if Below(t, p) && !StrictlyBelow(t, p) {
        assert p == t;
      }
    }
    assert a.files == b.files;
    assert a.dirs == b.dirs;
  }

  /** Every justified write of a synchronization into `t` is a write below `t` under which
      no excluded name occurs: excluded source entries are never copied. */
  lemma JustifiedCopyIsVisible(src: Disk, s: Path, pre: Disk, t: Path, patterns: seq<string>, p: Path, i: nat)
    requires Justified(src, s, pre, t, patterns, Copied(p))
    requires |t| <= i < |p|
    ensures !IsExcluded(p[i], patterns)
  {
    assert p[|t|..][i - |t|] == p[i];
  }
}
