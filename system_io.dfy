// The part of System.IO the synchronizers use: a disk as a map of files and a set of
// directories, and the Directory/File operations called by the three walkers.

module SystemIO {

  /** A path component, as returned by Path.GetFileName. */
  type Name = string

  /** An absolute path, component by component; [] is the root. */
  type Path = seq<Name>

  /** What the synchronizers read of a file: FileInfo.Length and FileInfo.LastWriteTimeUtc. */
  datatype Meta = Meta(length: int, mtimeUtc: int)

  /** A snapshot of a disk. */
  datatype Disk = Disk(files: map<Path, Meta>, dirs: set<Path>)

  /** The exceptions System.IO raises in this model. */
  datatype FsError =
    | AccessDenied(path: Path)        // UnauthorizedAccessException
    | FileNotFound(path: Path)        // FileNotFoundException
    | DirectoryNotFound(path: Path)   // DirectoryNotFoundException
    | IoFailure(path: Path)           // any other IOException

  /** Success, or the exception that was thrown. */
  datatype Outcome<+E> = Pass | Fail(error: E)

  /** The writes that change file contents or remove entries. */
  datatype Op = Copied(path: Path) | Deleted(path: Path) | DeletedDir(path: Path)

  /** `p` is `q` itself or lies below it. */
  predicate Below(q: Path, p: Path) {
    |q| <= |p| && p[..|q|] == q
  }

  /** `p` lies strictly below `q`. */
  predicate StrictlyBelow(q: Path, p: Path) {
    |q| < |p| && p[..|q|] == q
  }

  function Parent(p: Path): (r: Path)
    requires p != []
    ensures |r| == |p| - 1 && StrictlyBelow(r, p)
  {
    p[..|p| - 1]
  }

  /** Every prefix of `p`, from the root to `p` itself. */
  function Ancestry(p: Path): (r: set<Path>)
    ensures forall k :: 0 <= k <= |p| ==> p[..k] in r
    ensures forall q :: q in r ==> Below(q, p)
  {
    set k | 0 <= k <= |p| :: p[..k]
  }

  /** A disk as an operating system keeps it: a root, no path both a file and a
      directory, and the parent of every entry a directory. */
  ghost predicate WellFormed(d: Disk) {
    && [] in d.dirs
    && (forall p :: p in d.files ==> p != [] && p !in d.dirs)
    && (forall p {:trigger Parent(p)} :: p in d.files ==> Parent(p) in d.dirs)
    && (forall p {:trigger Parent(p)} :: p in d.dirs && p != [] ==> Parent(p) in d.dirs)
  }

  /** The disk without `p` and everything below it. */
  function RemoveTree(d: Disk, p: Path): Disk {
    Disk(map q | q in d.files && !Below(p, q) :: d.files[q], set q | q in d.dirs && !Below(p, q))
  }

  /** No sequence element repeats. */
  predicate Distinct<T(==)>(s: seq<T>) {
    forall i, j :: 0 <= i < j < |s| ==> s[i] != s[j]
  }

  /** The names of the entries of `keys` that lie directly in `d`. */
  function ChildNames(d: Path, keys: set<Path>): (r: set<Name>)
    ensures forall n :: n in r <==> d + [n] in keys
  {
    var r := set p | p in keys && |p| == |d| + 1 && p[..|d|] == d :: p[|d|];
    assert forall n :: d + [n] in keys ==> n in r by {
      forall n | d + [n] in keys ensures n in r {
        var p := d + [n];
        assert p[..|d|] == d && p[|d|] == n;
      }
    }
    assert forall n :: n in r ==> d + [n] in keys by {
      forall n | n in r ensures d + [n] in keys {
        var p :| p in keys && |p| == |d| + 1 && p[..|d|] == d && p[|d|] == n;
        assert p == d + [n];
      }
    }
    r
  }

  /** Every entry of a well-formed disk has all its ancestors as directories. */
  lemma {:induction false} AncestorsAreDirs(d: Disk, p: Path, k: nat)
    requires WellFormed(d)
    requires p in d.files || p in d.dirs
    requires k < |p| || (k == |p| && p in d.dirs)
    ensures p[..k] in d.dirs
    decreases |p| - k
  {
    if k < |p| {
      var q := Parent(p);
      assert q in d.dirs;
      if k < |q| {
        AncestorsAreDirs(d, q, k);
      }
      assert q[..k] == p[..k];
    } else {
      assert p[..k] == p;
    }
  }

  /** Turns a set of names into a listing with no repetition, in no particular order. */
  method Enumerate(names: set<Name>) returns (listing: seq<Name>)
    ensures Distinct(listing)
    ensures forall n :: n in listing <==> n in names
  {
    listing := [];
    var left := names;
    while left != {}
      invariant left <= names
      invariant forall n :: n in listing <==> n in names - left
      invariant Distinct(listing)
      decreases left
    {
      var n :| n in left;
      listing := listing + [n];
      left := left - {n};
    }
  }

  class FileSystem {
    var files: map<Path, Meta>
    var dirs: set<Path>
    /** Paths the process may not write: an existing entry there may not be overwritten or
        deleted (read-only or protected files), and a file may not be created there either
        (a protected location), so File.Copy to a locked path is denied whether or not a
        file exists at it. */
    const locked: set<Path>
    /** Every copy and deletion performed, in order. */
    ghost var journal: seq<Op>

    function State(): Disk
      reads this
    {
      Disk(files, dirs)
    }

    ghost predicate Valid()
      reads this
    {
      WellFormed(State())
    }

    constructor (files0: map<Path, Meta>, dirs0: set<Path>, locked0: set<Path>)
      requires WellFormed(Disk(files0, dirs0))
      ensures Valid() && files == files0 && dirs == dirs0 && locked == locked0 && journal == []
    {
      files, dirs, locked := files0, dirs0, locked0;
      journal := [];
    }

    /** Directory.CreateDirectory: creates `p` and every missing ancestor, and does
        nothing more when they all exist; fails when a file occupies one of them. */
    method CreateDirectory(p: Path) returns (r: Outcome<FsError>)
      requires Valid()
      modifies this
      ensures Valid() && files == old(files) && journal == old(journal)
      ensures r.Pass? <==> forall k :: 0 <= k <= |p| ==> p[..k] !in old(files)
      ensures r.Pass? ==> dirs == old(dirs) + Ancestry(p)
      ensures r.Fail? ==> dirs == old(dirs) && r.error == IoFailure(p)
    {
      if exists k :: 0 <= k <= |p| && p[..k] in files {
        return Fail(IoFailure(p));
      }
      forall q | q in Ancestry(p) && q != [] ensures Parent(q) in Ancestry(p) {
        assert Parent(q) == p[..|q| - 1];
      }
      dirs := dirs + Ancestry(p);
      r := Pass;
    }

    /** Directory.GetFiles on an existing directory, as base names. */
    method GetFiles(d: Path) returns (names: seq<Name>)
      requires d in dirs
      ensures Distinct(names)
      ensures forall n :: n in names <==> d + [n] in files
    {
      names := Enumerate(ChildNames(d, files.Keys));
    }

    /** Directory.GetDirectories on an existing directory, as base names. */
    method GetDirectories(d: Path) returns (names: seq<Name>)
      requires d in dirs
      ensures Distinct(names)
      ensures forall n :: n in names <==> d + [n] in dirs
    {
      names := Enumerate(ChildNames(d, dirs));
    }

    /** File.Copy(sp, tp, overwrite: true), reading `sp` on the disk `from`; the copy
        keeps the source's length and last write time. */
    method CopyFile(from: FileSystem, sp: Path, tp: Path) returns (r: Outcome<FsError>)
      requires Valid() && from != this
      modifies this
      ensures Valid() && dirs == old(dirs)
      ensures r.Pass? <==> sp in from.files && tp != [] && Parent(tp) in dirs && tp !in dirs && tp !in locked
      ensures r.Pass? ==> files == old(files)[tp := from.files[sp]] && journal == old(journal) + [Copied(tp)]
      ensures r.Fail? ==> files == old(files) && journal == old(journal)
      ensures r.Fail? && sp !in from.files ==> r.error == FileNotFound(sp)
      ensures r.Fail? && sp in from.files && (tp == [] || Parent(tp) !in dirs) ==> r.error == DirectoryNotFound(tp)
      ensures r.Fail? && sp in from.files && tp != [] && Parent(tp) in dirs ==>
                r.error == if tp in dirs then IoFailure(tp) else AccessDenied(tp)
    {
      if sp !in from.files {
        return Fail(FileNotFound(sp));
      } else if tp == [] || Parent(tp) !in dirs {
        return Fail(DirectoryNotFound(tp));
      } else if tp in dirs {
        return Fail(IoFailure(tp));
      } else if tp in locked {
        return Fail(AccessDenied(tp));
      }
      files := files[tp := from.files[sp]];
      journal := journal + [Copied(tp)];
      r := Pass;
    }

    /** File.Delete: removes the file at `p`; a missing file is not an error, and a directory
        at `p` is refused as access denied. */
    method DeleteFile(p: Path) returns (r: Outcome<FsError>)
      requires Valid()
      modifies this
      ensures Valid() && dirs == old(dirs)
      ensures r.Pass? <==> p !in dirs && (p in old(files) ==> p !in locked)
      ensures r.Pass? ==> files == old(files) - {p}
      ensures r.Pass? ==> journal == old(journal) + if p in old(files) then [Deleted(p)] else []
      ensures r.Fail? ==> files == old(files) && journal == old(journal)
      ensures r.Fail? ==> r.error == AccessDenied(p)
    {
      if p in dirs {
        return Fail(AccessDenied(p));
      } else if p !in files {
        return Pass;
      } else if p in locked {
        return Fail(AccessDenied(p));
      }
      files := files - {p};
      journal := journal + [Deleted(p)];
      r := Pass;
    }

    /** Directory.Delete(p, recursive: true): removes `p` and everything below it, or
        nothing at all when a locked entry lies below it. */
    method DeleteDirectory(p: Path) returns (r: Outcome<FsError>)
      requires Valid()
      modifies this
      ensures Valid()
      ensures r.Pass? <==> p != [] && p in old(dirs) && !HoldsLocked(p)
      ensures r.Pass? ==> State() == RemoveTree(old(State()), p)
      ensures r.Pass? ==> journal == old(journal) + [DeletedDir(p)]
      ensures r.Fail? ==> files == old(files) && dirs == old(dirs) && journal == old(journal)
      ensures r.Fail? && p == [] ==> r.error == IoFailure(p)
      ensures r.Fail? && p != [] ==> r.error == if p !in dirs then DirectoryNotFound(p) else AccessDenied(p)
    {
      if p == [] {
        return Fail(IoFailure(p));
      } else if p !in dirs {
        return Fail(DirectoryNotFound(p));
      } else if HoldsLocked(p) {
        return Fail(AccessDenied(p));
      }
      ghost var d0 := State();
      files := map q | q in files && !Below(p, q) :: files[q];
      dirs := set q | q in dirs && !Below(p, q);
      forall q | q in files ensures Parent(q) in dirs {
        assert |p| < |q| ==> Parent(q)[..|p|] == q[..|p|];
      }
      forall q | q in dirs && q != [] ensures Parent(q) in dirs {
        assert |p| < |q| ==> Parent(q)[..|p|] == q[..|p|];
      }
      journal := journal + [DeletedDir(p)];
      r := Pass;
    }

    /** Some existing entry at or below `p` is locked. */
    predicate HoldsLocked(p: Path)
      reads this
    {
      exists q :: q in locked && Below(p, q) && (q in files || q in dirs)
    }
  }
}
