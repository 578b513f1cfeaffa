// The top-level project folders a clone operation covers: the fixed list of the four
// Unity project folders, and the selection RefreshSubfoldersList makes from the four
// include flags.

module Folders {
  import opened SystemIO

  /** _allFolders: every folder a clone can receive, in the order they are processed. */
  const AllFolders: seq<Name> := ["Assets", "Packages", "ProjectSettings", "UserSettings"]

  /** The four include flags of a window. */
  datatype Selection = Selection(assets: bool, packages: bool, projectSettings: bool, userSettings: bool)

  /** The include flag of `folder` is set. */
  predicate Enabled(sel: Selection, folder: Name) {
    || (folder == "Assets" && sel.assets)
    || (folder == "Packages" && sel.packages)
    || (folder == "ProjectSettings" && sel.projectSettings)
    || (folder == "UserSettings" && sel.userSettings)
  }

  /** The enabled elements of `folders`, in their order. */
  function Keep(folders: seq<Name>, sel: Selection): seq<Name> {
    if folders == [] then []
    else (if Enabled(sel, folders[0]) then [folders[0]] else []) + Keep(folders[1..], sel)
  }

  /** The folders a window synchronizes: the enabled ones of AllFolders. */
  function SelectedFolders(sel: Selection): seq<Name> {
    Keep(AllFolders, sel)
  }

  /** `a` is `b` with some elements left out and the rest in the same order. */
  predicate IsSubsequence<T(==)>(a: seq<T>, b: seq<T>)
    decreases |b|
  {
    a == [] || (b != [] && ((a[0] == b[0] && IsSubsequence(a[1..], b[1..])) || IsSubsequence(a, b[1..])))
  }

  /** Filtering keeps the order, keeps exactly the enabled elements, and repeats none. */
  lemma {:induction false} KeepSpec(folders: seq<Name>, sel: Selection)
    ensures IsSubsequence(Keep(folders, sel), folders)
    ensures forall f :: f in Keep(folders, sel) <==> f in folders && Enabled(sel, f)
    ensures Distinct(folders) ==> Distinct(Keep(folders, sel))
  {
    if folders != [] {
      var rest := Keep(folders[1..], sel);
      KeepSpec(folders[1..], sel);
      assert forall f :: f in folders <==> f == folders[0] || f in folders[1..];
      if Enabled(sel, folders[0]) {
        assert Keep(folders, sel) == [folders[0]] + rest;
        assert ([folders[0]] + rest)[1..] == rest;
        if Distinct(folders) {
          assert Distinct(folders[1..]) by {
            forall i, j | 0 <= i < j < |folders| - 1 ensures folders[1..][i] != folders[1..][j] {
              assert folders[1..][i] == folders[i + 1] && folders[1..][j] == folders[j + 1];
            }
          }
          assert folders[0] !in rest;
          forall i, j | 0 <= i < j < |rest| + 1 ensures ([folders[0]] + rest)[i] != ([folders[0]] + rest)[j] {
            if i > 0 {
              assert ([folders[0]] + rest)[i] == rest[i - 1];
            }
            assert ([folders[0]] + rest)[j] == rest[j - 1];
          }
        }
      } else {
        assert Keep(folders, sel) == rest;
        if rest != [] {
          assert IsSubsequence(rest, folders[1..]);
        }
        if Distinct(folders) {
          assert Distinct(folders[1..]) by {
            forall i, j | 0 <= i < j < |folders| - 1 ensures folders[1..][i] != folders[1..][j] {
              assert folders[1..][i] == folders[i + 1] && folders[1..][j] == folders[j + 1];
            }
          }
        }
      }
    }
  }

  /** RefreshSubfoldersList yields exactly the enabled folders, in the fixed order of
      AllFolders, each once. */
  lemma SelectedFoldersSpec(sel: Selection)
    ensures IsSubsequence(SelectedFolders(sel), AllFolders)
    ensures Distinct(SelectedFolders(sel))
    ensures forall f :: f in SelectedFolders(sel) <==> f in AllFolders && Enabled(sel, f)
  {
    KeepSpec(AllFolders, sel);
  }

  /** A folder is selected exactly when its own flag is set. */
  lemma SelectedByFlag(sel: Selection)
    ensures "Assets" in SelectedFolders(sel) <==> sel.assets
    ensures "Packages" in SelectedFolders(sel) <==> sel.packages
    ensures "ProjectSettings" in SelectedFolders(sel) <==> sel.projectSettings
    ensures "UserSettings" in SelectedFolders(sel) <==> sel.userSettings
  {
    SelectedFoldersSpec(sel);
  }

  /** With every flag set the selection is the whole list, as with forceAllFolders. */
  lemma AllFlagsSelectAll()
    ensures SelectedFolders(Selection(true, true, true, true)) == AllFolders
  {
    var sel := Selection(true, true, true, true);
    assert Keep(AllFolders[3..], sel) == ["UserSettings"];
    assert Keep(AllFolders[2..], sel) == ["ProjectSettings", "UserSettings"];
    assert Keep(AllFolders[1..], sel) == ["Packages", "ProjectSettings", "UserSettings"];
  }

  lemma AllFoldersDistinct()
    ensures Distinct(AllFolders)
  {
  }

  /** The selection, written out flag by flag in the order the flags are tested. */
  lemma SelectedFoldersUnfold(sel: Selection)
    ensures SelectedFolders(sel) ==
              (if sel.assets then ["Assets"] else []) + (if sel.packages then ["Packages"] else []) +
              (if sel.projectSettings then ["ProjectSettings"] else []) + (if sel.userSettings then ["UserSettings"] else [])
  {
    var a, p, ps, us := (if sel.assets then ["Assets"] else []), (if sel.packages then ["Packages"] else []),
                        (if sel.projectSettings then ["ProjectSettings"] else []), (if sel.userSettings then ["UserSettings"] else []);
    assert AllFolders[3..][1..] == [];
    assert Keep(AllFolders[3..], sel) == us;
    assert Keep(AllFolders[2..], sel) == ps + us;
    assert Keep(AllFolders[1..], sel) == p + (ps + us);
    assert Keep(AllFolders, sel) == a + (p + (ps + us));
  }
}
