// The exclusion test the three walkers share: a base name is skipped when it contains,
// as an ordinal substring, some pattern after String.Trim(); and the parsing of the
// comma-separated pattern setting of the two Scripts/ windows.

module Exclusion {

  /** Char.IsWhiteSpace: the characters String.Trim() removes. */
  predicate IsWhiteSpace(c: char) {
    || ('\U{9}' <= c <= '\U{D}')
    || c == ' ' || c == '\U{85}' || c == '\U{A0}' || c == '\U{1680}'
    || ('\U{2000}' <= c <= '\U{200A}')
    || c == '\U{2028}' || c == '\U{2029}' || c == '\U{202F}' || c == '\U{205F}' || c == '\U{3000}'
  }

  predicate AllWhiteSpace(s: string) {
    forall i :: 0 <= i < |s| ==> IsWhiteSpace(s[i])
  }

  /** String.TrimStart(): drops the white space at the start. */
  function TrimStart(s: string): string {
    if s != [] && IsWhiteSpace(s[0]) then TrimStart(s[1..]) else s
  }

  /** String.TrimEnd(): drops the white space at the end. */
  function TrimEnd(s: string): string {
    if s != [] && IsWhiteSpace(s[|s| - 1]) then TrimEnd(s[..|s| - 1]) else s
  }

  /** TrimStart keeps the longest suffix that does not start with white space. */
  lemma {:induction false} TrimStartSpec(s: string)
    ensures |TrimStart(s)| <= |s| && TrimStart(s) == s[|s| - |TrimStart(s)|..]
    ensures AllWhiteSpace(s[..|s| - |TrimStart(s)|])
    ensures TrimStart(s) != [] ==> !IsWhiteSpace(TrimStart(s)[0])
  {
    if s != [] && IsWhiteSpace(s[0]) {
      TrimStartSpec(s[1..]);
      var r := TrimStart(s[1..]);
      assert s[..|s| - |r|] == [s[0]] + s[1..][..|s| - 1 - |r|];
    }
  }

  /** TrimEnd keeps the longest prefix that does not end with white space. */
  lemma {:induction false} TrimEndSpec(s: string)
    ensures |TrimEnd(s)| <= |s| && TrimEnd(s) == s[..|TrimEnd(s)|]
    ensures AllWhiteSpace(s[|TrimEnd(s)|..])
    ensures TrimEnd(s) != [] ==> !IsWhiteSpace(TrimEnd(s)[|TrimEnd(s)| - 1])
  {
    if s != [] && IsWhiteSpace(s[|s| - 1]) {
      TrimEndSpec(s[..|s| - 1]);
      var r := TrimEnd(s[..|s| - 1]);
      assert s[|r|..] == s[..|s| - 1][|r|..] + [s[|s| - 1]];
    }
  }

  /** String.Trim(). */
  function Trim(s: string): string {
    TrimEnd(TrimStart(s))
  }

  /** String.Contains(sub) with ordinal comparison: `sub` occurs in `s` at some offset. */
  predicate Contains(s: string, sub: string) {
    exists i :: 0 <= i <= |s| - |sub| && OccursAt(s, sub, i)
  }

  /** `sub` occurs in `s` starting at offset `i`. */
  predicate OccursAt(s: string, sub: string, i: int) {
    0 <= i <= |s| - |sub| && s[i..i + |sub|] == sub
  }

  /** patterns.Any(pattern => name.Contains(pattern.Trim())), pattern by pattern. */
  predicate IsExcluded(name: string, patterns: seq<string>) {
    patterns != [] && (Contains(name, Trim(patterns[0])) || IsExcluded(name, patterns[1..]))
  }

  /** A name is excluded exactly when some pattern of the list, trimmed, occurs in it. */
  lemma {:induction false} ExcludedIffSomePattern(name: string, patterns: seq<string>)
    ensures IsExcluded(name, patterns) <==> exists k :: 0 <= k < |patterns| && Contains(name, Trim(patterns[k]))
  {
    if patterns != [] {
      ExcludedIffSomePattern(name, patterns[1..]);
      var tail := patterns[1..];
      assert forall k :: 0 <= k < |tail| ==> tail[k] == patterns[k + 1];
      if exists k :: 0 <= k < |patterns| && Contains(name, Trim(patterns[k])) {
        var k :| 0 <= k < |patterns| && Contains(name, Trim(patterns[k]));
        if k > 0 {
          assert Contains(name, Trim(tail[k - 1]));
        }
      }
    }
  }

  /** Trim removes exactly the white space around the text: what remains sits between
      two runs of white space and neither starts nor ends with white space. */
  lemma TrimIsCore(s: string)
    ensures exists i, j :: 0 <= i <= j <= |s| && Trim(s) == s[i..j]
                           && AllWhiteSpace(s[..i]) && AllWhiteSpace(s[j..])
    ensures Trim(s) != [] ==> !IsWhiteSpace(Trim(s)[0]) && !IsWhiteSpace(Trim(s)[|Trim(s)| - 1])
  {
    var a := TrimStart(s);
    var b := TrimEnd(a);
    TrimStartSpec(s);
    TrimEndSpec(a);
    var i := |s| - |a|;
    var j := i + |b|;
    assert b == s[i..j];
    assert s[j..] == a[|b|..];
  }

  /** A pattern made only of white space trims to "". */
  lemma {:induction false} BlankTrimsToEmpty(s: string)
    requires AllWhiteSpace(s)
    ensures Trim(s) == []
  {
    if s != [] {
      assert IsWhiteSpace(s[0]);
      BlankTrimsToEmpty(s[1..]);
    }
  }

  /** A pattern that trims to "" matches every name, so one blank entry in the list
      excludes every file and every directory. */
  lemma BlankPatternExcludesAll(name: string, patterns: seq<string>, k: nat)
    requires k < |patterns| && AllWhiteSpace(patterns[k])
    ensures IsExcluded(name, patterns)
  {
    BlankTrimsToEmpty(patterns[k]);
    assert OccursAt(name, Trim(patterns[k]), 0);
    ExcludedIffSomePattern(name, patterns);
  }

  /** A name is excluded exactly when some pattern, trimmed, occurs in it; in particular
      a name is excluded by a pattern whose trimmed text is the name or part of it. */
  lemma ExcludedByOccurrence(name: string, patterns: seq<string>, k: nat, i: nat)
    requires k < |patterns| && i + |Trim(patterns[k])| <= |name|
    requires name[i..i + |Trim(patterns[k])|] == Trim(patterns[k])
    ensures IsExcluded(name, patterns)
  {
    assert OccursAt(name, Trim(patterns[k]), i);
    ExcludedIffSomePattern(name, patterns);
  }

  lemma GitTrimsToItself()
    ensures Trim(".git") == ".git"
  {
    assert TrimStart(".git") == ".git";
    assert TrimEnd(".git") == ".git";
  }

  /** The default pattern ".git" skips every name that contains it: ".git", ".github"
      and ".gitignore" alike. */
  lemma GitPatternExcludesGitNames(name: string, i: nat)
    requires i + 4 <= |name| && name[i..i + 4] == ".git"
    ensures IsExcluded(name, [".git"])
  {
    GitTrimsToItself();
    var git := [".git"];
    assert git[0] == ".git";
    assert OccursAt(name, Trim(git[0]), i);
  }

  /** Surrounding spaces in a pattern do not matter. */
  lemma PaddedPatternExample()
    ensures IsExcluded(".gitignore", [" .git "])
  {
    assert TrimStart(" .git ") == ".git " by {
      assert " .git "[1..] == ".git ";
    }
    assert TrimEnd(".git ") == ".git" by {
      assert ".git "[..4] == ".git";
    }
    var padded := [" .git "];
    assert padded[0] == " .git ";
    assert ".gitignore"[0..4] == ".git";
    assert OccursAt(".gitignore", Trim(padded[0]), 0);
  }

  /** ".git" does not skip "Assets". */
  lemma GitPatternKeepsAssets()
    ensures !IsExcluded("Assets", [".git"])
  {
    GitTrimsToItself();
    var git := [".git"];
    assert git[0] == ".git";
    forall i ensures !OccursAt("Assets", ".git", i) {
      if 0 <= i <= 2 {
        assert "Assets"[i..i + 4][0] == "Assets"[i] != '.';
      }
    }
    assert !Contains("Assets", Trim(git[0]));
    assert git[1..] == [];
  }

  // ---- String.Split(',', StringSplitOptions.RemoveEmptyEntries) ----

  /** String.Split(','): the pieces between commas, empty pieces included. */
  function SplitOnComma(s: string): (r: seq<string>)
    ensures |r| >= 1
  {
    if s == [] then [[]]
    else
      var rest := SplitOnComma(s[1..]);
      if s[0] == ',' then [[]] + rest
      else [[s[0]] + rest[0]] + rest[1..]
  }

  /** The pieces joined back with commas. */
  function JoinWithComma(pieces: seq<string>): string
    requires |pieces| >= 1
  {
    if |pieces| == 1 then pieces[0]
    else pieces[0] + [','] + JoinWithComma(pieces[1..])
  }

  /** StringSplitOptions.RemoveEmptyEntries: drops the "" pieces and keeps all others,
      white-space-only ones included. */
  function RemoveEmptyEntries(pieces: seq<string>): seq<string> {
    if pieces == [] then []
    else if pieces[0] == [] then RemoveEmptyEntries(pieces[1..])
    else [pieces[0]] + RemoveEmptyEntries(pieces[1..])
  }

  /** The pattern list of the Scripts/ windows: _exclusionPatterns.Split(new[] { ',' },
      StringSplitOptions.RemoveEmptyEntries). */
  function SplitPatterns(setting: string): seq<string> {
    RemoveEmptyEntries(SplitOnComma(setting))
  }

  /** Splitting at the commas and joining back with commas gives the setting again, and
      no piece holds a comma. */
  lemma {:induction false} SplitJoinRoundTrip(s: string)
    ensures JoinWithComma(SplitOnComma(s)) == s
    ensures forall k :: 0 <= k < |SplitOnComma(s)| ==> ',' !in SplitOnComma(s)[k]
  {
    if s != [] {
      SplitJoinRoundTrip(s[1..]);
      var rest := SplitOnComma(s[1..]);
      if s[0] == ',' {
        assert SplitOnComma(s)[1..] == rest;
        assert s == [] + [','] + s[1..];
      } else {
        var r := SplitOnComma(s);
        assert r[1..] == rest[1..];
        if |rest| == 1 {
          assert s == [s[0]] + rest[0];
        } else {
          assert rest[1..] == rest[1..];
          assert JoinWithComma(rest) == rest[0] + [','] + JoinWithComma(rest[1..]);
          assert s == ([s[0]] + rest[0]) + [','] + JoinWithComma(rest[1..]);
        }
      }
    }
  }

  /** RemoveEmptyEntries keeps exactly the non-empty pieces. */
  lemma {:induction false} RemoveEmptyEntriesKeeps(pieces: seq<string>)
    ensures forall x :: x in RemoveEmptyEntries(pieces) <==> x in pieces && x != []
  {
    if pieces != [] {
      RemoveEmptyEntriesKeeps(pieces[1..]);
      assert pieces == [pieces[0]] + pieces[1..];
    }
  }

  /** Every parsed pattern is a non-empty, comma-free piece of the setting between two
      commas, and every such piece is a parsed pattern. */
  lemma SplitPatternsSpec(setting: string)
    ensures forall x :: x in SplitPatterns(setting) <==> x in SplitOnComma(setting) && x != []
    ensures forall x :: x in SplitPatterns(setting) ==> x != [] && ',' !in x
  {
    RemoveEmptyEntriesKeeps(SplitOnComma(setting));
    SplitJoinRoundTrip(setting);
  }

  lemma SplitCons(c: char, s: string)
    requires c != ','
    ensures SplitOnComma([c] + s) == [[c] + SplitOnComma(s)[0]] + SplitOnComma(s)[1..]
  {
    assert ([c] + s)[1..] == s;
  }

  lemma SplitComma(s: string)
    ensures SplitOnComma([','] + s) == [[]] + SplitOnComma(s)
  {
    assert ([','] + s)[1..] == s;
  }

  /** A comma-free word followed by ", " splits into the word and a lone blank. */
  lemma {:induction false} SplitTrailingBlank(w: string)
    requires ',' !in w
    ensures SplitOnComma(w + ", ") == [w, " "]
  {
    if w == [] {
      SplitCons(' ', []);
      assert [' '] + [] == " ";
      SplitComma(" ");
      assert [','] + " " == ", ";
      assert w + ", " == ", ";
    } else {
      SplitTrailingBlank(w[1..]);
      assert w + ", " == [w[0]] + (w[1..] + ", ");
      SplitCons(w[0], w[1..] + ", ");
      assert [w[0]] + w[1..] == w;
    }
  }

  /** A trailing ", " survives the split as " ", which trims to "" and so excludes every
      name: the setting ".git, " skips the whole tree. */
  lemma TrailingBlankExcludesAll(name: string)
    ensures SplitPatterns(".git, ") == [".git", " "]
    ensures IsExcluded(name, SplitPatterns(".git, "))
  {
    SplitTrailingBlank(".git");
    assert ".git" + ", " == ".git, ";
    assert RemoveEmptyEntries([" "]) == [" "];
    assert RemoveEmptyEntries([".git", " "]) == [".git", " "] by {
      assert [".git", " "][1..] == [" "];
    }
    BlankPatternExcludesAll(name, [".git", " "], 1);
  }
}
