/** The checks the hook installer runs over a hook directory: the file-name
    convention `my_<name>_v<number>`, the sorting of the directory's files
    into invalid names, missing descriptions, invalid descriptions and valid
    scripts, the error reported first, and the table of versions built from
    the valid scripts. The directory listing is a sequence of file names and
    reading a file is a function. */
module GitSetupHook {
  import opened Base
  import opened Text
  import opened Paths

  // ---------------------------------------------------------------------
  // is_valid_hook_filename
  // ---------------------------------------------------------------------

  /** `[a-zA-Z0-9_-]`. */
  predicate IsNameChar(c: char) {
    ('a' <= c <= 'z') || ('A' <= c <= 'Z') || IsDigit(c) || c == '_' || c == '-'
  }

  predicate AllNameChars(s: string) {
    forall i :: 0 <= i < |s| ==> IsNameChar(s[i])
  }

  /** `g` is `my_` + a non-empty run of name characters + `_v` + a
      non-empty run of digits, with the `_v` at index `k`. */
  predicate SplitAt(g: string, k: int) {
    && 4 <= k && k + 2 < |g|
    && g[..3] == "my_"
    && AllNameChars(g[3..k])
    && g[k..k + 2] == "_v"
    && AllDigits(g[k + 2..])
  }

  /** The whole of `g` matches `my_[a-zA-Z0-9_-]+_v\d+`. */
  ghost predicate FullMatch(g: string) {
    exists k :: SplitAt(g, k)
  }

  /** The length of the longest run of digits that ends `s`. */
  function TrailingDigits(s: string): (n: nat)
    ensures n <= |s|
    ensures forall i :: |s| - n <= i < |s| ==> IsDigit(s[i])
    ensures n == |s| || !IsDigit(s[|s| - n - 1])
  {
    if |s| > 0 && IsDigit(s[|s| - 1]) then 1 + TrailingDigits(s[..|s| - 1]) else 0
  }

  /** The matcher without backtracking: as `v` is not a digit, the digits of
      a match are the whole digit run that ends the name, and the `_v` sits
      right before it. */
  function MatchCore(g: string): bool {
    var n := TrailingDigits(g);
    var k := |g| - n - 2;
    n >= 1 && k >= 4 && g[..3] == "my_" && g[k..k + 2] == "_v" && AllNameChars(g[3..k])
  }

  /** The matcher accepts exactly the names of the pattern. */
  lemma MatchCoreIff(g: string)
    ensures MatchCore(g) <==> FullMatch(g)
  {
    var n := TrailingDigits(g);
    var k := |g| - n - 2;
    if MatchCore(g) {
      assert SplitAt(g, k);
    }
    if FullMatch(g) {
      var j :| SplitAt(g, j);
      assert g[j + 1] == g[j..j + 2][1] == 'v';
      assert forall i :: j + 2 <= i < |g| ==> IsDigit(g[i]) by {
        assert forall i :: j + 2 <= i < |g| ==> g[i] == g[j + 2..][i - j - 2];
      }
      assert n == |g| - j - 2;
    }
  }

  /** `re.match(r"^my_[a-zA-Z0-9_-]+_v\d+$", f)`: as Python's `$` also
      matches before a final newline, one trailing newline is admitted. */
  function IsValidHookFilename(f: string): (b: bool)
    ensures b <==> FullMatch(f) || (|f| > 0 && f[|f| - 1] == '\n' && FullMatch(f[..|f| - 1]))
  {
    MatchCoreIff(f);
    if |f| > 0 then MatchCoreIff(f[..|f| - 1]); MatchCore(f) || (f[|f| - 1] == '\n' && MatchCore(f[..|f| - 1]))
    else MatchCore(f)
  }

  /** The convention's own example passes; a name without digits after the
      `_v`, or without the `my_` prefix, does not. */
  lemma HookFilenameExamples()
    ensures IsValidHookFilename("my_commit-msg_v10")
    ensures !IsValidHookFilename("my_commit-msg_v")
    ensures !IsValidHookFilename("commit_v1")
  {
    assert SplitAt("my_commit-msg_v10", 13);
    var f := "my_commit-msg_v";
    assert f[|f| - 1] == 'v' && TrailingDigits(f) == 0;
    var h := "commit_v1";
    assert h[..3][0] == 'c';
    assert h[|h| - 1] == '1' && !MatchCore(h);
  }

  // ---------------------------------------------------------------------
  // check_my_hook_script_files_in_my_hook_dir
  // ---------------------------------------------------------------------

  /** `n` copies of `c`. */
  function Repeat(c: char, n: nat): (s: string)
    ensures |s| == n && forall i :: 0 <= i < n ==> s[i] == c
  {
    if n == 0 then [] else [c] + Repeat(c, n - 1)
  }

  /** The delimiter line: 123 equal signs. */
  const Delimiter: string := Repeat('=', 123)

  /** The description's content, stripped of surrounding white space,
      starts and ends with the delimiter line. */
  predicate DescriptionValid(content: string) {
    var c := Strip(content);
    StartsWith(c, Delimiter) && EndsWith(c, Delimiter)
  }

  function DescriptionName(f: string): string {
    f + "_description"
  }

  /** Where the loop puts a file of the listing `all`. */
  datatype Kind = Skipped | InvalidName | MissingDescription | InvalidDescription | Valid

  /** The loop body for file `f`: description files are skipped; the
      others are checked for the name, then for the description's presence,
      then for its content. A file is valid exactly when all three pass. */
  function Classify(all: seq<string>, read: string -> string, f: string): (k: Kind)
    ensures k == Skipped <==> EndsWith(f, "_description")
    ensures k == Valid <==>
              && !EndsWith(f, "_description")
              && IsValidHookFilename(f)
              && DescriptionName(f) in all
              && DescriptionValid(read(DescriptionName(f)))
  {
    if EndsWith(f, "_description") then Skipped
    else if !IsValidHookFilename(f) then InvalidName
    else if DescriptionName(f) !in all then MissingDescription
    else if !DescriptionValid(read(DescriptionName(f))) then InvalidDescription
    else Valid
  }

  /** The files of `fs` of kind `k`, in listing order. */
  function OfKind(all: seq<string>, read: string -> string, fs: seq<string>, k: Kind): (r: seq<string>)
    ensures |r| <= |fs|
    ensures forall f :: f in r <==> f in fs && Classify(all, read, f) == k
  {
    if |fs| == 0 then []
    else
      var rest := OfKind(all, read, fs[..|fs| - 1], k);
      assert forall f :: f in fs <==> f in fs[..|fs| - 1] || f == fs[|fs| - 1];
      if Classify(all, read, fs[|fs| - 1]) == k then rest + [fs[|fs| - 1]] else rest
  }

  /** The description names of `fs`, in order. */
  function DescriptionNames(fs: seq<string>): (r: seq<string>)
    ensures |r| == |fs|
    ensures forall i :: 0 <= i < |fs| ==> r[i] == DescriptionName(fs[i])
  {
    if |fs| == 0 then [] else DescriptionNames(fs[..|fs| - 1]) + [DescriptionName(fs[|fs| - 1])]
  }

  lemma OfKindSnoc(all: seq<string>, read: string -> string, fs: seq<string>, f: string, k: Kind)
    ensures OfKind(all, read, fs + [f], k) ==
              if Classify(all, read, f) == k then OfKind(all, read, fs, k) + [f] else OfKind(all, read, fs, k)
  {
    assert (fs + [f])[..|fs|] == fs;
  }

  lemma DescriptionNamesSnoc(fs: seq<string>, f: string)
    ensures DescriptionNames(fs + [f]) == DescriptionNames(fs) + [DescriptionName(f)]
  {
    assert (fs + [f])[..|fs|] == fs;
  }

  /** The four lists of the check; `invalidDescriptions` holds the names of
      the description files, the others the script names. */
  datatype Buckets = Buckets(
    invalidFiles: seq<string>,
    missingDescriptions: seq<string>,
    invalidDescriptions: seq<string>,
    validFiles: seq<string>)

  /** The loop over the listing `all`. Each list holds the files of its
      kind in listing order. */
  method SortHookFiles(all: seq<string>, read: string -> string) returns (b: Buckets)
    ensures b.invalidFiles == OfKind(all, read, all, InvalidName)
    ensures b.missingDescriptions == OfKind(all, read, all, MissingDescription)
    ensures b.invalidDescriptions == DescriptionNames(OfKind(all, read, all, InvalidDescription))
    ensures b.validFiles == OfKind(all, read, all, Valid)
  {
    b := Buckets([], [], [], []);
    var i := 0;
    while i < |all|
      invariant 0 <= i <= |all|
      invariant b.invalidFiles == OfKind(all, read, all[..i], InvalidName)
      invariant b.missingDescriptions == OfKind(all, read, all[..i], MissingDescription)
      invariant b.invalidDescriptions == DescriptionNames(OfKind(all, read, all[..i], InvalidDescription))
      invariant b.validFiles == OfKind(all, read, all[..i], Valid)
    {
      var f := all[i];
      assert all[..i + 1] == all[..i] + [f];
      OfKindSnoc(all, read, all[..i], f, InvalidName);
      OfKindSnoc(all, read, all[..i], f, MissingDescription);
      OfKindSnoc(all, read, all[..i], f, InvalidDescription);
      OfKindSnoc(all, read, all[..i], f, Valid);
      DescriptionNamesSnoc(OfKind(all, read, all[..i], InvalidDescription), f);
      if EndsWith(f, "_description") {
      } else if !IsValidHookFilename(f) {
        b := b.(invalidFiles := b.invalidFiles + [f]);
      } else if DescriptionName(f) !in all {
        b := b.(missingDescriptions := b.missingDescriptions + [f]);
      } else if !DescriptionValid(read(DescriptionName(f))) {
        b := b.(invalidDescriptions := b.invalidDescriptions + [DescriptionName(f)]);
      } else {
        b := b.(validFiles := b.validFiles + [f]);
      }
      i := i + 1;
    }
    assert all[..i] == all;
  }

  /** Every file of the listing that is not a description lands in exactly
      one list, and description files land in none of the script lists. */
  lemma BucketsPartition(all: seq<string>, read: string -> string, f: string)
    requires f in all
    ensures var inv := OfKind(all, read, all, InvalidName);
            var miss := OfKind(all, read, all, MissingDescription);
            var bad := DescriptionNames(OfKind(all, read, all, InvalidDescription));
            var ok := OfKind(all, read, all, Valid);
            && (EndsWith(f, "_description") ==> f !in inv && f !in miss && f !in ok)
            && (!EndsWith(f, "_description") ==>
                  (if f in inv then 1 else 0) + (if f in miss then 1 else 0)
                  + (if DescriptionName(f) in bad then 1 else 0) + (if f in ok then 1 else 0) == 1)
  {
    var badFiles := OfKind(all, read, all, InvalidDescription);
    var bad := DescriptionNames(badFiles);
    assert DescriptionName(f) in bad <==> f in badFiles by {
      if DescriptionName(f) in bad {
        var i :| 0 <= i < |bad| && bad[i] == DescriptionName(f);
        assert badFiles[i] + "_description" == f + "_description";
        assert badFiles[i] == (badFiles[i] + "_description")[..|badFiles[i]|];
        assert badFiles[i] == f;
      }
      if f in badFiles {
        var i :| 0 <= i < |badFiles| && badFiles[i] == f;
        assert bad[i] == DescriptionName(f);
      }
    }
  }

  /** The errors the check exits with, each listing the offending names. */
  datatype HookError =
    | InvalidNames(names: seq<string>)
    | MissingDescriptions(names: seq<string>)
    | InvalidDescriptions(names: seq<string>)

  /** `check_my_hook_script_files_in_my_hook_dir(my_hook_dir)` on the
      listing `all`: the first non-empty list among invalid names, missing
      descriptions and invalid descriptions is the error; otherwise the
      valid files come back. A normal return means that every file that is
      not a description is valid, and the files come back in listing
      order. */
  method CheckHookFiles(all: seq<string>, read: string -> string) returns (r: Result<seq<string>, HookError>)
    ensures r.Err? && r.error.InvalidNames? <==> exists f :: f in all && Classify(all, read, f) == InvalidName
    ensures r.Err? && r.error.InvalidNames? ==> r.error.names == OfKind(all, read, all, InvalidName)
    ensures r.Err? && r.error.MissingDescriptions? ==>
              && (forall f :: f in all ==> Classify(all, read, f) != InvalidName)
              && r.error.names == OfKind(all, read, all, MissingDescription) != []
    ensures r.Err? && r.error.InvalidDescriptions? ==>
              && (forall f :: f in all ==> Classify(all, read, f) in {Skipped, InvalidDescription, Valid})
              && r.error.names == DescriptionNames(OfKind(all, read, all, InvalidDescription)) != []
    ensures r.Ok? ==>
              && (forall f :: f in all && !EndsWith(f, "_description") ==> Classify(all, read, f) == Valid)
              && r.value == OfKind(all, read, all, Valid)
  {
    var b := SortHookFiles(all, read);
    if b.invalidFiles != [] {
      r := Err(InvalidNames(b.invalidFiles));
    } else if b.missingDescriptions != [] {
      r := Err(MissingDescriptions(b.missingDescriptions));
    } else if b.invalidDescriptions != [] {
      r := Err(InvalidDescriptions(b.invalidDescriptions));
    } else {
      assert |OfKind(all, read, all, InvalidDescription)| == 0;
      r := Ok(b.validFiles);
    }
    if r.Err? && !r.error.InvalidNames? {
      assert b.invalidFiles == [];
    }
    if b.invalidFiles != [] {
      assert b.invalidFiles[0] in b.invalidFiles;
    }
  }

  // ---------------------------------------------------------------------
  // get_valid_versions_data
  // ---------------------------------------------------------------------

  /** `g` ends with `_v` followed by a non-empty run of digits, the `_v`
      at index `k`. */
  predicate VersionAt(g: string, k: int) {
    0 <= k && k + 2 < |g| && g[k..k + 2] == "_v" && AllDigits(g[k + 2..])
  }

  /** `f` without one final newline, where Python's `$` also matches. */
  function BeforeFinalNewline(f: string): (g: string)
    ensures g == f || (|f| > 0 && f[|f| - 1] == '\n' && g == f[..|f| - 1])
  {
    if |f| > 0 && f[|f| - 1] == '\n' then f[..|f| - 1] else f
  }

  /** A match of `_v\d+$` can only sit right before the digit run that
      ends `g`. */
  lemma VersionAtIff(g: string)
    ensures var n := TrailingDigits(g);
            var k := |g| - n - 2;
            (exists j :: VersionAt(g, j)) <==> n >= 1 && k >= 0 && g[k..k + 2] == "_v"
  {
    var n := TrailingDigits(g);
    var k := |g| - n - 2;
    if n >= 1 && k >= 0 && g[k..k + 2] == "_v" {
      assert VersionAt(g, k);
    }
    if exists j :: VersionAt(g, j) {
      var j :| VersionAt(g, j);
      assert g[j + 1] == g[j..j + 2][1] == 'v';
      assert forall i :: j + 2 <= i < |g| ==> g[i] == g[j + 2..][i - j - 2];
      assert j == k;
    }
  }

  /** `re.search(r"_v(\d+)$", f).group(1)`, None when there is no match.
      The digits are kept as text. */
  function VersionOf(f: string): (v: Option<string>)
    ensures v.Some? <==> exists k :: VersionAt(BeforeFinalNewline(f), k)
    ensures v.Some? ==>
              var g := BeforeFinalNewline(f);
              |v.value| + 2 <= |g| && VersionAt(g, |g| - |v.value| - 2) && v.value == g[|g| - |v.value|..]
  {
    var g := BeforeFinalNewline(f);
    var n := TrailingDigits(g);
    var k := |g| - n - 2;
    VersionAtIff(g);
    if n >= 1 && k >= 0 && g[k..k + 2] == "_v" then Some(g[k + 2..]) else None
  }

  /** A valid hook name always has a version: the digits after its `_v`. */
  lemma ValidNameHasVersion(f: string)
    requires IsValidHookFilename(f)
    ensures VersionOf(f).Some?
  {
    var g := BeforeFinalNewline(f);
    assert FullMatch(g);
    var k :| SplitAt(g, k);
    assert VersionAt(g, k);
  }

  /** Version numbers are compared as text: `v01` and `v1` differ. */
  lemma VersionsAreText(a: string, b: string)
    requires a == "my_x_v01" && b == "my_x_v1"
    ensures VersionOf(a) == Some("01")
    ensures VersionOf(b) == Some("1")
  {
    assert BeforeFinalNewline(a) == a;
    assert a[..7][..6] == "my_x_v" && TrailingDigits(a[..7][..6]) == 0;
    assert TrailingDigits(a) == 2;
    assert BeforeFinalNewline(b) == b;
    assert b[..6] == "my_x_v" && TrailingDigits(b) == 1;
  }

  /** One entry of the versions dict. */
  datatype VersionData = VersionData(versionNumber: string, scriptPath: string, descriptionPath: string)

  /** A dict in insertion order. */
  type Dict = seq<(string, VersionData)>

  predicate KeysDistinct(d: Dict) {
    forall i, j :: 0 <= i < j < |d| ==> d[i].0 != d[j].0
  }

  /** `d.get(key)`. */
  function Get(d: Dict, key: string): Option<VersionData> {
    if |d| == 0 then None
    else if d[0].0 == key then Some(d[0].1)
    else Get(d[1..], key)
  }

  /** `d[key] = v`. */
  function Put(d: Dict, key: string, v: VersionData): Dict {
    if |d| == 0 then [(key, v)]
    else if d[0].0 == key then [(key, v)] + d[1..]
    else [d[0]] + Put(d[1..], key, v)
  }

  /** After `d[key] = v`, `key` gives `v` and every other key what it gave. */
  lemma {:induction false} PutGet(d: Dict, key: string, v: VersionData, k: string)
    ensures Get(Put(d, key, v), k) == if k == key then Some(v) else Get(d, k)
  {
    if |d| > 0 && d[0].0 != key {
      PutGet(d[1..], key, v, k);
      assert Put(d, key, v)[1..] == Put(d[1..], key, v);
    }
  }

  /** A new key goes last; an existing key keeps its place, so the order
      of the keys does not change. */
  lemma {:induction false} PutOrder(d: Dict, key: string, v: VersionData)
    ensures Get(d, key).None? ==> Put(d, key, v) == d + [(key, v)]
    ensures Get(d, key).Some? ==> |Put(d, key, v)| == |d| && forall i :: 0 <= i < |d| ==> Put(d, key, v)[i].0 == d[i].0
  {
    if |d| > 0 && d[0].0 != key {
      PutOrder(d[1..], key, v);
      assert d == [d[0]] + d[1..];
    }
  }

  /** Keys stay distinct. */
  lemma {:induction false} PutDistinct(d: Dict, key: string, v: VersionData)
    requires KeysDistinct(d)
    ensures KeysDistinct(Put(d, key, v))
    ensures forall i :: 0 <= i < |Put(d, key, v)| ==> Put(d, key, v)[i] == (key, v) || Put(d, key, v)[i] in d
  {
    if |d| > 0 && d[0].0 != key {
      PutDistinct(d[1..], key, v);
      var r := Put(d[1..], key, v);
      PutGet(d[1..], key, v, d[0].0);
      assert Get(d[1..], d[0].0).None? by {
        GetNone(d[1..], d[0].0);
      }
      GetNone(r, d[0].0);
      assert forall x :: x in d[1..] ==> x in d;
    }
  }

  /** `d.get(key)` is None exactly when no entry has the key. */
  lemma {:induction false} GetNone(d: Dict, key: string)
    ensures Get(d, key).None? <==> forall i :: 0 <= i < |d| ==> d[i].0 != key
  {
    if |d| > 0 {
      GetNone(d[1..], key);
      assert forall i :: 1 <= i < |d| ==> d[i] == d[1..][i - 1];
    }
  }

  /** The key of a version. */
  function VersionKey(version: string): string {
    "version " + version
  }

  /** The dict key a file yields, if it has a version. */
  function FileKey(f: string): Option<string> {
    match VersionOf(f)
    case None => None
    case Some(v) => Some(VersionKey(v))
  }

  /** The keys the files yield, in order. */
  function FileKeys(files: seq<string>): (ks: seq<Option<string>>)
    ensures |ks| == |files|
    ensures forall i :: 0 <= i < |files| ==> ks[i] == FileKey(files[i])
  {
    if |files| == 0 then [] else FileKeys(files[..|files| - 1]) + [FileKey(files[|files| - 1])]
  }

  /** The entry built for a script with a version. */
  function Entry(myHooksDir: string, hook: string, f: string): VersionData
    requires VersionOf(f).Some?
  {
    VersionData(
      VersionOf(f).value,
      PathJoin(PathJoin(myHooksDir, hook), f),
      PathJoin(PathJoin(myHooksDir, hook), f + "_description"))
  }

  /** Every entry's description path is its script path with
      `_description` appended. */
  predicate Paired(d: Dict) {
    forall i :: 0 <= i < |d| ==> d[i].1.descriptionPath == d[i].1.scriptPath + "_description"
  }

  /** `get_valid_versions_data(hook_to_setup_name, valid_files)`, the hooks
      directory a parameter: one entry per file with a version, a later file
      with the same version replacing the earlier one's entry. Keys are
      distinct and every description path pairs with its script path. */
  function VersionsData(myHooksDir: string, hook: string, files: seq<string>): (d: Dict)
    ensures KeysDistinct(d) && Paired(d)
  {
    if |files| == 0 then []
    else
      var d := VersionsData(myHooksDir, hook, files[..|files| - 1]);
      var f := files[|files| - 1];
      if VersionOf(f).None? then d
      else
        var e := Entry(myHooksDir, hook, f);
        DescriptionPathAppend(PathJoin(myHooksDir, hook), f);
        PutDistinct(d, VersionKey(VersionOf(f).value), e);
        Put(d, VersionKey(VersionOf(f).value), e)
  }

  /** The last position holding `key`. */
  function LastWith(ks: seq<Option<string>>, key: string): (r: Option<nat>)
    ensures r.Some? ==> r.value < |ks| && ks[r.value] == Some(key)
                        && forall j :: r.value < j < |ks| ==> ks[j] != Some(key)
    ensures r.None? ==> forall j :: 0 <= j < |ks| ==> ks[j] != Some(key)
  {
    if |ks| == 0 then None
    else if ks[|ks| - 1] == Some(key) then Some(|ks| - 1)
    else LastWith(ks[..|ks| - 1], key)
  }

  /** The entry under a key is that of the last file yielding the key, and
      a key no file yields is absent. */
  lemma {:induction false} VersionsDataLookup(myHooksDir: string, hook: string, files: seq<string>, key: string)
    ensures Get(VersionsData(myHooksDir, hook, files), key) ==
              match LastWith(FileKeys(files), key)
              case None => None
              case Some(i) => Some(Entry(myHooksDir, hook, files[i]))
  {
    if |files| > 0 {
      var init := files[..|files| - 1];
      var f := files[|files| - 1];
      var d := VersionsData(myHooksDir, hook, init);
      var ks := FileKeys(files);
      assert ks[..|files| - 1] == FileKeys(init);
      if FileKey(f) == Some(key) {
        PutGet(d, key, Entry(myHooksDir, hook, f), key);
        assert LastWith(ks, key) == Some(|files| - 1);
      } else {
        VersionsDataLookup(myHooksDir, hook, init, key);
        if VersionOf(f).Some? {
          PutGet(d, VersionKey(VersionOf(f).value), Entry(myHooksDir, hook, f), key);
        }
        assert Get(VersionsData(myHooksDir, hook, files), key) == Get(d, key);
        assert LastWith(ks, key) == LastWith(FileKeys(init), key);
        if LastWith(FileKeys(init), key).Some? {
          var i := LastWith(FileKeys(init), key).value;
          assert files[i] == init[i];
        }
      }
    }
  }

  /** Every valid script has its version's key in the dict. */
  lemma VersionsDataValid(myHooksDir: string, hook: string, files: seq<string>, f: string)
    requires f in files && IsValidHookFilename(f)
    ensures VersionOf(f).Some?
    ensures Get(VersionsData(myHooksDir, hook, files), VersionKey(VersionOf(f).value)).Some?
  {
    ValidNameHasVersion(f);
    VersionsDataLookup(myHooksDir, hook, files, VersionKey(VersionOf(f).value));
    var i :| 0 <= i < |files| && files[i] == f;
    assert FileKeys(files)[i] == Some(VersionKey(VersionOf(f).value));
  }

  /** `join(dir, f + "_description") == join(dir, f) + "_description"` for a
      non-empty `f`. */
  lemma DescriptionPathAppend(dir: string, f: string)
    requires f != []
    ensures PathJoin(dir, f + "_description") == PathJoin(dir, f) + "_description"
  {
    assert (f + "_description")[0] == f[0];
    if !StartsWith(f, "/") {
      assert !StartsWith(f + "_description", "/");
      PathJoinAppend(dir, f, "_description");
    } else {
      assert StartsWith(f + "_description", "/");
    }
  }
}
