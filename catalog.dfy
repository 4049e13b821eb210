/** The migration file catalogue: which files of a project's Migrations
    directories are migrations, how a file name splits into timestamp, name
    and Designer flag, how a migration and its Designer companion collapse
    into one entry, and the time-ordered list shown in the window.

    The file system is a parameter: `listing` maps every existing directory
    to the paths Directory.GetFiles(dir, "*.cs") returns for it. */
module Catalog {
  import opened Text
  import opened Records

  type Listing = map<string, seq<string>>

  // ---------------------------------------------------------------------
  // System.IO.Path on Windows

  predicate IsDirectorySeparator(c: char) {
    c == '\\' || c == '/'
  }

  predicate IsPathRooted(p: string) {
    (|p| >= 1 && IsDirectorySeparator(p[0]))
    || (|p| >= 2 && (('a' <= p[0] <= 'z') || ('A' <= p[0] <= 'Z')) && p[1] == ':')
  }

  /** Path.Combine(a, b): b alone when a is empty or b is rooted; otherwise
      a and b joined by exactly one separator, added only when a does not
      already end in one. */
  function Combine(a: string, b: string): (r: string)
    ensures b == [] ==> r == a
    ensures a == [] || IsPathRooted(b) ==> r == b
    ensures b != [] && a != [] && !IsPathRooted(b) ==>
              && |r| >= |a| + |b| && r[..|a|] == a && r[|r| - |b|..] == b
              && (r == a + b || r == a + "\\" + b)
              && (r == a + b <==> IsDirectorySeparator(a[|a| - 1]))
              && IsDirectorySeparator(r[|r| - |b| - 1])
  {
    if b == [] then a
    else if a == [] || IsPathRooted(b) then b
    else if IsDirectorySeparator(a[|a| - 1]) then a + b
    else a + "\\" + b
  }

  /** Path.GetFileName: the part after the last directory separator. */
  function FileName(path: string): (r: string)
    ensures forall i :: 0 <= i < |r| ==> !IsDirectorySeparator(r[i])
    ensures |r| <= |path| && r == path[|path| - |r|..]
    ensures |r| < |path| ==> IsDirectorySeparator(path[|path| - |r| - 1])
  {
    if path == [] then []
    else if IsDirectorySeparator(path[|path| - 1]) then []
    else
      var init := path[..|path| - 1];
      var r := FileName(init);
      assert path[|path| - |r| - 1..] == r + [path[|path| - 1]];
      assert |r| < |init| ==> path[|init| - |r| - 1] == init[|init| - |r| - 1];
      r + [path[|path| - 1]]
  }

  /** A file name up to its last '.', or the whole name when it has none. */
  function WithoutExtension(name: string): (r: string)
    ensures |r| <= |name| && r == name[..|r|]
    ensures |r| < |name| ==> name[|r|] == '.' && '.' !in name[|r| + 1..]
    ensures |r| == |name| ==> '.' !in name
  {
    var ext := LastSegment(name, '.');
    if |ext| == |name| then name
    else
      var r := name[..|name| - |ext| - 1];
      assert name[|r| + 1..] == ext;
      r
  }

  /** Path.GetFileNameWithoutExtension. */
  function FileStem(path: string): string {
    WithoutExtension(FileName(path))
  }

  // ---------------------------------------------------------------------
  // Context short name and candidate directories

  /** The context's short name: the last dot-separated segment of the type
      name with every occurrence of "Context" removed, not only a trailing one. */
  function ContextShort(selectedContext: string): (r: string)
    ensures |r| <= |selectedContext|
    ensures '.' !in r
  {
    var last := LastSegment(selectedContext, '.');
    RemoveAllKeeps(last, "Context", '.');
    RemoveAll(last, "Context")
  }

  /** Removing a pattern never introduces a character that was not there. */
  lemma {:induction false} RemoveAllKeeps(s: string, pat: string, c: char)
    requires pat != [] && c !in s
    ensures c !in RemoveAll(s, pat)
    decreases |s|
  {
    if |s| >= |pat| {
      if s[..|pat|] == pat {
        RemoveAllKeeps(s[|pat|..], pat, c);
      } else {
        RemoveAllKeeps(s[1..], pat, c);
      }
    }
  }

  /** No occurrence of "Context" starts inside a text that "Context" follows
      and ends inside that "Context": its first letter 'C' occurs nowhere
      else in the word. */
  lemma NoEarlyContext(a: string, b: string)
    requires 0 < |a| < 7
    ensures (a + "Context" + b)[..7] != "Context"
  {
    assert (a + "Context" + b)[|a|] == 'C';
  }

  /** Removing "Context" around an occurrence of it: the parts before and
      after are processed independently, and the occurrence itself goes. */
  lemma {:induction false} RemoveAllAround(a: string, b: string)
    ensures RemoveAll(a + "Context" + b, "Context") == RemoveAll(a, "Context") + RemoveAll(b, "Context")
    decreases |a|
  {
    var c := "Context";
    var s := a + c + b;
    if 0 < |a| < 7 {
      NoEarlyContext(a, b);
    }
    if a == [] {
      assert s == c + b;
      LeadingOccurrenceRemoved(b, c);
    } else if s[..7] == c {
      assert a[..7] == c;
      assert s[7..] == a[7..] + c + b;
      RemoveAllAround(a[7..], b);
    } else {
      assert s[1..] == a[1..] + c + b;
      RemoveAllAround(a[1..], b);
      if |a| < 7 {
        assert a == [a[0]] + a[1..];
      } else {
        assert a[..7] == s[..7];
      }
    }
  }

  /** The last segment of a dotted name ending in ".x" is x, for x without '.'. */
  lemma LastSegmentOf(p: string, x: string)
    requires '.' !in x
    ensures LastSegment(p + "." + x, '.') == x
  {
    var s := p + "." + x;
    var r := LastSegment(s, '.');
    assert s[|s| - |x| - 1] == '.';
    assert s[|s| - |x|..] == x;
  }

  /** The usual case: a context named p.XContext, where X holds neither '.'
      nor "Context", has the short name X. */
  lemma TrailingContextStripped(p: string, x: string)
    requires '.' !in x && forall k :: !OccursAt(x, "Context", k)
    ensures ContextShort(p + "." + x + "Context") == x
  {
    assert p + "." + x + "Context" == p + "." + (x + "Context");
    LastSegmentOf(p, x + "Context");
    RemoveAllAround(x, []);
    assert x + "Context" + [] == x + "Context";
    RemoveAllAbsent(x, "Context");
  }

  /** A leading occurrence is removed as well as a trailing one. */
  lemma LeadingOccurrenceRemoved(x: string, pat: string)
    requires pat != []
    ensures RemoveAll(pat + x, pat) == RemoveAll(x, pat)
  {
    assert (pat + x)[..|pat|] == pat;
    assert (pat + x)[|pat|..] == x;
  }

  function BaseMigrationsDir(projectDirectory: string): string {
    Combine(projectDirectory, "Migrations")
  }

  function ContextMigrationsDir(projectDirectory: string, selectedContext: string): string {
    Combine(BaseMigrationsDir(projectDirectory), ContextShort(selectedContext))
  }

  /** Enumerable.Distinct: the first occurrence of each element, in order. */
  function Distinct(s: seq<string>): (r: seq<string>)
    ensures forall i, j :: 0 <= i < j < |r| ==> r[i] != r[j]
    ensures forall x :: x in r <==> x in s
    ensures s != [] ==> r != [] && r[0] == s[0]
  {
    if s == [] then []
    else
      var d := Distinct(s[..|s| - 1]);
      if s[|s| - 1] in d then d else d + [s[|s| - 1]]
  }

  /** The position of the first occurrence of x in s. */
  function FirstIndex(s: seq<string>, x: string): (k: nat)
    requires x in s
    ensures k < |s| && s[k] == x && x !in s[..k]
  {
    if s[0] == x then 0
    else
      var k := FirstIndex(s[1..], x);
      assert s[..k + 1] == [s[0]] + s[1..][..k];
      k + 1
  }

  /** The first occurrence is the only position holding x with no x before it. */
  lemma FirstIndexUnique(s: seq<string>, x: string, k: nat)
    requires k < |s| && s[k] == x && x !in s[..k]
    ensures FirstIndex(s, x) == k
  {
  }

  /** Distinct lists the elements in the order of their first occurrences. */
  lemma {:induction false} DistinctInOrder(s: seq<string>)
    ensures forall i, j :: 0 <= i < j < |Distinct(s)| ==> FirstIndex(s, Distinct(s)[i]) < FirstIndex(s, Distinct(s)[j])
  {
    if s != [] {
      var n := |s| - 1;
      var init, last := s[..n], s[n];
      var d := Distinct(init);
      DistinctInOrder(init);
      forall y | y in d ensures y in s && FirstIndex(s, y) == FirstIndex(init, y) {
        var k := FirstIndex(init, y);
        assert s[k] == y;
        assert s[..k] == init[..k];
        FirstIndexUnique(s, y, k);
      }
      var r := Distinct(s);
      assert r == if last in d then d else d + [last];
      if last !in d {
        assert s[..n] == init;
        FirstIndexUnique(s, last, n);
      }
      forall i, j | 0 <= i < j < |r| ensures FirstIndex(s, r[i]) < FirstIndex(s, r[j]) {
        assert r[i] == d[i] && r[i] in d;
        assert FirstIndex(s, r[i]) == FirstIndex(init, r[i]) < n;
        if j < |d| {
          assert r[j] == d[j] && r[j] in d;
        } else {
          assert r[j] == last && FirstIndex(s, last) == n;
        }
      }
    }
  }


  /** The directories searched: the context's directory and then the base
      directory, each only if it exists, without repeating a path. */
  function CandidateDirs(contextDir: string, baseDir: string, listing: Listing): (dirs: seq<string>)
    ensures forall i, j :: 0 <= i < j < |dirs| ==> dirs[i] != dirs[j]
    ensures forall d :: d in dirs <==> (d in listing && (d == contextDir || d == baseDir))
    ensures contextDir in listing ==> dirs[0] == contextDir
  {
    Distinct((if contextDir in listing then [contextDir] else [])
             + (if baseDir in listing then [baseDir] else []))
  }

  /** With an empty short name (a context called "Context", say) both
      candidates are the base directory, and it is searched once. */
  lemma EmptyShortNameSearchesOnce(projectDirectory: string, selectedContext: string, listing: Listing)
    requires ContextShort(selectedContext) == []
    requires BaseMigrationsDir(projectDirectory) in listing
    ensures var baseDir := BaseMigrationsDir(projectDirectory);
      CandidateDirs(ContextMigrationsDir(projectDirectory, selectedContext), baseDir, listing) == [baseDir]
  {
    var baseDir := BaseMigrationsDir(projectDirectory);
    assert ContextMigrationsDir(projectDirectory, selectedContext) == baseDir;
    SameDirOnce(baseDir, listing);
  }

  /** The candidate directories of a project and context. */
  function SearchedDirs(projectDirectory: string, selectedContext: string, listing: Listing): (dirs: seq<string>)
    ensures forall d :: d in dirs ==> d in listing
  {
    CandidateDirs(ContextMigrationsDir(projectDirectory, selectedContext), BaseMigrationsDir(projectDirectory), listing)
  }

  lemma SameDirOnce(d: string, listing: Listing)
    requires d in listing
    ensures CandidateDirs(d, d, listing) == [d]
  {
    assert [d, d][..1] == [d];
    assert Distinct([d]) == [d];
  }

  // ---------------------------------------------------------------------
  // File name split: fourteen digits, an underscore, a lazily matched name
  // and an optional ".Designer" suffix, anchored at both ends

  datatype StemParts = StemParts(ts: string, name: string, designer: bool)

  const DesignerSuffix := ".Designer"

  predicate IsDigit(c: char) {
    '0' <= c <= '9'
  }

  predicate IsTimestamp(s: string) {
    |s| == 14 && forall i :: 0 <= i < 14 ==> IsDigit(s[i])
  }

  /** A name long enough to keep at least one character before ".Designer". */
  predicate HasDesignerSuffix(s: string) {
    |s| > |DesignerSuffix| && s[|s| - |DesignerSuffix|..] == DesignerSuffix
  }

  /** The stem a split describes. */
  function Compose(p: StemParts): string {
    p.ts + "_" + p.name + (if p.designer then DesignerSuffix else "")
  }

  /** The name group is lazy and '.' stops at a line feed; '$' also matches
      before one final line feed. So the name is what follows the '_' (less a
      final line feed), less a trailing ".Designer" when something precedes it. */
  function MatchStem(stem: string): (r: Option<StemParts>)
    ensures r.Some? ==> IsTimestamp(r.value.ts) && r.value.name != [] && '\n' !in r.value.name
    ensures r.Some? ==> r.value.designer || !HasDesignerSuffix(r.value.name)
    ensures r.Some? ==> stem == Compose(r.value) || stem == Compose(r.value) + "\n"
  {
    if |stem| < 16 || !IsTimestamp(stem[..14]) || stem[14] != '_' then None
    else
      var rest := stem[15..];
      var body := if rest[|rest| - 1] == '\n' then rest[..|rest| - 1] else rest;
      if body == [] || '\n' in body then None
      else
        var (name, designer) := SplitDesigner(body);
        StemSplit(stem, body);
        ComposeSplit(stem[..14], name, designer, body);
        Some(StemParts(stem[..14], name, designer))
  }

  /** The name and Designer flag of a stem's body: a trailing ".Designer" is
      split off when something precedes it. */
  function SplitDesigner(body: string): (r: (string, bool))
    requires body != []
    ensures r.0 != [] && |r.0| <= |body| && r.0 == body[..|r.0|]
    ensures r.1 || !HasDesignerSuffix(r.0)
    ensures r.0 + (if r.1 then DesignerSuffix else "") == body
  {
    if HasDesignerSuffix(body) then
      assert body[..|body| - |DesignerSuffix|] + DesignerSuffix == body;
      (body[..|body| - |DesignerSuffix|], true)
    else (body, false)
  }

  lemma ComposeSplit(ts: string, name: string, designer: bool, body: string)
    requires name + (if designer then DesignerSuffix else "") == body
    ensures Compose(StemParts(ts, name, designer)) == ts + "_" + body
  {
    var sfx := if designer then DesignerSuffix else "";
    assert ts + "_" + name + sfx == ts + "_" + (name + sfx);
  }

  /** The stem is its timestamp, '_' and the body, then the final line feed
      the body left out, if any. */
  lemma StemSplit(stem: string, body: string)
    requires |stem| >= 16 && stem[14] == '_'
    requires body == stem[15..] || (stem[|stem| - 1] == '\n' && body == stem[15..|stem| - 1])
    ensures stem == stem[..14] + "_" + body || stem == stem[..14] + "_" + body + "\n"
  {
    if body == stem[15..] {
      assert stem == stem[..14] + "_" + body;
    } else {
      assert stem == stem[..14] + "_" + body + "\n";
    }
  }

  /** Every well-formed split is recovered from the stem it describes. */
  lemma StemRoundTrip(p: StemParts)
    requires IsTimestamp(p.ts) && p.name != [] && '\n' !in p.name
    requires p.designer || !HasDesignerSuffix(p.name)
    ensures MatchStem(Compose(p)) == Some(p)
  {
    if p.designer {
      DesignerStemRoundTrip(p);
    } else {
      PrimaryStemRoundTrip(p);
    }
  }

  lemma DesignerStemRoundTrip(p: StemParts)
    requires IsTimestamp(p.ts) && p.name != [] && '\n' !in p.name && p.designer
    ensures MatchStem(Compose(p)) == Some(p)
  {
    var stem := Compose(p);
    assert stem == p.ts + "_" + p.name + DesignerSuffix;
    assert stem[..14] == p.ts;
    assert stem[14] == '_';
    var rest := stem[15..];
    assert rest == p.name + DesignerSuffix;
    assert rest[|rest| - 1] == 'r';
    assert '\n' !in rest by {
      forall i | 0 <= i < |rest| ensures rest[i] != '\n' {
        if i >= |p.name| {
          assert rest[i] == DesignerSuffix[i - |p.name|];
        } else {
          assert rest[i] == p.name[i];
        }
      }
    }
    assert HasDesignerSuffix(rest);
    assert rest[..|rest| - |DesignerSuffix|] == p.name;
  }

  lemma PrimaryStemRoundTrip(p: StemParts)
    requires IsTimestamp(p.ts) && p.name != [] && '\n' !in p.name && !p.designer
    requires !HasDesignerSuffix(p.name)
    ensures MatchStem(Compose(p)) == Some(p)
  {
    var stem := Compose(p);
    assert stem == p.ts + "_" + p.name;
    assert stem[..14] == p.ts;
    assert stem[14] == '_';
    var rest := stem[15..];
    assert rest == p.name;
    assert rest[|rest| - 1] != '\n';
  }

  /** A ModelSnapshot file, whatever the case of the suffix. */
  predicate IsModelSnapshot(path: string) {
    EndsWithIgnoreCase(FileStem(path), "ModelSnapshot")
  }

  /** The entry a (non-snapshot) file contributes; a stem that does not fit the
      pattern gives an empty timestamp and the whole stem as the name. */
  function EntryOf(path: string): (e: MigrationFileEntry)
    ensures e.Path == path
    ensures e.Timestamp == [] <==> MatchStem(FileStem(path)).None?
    ensures e.Timestamp == [] ==> e.Name == FileStem(path) && !e.IsDesigner
    ensures MatchStem(FileStem(path)).Some? ==>
              && e.Timestamp == MatchStem(FileStem(path)).value.ts
              && e.Name == MatchStem(FileStem(path)).value.name
              && e.IsDesigner == MatchStem(FileStem(path)).value.designer
  {
    var stem := FileStem(path);
    match MatchStem(stem)
    case Some(p) => MigrationFileEntry(path, p.ts, p.name, p.designer)
    case None => MigrationFileEntry(path, "", stem, false)
  }

  // ---------------------------------------------------------------------
  // Listing the entries of the candidate directories

  /** The entries of one directory's files, in listing order. */
  function EntriesOfFiles(files: seq<string>): seq<MigrationFileEntry> {
    if files == [] then []
    else
      var last := files[|files| - 1];
      EntriesOfFiles(files[..|files| - 1]) + (if IsModelSnapshot(last) then [] else [EntryOf(last)])
  }

  /** Exactly the non-snapshot files of a directory give entries. */
  lemma {:induction false} EntriesOfFilesMembers(files: seq<string>)
    ensures forall e :: e in EntriesOfFiles(files) ==> e.Path in files && !IsModelSnapshot(e.Path) && e == EntryOf(e.Path)
    ensures forall f :: f in files && !IsModelSnapshot(f) ==> EntryOf(f) in EntriesOfFiles(files)
  {
    if files != [] {
      var init := files[..|files| - 1];
      EntriesOfFilesMembers(init);
      assert forall f :: f in files ==> f in init || f == files[|files| - 1];
    }
  }

  /** The entries of several directories, directory by directory. */
  function EntriesOfDirs(dirs: seq<string>, listing: Listing): seq<MigrationFileEntry>
    requires forall d :: d in dirs ==> d in listing
  {
    if dirs == [] then []
    else EntriesOfDirs(dirs[..|dirs| - 1], listing) + EntriesOfFiles(listing[dirs[|dirs| - 1]])
  }

  /** Exactly the non-snapshot files of the listed directories give entries. */
  lemma {:induction false} EntriesOfDirsMembers(dirs: seq<string>, listing: Listing)
    requires forall d :: d in dirs ==> d in listing
    ensures forall e :: e in EntriesOfDirs(dirs, listing) ==>
      (!IsModelSnapshot(e.Path) && e == EntryOf(e.Path) && exists d :: d in dirs && e.Path in listing[d])
    ensures forall d, f :: d in dirs && f in listing[d] && !IsModelSnapshot(f) ==> EntryOf(f) in EntriesOfDirs(dirs, listing)
  {
    if dirs != [] {
      var init := dirs[..|dirs| - 1];
      var last := dirs[|dirs| - 1];
      EntriesOfDirsMembers(init, listing);
      EntriesOfFilesMembers(listing[last]);
      assert forall d :: d in dirs ==> d in init || d == last;
    }
  }

  lemma FilesStep(files: seq<string>, j: nat)
    requires j < |files|
    ensures EntriesOfFiles(files[..j + 1])
         == EntriesOfFiles(files[..j]) + (if IsModelSnapshot(files[j]) then [] else [EntryOf(files[j])])
  {
    assert files[..j + 1][..j] == files[..j];
  }

  lemma DirsStep(dirs: seq<string>, i: nat, listing: Listing)
    requires i < |dirs| && forall d :: d in dirs ==> d in listing
    ensures forall d :: d in dirs[..i + 1] ==> d in listing
    ensures EntriesOfDirs(dirs[..i + 1], listing) == EntriesOfDirs(dirs[..i], listing) + EntriesOfFiles(listing[dirs[i]])
  {
    assert dirs[..i + 1][..i] == dirs[..i];
  }

  /** The body of the per-directory loop of GetMigrationFileEntries: the
      entries of one directory's files, skipping ModelSnapshot files. */
  method DirectoryEntries(files: seq<string>) returns (list: seq<MigrationFileEntry>)
    ensures list == EntriesOfFiles(files)
  {
    list := [];
    for j := 0 to |files|
      invariant list == EntriesOfFiles(files[..j])
    {
      var file := files[j];
      FilesStep(files, j);
      var fileName := FileStem(file);
      if EndsWithIgnoreCase(fileName, "ModelSnapshot") {
        continue;
      }
      var m := MatchStem(fileName);
      var ts, name, isDesigner := "", fileName, false;
      if m.Some? {
        ts, name, isDesigner := m.value.ts, m.value.name, m.value.designer;
      }
      assert MigrationFileEntry(file, ts, name, isDesigner) == EntryOf(file);
      list := list + [MigrationFileEntry(file, ts, name, isDesigner)];
    }
    assert files[..|files|] == files;
  }

  /** GetMigrationFileEntries: every non-snapshot .cs file of every candidate
      directory gives one entry, directory by directory. */
  method GetMigrationFileEntries(projectDirectory: string, selectedContext: string, listing: Listing)
    returns (list: seq<MigrationFileEntry>)
    ensures list == EntriesOfDirs(SearchedDirs(projectDirectory, selectedContext, listing), listing)
  {
    list := [];
    var baseMigrationsDir := BaseMigrationsDir(projectDirectory);
    var contextMigrationsDir := ContextMigrationsDir(projectDirectory, selectedContext);
    var dirs := CandidateDirs(contextMigrationsDir, baseMigrationsDir, listing);
    assert dirs == SearchedDirs(projectDirectory, selectedContext, listing);
    for i := 0 to |dirs|
      invariant list == EntriesOfDirs(dirs[..i], listing)
    {
      var found := DirectoryEntries(listing[dirs[i]]);
      DirsStep(dirs, i, listing);
      list := list + found;
    }
    assert dirs[..|dirs|] == dirs;
  }

  /** Files whose stem ends in "ModelSnapshot" (any case) never produce an entry. */
  lemma SnapshotsSkipped(projectDirectory: string, selectedContext: string, listing: Listing, e: MigrationFileEntry)
    requires e in EntriesOfDirs(SearchedDirs(projectDirectory, selectedContext, listing), listing)
    ensures !EndsWithIgnoreCase(FileStem(e.Path), "ModelSnapshot")
  {
    EntriesOfDirsMembers(SearchedDirs(projectDirectory, selectedContext, listing), listing);
  }

  // ---------------------------------------------------------------------
  // Merging a migration with its Designer companion

  function KeyOf(e: MigrationFileEntry): (string, string) {
    (e.Timestamp, e.Name)
  }

  predicate HasKey(s: seq<MigrationFileEntry>, k: (string, string)) {
    exists e :: e in s && KeyOf(e) == k
  }

  /** The distinct (Timestamp, Name) keys in order of first appearance: the
      groups of GroupBy. */
  function GroupKeys(s: seq<MigrationFileEntry>): (ks: seq<(string, string)>)
    ensures forall i, j :: 0 <= i < j < |ks| ==> ks[i] != ks[j]
    ensures forall k :: k in ks <==> HasKey(s, k)
  {
    if s == [] then []
    else
      var ks := GroupKeys(s[..|s| - 1]);
      var last := s[|s| - 1];
      assert forall e :: e in s ==> e in s[..|s| - 1] || e == last;
      if KeyOf(last) in ks then ks else ks + [KeyOf(last)]
  }

  /** The position of the first entry with key k that is a primary file (or
      any file, if designerOk), or -1. */
  function FirstWith(s: seq<MigrationFileEntry>, k: (string, string), designerOk: bool): (i: int)
    ensures -1 <= i < |s|
    ensures 0 <= i ==> KeyOf(s[i]) == k && (designerOk || !s[i].IsDesigner)
    ensures forall j :: 0 <= j < |s| && (i < 0 || j < i) ==> !(KeyOf(s[j]) == k && (designerOk || !s[j].IsDesigner))
  {
    if s == [] then -1
    else
      var i := FirstWith(s[..|s| - 1], k, designerOk);
      if 0 <= i then i
      else if KeyOf(s[|s| - 1]) == k && (designerOk || !s[|s| - 1].IsDesigner) then |s| - 1
      else -1
  }

  /** The entry a group keeps after a stable sort on the Designer flag: the
      first primary file of the group, or its first file when the group holds
      only Designer files. */
  function Survivor(s: seq<MigrationFileEntry>, k: (string, string)): (e: MigrationFileEntry)
    requires HasKey(s, k)
    ensures e in s && KeyOf(e) == k
    ensures e.IsDesigner ==> forall x :: x in s && KeyOf(x) == k ==> x.IsDesigner
    ensures exists i :: && 0 <= i < |s| && s[i] == e
                        && forall j :: 0 <= j < i ==> !(KeyOf(s[j]) == k && (e.IsDesigner || !s[j].IsDesigner))
  {
    var i := FirstWith(s, k, false);
    if 0 <= i then s[i]
    else
      var j := FirstWith(s, k, true);
      assert 0 <= j by {
        var x :| x in s && KeyOf(x) == k;
        var n :| 0 <= n < |s| && s[n] == x;
      }
      s[j]
  }

  /** The shared group-and-prefer step: one entry per (Timestamp, Name). */
  function Dedupe(s: seq<MigrationFileEntry>): (r: seq<MigrationFileEntry>)
    ensures |r| == |GroupKeys(s)|
    ensures forall i :: 0 <= i < |r| ==> r[i] in s && KeyOf(r[i]) == GroupKeys(s)[i]
    ensures forall i, e :: 0 <= i < |r| && e in s && KeyOf(e) == KeyOf(r[i]) && !e.IsDesigner ==> !r[i].IsDesigner
  {
    var ks := GroupKeys(s);
    seq(|ks|, i requires 0 <= i < |ks| => Survivor(s, ks[i]))
  }

  /** A group with an entry has a first entry. */
  lemma FirstWithFound(s: seq<MigrationFileEntry>, k: (string, string))
    requires HasKey(s, k)
    ensures 0 <= FirstWith(s, k, true)
  {
    var x :| x in s && KeyOf(x) == k;
    var n :| 0 <= n < |s| && s[n] == x;
  }

  /** The groups come in the order of their first entries in the listing. */
  lemma {:induction false} GroupKeysInOrder(s: seq<MigrationFileEntry>)
    ensures forall i, j :: 0 <= i < j < |GroupKeys(s)| ==>
              FirstWith(s, GroupKeys(s)[i], true) < FirstWith(s, GroupKeys(s)[j], true)
  {
    if s != [] {
      var init := s[..|s| - 1];
      var ks := GroupKeys(init);
      GroupKeysInOrder(init);
      forall k | k in ks
        ensures FirstWith(s, k, true) == FirstWith(init, k, true) < |init|
      {
        FirstWithFound(init, k);
      }
      var last := KeyOf(s[|s| - 1]);
      if last !in ks {
        assert !HasKey(init, last);
        assert FirstWith(s, last, true) == |init|;
        assert GroupKeys(s) == ks + [last];
      }
    }
  }

  /** Each group keeps its first primary file in listing order, or its first
      file when it holds only Designer files. */
  lemma DedupeKeepsFirst(s: seq<MigrationFileEntry>, i: nat)
    requires i < |Dedupe(s)|
    ensures exists n :: && 0 <= n < |s| && s[n] == Dedupe(s)[i]
                        && forall j :: 0 <= j < n ==>
                             !(KeyOf(s[j]) == KeyOf(s[n]) && (s[n].IsDesigner || !s[j].IsDesigner))
  {
    assert Dedupe(s)[i] == Survivor(s, GroupKeys(s)[i]);
  }

  /** Every (Timestamp, Name) group keeps an entry. */
  lemma DedupeCovers(s: seq<MigrationFileEntry>, e: MigrationFileEntry)
    requires e in s
    ensures exists i :: 0 <= i < |Dedupe(s)| && KeyOf(Dedupe(s)[i]) == KeyOf(e)
  {
    var ks := GroupKeys(s);
    assert HasKey(s, KeyOf(e));
    var n :| 0 <= n < |ks| && ks[n] == KeyOf(e);
    assert KeyOf(Dedupe(s)[n]) == KeyOf(e);
  }

  /** No (Timestamp, Name) group keeps two entries. */
  lemma DedupeKeysDistinct(s: seq<MigrationFileEntry>)
    ensures KeysDistinct(Dedupe(s))
  {
  }

  lemma PairKeys(a: MigrationFileEntry, b: MigrationFileEntry)
    requires KeyOf(a) == KeyOf(b)
    ensures GroupKeys([a, b]) == [KeyOf(a)]
  {
    assert [a, b][..1] == [a];
    assert GroupKeys([a]) == [KeyOf(a)];
  }

  /** The group of a migration and its Designer companion, in either order,
      keeps the migration. */
  lemma PairDedupe(s: seq<MigrationFileEntry>, primary: MigrationFileEntry)
    requires |s| == 2 && primary in s && !primary.IsDesigner
    requires KeyOf(s[0]) == KeyOf(s[1]) && (s[0].IsDesigner || s[1].IsDesigner)
    ensures Dedupe(s) == [primary]
  {
    PairKeys(s[0], s[1]);
    assert s == [s[0], s[1]];
    var d := Dedupe(s);
    assert |d| == 1;
    assert d[0] == Survivor(s, KeyOf(primary));
  }

  /** A migration and its Designer companion give exactly the migration,
      whichever of the two files is listed first. */
  lemma PrimaryWins(primary: MigrationFileEntry, designer: MigrationFileEntry)
    requires KeyOf(primary) == KeyOf(designer) && !primary.IsDesigner && designer.IsDesigner
    ensures Dedupe([primary, designer]) == [primary]
    ensures Dedupe([designer, primary]) == [primary]
  {
    PairDedupe([primary, designer], primary);
    PairDedupe([designer, primary], primary);
  }

  // ---------------------------------------------------------------------
  // Ordering by timestamp: a stable sort in ordinal order

  predicate SortedByTimestamp(s: seq<MigrationFileEntry>) {
    forall i, j :: 0 <= i < j < |s| ==> LessEq(s[i].Timestamp, s[j].Timestamp)
  }

  /** The entries with timestamp t, in their order in s. */
  function WithTimestamp(s: seq<MigrationFileEntry>, t: string): seq<MigrationFileEntry> {
    if s == [] then []
    else WithTimestamp(s[..|s| - 1], t) + (if s[|s| - 1].Timestamp == t then [s[|s| - 1]] else [])
  }

  /** Inserts x after every entry whose timestamp is not greater than its own. */
  function InsertByTimestamp(s: seq<MigrationFileEntry>, x: MigrationFileEntry): (r: seq<MigrationFileEntry>)
    ensures multiset(r) == multiset(s) + multiset{x}
  {
    if s == [] then [x]
    else if Less(x.Timestamp, s[|s| - 1].Timestamp) then
      assert s == s[..|s| - 1] + [s[|s| - 1]];
      InsertByTimestamp(s[..|s| - 1], x) + [s[|s| - 1]]
    else s + [x]
  }

  /** Inserting keeps an upper bound that both s and x respect. */
  lemma InsertBounded(s: seq<MigrationFileEntry>, x: MigrationFileEntry, b: string)
    requires forall i :: 0 <= i < |s| ==> LessEq(s[i].Timestamp, b)
    requires LessEq(x.Timestamp, b)
    ensures forall y :: y in InsertByTimestamp(s, x) ==> LessEq(y.Timestamp, b)
  {
    var r := InsertByTimestamp(s, x);
    forall y | y in r ensures LessEq(y.Timestamp, b) {
      assert y in multiset(r);
    }
  }

  lemma {:induction false} InsertKeepsSorted(s: seq<MigrationFileEntry>, x: MigrationFileEntry)
    requires SortedByTimestamp(s)
    ensures SortedByTimestamp(InsertByTimestamp(s, x))
  {
    if s == [] {
    } else if Less(x.Timestamp, s[|s| - 1].Timestamp) {
      var last := s[|s| - 1];
      var init := s[..|s| - 1];
      InsertKeepsSorted(init, x);
      LessAsymmetric(x.Timestamp, last.Timestamp);
      InsertBounded(init, x, last.Timestamp);
    } else {
      var last := s[|s| - 1];
      forall i | 0 <= i < |s| ensures LessEq(s[i].Timestamp, x.Timestamp) {
        if i < |s| - 1 {
          LessEqTransitive(s[i].Timestamp, last.Timestamp, x.Timestamp);
        }
      }
    }
  }

  lemma WithTimestampSnoc(s: seq<MigrationFileEntry>, y: MigrationFileEntry, t: string)
    ensures WithTimestamp(s + [y], t) == WithTimestamp(s, t) + (if y.Timestamp == t then [y] else [])
  {
    assert (s + [y])[..|s|] == s;
  }

  lemma {:induction false} InsertKeepsOrderPerTimestamp(s: seq<MigrationFileEntry>, x: MigrationFileEntry, t: string)
    ensures WithTimestamp(InsertByTimestamp(s, x), t)
         == WithTimestamp(s, t) + (if x.Timestamp == t then [x] else [])
  {
    if s == [] {
      WithTimestampSnoc([], x, t);
    } else if Less(x.Timestamp, s[|s| - 1].Timestamp) {
      var last := s[|s| - 1];
      var init := s[..|s| - 1];
      InsertKeepsOrderPerTimestamp(init, x, t);
      InsertBeforeLast(init, last, x, t);
    } else {
      WithTimestampSnoc(s, x, t);
    }
  }

  lemma InsertBeforeLast(init: seq<MigrationFileEntry>, last: MigrationFileEntry, x: MigrationFileEntry, t: string)
    requires Less(x.Timestamp, last.Timestamp)
    requires WithTimestamp(InsertByTimestamp(init, x), t) == WithTimestamp(init, t) + (if x.Timestamp == t then [x] else [])
    ensures WithTimestamp(InsertByTimestamp(init + [last], x), t)
         == WithTimestamp(init + [last], t) + (if x.Timestamp == t then [x] else [])
  {
    var s := init + [last];
    var r := InsertByTimestamp(init, x);
    assert s[..|s| - 1] == init;
    assert InsertByTimestamp(s, x) == r + [last];
    WithTimestampSnoc(r, last, t);
    WithTimestampSnoc(init, last, t);
    var a := WithTimestamp(init, t);
    if x.Timestamp == t {
      LessIrreflexive(t);
      assert WithTimestamp(r + [last], t) == a + [x];
      assert WithTimestamp(s, t) == a;
    } else {
      assert WithTimestamp(r, t) == a;
    }
  }

  /** The order by timestamp, as a stable insertion sort. */
  function SortByTimestamp(s: seq<MigrationFileEntry>): (r: seq<MigrationFileEntry>)
    ensures multiset(r) == multiset(s)
    ensures SortedByTimestamp(r)
  {
    if s == [] then []
    else
      var init := SortByTimestamp(s[..|s| - 1]);
      InsertKeepsSorted(init, s[|s| - 1]);
      assert s == s[..|s| - 1] + [s[|s| - 1]];
      InsertByTimestamp(init, s[|s| - 1])
  }

  /** The sort is stable: entries with equal timestamps keep their order. */
  lemma {:induction false} SortIsStable(s: seq<MigrationFileEntry>, t: string)
    ensures WithTimestamp(SortByTimestamp(s), t) == WithTimestamp(s, t)
  {
    if s != [] {
      SortIsStable(s[..|s| - 1], t);
      InsertKeepsOrderPerTimestamp(SortByTimestamp(s[..|s| - 1]), s[|s| - 1], t);
    }
  }

  predicate KeysDistinct(s: seq<MigrationFileEntry>) {
    forall i, j :: 0 <= i < j < |s| ==> KeyOf(s[i]) != KeyOf(s[j])
  }

  lemma {:induction false} InsertKeepsKeysDistinct(s: seq<MigrationFileEntry>, x: MigrationFileEntry)
    requires KeysDistinct(s)
    requires forall y :: y in s ==> KeyOf(y) != KeyOf(x)
    ensures KeysDistinct(InsertByTimestamp(s, x))
  {
    if s != [] && Less(x.Timestamp, s[|s| - 1].Timestamp) {
      var last := s[|s| - 1];
      var init := s[..|s| - 1];
      assert forall y :: y in init ==> y in s;
      InsertKeepsKeysDistinct(init, x);
      var r := InsertByTimestamp(init, x);
      forall y | y in r ensures KeyOf(y) != KeyOf(last) {
        assert y in multiset(r);
        if y != x {
          var n :| 0 <= n < |init| && init[n] == y;
          assert s[n] == y;
        }
      }
    }
  }

  lemma {:induction false} SortKeepsKeysDistinct(s: seq<MigrationFileEntry>)
    requires KeysDistinct(s)
    ensures KeysDistinct(SortByTimestamp(s))
  {
    if s != [] {
      var init := s[..|s| - 1];
      var x := s[|s| - 1];
      SortKeepsKeysDistinct(init);
      var sorted := SortByTimestamp(init);
      forall y | y in sorted ensures KeyOf(y) != KeyOf(x) {
        assert y in multiset(sorted);
        var n :| 0 <= n < |init| && init[n] == y;
        assert s[n] == y;
      }
      InsertKeepsKeysDistinct(sorted, x);
    }
  }

  // ---------------------------------------------------------------------
  // The list of migrations for display

  function DisplayOf(timestamp: string, name: string): string {
    if timestamp == [] then name else timestamp + " - " + name
  }

  function ItemOf(e: MigrationFileEntry): MigrationItem {
    MigrationItem(e.Timestamp, e.Name, DisplayOf(e.Timestamp, e.Name), e.Path)
  }

  /** The migrations of a listing: one entry per (Timestamp, Name) group, in
      timestamp order. */
  function Merged(entries: seq<MigrationFileEntry>): seq<MigrationFileEntry> {
    SortByTimestamp(Dedupe(entries))
  }

  /** The file listed for a migration is the first primary file of its group
      in listing order, or its first file when the group holds only Designer
      files. */
  lemma MergedKeepsFirst(entries: seq<MigrationFileEntry>, x: MigrationFileEntry)
    requires x in Merged(entries)
    ensures exists n :: && 0 <= n < |entries| && entries[n] == x
                        && forall j :: 0 <= j < n ==>
                             !(KeyOf(entries[j]) == KeyOf(x) && (x.IsDesigner || !entries[j].IsDesigner))
  {
    var d := Dedupe(entries);
    assert x in multiset(Merged(entries));
    var i :| 0 <= i < |d| && d[i] == x;
    DedupeKeepsFirst(entries, i);
  }

  /** Merging then sorting keeps one entry per group, in timestamp order. */
  lemma MergedAndSorted(entries: seq<MigrationFileEntry>)
    ensures var sorted := Merged(entries);
      && |sorted| == |GroupKeys(entries)|
      && SortedByTimestamp(sorted)
      && KeysDistinct(sorted)
      && (forall x :: x in sorted ==> x in entries)
      && (forall x, e :: x in sorted && e in entries && KeyOf(e) == KeyOf(x) && !e.IsDesigner ==> !x.IsDesigner)
  {
    var merged := Dedupe(entries);
    var sorted := SortByTimestamp(merged);
    DedupeKeysDistinct(entries);
    SortKeepsKeysDistinct(merged);
    assert |sorted| == |merged| by {
      assert |multiset(sorted)| == |multiset(merged)|;
    }
    forall x | x in sorted
      ensures x in entries
      ensures forall e :: e in entries && KeyOf(e) == KeyOf(x) && !e.IsDesigner ==> !x.IsDesigner
    {
      assert x in multiset(merged);
      var n :| 0 <= n < |merged| && merged[n] == x;
    }
  }

  /** An element of a sequence is an element of any permutation of it. */
  lemma PermutationKeeps(a: seq<MigrationFileEntry>, b: seq<MigrationFileEntry>, i: nat)
    requires multiset(a) == multiset(b) && i < |a|
    ensures exists j :: 0 <= j < |b| && b[j] == a[i]
  {
    assert a[i] in multiset(b);
  }

  /** After merging and sorting, every group is still present. */
  lemma MergedCovers(entries: seq<MigrationFileEntry>, e: MigrationFileEntry)
    requires e in entries
    ensures exists i :: 0 <= i < |Merged(entries)| && KeyOf(Merged(entries)[i]) == KeyOf(e)
  {
    var merged := Dedupe(entries);
    var sorted := Merged(entries);
    DedupeCovers(entries, e);
    var n :| 0 <= n < |merged| && KeyOf(merged[n]) == KeyOf(e);
    PermutationKeeps(merged, sorted, n);
    var m :| 0 <= m < |sorted| && sorted[m] == merged[n];
  }

  /** The pure part of BuildMigrationItems: merge, sort, label. */
  function MigrationItems(entries: seq<MigrationFileEntry>): seq<MigrationItem> {
    var sorted := Merged(entries);
    seq(|sorted|, i requires 0 <= i < |sorted| => ItemOf(sorted[i]))
  }

  /** One item per (Timestamp, Name) group, in timestamp order, no group twice. */
  lemma ItemsOrdered(entries: seq<MigrationFileEntry>)
    ensures var items := MigrationItems(entries);
      && |items| == |GroupKeys(entries)|
      && (forall i, j :: 0 <= i < j < |items| ==> LessEq(items[i].Timestamp, items[j].Timestamp))
      && (forall i, j :: 0 <= i < j < |items| ==> (items[i].Timestamp, items[i].Name) != (items[j].Timestamp, items[j].Name))
  {
    MergedAndSorted(entries);
  }

  /** Every migration of the directories is listed, under its own
      timestamp and name. */
  lemma EveryGroupListed(entries: seq<MigrationFileEntry>, e: MigrationFileEntry)
    requires e in entries
    ensures exists i :: (0 <= i < |MigrationItems(entries)|
      && MigrationItems(entries)[i].Timestamp == e.Timestamp && MigrationItems(entries)[i].Name == e.Name)
  {
    var sorted := Merged(entries);
    MergedCovers(entries, e);
    var i :| 0 <= i < |sorted| && KeyOf(sorted[i]) == KeyOf(e);
    assert MigrationItems(entries)[i] == ItemOf(sorted[i]);
  }

  /** Each item is labelled "timestamp - name", or by its name alone when it
      has no timestamp, and opens the file of an entry of its group: a
      primary file whenever the group has one. */
  lemma ItemsLabelled(entries: seq<MigrationFileEntry>, i: nat)
    requires i < |MigrationItems(entries)|
    ensures var item := MigrationItems(entries)[i];
      && item.Display == (if item.Timestamp == [] then item.Name else item.Timestamp + " - " + item.Name)
      && exists e ::
           && e in entries && e.Path == item.FilePath && KeyOf(e) == (item.Timestamp, item.Name)
           && (e.IsDesigner ==> forall x :: x in entries && KeyOf(x) == KeyOf(e) ==> x.IsDesigner)
  {
    var sorted := Merged(entries);
    MergedAndSorted(entries);
    assert sorted[i] in sorted;
    assert MigrationItems(entries)[i] == ItemOf(sorted[i]);
  }

  /** Migrations without a timestamp are listed before all others. */
  lemma UntimedFirst(entries: seq<MigrationFileEntry>, i: nat, j: nat)
    requires i < |MigrationItems(entries)| && j < |MigrationItems(entries)|
    requires MigrationItems(entries)[i].Timestamp == [] && MigrationItems(entries)[j].Timestamp != []
    ensures i < j
  {
    var items := MigrationItems(entries);
    ItemsOrdered(entries);
    EmptyIsLeast(items[j].Timestamp);
  }

  /** BuildMigrationItems: the migration list for the selected context. */
  method BuildMigrationItems(projectDirectory: string, selectedContext: string, listing: Listing)
    returns (items: seq<MigrationItem>)
    ensures items == MigrationItems(EntriesOfDirs(SearchedDirs(projectDirectory, selectedContext, listing), listing))
  {
    var entries := GetMigrationFileEntries(projectDirectory, selectedContext, listing);
    items := MigrationItems(entries);
  }

  // ---------------------------------------------------------------------
  // Duplicate-name check before generating a migration

  /** The trimmed new migration name equals, ignoring case, the name of an
      existing migration group. */
  function NameTaken(entries: seq<MigrationFileEntry>, migrationVersion: string): (taken: bool)
    ensures taken <==> exists e :: e in entries && EqualsIgnoreCase(e.Name, Trim(migrationVersion))
  {
    var ks := GroupKeys(entries);
    var taken := exists i :: 0 <= i < |ks| && EqualsIgnoreCase(ks[i].1, Trim(migrationVersion));
    assert taken ==> exists e :: e in entries && EqualsIgnoreCase(e.Name, Trim(migrationVersion)) by {
      if taken {
        var i :| 0 <= i < |ks| && EqualsIgnoreCase(ks[i].1, Trim(migrationVersion));
        assert ks[i] in ks;
      }
    }
    assert (exists e :: e in entries && EqualsIgnoreCase(e.Name, Trim(migrationVersion))) ==> taken by {
      if e :| e in entries && EqualsIgnoreCase(e.Name, Trim(migrationVersion)) {
        assert HasKey(entries, KeyOf(e));
        var i :| 0 <= i < |ks| && ks[i] == KeyOf(e);
      }
    }
    taken
  }
}
