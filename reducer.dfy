/** Reconstructing the schema of a project at a chosen migration: the merged,
    time-ordered migration files are replayed in order, each file's four
    passes in turn, until the first file dated after the cut-off; the
    resulting dictionary is flattened into the sorted column list.

    Reading a file is a parameter: `read` maps a path to the text
    File.ReadAllText returns for it. */
module Reducer {
  import opened Text
  import opened Records
  import opened Extract
  import opened Schema
  import opened Catalog

  /** The loop's break condition: a cut-off is given, the file has a
      timestamp, and the timestamp is ordinally greater than the cut-off. */
  predicate Exceeds(timestamp: string, upToTimestamp: string) {
    upToTimestamp != [] && timestamp != [] && Less(upToTimestamp, timestamp)
  }

  /** The files the loop replays: those before the first file that exceeds
      the cut-off. */
  function Applied(files: seq<MigrationFileEntry>, upToTimestamp: string): (r: seq<MigrationFileEntry>)
    ensures |r| <= |files| && r == files[..|r|]
  {
    if files == [] || Exceeds(files[0].Timestamp, upToTimestamp) then []
    else [files[0]] + Applied(files[1..], upToTimestamp)
  }

  /** No applied file exceeds the cut-off, and the first file left out does. */
  lemma {:induction false} AppliedStopsAtCutoff(files: seq<MigrationFileEntry>, upToTimestamp: string)
    ensures var r := Applied(files, upToTimestamp);
      && (forall i :: 0 <= i < |r| ==> !Exceeds(files[i].Timestamp, upToTimestamp))
      && (|r| < |files| ==> Exceeds(files[|r|].Timestamp, upToTimestamp))
  {
    if files != [] && !Exceeds(files[0].Timestamp, upToTimestamp) {
      AppliedStopsAtCutoff(files[1..], upToTimestamp);
      var r := Applied(files, upToTimestamp);
      forall i | 0 <= i < |r| ensures !Exceeds(files[i].Timestamp, upToTimestamp) {
        if i > 0 {
          assert files[i] == files[1..][i - 1];
        }
      }
    }
  }

  lemma AppliedContinues(files: seq<MigrationFileEntry>, upToTimestamp: string, i: nat)
    requires i <= |Applied(files, upToTimestamp)| && i < |files|
    requires !Exceeds(files[i].Timestamp, upToTimestamp)
    ensures i < |Applied(files, upToTimestamp)|
  {
    AppliedStopsAtCutoff(files, upToTimestamp);
  }

  lemma AppliedEnds(files: seq<MigrationFileEntry>, upToTimestamp: string, i: nat)
    requires i <= |Applied(files, upToTimestamp)| && i <= |files|
    requires i == |files| || Exceeds(files[i].Timestamp, upToTimestamp)
    ensures i == |Applied(files, upToTimestamp)|
  {
    AppliedStopsAtCutoff(files, upToTimestamp);
  }

  /** Replaying the files in order, each with its four passes. */
  function Replay(t: Tables, files: seq<MigrationFileEntry>, read: string -> string): Tables {
    if files == [] then t
    else ApplyAll(Replay(t, files[..|files| - 1], read), FileOps(read(files[|files| - 1].Path)))
  }

  lemma {:induction false} ReplayConsistent(t: Tables, files: seq<MigrationFileEntry>, read: string -> string)
    requires Consistent(t)
    ensures Consistent(Replay(t, files, read))
  {
    if files != [] {
      ReplayConsistent(t, files[..|files| - 1], read);
      ApplyAllConsistent(Replay(t, files[..|files| - 1], read), FileOps(read(files[|files| - 1].Path)));
    }
  }

  lemma ReplayStep(t: Tables, files: seq<MigrationFileEntry>, i: nat, read: string -> string)
    requires i < |files|
    ensures Replay(t, files[..i + 1], read) == ApplyAll(Replay(t, files[..i], read), FileOps(read(files[i].Path)))
  {
    assert files[..i + 1][..i] == files[..i];
  }

  /** The four passes in a row replay the operations of the whole file. */
  lemma FilePasses(t: Tables, content: string)
    ensures ApplyAll(ApplyAll(ApplyAll(ApplyAll(t, CreateTableOps(content)), AddColumnOps(content)), DropColumnOps(content)), AlterColumnOps(content))
         == ApplyAll(t, FileOps(content))
  {
    var c, a, d, l := CreateTableOps(content), AddColumnOps(content), DropColumnOps(content), AlterColumnOps(content);
    ApplyAllAppend(t, c, a);
    ApplyAllAppend(t, c + a, d);
    ApplyAllAppend(t, c + a + d, l);
  }

  /** The migration files of a project and context, one per migration, in
      timestamp order. */
  function MigrationFiles(projectDirectory: string, selectedContext: string, listing: Listing): seq<MigrationFileEntry> {
    Merged(EntriesOfDirs(SearchedDirs(projectDirectory, selectedContext, listing), listing))
  }

  /** The column list after replaying `files` on an empty schema. */
  function Columns(files: seq<MigrationFileEntry>, read: string -> string): seq<ColumnInfo> {
    ReplayConsistent(map[], files, read);
    Flatten(Replay(map[], files, read))
  }

  /** The columns of the schema after the files up to the cut-off. */
  function SchemaUpTo(projectDirectory: string, selectedContext: string, upToTimestamp: string,
                      listing: Listing, read: string -> string): seq<ColumnInfo>
  {
    Columns(Applied(MigrationFiles(projectDirectory, selectedContext, listing), upToTimestamp), read)
  }

  /** The body of the loop: the four passes over one file's text. */
  method ReplayFile(schema: SchemaMap, content: string)
    modifies schema
    ensures schema.tables == ApplyAll(old(schema.tables), FileOps(content))
    ensures old(schema.Valid()) ==> schema.Valid()
  {
    ghost var t := schema.tables;
    schema.ApplyCreateTable(content);
    schema.ApplyAddColumn(content);
    schema.ApplyDropColumn(content);
    schema.ApplyAlterColumn(content);
    FilePasses(t, content);
  }

  /** The loop of InferSchemaUpTo: replay file after file, stopping at the
      first file dated after the cut-off. */
  method ReplayUpTo(schema: SchemaMap, files: seq<MigrationFileEntry>, upToTimestamp: string, read: string -> string)
    modifies schema
    ensures schema.tables == Replay(old(schema.tables), Applied(files, upToTimestamp), read)
    ensures old(schema.Valid()) ==> schema.Valid()
  {
    ghost var t0 := schema.tables;
    ghost var applied := Applied(files, upToTimestamp);
    var i := 0;
    while i < |files|
      invariant i <= |applied|
      invariant schema.tables == Replay(t0, applied[..i], read)
      invariant old(schema.Valid()) ==> schema.Valid()
    {
      var f := files[i];
      if upToTimestamp != [] && f.Timestamp != [] && Less(upToTimestamp, f.Timestamp) {
        break;
      }
      AppliedContinues(files, upToTimestamp, i);
      var content := read(f.Path);
      ReplayFile(schema, content);
      ReplayStep(t0, applied, i, read);
      i := i + 1;
    }
    AppliedEnds(files, upToTimestamp, i);
    assert applied[..i] == applied;
  }

  /** InferSchemaUpTo: list, merge and sort the migration files, replay them
      up to the cut-off, then flatten. */
  method InferSchemaUpTo(projectDirectory: string, selectedContext: string, upToTimestamp: string,
                         listing: Listing, read: string -> string)
    returns (columns: seq<ColumnInfo>)
    ensures columns == SchemaUpTo(projectDirectory, selectedContext, upToTimestamp, listing, read)
  {
    var schema := new SchemaMap();
    var entries := GetMigrationFileEntries(projectDirectory, selectedContext, listing);
    var files := Merged(entries);
    ReplayUpTo(schema, files, upToTimestamp, read);
    columns := Flatten(schema.tables);
  }

  /** On time-ordered files the break leaves out exactly the files dated
      after the cut-off: a later file can never have an earlier timestamp. */
  lemma {:induction false} SortedCutoff(files: seq<MigrationFileEntry>, upToTimestamp: string, i: nat)
    requires SortedByTimestamp(files) && i < |files|
    ensures i < |Applied(files, upToTimestamp)| <==> !Exceeds(files[i].Timestamp, upToTimestamp)
  {
    AppliedStopsAtCutoff(files, upToTimestamp);
    var n := |Applied(files, upToTimestamp)|;
    if n <= i {
      var first, ts := files[n].Timestamp, files[i].Timestamp;
      if n < i {
        assert LessEq(first, ts);
        if ts == [] {
          EmptyIsLeast(first);
        }
        LessTrichotomy(first, ts);
        if Less(first, ts) {
          LessTransitive(upToTimestamp, first, ts);
        }
      }
    }
  }

  /** Without a cut-off every migration file is replayed. */
  lemma {:induction false} NoCutoffAppliesAll(files: seq<MigrationFileEntry>)
    ensures Applied(files, []) == files
  {
    if files != [] {
      NoCutoffAppliesAll(files[1..]);
      assert files == [files[0]] + files[1..];
    }
  }

  /** Files without a timestamp are never cut off. */
  lemma UntimedAlwaysApplied(files: seq<MigrationFileEntry>, upToTimestamp: string, i: nat)
    requires i < |files| && files[i].Timestamp == []
    requires SortedByTimestamp(files)
    ensures i < |Applied(files, upToTimestamp)|
  {
    SortedCutoff(files, upToTimestamp, i);
  }

  /** The cut-off is inclusive: a file dated exactly at the cut-off is replayed. */
  lemma CutoffInclusive(files: seq<MigrationFileEntry>, upToTimestamp: string, i: nat)
    requires i < |files| && files[i].Timestamp == upToTimestamp
    requires SortedByTimestamp(files)
    ensures i < |Applied(files, upToTimestamp)|
  {
    LessIrreflexive(upToTimestamp);
    SortedCutoff(files, upToTimestamp, i);
  }

  /** A later cut-off replays a longer prefix of the same files. */
  lemma {:induction false} CutoffMonotone(files: seq<MigrationFileEntry>, early: string, late: string)
    requires early != [] && LessEq(early, late)
    ensures |Applied(files, early)| <= |Applied(files, late)|
  {
    if files != [] && !Exceeds(files[0].Timestamp, early) {
      CutoffMonotone(files[1..], early, late);
      var ts := files[0].Timestamp;
      if Exceeds(ts, late) {
        LessTrichotomy(early, late);
        if Less(early, late) {
          LessTransitive(early, late, ts);
        }
      }
    }
  }

  /** The reconstructed list is ordered by table, then by column. */
  lemma ColumnsOrdered(files: seq<MigrationFileEntry>, read: string -> string)
    ensures var columns := Columns(files, read);
      forall i, j :: 0 <= i < j < |columns| ==> ColumnBefore(columns[i], columns[j])
  {
    ReplayConsistent(map[], files, read);
  }

  /** The reconstructed list holds exactly the columns the replayed
      dictionary holds under their names. */
  lemma ColumnsAreLookups(files: seq<MigrationFileEntry>, read: string -> string, table: string, col: string, c: ColumnInfo)
    ensures Lookup(Replay(map[], files, read), table, col) == Some(c)
        <==> c in Columns(files, read) && SameSlot(c.Table, c.Column, table, col)
  {
    var t := Replay(map[], files, read);
    ReplayConsistent(map[], files, read);
    FlattenIsLookup(t, table, col, c);
  }
}
