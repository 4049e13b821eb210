/** The schema being rebuilt: a case-insensitive dictionary from table name
    to a case-insensitive dictionary from column name to ColumnInfo. Both
    dictionaries use OrdinalIgnoreCase, so they are keyed here by the
    upper-cased name; the spelling .NET keeps for a key is never read back,
    because only the stored ColumnInfo values leave the schema. */
module Schema {
  import opened Text
  import opened Records
  import opened TypeNames
  import opened Regexes
  import opened Extract

  type Tables = map<string, map<string, ColumnInfo>>

  /** The column stored under a table and column name, ignoring case. */
  function Lookup(t: Tables, table: string, col: string): Option<ColumnInfo> {
    var tk, ck := Fold(table), Fold(col);
    if tk in t && ck in t[tk] then Some(t[tk][ck]) else None
  }

  /** Every stored column sits under the folded spelling of its own table
      and column name. */
  predicate Consistent(t: Tables) {
    forall tk, ck :: tk in t && ck in t[tk] ==> Fold(t[tk][ck].Table) == tk && Fold(t[tk][ck].Column) == ck
  }

  /** Both names denote the same table and column, ignoring case. */
  predicate SameSlot(table: string, col: string, table': string, col': string) {
    EqualsIgnoreCase(table, table') && EqualsIgnoreCase(col, col')
  }

  /** The ColumnInfo UpsertColumn stores. */
  function ColumnOf(table: string, col: string, clr: string, nullable: bool): ColumnInfo {
    ColumnInfo(table, col, ToCSharpTypeName(clr), nullable)
  }

  /** UpsertColumn: the table is created when missing; the column is
      inserted or replaced by c. */
  function Upserted(t: Tables, c: ColumnInfo): (r: Tables)
    ensures r.Keys == t.Keys + {Fold(c.Table)}
  {
    var tk := Fold(c.Table);
    var cols := if tk in t then t[tk] else map[];
    t[tk := cols[Fold(c.Column) := c]]
  }

  /** After an upsert the column holds the new ColumnInfo, whatever the case
      it is named in; every other column is unchanged. */
  lemma UpsertedLookup(t: Tables, c: ColumnInfo, table: string, col: string)
    ensures Lookup(Upserted(t, c), table, col)
      == if SameSlot(c.Table, c.Column, table, col) then Some(c) else Lookup(t, table, col)
  {
  }

  /** Helper for UpsertColumn: the two paths of its body, written as map
      updates, give Upserted. */
  lemma UpsertWritesBack(t: Tables, c: ColumnInfo)
    ensures var tk := Fold(c.Table);
      Upserted(t, c)
      == if tk in t then t[tk := t[tk][Fold(c.Column) := c]]
         else t[tk := map[]][tk := map[][Fold(c.Column) := c]]
  {
  }

  lemma UpsertedConsistent(t: Tables, c: ColumnInfo)
    requires Consistent(t)
    ensures Consistent(Upserted(t, c))
  {
    var r: Tables := Upserted(t, c);
    forall tk: string, ck: string | tk in r && ck in r[tk]
      ensures Fold(r[tk][ck].Table) == tk && Fold(r[tk][ck].Column) == ck
    {
      if tk == Fold(c.Table) && ck == Fold(c.Column) {
        assert r[tk][ck] == c;
      } else {
        assert ck in t[tk] && r[tk][ck] == t[tk][ck];
      }
    }
  }

  /** The DropColumn pass: the column is removed when its table exists;
      the table itself stays, even when it becomes empty. */
  function Dropped(t: Tables, table: string, col: string): (r: Tables)
    ensures r.Keys == t.Keys
  {
    var tk := Fold(table);
    if tk in t then t[tk := t[tk] - {Fold(col)}] else t
  }

  /** After a drop the column is absent, whatever the case it is named in;
      every other column is unchanged. */
  lemma DroppedLookup(t: Tables, table: string, col: string, table': string, col': string)
    ensures Lookup(Dropped(t, table, col), table', col')
      == if SameSlot(table, col, table', col') then None else Lookup(t, table', col')
  {
  }

  lemma DroppedConsistent(t: Tables, table: string, col: string)
    requires Consistent(t)
    ensures Consistent(Dropped(t, table, col))
  {
  }

  function Apply(t: Tables, op: Op): Tables {
    match op
    case Upsert(table, col, clr, nullable) => Upserted(t, ColumnOf(table, col, clr, nullable))
    case Drop(table, col) => Dropped(t, table, col)
  }

  /** The operations applied one after another. */
  function ApplyAll(t: Tables, ops: seq<Op>): Tables {
    if ops == [] then t else Apply(ApplyAll(t, ops[..|ops| - 1]), ops[|ops| - 1])
  }

  lemma ApplyConsistent(t: Tables, op: Op)
    requires Consistent(t)
    ensures Consistent(Apply(t, op))
  {
    match op
    case Upsert(table, col, clr, nullable) => UpsertedConsistent(t, ColumnOf(table, col, clr, nullable));
    case Drop(table, col) => DroppedConsistent(t, table, col);
  }

  /** Replaying operations keeps every column under its own folded names. */
  lemma {:induction false} ApplyAllConsistent(t: Tables, ops: seq<Op>)
    requires Consistent(t)
    ensures Consistent(ApplyAll(t, ops))
  {
    if ops != [] {
      ApplyAllConsistent(t, ops[..|ops| - 1]);
      ApplyConsistent(ApplyAll(t, ops[..|ops| - 1]), ops[|ops| - 1]);
    }
  }

  /** Replaying keeps a consistent schema consistent. */
  lemma KeepsConsistent(t: Tables, ops: seq<Op>)
    ensures Consistent(t) ==> Consistent(ApplyAll(t, ops))
  {
    if Consistent(t) {
      ApplyAllConsistent(t, ops);
    }
  }

  lemma {:induction false} ApplyAllAppend(t: Tables, a: seq<Op>, b: seq<Op>)
    ensures ApplyAll(t, a + b) == ApplyAll(ApplyAll(t, a), b)
    decreases |b|
  {
    if b == [] {
      assert a + b == a;
    } else {
      assert (a + b)[..|a + b| - 1] == a + b[..|b| - 1];
      ApplyAllAppend(t, a, b[..|b| - 1]);
    }
  }

  // ---------------------------------------------------------------------
  // The effect on one column: the last operation that names it wins

  /** The operation names this column, ignoring case. */
  predicate Touches(op: Op, table: string, col: string) {
    SameSlot(op.table, op.col, table, col)
  }

  /** What a column holds after an operation that names it. */
  function EffectOf(op: Op): Option<ColumnInfo> {
    match op
    case Upsert(table, col, clr, nullable) => Some(ColumnOf(table, col, clr, nullable))
    case Drop(_, _) => None
  }

  /** A reference definition, column by column: the effect of the last
      operation naming the column, or what it held before. */
  function LastEffect(ops: seq<Op>, table: string, col: string, before: Option<ColumnInfo>): Option<ColumnInfo> {
    if ops == [] then before
    else if Touches(ops[|ops| - 1], table, col) then EffectOf(ops[|ops| - 1])
    else LastEffect(ops[..|ops| - 1], table, col, before)
  }

  /** Replaying operations agrees with the column-by-column reference. */
  lemma {:induction false} LookupAfter(t: Tables, ops: seq<Op>, table: string, col: string)
    ensures Lookup(ApplyAll(t, ops), table, col) == LastEffect(ops, table, col, Lookup(t, table, col))
  {
    if ops != [] {
      LookupAfter(t, ops[..|ops| - 1], table, col);
      var prev := ApplyAll(t, ops[..|ops| - 1]);
      match ops[|ops| - 1]
      case Upsert(tb, c, clr, n) => UpsertedLookup(prev, ColumnOf(tb, c, clr, n), table, col);
      case Drop(tb, c) => DroppedLookup(prev, tb, c, table, col);
    }
  }

  lemma {:induction false} LastEffectAppend(a: seq<Op>, b: seq<Op>, table: string, col: string, before: Option<ColumnInfo>)
    ensures LastEffect(a + b, table, col, before) == LastEffect(b, table, col, LastEffect(a, table, col, before))
    decreases |b|
  {
    if b == [] {
      assert a + b == a;
    } else {
      assert (a + b)[..|a + b| - 1] == a + b[..|b| - 1];
      LastEffectAppend(a, b[..|b| - 1], table, col, before);
    }
  }

  lemma {:induction false} UntouchedKept(ops: seq<Op>, table: string, col: string, before: Option<ColumnInfo>)
    requires forall op :: op in ops ==> !Touches(op, table, col)
    ensures LastEffect(ops, table, col, before) == before
  {
    if ops != [] {
      UntouchedKept(ops[..|ops| - 1], table, col, before);
    }
  }

  lemma {:induction false} DropsOnlyRemove(ops: seq<Op>, table: string, col: string, before: Option<ColumnInfo>)
    requires forall op :: op in ops ==> op.Drop?
    requires exists op :: op in ops && Touches(op, table, col)
    ensures LastEffect(ops, table, col, before) == None
  {
    var last := ops[|ops| - 1];
    assert last in ops;
    if !Touches(last, table, col) {
      var op :| op in ops && Touches(op, table, col);
      assert op in ops[..|ops| - 1];
      DropsOnlyRemove(ops[..|ops| - 1], table, col, before);
    }
  }

  /** The four passes over one file run in a fixed order, so for any column
      an AlterColumn beats a DropColumn, which beats an AddColumn, which
      beats a CreateTable of the same file, wherever each appears in the
      text. */
  lemma FilePassOrder(t: Tables, content: string, table: string, col: string)
    ensures Lookup(ApplyAll(t, FileOps(content)), table, col)
      == LastEffect(AlterColumnOps(content), table, col,
           LastEffect(DropColumnOps(content), table, col,
             LastEffect(AddColumnOps(content), table, col,
               LastEffect(CreateTableOps(content), table, col, Lookup(t, table, col)))))
  {
    var c, a, d, l := CreateTableOps(content), AddColumnOps(content), DropColumnOps(content), AlterColumnOps(content);
    LookupAfter(t, c + a + d + l, table, col);
    LastEffectAppend(c + a + d, l, table, col, Lookup(t, table, col));
    LastEffectAppend(c + a, d, table, col, Lookup(t, table, col));
    LastEffectAppend(c, a, table, col, Lookup(t, table, col));
  }

  /** A column that a file drops is gone after that file unless the same
      file also alters it, even when the drop is written before an
      AddColumn of the same column. */
  lemma DroppedInFile(t: Tables, content: string, table: string, col: string)
    requires exists op :: op in DropColumnOps(content) && Touches(op, table, col)
    requires forall op :: op in AlterColumnOps(content) ==> !Touches(op, table, col)
    ensures Lookup(ApplyAll(t, FileOps(content)), table, col) == None
  {
    FilePassOrder(t, content, table, col);
    DropColumnOpsFit(content);
    var before := LastEffect(AddColumnOps(content), table, col,
                    LastEffect(CreateTableOps(content), table, col, Lookup(t, table, col)));
    DropsOnlyRemove(DropColumnOps(content), table, col, before);
    UntouchedKept(AlterColumnOps(content), table, col, None);
  }

  /** Tables are never removed: after the operations there is a table for
      every table there was before and every table an upsert named. */
  lemma {:induction false} TablesKept(t: Tables, ops: seq<Op>)
    ensures ApplyAll(t, ops).Keys == t.Keys + set op | op in ops && op.Upsert? :: Fold(op.table)
  {
    if ops != [] {
      var init := ops[..|ops| - 1];
      TablesKept(t, init);
      var last := ops[|ops| - 1];
      assert forall op :: op in ops <==> op in init || op == last;
    }
  }

  // ---------------------------------------------------------------------
  // Flattening: SelectMany over the tables, ordered by Table then Column

  /** Ordinal order by table name, then by column name. */
  predicate ColumnBefore(a: ColumnInfo, b: ColumnInfo) {
    Less(a.Table, b.Table) || (a.Table == b.Table && Less(a.Column, b.Column))
  }

  predicate SamePair(a: ColumnInfo, b: ColumnInfo) {
    a.Table == b.Table && a.Column == b.Column
  }

  lemma ColumnBeforeTrichotomy(a: ColumnInfo, b: ColumnInfo)
    ensures ColumnBefore(a, b) || ColumnBefore(b, a) || SamePair(a, b)
    ensures !(ColumnBefore(a, b) && ColumnBefore(b, a))
    ensures SamePair(a, b) ==> !ColumnBefore(a, b)
  {
    LessTrichotomy(a.Table, b.Table);
    LessTrichotomy(a.Column, b.Column);
    LessIrreflexive(a.Table);
    LessIrreflexive(a.Column);
    if Less(a.Table, b.Table) {
      LessAsymmetric(a.Table, b.Table);
    }
    if Less(a.Column, b.Column) {
      LessAsymmetric(a.Column, b.Column);
    }
  }

  lemma ColumnBeforeTransitive(a: ColumnInfo, b: ColumnInfo, c: ColumnInfo)
    requires ColumnBefore(a, b) && ColumnBefore(b, c)
    ensures ColumnBefore(a, c)
  {
    if Less(a.Table, b.Table) && Less(b.Table, c.Table) {
      LessTransitive(a.Table, b.Table, c.Table);
    } else if a.Table == b.Table && b.Table == c.Table {
      LessTransitive(a.Column, b.Column, c.Column);
    }
  }

  /** No two columns of the set share their table and column names. */
  predicate DistinctPairs(cs: set<ColumnInfo>) {
    forall a, b :: a in cs && b in cs && SamePair(a, b) ==> a == b
  }

  predicate IsFirst(c: ColumnInfo, cs: set<ColumnInfo>) {
    c in cs && forall d :: d in cs ==> !ColumnBefore(d, c)
  }

  lemma {:induction false} FirstExists(cs: set<ColumnInfo>)
    requires cs != {}
    ensures exists c :: IsFirst(c, cs)
    decreases |cs|
  {
    var x :| x in cs;
    var rest := cs - {x};
    if rest == {} {
      assert cs == {x};
      ColumnBeforeTrichotomy(x, x);
      assert IsFirst(x, cs);
    } else {
      FirstExists(rest);
      var m :| IsFirst(m, rest);
      ColumnBeforeTrichotomy(m, x);
      if ColumnBefore(x, m) {
        forall d | d in cs ensures !ColumnBefore(d, x) {
          if d != x && ColumnBefore(d, x) {
            ColumnBeforeTransitive(d, x, m);
          }
          ColumnBeforeTrichotomy(x, x);
        }
        assert IsFirst(x, cs);
      } else {
        forall d | d in cs ensures !ColumnBefore(d, m) {
          if d == x {
            ColumnBeforeTrichotomy(m, x);
          }
        }
        assert IsFirst(m, cs);
      }
    }
  }

  lemma FirstUnique(cs: set<ColumnInfo>, a: ColumnInfo, b: ColumnInfo)
    requires DistinctPairs(cs) && IsFirst(a, cs) && IsFirst(b, cs)
    ensures a == b
  {
    ColumnBeforeTrichotomy(a, b);
  }

  /** The column of a non-empty set that comes first in the order. */
  function FirstOf(cs: set<ColumnInfo>): (c: ColumnInfo)
    requires cs != {} && DistinctPairs(cs)
    ensures IsFirst(c, cs)
  {
    FirstExists(cs);
    assert forall a, b :: IsFirst(a, cs) && IsFirst(b, cs) ==> a == b by {
      forall a, b | IsFirst(a, cs) && IsFirst(b, cs) ensures a == b {
        FirstUnique(cs, a, b);
      }
    }
    var c :| IsFirst(c, cs);
    c
  }

  /** The first column precedes every other column of its set. */
  lemma FirstPrecedes(c: ColumnInfo, cs: set<ColumnInfo>, rest: seq<ColumnInfo>)
    requires DistinctPairs(cs) && IsFirst(c, cs)
    requires forall d :: d in rest <==> d in cs - {c}
    ensures forall d :: d in rest ==> ColumnBefore(c, d)
  {
    forall d | d in rest ensures ColumnBefore(c, d) {
      ColumnBeforeTrichotomy(c, d);
    }
  }

  /** The columns of a set in table-then-column order. */
  function SortedColumns(cs: set<ColumnInfo>): (r: seq<ColumnInfo>)
    requires DistinctPairs(cs)
    ensures |r| == |cs|
    ensures forall c :: c in r <==> c in cs
    ensures forall i, j :: 0 <= i < j < |r| ==> ColumnBefore(r[i], r[j])
    decreases |cs|
  {
    if cs == {} then []
    else
      var c := FirstOf(cs);
      var rest := SortedColumns(cs - {c});
      FirstPrecedes(c, cs, rest);
      [c] + rest
  }

  /** Every ColumnInfo the schema holds. */
  function StoredColumns(t: Tables): set<ColumnInfo> {
    set tk, ck | tk in t && ck in t[tk] :: t[tk][ck]
  }

  lemma StoredPairsDistinct(t: Tables)
    requires Consistent(t)
    ensures DistinctPairs(StoredColumns(t))
  {
  }

  /** Every stored column, ordered by table name and then by column name. */
  function Flatten(t: Tables): (r: seq<ColumnInfo>)
    requires Consistent(t)
    ensures forall c :: c in r <==> exists tk, ck :: tk in t && ck in t[tk] && t[tk][ck] == c
    ensures forall i, j :: 0 <= i < j < |r| ==> ColumnBefore(r[i], r[j])
  {
    StoredPairsDistinct(t);
    SortedColumns(StoredColumns(t))
  }

  /** The flattened list is exactly what the schema holds: a column is
      listed and carries the given names (ignoring case) exactly when it is
      the column found under those names. */
  lemma FlattenIsLookup(t: Tables, table: string, col: string, c: ColumnInfo)
    requires Consistent(t)
    ensures Lookup(t, table, col) == Some(c) <==> c in Flatten(t) && SameSlot(c.Table, c.Column, table, col)
  {
    if Lookup(t, table, col) == Some(c) {
      assert t[Fold(table)][Fold(col)] == c;
    }
  }

  // ---------------------------------------------------------------------
  // The dictionary the passes update in place

  lemma ApplyStep(t: Tables, ops: seq<Op>, i: nat)
    requires i < |ops|
    ensures ApplyAll(t, ops[..i + 1]) == Apply(ApplyAll(t, ops[..i]), ops[i])
  {
    assert ops[..i + 1][..i] == ops[..i];
  }

  /** One step of a pass whose next operation is an upsert. */
  lemma UpsertStep(t: Tables, ops: seq<Op>, i: nat, table: string, col: string, clr: string, nullable: bool)
    requires i < |ops| && ops[i] == Upsert(table, col, clr, nullable)
    ensures ApplyAll(t, ops[..i + 1]) == Upserted(ApplyAll(t, ops[..i]), ColumnOf(table, col, clr, nullable))
  {
    ApplyStep(t, ops, i);
  }

  /** One CreateTable block of the pass: its column upserts follow those of
      the blocks before it. */
  lemma TableStep(t: Tables, content: string, tms: seq<Match>, i: nat)
    requires i < |tms| && forall k :: 0 <= k < |tms| ==> tms[k].start < |content|
    ensures ApplyAll(t, TableOps(content, tms[..i + 1]))
         == ApplyAll(ApplyAll(t, TableOps(content, tms[..i])),
                     BlockOps(Group(content, tms[i], "table"), content[tms[i].start..BlockEnd(content, tms[i].start)]))
  {
    assert tms[..i + 1][..i] == tms[..i];
    ApplyAllAppend(t, TableOps(content, tms[..i]),
                   BlockOps(Group(content, tms[i], "table"), content[tms[i].start..BlockEnd(content, tms[i].start)]));
  }

  /** The executable form of Extract.BlockEnd, as the pass computes it with
      IndexOf: the text of the CreateTable block starting at start. */
  method BlockText(content: string, start: nat) returns (block: string)
    requires start < |content|
    ensures block == content[start..BlockEnd(content, start)]
  {
    var end := IndexOf(content, "CreateTable", start + 1);
    if end == -1 {
      end := |content|;
    }
    block := content[start..end];
  }

  /** The schema dictionary of InferSchemaUpTo, which UpsertColumn and the
      four Apply passes update in place. */
  class SchemaMap {
    var tables: Tables

    /** The class invariant: every column sits under its own folded names. */
    predicate Valid()
      reads this
    {
      Consistent(tables)
    }

    constructor()
      ensures Valid() && tables == map[]
    {
      tables := map[];
    }

    /** UpsertColumn: reuse the table's dictionary or add an empty one, then
        store the column under its name. */
    method UpsertColumn(table: string, col: string, clr: string, nullable: bool)
      modifies this
      ensures tables == Upserted(old(tables), ColumnOf(table, col, clr, nullable))
      ensures old(Valid()) ==> Valid()
    {
      ghost var t0 := tables;
      var tk := Fold(table);
      var cols: map<string, ColumnInfo>;
      if tk in tables {
        cols := tables[tk];
      } else {
        cols := map[];
        tables := tables[tk := cols];
      }
      var ci := ColumnInfo(table, col, ToCSharpTypeName(clr), nullable);
      cols := cols[Fold(col) := ci];
      tables := tables[tk := cols];
      UpsertWritesBack(t0, ci);
      if Consistent(t0) {
        UpsertedConsistent(t0, ci);
      }
    }

    /** The body of the DropColumn pass: remove the column if its table exists. */
    method RemoveColumn(table: string, col: string)
      modifies this
      ensures tables == Dropped(old(tables), table, col)
      ensures old(Valid()) ==> Valid()
    {
      ghost var t0 := tables;
      var tk := Fold(table);
      if tk in tables {
        var cols := tables[tk];
        cols := cols - {Fold(col)};
        tables := tables[tk := cols];
      }
      if Consistent(t0) {
        DroppedConsistent(t0, table, col);
      }
    }

    /** ApplyCreateTable: every CreateTable name, then every column line of
        its block. */
    method ApplyCreateTable(content: string)
      modifies this
      ensures tables == ApplyAll(old(tables), CreateTableOps(content))
      ensures old(Valid()) ==> Valid()
    {
      var tms := Matches(TableNamePattern, content);
      TableMatchesInside(content);
      ghost var t0 := tables;
      UpsertTables(content, tms);
      KeepsConsistent(t0, CreateTableOps(content));
    }

    /** The outer loop of ApplyCreateTable, over the CreateTable matches. */
    method UpsertTables(content: string, tms: seq<Match>)
      requires forall k :: 0 <= k < |tms| ==> tms[k].start < |content|
      modifies this
      ensures tables == ApplyAll(old(tables), TableOps(content, tms))
    {
      ghost var t0 := tables;
      for i := 0 to |tms|
        invariant tables == ApplyAll(t0, TableOps(content, tms[..i]))
      {
        var table := Group(content, tms[i], "table");
        var block := BlockText(content, tms[i].start);
        TableStep(t0, content, tms, i);
        UpsertBlock(table, block);
      }
      assert tms[..|tms|] == tms;
    }

    /** The inner loop of ApplyCreateTable: the column lines of one block. */
    method UpsertBlock(table: string, block: string)
      modifies this
      ensures tables == ApplyAll(old(tables), BlockOps(table, block))
    {
      var cms := Matches(ColumnLinePattern, block);
      ghost var ops := BlockOps(table, block);
      ghost var t0 := tables;
      for j := 0 to |cms|
        invariant tables == ApplyAll(t0, ops[..j])
      {
        var op := ColumnOp(table, block, cms[j]);
        assert ops[j] == op;
        UpsertStep(t0, ops, j, table, op.col, op.clr, op.nullable);
        UpsertColumn(table, op.col, op.clr, op.nullable);
      }
      assert ops[..|cms|] == ops;
    }

    /** ApplyAddColumn: every AddColumn call, in the order of the text. */
    method ApplyAddColumn(content: string)
      modifies this
      ensures tables == ApplyAll(old(tables), AddColumnOps(content))
      ensures old(Valid()) ==> Valid()
    {
      var ms := Matches(AddColumnPattern, content);
      ghost var ops := AddColumnOps(content);
      ghost var t0 := tables;
      for i := 0 to |ms|
        invariant tables == ApplyAll(t0, ops[..i])
      {
        var op := TypedColumnOp(content, ms[i]);
        assert ops[i] == op;
        UpsertStep(t0, ops, i, op.table, op.col, op.clr, op.nullable);
        UpsertColumn(op.table, op.col, op.clr, op.nullable);
      }
      assert ops[..|ms|] == ops;
      KeepsConsistent(t0, ops);
    }

    /** ApplyDropColumn: every DropColumn call, in the order of the text. */
    method ApplyDropColumn(content: string)
      modifies this
      ensures tables == ApplyAll(old(tables), DropColumnOps(content))
      ensures old(Valid()) ==> Valid()
    {
      var ms := Matches(DropColumnPattern, content);
      ghost var ops := DropColumnOps(content);
      ghost var t0 := tables;
      for i := 0 to |ms|
        invariant tables == ApplyAll(t0, ops[..i])
      {
        var table := Group(content, ms[i], "table");
        var col := Group(content, ms[i], "col");
        ApplyStep(t0, ops, i);
        RemoveColumn(table, col);
      }
      assert ops[..|ms|] == ops;
      KeepsConsistent(t0, ops);
    }

    /** ApplyAlterColumn: every AlterColumn call, in the order of the text. */
    method ApplyAlterColumn(content: string)
      modifies this
      ensures tables == ApplyAll(old(tables), AlterColumnOps(content))
      ensures old(Valid()) ==> Valid()
    {
      var ms := Matches(AlterColumnPattern, content);
      ghost var ops := AlterColumnOps(content);
      ghost var t0 := tables;
      for i := 0 to |ms|
        invariant tables == ApplyAll(t0, ops[..i])
      {
        var op := TypedColumnOp(content, ms[i]);
        assert ops[i] == op;
        UpsertStep(t0, ops, i, op.table, op.col, op.clr, op.nullable);
        UpsertColumn(op.table, op.col, op.clr, op.nullable);
      }
      assert ops[..|ms|] == ops;
      KeepsConsistent(t0, ops);
    }
  }
}
