/** What the four passes over a migration file read out of it: the regular
    expressions of ApplyCreateTable, ApplyAddColumn, ApplyDropColumn and
    ApplyAlterColumn, and the column operations their matches produce, in
    the order the passes apply them. */
module Extract {
  import opened Text
  import opened Regexes

  // ---------------------------------------------------------------------
  // The patterns

  const Ws := Run(Space, 0, true, "")
  const UpToParen := Run(AnyBut(')'), 0, false, "")
  const NullableFlag := OneOf(["true", "false"], "nullable")

  /** A CreateTable call: the table group is the quoted name argument. */
  const TableNamePattern: Pattern := [
    Lit("CreateTable"), Ws, Lit("("), Ws, Lit("name:"), Ws, Lit("\""),
    Run(AnyBut('"'), 1, true, "table"), Lit("\"")
  ]

  /** A column line of a CreateTable block: a word naming the column, an
      assignment from table.Column with the CLR type as generic argument, and
      the nullable flag found lazily inside the argument list. */
  const ColumnLinePattern: Pattern := [
    Run(Word, 1, true, "col"), Ws, Lit("="), Ws, Lit("table.Column<"),
    Run(AnyBut('>'), 1, true, "type"), Lit(">("), UpToParen, Lit("nullable:"), Ws, NullableFlag
  ]

  /** The shape shared by AddColumn and AlterColumn calls: the CLR type as
      generic argument, then lazily inside the argument list the quoted column
      name, the quoted table name and the nullable flag, in that order. */
  function TypedColumnPattern(verb: string): Pattern {
    [
      Lit(verb + "<"), Run(AnyBut('>'), 1, true, "type"), Lit(">("),
      UpToParen, Lit("name:"), Ws, Lit("\""), Run(AnyBut('"'), 1, true, "col"), Lit("\""),
      UpToParen, Lit("table:"), Ws, Lit("\""), Run(AnyBut('"'), 1, true, "table"), Lit("\""),
      UpToParen, Lit("nullable:"), Ws, NullableFlag
    ]
  }

  const AddColumnPattern: Pattern := TypedColumnPattern("AddColumn")
  const AlterColumnPattern: Pattern := TypedColumnPattern("AlterColumn")

  /** A DropColumn call: the quoted column name, then the quoted table name,
      each found lazily inside the argument list. */
  const DropColumnPattern: Pattern := [
    Lit("DropColumn("),
    UpToParen, Lit("name:"), Ws, Lit("\""), Run(AnyBut('"'), 1, true, "col"), Lit("\""),
    UpToParen, Lit("table:"), Ws, Lit("\""), Run(AnyBut('"'), 1, true, "table"), Lit("\"")
  ]

  /** The shapes of the named groups. */
  const QuotedName := RunOf(AnyBut('"'), 1)
  const TypeText := RunOf(AnyBut('>'), 1)
  const Flag := WordIn(["true", "false"])

  const TableNameShapes: map<string, Shape> := map["table" := QuotedName]
  const ColumnLineShapes: map<string, Shape> :=
    map["col" := RunOf(Word, 1), "type" := TypeText, "nullable" := Flag]
  const TypedColumnShapes: map<string, Shape> :=
    map["col" := QuotedName, "type" := TypeText, "table" := QuotedName, "nullable" := Flag]
  const DropColumnShapes: map<string, Shape> := map["col" := QuotedName, "table" := QuotedName]

  // ---------------------------------------------------------------------
  // Column operations

  /** One change to the schema: UpsertColumn, or the removal of a column
      from its table. */
  datatype Op =
    | Upsert(table: string, col: string, clr: string, nullable: bool)
    | Drop(table: string, col: string)

  /** The nullable group read as a flag: equal to "true", ignoring case. */
  predicate IsTrue(token: string) {
    EqualsIgnoreCase(token, "true")
  }

  /** The upsert a column match describes, for a table named elsewhere. */
  function ColumnOp(table: string, text: string, m: Match): Op {
    Upsert(table, Group(text, m, "col"), Trim(Group(text, m, "type")), IsTrue(Group(text, m, "nullable")))
  }

  /** Where the block of a CreateTable match ends: at the next occurrence of
      "CreateTable" after its first character, or at the end of the content
      when there is none. */
  function BlockEnd(content: string, start: nat): (end: nat)
    requires start < |content|
    ensures start < end <= |content|
    ensures forall k :: start < k < end ==> !OccursAt(content, "CreateTable", k)
    ensures end < |content| ==> OccursAt(content, "CreateTable", end)
  {
    var i := IndexOf(content, "CreateTable", start + 1);
    if i == -1 then
      assert !OccursAt(content, "CreateTable", |content|);
      |content|
    else i
  }

  /** The upserts of the columns of one CreateTable block. The contract
      gives only their number; what they hold is stated by TableOpsFit. */
  function BlockOps(table: string, block: string): (ops: seq<Op>)
    ensures |ops| == |Matches(ColumnLinePattern, block)|
  {
    var ms := Matches(ColumnLinePattern, block);
    seq(|ms|, i requires 0 <= i < |ms| => ColumnOp(table, block, ms[i]))
  }

  /** A match of a pattern that starts with a non-empty literal starts
      before the end of the text. */
  lemma LiteralHeadedMatch(p: Pattern, s: string, m: Match)
    requires Found(p, s, m) && p != [] && p[0].Lit? && p[0].text != []
    ensures m.start + |p[0].text| <= |s|
  {
  }

  /** The upserts of the given CreateTable matches, one block after another;
      what they hold is stated by TableOpsFit. */
  function TableOps(content: string, tms: seq<Match>): seq<Op>
    requires forall i :: 0 <= i < |tms| ==> tms[i].start < |content|
  {
    if tms == [] then []
    else
      var tm := tms[|tms| - 1];
      var block := content[tm.start..BlockEnd(content, tm.start)];
      TableOps(content, tms[..|tms| - 1]) + BlockOps(Group(content, tm, "table"), block)
  }

  /** Every CreateTable match starts inside the content. */
  lemma TableMatchesInside(content: string)
    ensures var tms := Matches(TableNamePattern, content);
      forall i :: 0 <= i < |tms| ==> tms[i].start < |content|
  {
    var tms := Matches(TableNamePattern, content);
    MatchesFound(TableNamePattern, content, 0);
    forall i | 0 <= i < |tms| ensures tms[i].start < |content| {
      LiteralHeadedMatch(TableNamePattern, content, tms[i]);
    }
  }

  /** The operations of the CreateTable pass; see CreateTableOpsFit. */
  function CreateTableOps(content: string): seq<Op> {
    TableMatchesInside(content);
    TableOps(content, Matches(TableNamePattern, content))
  }

  /** The upsert of an AddColumn or AlterColumn match. */
  function TypedColumnOp(content: string, m: Match): Op {
    Upsert(Group(content, m, "table"), Group(content, m, "col"), Trim(Group(content, m, "type")),
           IsTrue(Group(content, m, "nullable")))
  }

  /** The operations of the AddColumn pass, one per match. The contract
      gives only their number; what they hold is stated by AddColumnOpsFit. */
  function AddColumnOps(content: string): (ops: seq<Op>)
    ensures |ops| == |Matches(AddColumnPattern, content)|
  {
    var ms := Matches(AddColumnPattern, content);
    seq(|ms|, i requires 0 <= i < |ms| => TypedColumnOp(content, ms[i]))
  }

  /** The operations of the DropColumn pass, one per match; see
      DropColumnOpsFit. */
  function DropColumnOps(content: string): (ops: seq<Op>)
    ensures |ops| == |Matches(DropColumnPattern, content)|
  {
    var ms := Matches(DropColumnPattern, content);
    seq(|ms|, i requires 0 <= i < |ms| => Drop(Group(content, ms[i], "table"), Group(content, ms[i], "col")))
  }

  /** The operations of the AlterColumn pass, one per match; see
      AlterColumnOpsFit. */
  function AlterColumnOps(content: string): (ops: seq<Op>)
    ensures |ops| == |Matches(AlterColumnPattern, content)|
  {
    var ms := Matches(AlterColumnPattern, content);
    seq(|ms|, i requires 0 <= i < |ms| => TypedColumnOp(content, ms[i]))
  }

  /** The operations of one migration file, in the order of the passes:
      CreateTable, AddColumn, DropColumn, AlterColumn. Their effect on the
      schema is stated by Schema.FilePassOrder, their form by FileOpsFit. */
  function FileOps(content: string): seq<Op> {
    CreateTableOps(content) + AddColumnOps(content) + DropColumnOps(content) + AlterColumnOps(content)
  }

  // ---------------------------------------------------------------------
  // What the operations can hold

  lemma TableNameConforms()
    ensures Conforms(TableNamePattern, TableNameShapes)
  {
  }

  lemma ColumnLineConforms()
    ensures Conforms(ColumnLinePattern, ColumnLineShapes)
  {
  }

  lemma TypedColumnConforms(verb: string)
    ensures Conforms(TypedColumnPattern(verb), TypedColumnShapes)
  {
  }

  lemma DropColumnConforms()
    ensures Conforms(DropColumnPattern, DropColumnShapes)
  {
  }

  /** A name written between double quotes: non-empty, without a quote. */
  predicate Quoted(t: string) {
    t != [] && '"' !in t
  }

  /** What every operation read from a file satisfies: quoted table (and
      column) names, a column name without quotes, and a trimmed type
      without '>'. */
  predicate WellFormed(op: Op) {
    match op
    case Upsert(table, col, clr, _) => Quoted(table) && Quoted(col) && IsTrimmed(clr) && '>' !in clr
    case Drop(table, col) => Quoted(table) && Quoted(col)
  }

  /** The nullable group is literally "true" or "false", so the
      case-insensitive comparison accepts exactly "true". */
  lemma FlagExact(token: string)
    requires token in ["true", "false"]
    ensures IsTrue(token) <==> token == "true"
  {
    if token == "false" {
      assert Fold(token)[0] == 'F';
    }
  }

  lemma TypeGroupFits(t: string)
    requires HasShape(t, TypeText)
    ensures IsTrimmed(Trim(t)) && '>' !in Trim(t)
  {
    assert '>' !in t by {
      forall i | 0 <= i < |t| ensures t[i] != '>' {
        assert InClass(t[i], AnyBut('>'));
      }
    }
    TrimKeeps(t, '>');
  }

  lemma QuotedGroupFits(t: string)
    requires HasShape(t, QuotedName)
    ensures Quoted(t)
  {
    assert '"' !in t by {
      forall i | 0 <= i < |t| ensures t[i] != '"' {
        assert InClass(t[i], AnyBut('"'));
      }
    }
  }

  lemma WordGroupFits(t: string)
    requires HasShape(t, RunOf(Word, 1))
    ensures Quoted(t)
  {
    assert '"' !in t by {
      forall i | 0 <= i < |t| ensures t[i] != '"' {
        assert InClass(t[i], Word);
      }
    }
  }

  /** An AddColumn or AlterColumn match gives a well-formed upsert whose
      nullable flag is the literal word "true". */
  lemma TypedColumnOpFits(verb: string, content: string, m: Match)
    requires Found(TypedColumnPattern(verb), content, m)
    ensures WellFormed(TypedColumnOp(content, m))
    ensures TypedColumnOp(content, m).nullable <==> Group(content, m, "nullable") == "true"
  {
    var p := TypedColumnPattern(verb);
    TypedColumnConforms(verb);
    assert NameOf(p[1]) == "type" && NameOf(p[7]) == "col" && NameOf(p[13]) == "table" && NameOf(p[18]) == "nullable";
    GroupsFit(p, content, m, TypedColumnShapes, "type");
    GroupsFit(p, content, m, TypedColumnShapes, "col");
    GroupsFit(p, content, m, TypedColumnShapes, "table");
    GroupsFit(p, content, m, TypedColumnShapes, "nullable");
    TypeGroupFits(Group(content, m, "type"));
    QuotedGroupFits(Group(content, m, "col"));
    QuotedGroupFits(Group(content, m, "table"));
    FlagExact(Group(content, m, "nullable"));
  }

  /** A column line gives a well-formed upsert for a well-formed table name. */
  lemma ColumnOpFits(table: string, block: string, m: Match)
    requires Found(ColumnLinePattern, block, m) && Quoted(table)
    ensures WellFormed(ColumnOp(table, block, m))
    ensures ColumnOp(table, block, m).nullable <==> Group(block, m, "nullable") == "true"
  {
    var p := ColumnLinePattern;
    ColumnLineConforms();
    assert NameOf(p[0]) == "col" && NameOf(p[5]) == "type" && NameOf(p[10]) == "nullable";
    GroupsFit(p, block, m, ColumnLineShapes, "col");
    GroupsFit(p, block, m, ColumnLineShapes, "type");
    GroupsFit(p, block, m, ColumnLineShapes, "nullable");
    WordGroupFits(Group(block, m, "col"));
    TypeGroupFits(Group(block, m, "type"));
    FlagExact(Group(block, m, "nullable"));
  }

  lemma {:induction false} TableOpsFit(content: string, tms: seq<Match>)
    requires forall i :: 0 <= i < |tms| ==> tms[i].start < |content| && Found(TableNamePattern, content, tms[i])
    ensures forall op :: op in TableOps(content, tms) ==> op.Upsert? && WellFormed(op)
  {
    if tms != [] {
      var tm := tms[|tms| - 1];
      TableOpsFit(content, tms[..|tms| - 1]);
      var table := Group(content, tm, "table");
      TableNameConforms();
      assert NameOf(TableNamePattern[7]) == "table";
      GroupsFit(TableNamePattern, content, tm, TableNameShapes, "table");
      QuotedGroupFits(table);
      var block := content[tm.start..BlockEnd(content, tm.start)];
      var ms := Matches(ColumnLinePattern, block);
      MatchesFound(ColumnLinePattern, block, 0);
      forall i | 0 <= i < |ms| ensures WellFormed(BlockOps(table, block)[i]) {
        ColumnOpFits(table, block, ms[i]);
      }
    }
  }

  lemma CreateTableOpsFit(content: string)
    ensures forall op :: op in CreateTableOps(content) ==> op.Upsert? && WellFormed(op)
  {
    var tms := Matches(TableNamePattern, content);
    TableMatchesInside(content);
    MatchesFound(TableNamePattern, content, 0);
    TableOpsFit(content, tms);
  }

  lemma AddColumnOpsFit(content: string)
    ensures forall op :: op in AddColumnOps(content) ==> op.Upsert? && WellFormed(op)
  {
    var ms := Matches(AddColumnPattern, content);
    MatchesFound(AddColumnPattern, content, 0);
    forall i | 0 <= i < |ms| ensures WellFormed(AddColumnOps(content)[i]) {
      TypedColumnOpFits("AddColumn", content, ms[i]);
    }
  }

  lemma AlterColumnOpsFit(content: string)
    ensures forall op :: op in AlterColumnOps(content) ==> op.Upsert? && WellFormed(op)
  {
    var ms := Matches(AlterColumnPattern, content);
    MatchesFound(AlterColumnPattern, content, 0);
    forall i | 0 <= i < |ms| ensures WellFormed(AlterColumnOps(content)[i]) {
      TypedColumnOpFits("AlterColumn", content, ms[i]);
    }
  }

  lemma DropColumnOpsFit(content: string)
    ensures forall op :: op in DropColumnOps(content) ==> op.Drop? && WellFormed(op)
  {
    var p := DropColumnPattern;
    var ms := Matches(p, content);
    MatchesFound(p, content, 0);
    DropColumnConforms();
    assert NameOf(p[5]) == "col" && NameOf(p[11]) == "table";
    forall i | 0 <= i < |ms| ensures WellFormed(DropColumnOps(content)[i]) {
      GroupsFit(p, content, ms[i], DropColumnShapes, "col");
      GroupsFit(p, content, ms[i], DropColumnShapes, "table");
      QuotedGroupFits(Group(content, ms[i], "col"));
      QuotedGroupFits(Group(content, ms[i], "table"));
    }
  }

  /** Every operation read from a file is well formed. */
  lemma FileOpsFit(content: string)
    ensures forall op :: op in FileOps(content) ==> WellFormed(op)
  {
    CreateTableOpsFit(content);
    AddColumnOpsFit(content);
    DropColumnOpsFit(content);
    AlterColumnOpsFit(content);
  }
}
