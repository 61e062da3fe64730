/** Whole generated statements: how the lexer reads them, and how a large import is cut into them. */
module SqlStatements {
  import opened Wrappers
  import opened Bytes
  import opened LexProfiles
  import opened Tokenizer
  import opened Classifier
  import opened SqlQuoting
  import opened SqlBuilders

  // ---------- The pieces of an INSERT ----------

  function JoinPieces(parts: seq<seq<Piece>>, sep: Text): seq<Piece> {
    if parts == [] then []
    else if |parts| == 1 then parts[0]
    else parts[0] + [Plain(sep)] + JoinPieces(parts[1..], sep)
  }

  function NamePieces(names: seq<Text>, q: Byte): seq<seq<Piece>> {
    seq(|names|, i requires 0 <= i < |names| => [Quoted(q, names[i])])
  }

  function CellPiece(cell: Option<Text>, isBoolean: bool, style: BooleanLiterals): Piece {
    match BareCell(cell, isBoolean, style)
    case Some(word) => Plain(word)
    case None => Quoted(QUOTE, cell.value)
  }

  function CellPieces(row: Row, booleanColumns: seq<bool>, style: BooleanLiterals): seq<seq<Piece>> {
    seq(|row|, i requires 0 <= i < |row| => [CellPiece(row[i], IsBooleanColumn(booleanColumns, i), style)])
  }

  function RowPieces(row: Row, booleanColumns: seq<bool>, style: BooleanLiterals): seq<Piece> {
    [Plain(Ascii("("))] + JoinPieces(CellPieces(row, booleanColumns, style), Ascii(", ")) + [Plain(Ascii(")"))]
  }

  function RowsPieces(rows: seq<Row>, booleanColumns: seq<bool>, style: BooleanLiterals): seq<seq<Piece>> {
    seq(|rows|, i requires 0 <= i < |rows| => RowPieces(rows[i], booleanColumns, style))
  }

  function TableRefPieces(table: Text, schema: Option<Text>, q: Byte): seq<Piece> {
    match schema
    case Some(s) => [Quoted(q, s), Plain([DOT]), Quoted(q, table)]
    case None => [Quoted(q, table)]
  }

  /** What each byte of a generated INSERT is meant to be: every name and value is one quoted piece. */
  function InsertPieces(req: InsertRequest, q: Byte): seq<Piece> {
    [Plain(Ascii("INSERT INTO "))] + TableRefPieces(req.table, req.schema, q) +
    [Plain(Ascii(" ("))] + JoinPieces(NamePieces(req.columns, q), Ascii(", ")) + [Plain(Ascii(") VALUES "))] +
    JoinPieces(RowsPieces(req.rows, req.booleanColumns, req.booleanStyle), Ascii(", "))
  }

  // ---------- The pieces render to the statement ----------

  lemma {:induction false} RenderConcat(a: seq<Piece>, b: seq<Piece>)
    ensures Render(a + b) == Render(a) + Render(b)
  {
    if a == [] {
      assert a + b == b;
    } else {
      RenderConcat(a[1..], b);
      RenderCons(a, a + b, b);
    }
  }

  lemma RenderCons(a: seq<Piece>, ab: seq<Piece>, b: seq<Piece>)
    requires a != [] && ab == a + b
    ensures Render(ab) == PieceText(a[0]) + Render(a[1..] + b)
  {
    assert ab[1..] == a[1..] + b;
  }

  lemma RenderOne(x: Piece)
    ensures Render([x]) == PieceText(x)
  {
    assert [x][1..] == [];
  }

  function RenderAll(parts: seq<seq<Piece>>): seq<Text> {
    seq(|parts|, i requires 0 <= i < |parts| => Render(parts[i]))
  }

  lemma {:induction false} RenderJoin(parts: seq<seq<Piece>>, sep: Text)
    ensures Render(JoinPieces(parts, sep)) == Join(RenderAll(parts), sep)
  {
    if |parts| >= 2 {
      RenderJoin(parts[1..], sep);
      assert RenderAll(parts)[1..] == RenderAll(parts[1..]);
      RenderConcat(parts[0] + [Plain(sep)], JoinPieces(parts[1..], sep));
      RenderConcat(parts[0], [Plain(sep)]);
      RenderOne(Plain(sep));
    }
  }

  lemma RenderTableRef(table: Text, schema: Option<Text>, q: Byte)
    ensures Render(TableRefPieces(table, schema, q)) == TableRef(table, schema, [q])
  {
    RenderOne(Quoted(q, table));
    if schema.Some? {
      var pieces := TableRefPieces(table, schema, q);
      assert pieces == [pieces[0]] + ([pieces[1]] + [pieces[2]]);
      RenderConcat([pieces[0]], [pieces[1]] + [pieces[2]]);
      RenderConcat([pieces[1]], [pieces[2]]);
      RenderOne(pieces[0]);
      RenderOne(pieces[1]);
    }
  }

  lemma RenderNames(names: seq<Text>, q: Byte)
    ensures RenderAll(NamePieces(names, q)) == QuotedNames(names, [q])
  {
    forall i | 0 <= i < |names|
      ensures Render(NamePieces(names, q)[i]) == QuoteIdentifier(names[i], [q])
    {
      RenderOne(Quoted(q, names[i]));
    }
  }

  lemma RenderRow(row: Row, booleanColumns: seq<bool>, style: BooleanLiterals)
    ensures Render(RowPieces(row, booleanColumns, style)) == RowToValuesClause(row, booleanColumns, style)
  {
    var cells := CellPieces(row, booleanColumns, style);
    forall i | 0 <= i < |row|
      ensures Render(cells[i]) == CellText(row[i], IsBooleanColumn(booleanColumns, i), style)
    {
      RenderOne(CellPiece(row[i], IsBooleanColumn(booleanColumns, i), style));
    }
    var texts := seq(|row|, i requires 0 <= i < |row| => CellText(row[i], IsBooleanColumn(booleanColumns, i), style));
    assert RenderAll(cells) == texts;
    RenderJoin(cells, Ascii(", "));
    var open, close := [Plain(Ascii("("))], [Plain(Ascii(")"))];
    RenderConcat(open + JoinPieces(cells, Ascii(", ")), close);
    RenderConcat(open, JoinPieces(cells, Ascii(", ")));
    RenderOne(open[0]);
    RenderOne(close[0]);
  }

  lemma RenderRows(rows: seq<Row>, booleanColumns: seq<bool>, style: BooleanLiterals)
    ensures RenderAll(RowsPieces(rows, booleanColumns, style)) == ValuesClauses(rows, booleanColumns, style)
  {
    forall i | 0 <= i < |rows|
      ensures Render(RowsPieces(rows, booleanColumns, style)[i]) == RowToValuesClause(rows[i], booleanColumns, style)
    {
      RenderRow(rows[i], booleanColumns, style);
    }
  }

  lemma RenderInsert(req: InsertRequest, q: Byte)
    ensures Render(InsertPieces(req, q)) == InsertSql(req, [q])
  {
    var a, c, e := [Plain(Ascii("INSERT INTO "))], [Plain(Ascii(" ("))], [Plain(Ascii(") VALUES "))];
    var b := TableRefPieces(req.table, req.schema, q);
    var d := JoinPieces(NamePieces(req.columns, q), Ascii(", "));
    var f := JoinPieces(RowsPieces(req.rows, req.booleanColumns, req.booleanStyle), Ascii(", "));
    RenderConcat(a + b + c + d + e, f);
    RenderConcat(a + b + c + d, e);
    RenderConcat(a + b + c, d);
    RenderConcat(a + b, c);
    RenderConcat(a, b);
    RenderOne(a[0]);
    RenderOne(c[0]);
    RenderOne(e[0]);
    RenderTableRef(req.table, req.schema, q);
    RenderNames(req.columns, q);
    RenderJoin(NamePieces(req.columns, q), Ascii(", "));
    RenderRows(req.rows, req.booleanColumns, req.booleanStyle);
    RenderJoin(RowsPieces(req.rows, req.booleanColumns, req.booleanStyle), Ascii(", "));
  }

  // ---------- The pieces are tidy ----------

  lemma {:induction false} TidyConcat(a: seq<Piece>, b: seq<Piece>)
    requires Tidy(a) && Tidy(b)
    requires a != [] && b != [] ==> MayFollow(a[|a| - 1], b[0])
    ensures Tidy(a + b)
  {
    if a == [] {
      assert a + b == b;
    } else {
      TidyConcat(a[1..], b);
      assert (a + b)[1..] == a[1..] + b;
    }
  }

  predicate IsSeparator(t: Text) { IsPlainText(t) && !EndsInE(t) }

  /** A separator may be put between any two tidy lists. */
  lemma TidySeparated(a: seq<Piece>, sep: Text, b: seq<Piece>)
    requires Tidy(a) && Tidy(b) && IsSeparator(sep)
    ensures Tidy(a + [Plain(sep)] + b)
  {
    assert [Plain(sep)][1..] == [];
    TidyConcat(a, [Plain(sep)]);
    TidyConcat(a + [Plain(sep)], b);
  }

  lemma {:induction false} TidyJoin(parts: seq<seq<Piece>>, sep: Text)
    requires (forall i | 0 <= i < |parts| :: Tidy(parts[i])) && IsSeparator(sep)
    ensures Tidy(JoinPieces(parts, sep))
  {
    if |parts| >= 2 {
      TidyJoin(parts[1..], sep);
      TidySeparated(parts[0], sep, JoinPieces(parts[1..], sep));
    }
  }

  lemma Separators()
    ensures IsSeparator(Ascii("INSERT INTO ")) && IsSeparator(Ascii(" (")) && IsSeparator(Ascii(") VALUES "))
    ensures IsSeparator(Ascii("(")) && IsSeparator(Ascii(")")) && IsSeparator(Ascii(", ")) && IsSeparator([DOT])
  {
  }

  lemma BareWordsArePlain()
    ensures IsPlainText(Ascii("NULL")) && IsPlainText(Ascii("TRUE")) && IsPlainText(Ascii("FALSE"))
    ensures IsPlainText(Ascii("1")) && IsPlainText(Ascii("0"))
  {
  }

  lemma TidyCell(cell: Option<Text>, isBoolean: bool, style: BooleanLiterals)
    ensures TidyPiece(CellPiece(cell, isBoolean, style))
  {
    BareWordsArePlain();
  }

  lemma TidyRow(row: Row, booleanColumns: seq<bool>, style: BooleanLiterals)
    ensures Tidy(RowPieces(row, booleanColumns, style))
  {
    var cells := CellPieces(row, booleanColumns, style);
    forall i | 0 <= i < |cells|
      ensures Tidy(cells[i])
    {
      TidyCell(row[i], IsBooleanColumn(booleanColumns, i), style);
      assert cells[i][1..] == [];
    }
    Separators();
    TidyJoin(cells, Ascii(", "));
    var inner := JoinPieces(cells, Ascii(", "));
    TidySeparated([], Ascii("("), inner);
    assert [] + [Plain(Ascii("("))] + inner == [Plain(Ascii("("))] + inner;
    TidySeparated([Plain(Ascii("("))] + inner, Ascii(")"), []);
    assert [Plain(Ascii("("))] + inner + [Plain(Ascii(")"))] + [] == RowPieces(row, booleanColumns, style);
  }

  lemma TidyTableRef(table: Text, schema: Option<Text>, q: Byte)
    requires IsQuote(q)
    ensures Tidy(TableRefPieces(table, schema, q))
  {
    assert [Quoted(q, table)][1..] == [];
    if schema.Some? {
      assert [Quoted(q, schema.value)][1..] == [];
      Separators();
      TidySeparated([Quoted(q, schema.value)], [DOT], [Quoted(q, table)]);
      assert [Quoted(q, schema.value)] + [Plain([DOT])] + [Quoted(q, table)] == TableRefPieces(table, schema, q);
    }
  }

  lemma TidyInsert(req: InsertRequest, q: Byte)
    requires IsQuote(q)
    ensures Tidy(InsertPieces(req, q))
  {
    Separators();
    var b := TableRefPieces(req.table, req.schema, q);
    var names, rows := NamePieces(req.columns, q), RowsPieces(req.rows, req.booleanColumns, req.booleanStyle);
    forall i | 0 <= i < |names|
      ensures Tidy(names[i])
    {
      assert names[i][1..] == [];
    }
    forall i | 0 <= i < |rows|
      ensures Tidy(rows[i])
    {
      TidyRow(req.rows[i], req.booleanColumns, req.booleanStyle);
    }
    TidyTableRef(req.table, req.schema, q);
    TidyJoin(names, Ascii(", "));
    TidyJoin(rows, Ascii(", "));
    var d, f := JoinPieces(names, Ascii(", ")), JoinPieces(rows, Ascii(", "));
    TidySeparated([], Ascii("INSERT INTO "), b);
    assert [] + [Plain(Ascii("INSERT INTO "))] + b == [Plain(Ascii("INSERT INTO "))] + b;
    TidySeparated([Plain(Ascii("INSERT INTO "))] + b, Ascii(" ("), d);
    TidySeparated([Plain(Ascii("INSERT INTO "))] + b + [Plain(Ascii(" ("))] + d, Ascii(") VALUES "), f);
  }

  // ---------- How the lexer and the classifier read an INSERT ----------

  lemma {:induction false} SkeletonHasNoSemicolon(pieces: seq<Piece>)
    requires Tidy(pieces)
    ensures SEMICOLON !in Skeleton(pieces)
  {
    if pieces != [] {
      SkeletonHasNoSemicolon(pieces[1..]);
    }
  }

  /** Every name and value of a generated INSERT is one quoted token, and no other byte is part of one. */
  lemma InsertTokenizesAsIntended(p: LexProfile, req: InsertRequest, q: Byte)
    requires IsQuote(q) && Fits(p, InsertPieces(req, q))
    ensures ValidPieces(InsertPieces(req, q))
    ensures Tokenize(p, InsertSql(req, [q]), 0) == IntendedTokens(InsertPieces(req, q))
    ensures Strip(p, false, InsertSql(req, [q])) == Skeleton(InsertPieces(req, q))
  {
    RenderInsert(req, q);
    TidyInsert(req, q);
    TokenizesAsIntended(p, InsertPieces(req, q));
    StripsToSkeleton(p, InsertPieces(req, q));
  }

  lemma InsertKeyword()
    ensures KeywordOf(Ascii("INSERT")) == KwDml && Ascii("INSERT") != Ascii("CREATE")
  {
    assert Ascii("INSERT")[0] == 73 && Ascii("CREATE")[0] == 67;
    assert Ascii("SELECT")[0] == 83 && Ascii("VALUES")[0] == 86 && Ascii("PRAGMA")[0] == 80;
    assert Ascii("INSERT") in DML;
  }

  lemma StartsWithInsert(t: Text)
    requires Ascii("INSERT INTO ") <= t
    ensures TrimStart(t) == t && Peel(t) == t && FirstKeyword(Upper(t)) == Ascii("INSERT")
  {
    var head := Ascii("INSERT INTO ");
    assert t[0] == head[0] && t[6] == head[6];
    var u := Upper(t);
    assert forall k | 0 <= k < 6 :: u[k] == Ascii("INSERT")[k] by {
      assert forall k | 0 <= k < 6 :: t[k] == head[k];
    }
    assert u[6] == SPACE;
    assert forall k | 0 <= k < 6 :: IsAlpha(u[k]);
    assert AlphaRunEnd(u, 0) == 6;
    assert u[..6] == Ascii("INSERT");
  }

  lemma InsertKeywordWrites(u: Text)
    requires FirstKeyword(u) == Ascii("INSERT")
    ensures ClassifyByKeyword(u) == Write && !IsCreateCompoundRoutine(u)
  {
    InsertKeyword();
  }

  /** One statement whose first keyword is INSERT, with nothing before it. */
  predicate BareInsert(t: Text) {
    t != [] && TrimStart(t) == t && Peel(t) == t && FirstKeyword(Upper(t)) == Ascii("INSERT") && !HasTrailing(t)
  }

  lemma BareInsertIsWrite(t: Text, marked: Text)
    requires BareInsert(t)
    ensures ClassifyStripped(t, marked) == Write
  {
    InsertKeywordWrites(Upper(t));
  }

  lemma NoSemicolonNoTrailing(t: Text)
    requires SEMICOLON !in t
    ensures !HasTrailing(t)
  {
  }

  lemma SkeletonIsBareInsert(req: InsertRequest, q: Byte) returns (t: Text)
    requires IsQuote(q)
    ensures t == Skeleton(InsertPieces(req, q)) && BareInsert(t)
  {
    var pieces := InsertPieces(req, q);
    t := Skeleton(pieces);
    TidyInsert(req, q);
    SkeletonHasNoSemicolon(pieces);
    NoSemicolonNoTrailing(t);
    assert pieces[0] == Plain(Ascii("INSERT INTO "));
    assert t[..12] == Ascii("INSERT INTO ");
    StartsWithInsert(t);
  }

  /** A generated INSERT is one statement, and a write, for every profile that its quoting fits. */
  lemma InsertIsOneWrite(p: LexProfile, req: InsertRequest, q: Byte)
    requires IsQuote(q) && Fits(p, InsertPieces(req, q))
    ensures ClassifyWithProfile(InsertSql(req, [q]), p) == Write
    ensures !HasTrailing(Strip(p, false, InsertSql(req, [q])))
  {
    InsertTokenizesAsIntended(p, req, q);
    var t := SkeletonIsBareInsert(req, q);
    BareInsertIsWrite(t, Strip(p, true, InsertSql(req, [q])));
  }

  /** The profile knows no escape but doubling. */
  predicate OnlyDoubles(p: LexProfile) {
    !p.backslashInSingle && !p.backslashInDouble && !p.backslashInBacktick && !p.tripleQuotes
  }

  lemma {:induction false} DoublingAlwaysFits(p: LexProfile, pieces: seq<Piece>)
    requires OnlyDoubles(p)
    ensures Fits(p, pieces)
  {
    if pieces != [] {
      DoublingAlwaysFits(p, pieces[1..]);
    }
  }

  lemma StandardProfilesOnlyDouble()
    ensures OnlyDoubles(LEGACY_STANDARD) && OnlyDoubles(POSTGRES) && OnlyDoubles(SQLITE) && OnlyDoubles(MSSQL)
    ensures OnlyDoubles(MYSQL_NO_BACKSLASH)
  {
  }

  /** Whatever the names and values: one statement, a write, with every token as intended. */
  lemma InsertIsOneWriteWhateverTheValues(p: LexProfile, req: InsertRequest, q: Byte)
    requires IsQuote(q) && OnlyDoubles(p)
    ensures ClassifyWithProfile(InsertSql(req, [q]), p) == Write
    ensures !HasTrailing(Strip(p, false, InsertSql(req, [q])))
    ensures Strip(p, false, InsertSql(req, [q])) == Skeleton(InsertPieces(req, q))
  {
    DoublingAlwaysFits(p, InsertPieces(req, q));
    InsertTokenizesAsIntended(p, req, q);
    InsertIsOneWrite(p, req, q);
  }

  lemma WriteUnderEveryProfile(sql: Text, profiles: seq<LexProfile>)
    requires profiles != [] && ClassifyWithProfile(sql, profiles[0]) == Write
    ensures ClassifyWithProfiles(sql, profiles) == Write
  {
  }

  /** Whatever the names and values, all profiles of SQLite and SQL Server see one statement, and a write. */
  lemma InsertIsOneWriteForDialect(req: InsertRequest, q: Byte, dialect: SqlDialect)
    requires IsQuote(q) && (dialect == Sqlite || dialect == Mssql)
    ensures ClassifyQueryKind(InsertSql(req, [q]), Some(dialect)) == Write
    ensures !HasMultipleStatements(InsertSql(req, [q]), Some(dialect))
  {
    var profiles := LexProfilesFor(Some(dialect));
    StandardProfilesOnlyDouble();
    forall k | 0 <= k < |profiles|
      ensures ClassifyWithProfile(InsertSql(req, [q]), profiles[k]) == Write
      ensures !HasTrailing(Strip(profiles[k], false, InsertSql(req, [q])))
    {
      InsertIsOneWriteWhateverTheValues(profiles[k], req, q);
    }
    WriteUnderEveryProfile(InsertSql(req, [q]), profiles);
  }

  lemma {:induction false} LastOfJoin(parts: seq<seq<Piece>>, sep: Text)
    requires forall i | 0 <= i < |parts| :: parts[i] != [] && parts[i][|parts[i]| - 1].Plain?
    ensures var r := JoinPieces(parts, sep); if parts == [] then r == [] else r != [] && r[|r| - 1].Plain?
  {
    if |parts| >= 2 {
      LastOfJoin(parts[1..], sep);
    }
  }

  /** Every profile reads an INSERT as intended exactly when all names and values fit it. */
  lemma InsertTokenizesAsIntendedExactly(p: LexProfile, req: InsertRequest, q: Byte)
    requires IsQuote(q)
    ensures ValidPieces(InsertPieces(req, q))
    ensures Tokenize(p, InsertSql(req, [q]), 0) == IntendedTokens(InsertPieces(req, q)) <==>
            Fits(p, InsertPieces(req, q))
  {
    RenderInsert(req, q);
    TidyInsert(req, q);
    LastOfJoin(RowsPieces(req.rows, req.booleanColumns, req.booleanStyle), Ascii(", "));
    TokenizesAsIntendedExactly(p, InsertPieces(req, q));
  }

  lemma {:induction false} FitsMember(p: LexProfile, pieces: seq<Piece>, k: nat)
    requires Fits(p, pieces) && k < |pieces|
    ensures FitsPiece(p, pieces[k])
  {
    if k > 0 {
      FitsMember(p, pieces[1..], k - 1);
    }
  }

  /** An INSERT of one row with one value. */
  function OneValue(v: Text): InsertRequest {
    InsertRequest(Ascii("t"), None, [], [[Some(v)]], [], Keywords)
  }

  /** The law does not hold for every profile: a value of one backslash is misread where backslashes escape. */
  lemma BackslashValueIsMisread(p: LexProfile, q: Byte)
    requires IsQuote(q) && p.backslashInSingle
    ensures ValidPieces(InsertPieces(OneValue([BACKSLASH]), q))
    ensures var req := OneValue([BACKSLASH]);
            Tokenize(p, InsertSql(req, [q]), 0) != IntendedTokens(InsertPieces(req, q))
  {
    var pieces := InsertPieces(OneValue([BACKSLASH]), q);
    InsertTokenizesAsIntendedExactly(p, OneValue([BACKSLASH]), q);
    assert pieces[5] == Quoted(QUOTE, [BACKSLASH]);
    if Fits(p, pieces) {
      FitsMember(p, pieces, 5);
    }
  }

  // ---------- Batches ----------

  const BATCH_SIZE: nat := 500

  /** The chunks an import is cut into, from row `i` on. */
  function Batches(rows: seq<Row>, i: nat): (bs: seq<seq<Row>>)
    requires i <= |rows|
    decreases |rows| - i
  {
    if i == |rows| then []
    else if |rows| - i <= BATCH_SIZE then [rows[i..]]
    else [rows[i..i + BATCH_SIZE]] + Batches(rows, i + BATCH_SIZE)
  }

  function AllRows(bs: seq<seq<Row>>): seq<Row> { if bs == [] then [] else bs[0] + AllRows(bs[1..]) }

  /** Every row is in exactly one batch, in order; every batch but the last has 500 rows, and that one 1 to 500. */
  lemma {:induction false} BatchesPartitionRows(rows: seq<Row>, i: nat)
    requires i <= |rows|
    ensures AllRows(Batches(rows, i)) == rows[i..]
    ensures forall k | 0 <= k < |Batches(rows, i)| :: 1 <= |Batches(rows, i)[k]| <= 500
    ensures forall k | 0 <= k < |Batches(rows, i)| - 1 :: |Batches(rows, i)[k]| == 500
    decreases |rows| - i
  {
    if i < |rows| && |rows| - i > BATCH_SIZE {
      BatchesPartitionRows(rows, i + BATCH_SIZE);
      assert rows[i..] == rows[i..i + BATCH_SIZE] + rows[i + BATCH_SIZE..];
    } else if i < |rows| {
      assert [rows[i..]][1..] == [];
    }
  }

  function BatchSql(req: InsertRequest, quote: Text, bs: seq<seq<Row>>): seq<Text> {
    seq(|bs|, k requires 0 <= k < |bs| => InsertSql(req.(rows := bs[k]), quote))
  }

  /** A database connection: it records what it executed, and any statement may fail. */
  class Driver {
    var executed: seq<Text>
    ghost var failures: nat

    constructor ()
      ensures executed == [] && failures == 0
    {
      executed, failures := [], 0;
    }

    method Execute(sql: Text) returns (ok: bool)
      modifies this
      ensures executed == if ok then old(executed) + [sql] else old(executed)
      ensures failures == old(failures) + if ok then 0 else 1
    {
      ok := *;
      if ok {
        executed := executed + [sql];
      } else {
        failures := failures + 1;
      }
    }
  }

  /** Inserts all rows, or reports how many were inserted before the batch that failed. */
  method InsertRows(driver: Driver, req: InsertRequest, quote: Text) returns (r: Result<nat, nat>)
    modifies driver
    ensures driver.failures == old(driver.failures) + if r.Ok? then 0 else 1
    ensures r.Ok? ==> r.value == |req.rows| &&
                      driver.executed == old(driver.executed) + BatchSql(req, quote, Batches(req.rows, 0))
    ensures r.Err? ==> r.error < |req.rows| && r.error % 500 == 0 &&
                       driver.executed == old(driver.executed) + BatchSql(req, quote, Batches(req.rows[..r.error], 0))
  {
    if req.rows == [] {
      assert BatchSql(req, quote, []) == [];
      return Ok(0);
    }
    var inserted := 0;
    while inserted < |req.rows|
      invariant driver.failures == old(driver.failures)
      invariant inserted <= |req.rows| && (inserted % BATCH_SIZE == 0 || inserted == |req.rows|)
      invariant driver.executed == old(driver.executed) + BatchSql(req, quote, Batches(req.rows[..inserted], 0))
    {
      var size := if |req.rows| - inserted <= BATCH_SIZE then |req.rows| - inserted else BATCH_SIZE;
      var chunk := req.rows[inserted..inserted + size];
      var ok := driver.Execute(InsertSql(req.(rows := chunk), quote));
      if !ok {
        return Err(inserted);
      }
      OneMoreBatch(req, quote, inserted, size);
      inserted := inserted + size;
    }
    assert req.rows[..inserted] == req.rows;
    return Ok(inserted);
  }

  lemma {:induction false} LastBatch(rows: seq<Row>, i: nat, n: nat, size: nat)
    requires i <= n && n + size == |rows| && 1 <= size <= BATCH_SIZE && (n - i) % BATCH_SIZE == 0
    ensures Batches(rows, i) == Batches(rows[..n], i) + [rows[n..]]
    decreases n - i
  {
    if i < n {
      assert n - i >= BATCH_SIZE;
      LastBatch(rows, i + BATCH_SIZE, n, size);
      assert rows[..n][i..i + BATCH_SIZE] == rows[i..i + BATCH_SIZE];
      if n - i == BATCH_SIZE {
        assert rows[..n][i..] == rows[i..i + BATCH_SIZE];
        assert Batches(rows[..n], i + BATCH_SIZE) == [];
      }
    }
  }

  lemma OneMoreBatch(req: InsertRequest, quote: Text, n: nat, size: nat)
    requires n + size <= |req.rows| && 1 <= size <= BATCH_SIZE && n % BATCH_SIZE == 0
    ensures BatchSql(req, quote, Batches(req.rows[..n + size], 0)) ==
            BatchSql(req, quote, Batches(req.rows[..n], 0)) +
            [InsertSql(req.(rows := req.rows[n..n + size]), quote)]
  {
    var rows := req.rows[..n + size];
    LastBatch(rows, 0, n, size);
    assert rows[..n] == req.rows[..n];
    assert rows[n..] == req.rows[n..n + size];
  }
}
