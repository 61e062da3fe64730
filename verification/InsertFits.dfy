/** When a profile reads a generated INSERT as it is meant, in terms of the names and values of the request. */
module InsertFits {
  import opened Wrappers
  import opened Bytes
  import opened LexProfiles
  import opened Tokenizer
  import opened SqlQuoting
  import opened SqlBuilders
  import opened SqlStatements

  lemma {:induction false} FitsConcat(p: LexProfile, a: seq<Piece>, b: seq<Piece>)
    ensures Fits(p, a + b) <==> Fits(p, a) && Fits(p, b)
  {
    if a == [] {
      assert a + b == b;
    } else {
      FitsConcat(p, a[1..], b);
      assert (a + b)[1..] == a[1..] + b;
    }
  }

  lemma FitsOne(p: LexProfile, x: Piece)
    ensures Fits(p, [x]) <==> FitsPiece(p, x)
  {
    assert [x][1..] == [];
  }

  lemma FitsSeparated(p: LexProfile, a: seq<Piece>, sep: Text, b: seq<Piece>)
    ensures Fits(p, a + [Plain(sep)] + b) <==> Fits(p, a) && Fits(p, b)
  {
    FitsConcat(p, a + [Plain(sep)], b);
    FitsConcat(p, a, [Plain(sep)]);
    FitsOne(p, Plain(sep));
  }

  lemma {:induction false} FitsJoin(p: LexProfile, parts: seq<seq<Piece>>, sep: Text)
    ensures Fits(p, JoinPieces(parts, sep)) <==> forall i | 0 <= i < |parts| :: Fits(p, parts[i])
  {
    if |parts| >= 2 {
      FitsJoin(p, parts[1..], sep);
      FitsSeparated(p, parts[0], sep, JoinPieces(parts[1..], sep));
      assert forall i | 1 <= i < |parts| :: parts[i] == parts[1..][i - 1];
    }
  }

  predicate CellFits(p: LexProfile, cell: Option<Text>, isBoolean: bool, style: BooleanLiterals) {
    BareCell(cell, isBoolean, style).None? ==> FitsQuoted(p, cell.value, QUOTE)
  }

  predicate RowFits(p: LexProfile, row: Row, booleanColumns: seq<bool>, style: BooleanLiterals) {
    forall i | 0 <= i < |row| :: CellFits(p, row[i], IsBooleanColumn(booleanColumns, i), style)
  }

  /** Every name fits the profile in its quotes, and every value that is written as a literal does in its own. */
  predicate RequestFits(p: LexProfile, req: InsertRequest, q: Byte) {
    && FitsQuoted(p, req.table, q)
    && (req.schema.Some? ==> FitsQuoted(p, req.schema.value, q))
    && (forall i | 0 <= i < |req.columns| :: FitsQuoted(p, req.columns[i], q))
    && (forall i | 0 <= i < |req.rows| :: RowFits(p, req.rows[i], req.booleanColumns, req.booleanStyle))
  }

  lemma TableRefFits(p: LexProfile, table: Text, schema: Option<Text>, q: Byte)
    ensures Fits(p, TableRefPieces(table, schema, q)) <==>
            FitsQuoted(p, table, q) && (schema.Some? ==> FitsQuoted(p, schema.value, q))
  {
    FitsOne(p, Quoted(q, table));
    if schema.Some? {
      FitsOne(p, Quoted(q, schema.value));
      FitsSeparated(p, [Quoted(q, schema.value)], [DOT], [Quoted(q, table)]);
      assert TableRefPieces(table, schema, q) == [Quoted(q, schema.value)] + [Plain([DOT])] + [Quoted(q, table)];
    }
  }

  lemma NamesFit(p: LexProfile, names: seq<Text>, q: Byte)
    ensures Fits(p, JoinPieces(NamePieces(names, q), Ascii(", "))) <==>
            forall i | 0 <= i < |names| :: FitsQuoted(p, names[i], q)
  {
    FitsJoin(p, NamePieces(names, q), Ascii(", "));
    forall i | 0 <= i < |names|
      ensures Fits(p, NamePieces(names, q)[i]) <==> FitsQuoted(p, names[i], q)
    {
      FitsOne(p, Quoted(q, names[i]));
    }
  }

  lemma RowFitsExactly(p: LexProfile, row: Row, booleanColumns: seq<bool>, style: BooleanLiterals)
    ensures Fits(p, RowPieces(row, booleanColumns, style)) <==> RowFits(p, row, booleanColumns, style)
  {
    var cells := CellPieces(row, booleanColumns, style);
    FitsJoin(p, cells, Ascii(", "));
    forall i | 0 <= i < |row|
      ensures Fits(p, cells[i]) <==> CellFits(p, row[i], IsBooleanColumn(booleanColumns, i), style)
    {
      FitsOne(p, CellPiece(row[i], IsBooleanColumn(booleanColumns, i), style));
    }
    var body := JoinPieces(cells, Ascii(", "));
    FitsOne(p, Plain(Ascii("(")));
    FitsOne(p, Plain(Ascii(")")));
    FitsConcat(p, [Plain(Ascii("("))], body);
    FitsConcat(p, [Plain(Ascii("("))] + body, [Plain(Ascii(")"))]);
  }

  lemma RowsFit(p: LexProfile, rows: seq<Row>, booleanColumns: seq<bool>, style: BooleanLiterals)
    ensures Fits(p, JoinPieces(RowsPieces(rows, booleanColumns, style), Ascii(", "))) <==>
            forall i | 0 <= i < |rows| :: RowFits(p, rows[i], booleanColumns, style)
  {
    var parts := RowsPieces(rows, booleanColumns, style);
    FitsJoin(p, parts, Ascii(", "));
    forall i | 0 <= i < |rows|
      ensures Fits(p, parts[i]) <==> RowFits(p, rows[i], booleanColumns, style)
    {
      RowFitsExactly(p, rows[i], booleanColumns, style);
    }
  }

  lemma InsertFitsExactly(p: LexProfile, req: InsertRequest, q: Byte)
    ensures Fits(p, InsertPieces(req, q)) <==> RequestFits(p, req, q)
  {
    var start, table := [Plain(Ascii("INSERT INTO "))], TableRefPieces(req.table, req.schema, q);
    var names := JoinPieces(NamePieces(req.columns, q), Ascii(", "));
    var rows := JoinPieces(RowsPieces(req.rows, req.booleanColumns, req.booleanStyle), Ascii(", "));
    FitsOne(p, start[0]);
    FitsConcat(p, start, table);
    FitsSeparated(p, start + table, Ascii(" ("), names);
    FitsSeparated(p, start + table + [Plain(Ascii(" ("))] + names, Ascii(") VALUES "), rows);
    TableRefFits(p, req.table, req.schema, q);
    NamesFit(p, req.columns, q);
    RowsFit(p, req.rows, req.booleanColumns, req.booleanStyle);
  }

  /** Every profile, triple quotes and backslash escapes included, reads a generated INSERT as it is meant exactly
      when every name and every literal value of the request fits it. */
  lemma InsertReadAsMeantExactly(p: LexProfile, req: InsertRequest, q: Byte)
    requires IsQuote(q)
    ensures ValidPieces(InsertPieces(req, q))
    ensures Tokenize(p, InsertSql(req, [q]), 0) == IntendedTokens(InsertPieces(req, q)) <==> RequestFits(p, req, q)
  {
    InsertTokenizesAsIntendedExactly(p, req, q);
    InsertFitsExactly(p, req, q);
  }
}
