/** A reader of INSERT statements that knows nothing of how they are built: it gets back the request. */
module InsertReading {
  import opened Wrappers
  import opened Bytes
  import opened LexProfiles
  import opened Tokenizer
  import opened SqlQuoting
  import opened SqlBuilders
  import opened SqlStatements
  import opened InsertFits

  type Tokens = seq<Lexeme>

  // ---------- The reader ----------

  /** A value as a server reads it: a bare word or number, or a string. */
  datatype Cell = Word(text: Text) | Literal(value: Text)

  datatype Statement = Statement(schema: Option<Text>, table: Text, columns: seq<Text>, rows: seq<seq<Cell>>)

  /** The tokens after the code `t`, if they start with it. */
  function ReadCode(ls: Tokens, t: Text): (r: Option<Tokens>)
    ensures r.Some? ==> |r.value| + |t| == |ls|
    decreases |t|
  {
    if t == [] then Some(ls)
    else if ls != [] && ls[0] == Lexeme(Code, [t[0]]) then ReadCode(ls[1..], t[1..])
    else None
  }

  function ReadQuoted(ls: Tokens, kind: TokenKind, q: Byte): Option<(Text, Tokens)> {
    if ls != [] && ls[0].kind == kind && |ls[0].text| >= 2 then Some((Unquoted(ls[0].text, [q]), ls[1..])) else None
  }

  predicate StartsWord(ls: Tokens) {
    ls != [] && ls[0].kind.Code? && |ls[0].text| == 1 && IsAlphanumeric(ls[0].text[0])
  }

  /** The longest run of letters and digits, and what follows it. */
  function ReadWord(ls: Tokens): (Text, Tokens) {
    if !StartsWord(ls) then ([], ls)
    else
      var (word, rest) := ReadWord(ls[1..]);
      (ls[0].text + word, rest)
  }

  function ReadCell(ls: Tokens): Option<(Cell, Tokens)> {
    match ReadQuoted(ls, SingleQuoted, QUOTE)
    case Some((value, rest)) => Some((Literal(value), rest))
    case None =>
      var (word, rest) := ReadWord(ls);
      Some((Word(word), rest))
  }

  /** One or more items with a comma and a space between them. */
  function ReadList<T>(read: Tokens -> Option<(T, Tokens)>, ls: Tokens): Option<(seq<T>, Tokens)>
    decreases |ls|
  {
    match read(ls)
    case None => None
    case Some((x, rest)) =>
      match ReadCode(rest, Ascii(", "))
      case None => Some(([x], rest))
      case Some(more) =>
        if |more| >= |ls| then None
        else
          match ReadList(read, more)
          case None => None
          case Some((xs, end)) => Some(([x] + xs, end))
  }

  /** A list in parentheses, which may be empty; `open` and `close` are what stands around it. */
  function ReadListIn<T>(read: Tokens -> Option<(T, Tokens)>, open: Text, close: Text, ls: Tokens)
    : Option<(seq<T>, Tokens)>
  {
    match ReadCode(ls, open)
    case None => None
    case Some(inner) =>
      match ReadCode(inner, close)
      case Some(rest) => Some(([], rest))
      case None =>
        match ReadList(read, inner)
        case None => None
        case Some((xs, end)) =>
          match ReadCode(end, close)
          case None => None
          case Some(rest) => Some((xs, rest))
  }

  function ReadRow(ls: Tokens): Option<(seq<Cell>, Tokens)> { ReadListIn(ReadCell, Ascii("("), Ascii(")"), ls) }

  /** A name, or a schema, a dot and a name. */
  function ReadTable(ls: Tokens, kind: TokenKind, q: Byte): Option<((Option<Text>, Text), Tokens)> {
    match ReadQuoted(ls, kind, q)
    case None => None
    case Some((first, rest)) =>
      match ReadCode(rest, [DOT])
      case None => Some(((None, first), rest))
      case Some(more) =>
        match ReadQuoted(more, kind, q)
        case None => None
        case Some((second, end)) => Some(((Some(first), second), end))
  }

  function ReadRows(ls: Tokens): Option<seq<seq<Cell>>> {
    if ls == [] then Some([])
    else
      match ReadList(ReadRow, ls)
      case None => None
      case Some((rows, end)) => if end == [] then Some(rows) else None
  }

  function ReadColumns(ls: Tokens, kind: TokenKind, q: Byte): Option<(seq<Text>, Tokens)> {
    ReadListIn((names: Tokens) => ReadQuoted(names, kind, q), Ascii(" ("), Ascii(") VALUES "), ls)
  }

  function ReadColumnsAndRows(ls: Tokens, kind: TokenKind, q: Byte): Option<(seq<Text>, seq<seq<Cell>>)> {
    match ReadColumns(ls, kind, q)
    case None => None
    case Some((columns, values)) =>
      match ReadRows(values)
      case None => None
      case Some(rows) => Some((columns, rows))
  }

  function ReadInto(ls: Tokens, kind: TokenKind, q: Byte): Option<Statement> {
    match ReadTable(ls, kind, q)
    case None => None
    case Some((table, rest)) =>
      match ReadColumnsAndRows(rest, kind, q)
      case None => None
      case Some((columns, rows)) => Some(Statement(table.0, table.1, columns, rows))
  }

  /** An INSERT whose names are quoted with `q`, by tokens of this kind. */
  function ReadInsert(ls: Tokens, kind: TokenKind, q: Byte): Option<Statement> {
    match ReadCode(ls, Ascii("INSERT INTO "))
    case None => None
    case Some(target) => ReadInto(target, kind, q)
  }

  // ---------- What a cell is read as ----------

  /** `v` spells `w` in any letter case. */
  predicate Spells(v: Text, w: Text) {
    |v| == |w| && forall k | 0 <= k < |v| :: ToUpperByte(v[k]) == ToUpperByte(w[k])
  }

  predicate SpellsTrue(v: Text) { Spells(v, Ascii("true")) || Spells(v, Ascii("yes")) || v == Ascii("1") }

  predicate SpellsFalse(v: Text) { Spells(v, Ascii("false")) || Spells(v, Ascii("no")) || v == Ascii("0") }

  /** NULL stands for no value and for the empty one; in a boolean column, what spells a boolean is one; anything
      else is its own text. */
  predicate Means(cell: Option<Text>, isBoolean: bool, style: BooleanLiterals, r: Cell) {
    if cell == None || cell == Some([]) then r == Word(Ascii("NULL"))
    else if isBoolean && SpellsTrue(cell.value) then r == Word(if style.Keywords? then Ascii("TRUE") else Ascii("1"))
    else if isBoolean && SpellsFalse(cell.value) then r == Word(if style.Keywords? then Ascii("FALSE") else Ascii("0"))
    else r == Literal(cell.value)
  }

  /** The statement says what the request asks for: its table, its columns, and every cell of its rows in order. */
  predicate Says(r: Statement, req: InsertRequest) {
    && r.schema == req.schema && r.table == req.table && r.columns == req.columns
    && |r.rows| == |req.rows|
    && forall i | 0 <= i < |req.rows| :: RowSays(r.rows[i], req.rows[i], req.booleanColumns, req.booleanStyle)
  }

  predicate RowSays(cells: seq<Cell>, row: Row, booleanColumns: seq<bool>, style: BooleanLiterals) {
    && |cells| == |row|
    && forall j | 0 <= j < |row| ::
         Means(row[j], j < |booleanColumns| && booleanColumns[j], style, cells[j])
  }

  lemma LowerIsUpper(b: Byte, c: Byte)
    requires ToLowerByte(c) == c
    ensures ToLowerByte(b) == c <==> ToUpperByte(b) == ToUpperByte(c)
  {
  }

  lemma LowerSpells(v: Text, w: Text)
    requires forall k | 0 <= k < |w| :: ToLowerByte(w[k]) == w[k]
    ensures Lower(v) == w <==> Spells(v, w)
  {
    var l := Lower(v);
    forall k | 0 <= k < |v| && k < |w|
      ensures l[k] == w[k] <==> ToUpperByte(v[k]) == ToUpperByte(w[k])
    {
      LowerIsUpper(v[k], w[k]);
    }
    if Lower(v) == w {
      assert |v| == |w|;
    }
    if Spells(v, w) {
      assert forall k | 0 <= k < |v| :: l[k] == w[k];
      assert l == w;
    }
  }

  lemma DigitSpells(v: Text, d: Byte)
    requires IsDigit(d)
    ensures Spells(v, [d]) <==> v == [d]
  {
    assert Spells(v, [d]) ==> |v| == 1 && ToUpperByte(v[0]) == d;
  }

  lemma TrueWords(v: Text)
    ensures Lower(v) in [Ascii("true"), Ascii("yes"), Ascii("1")] <==> SpellsTrue(v)
  {
    LowerSpells(v, Ascii("true"));
    LowerSpells(v, Ascii("yes"));
    LowerSpells(v, Ascii("1"));
    assert Ascii("1") == [49];
    DigitSpells(v, 49);
  }

  lemma FalseWords(v: Text)
    ensures Lower(v) in [Ascii("false"), Ascii("no"), Ascii("0")] <==> SpellsFalse(v)
  {
    LowerSpells(v, Ascii("false"));
    LowerSpells(v, Ascii("no"));
    LowerSpells(v, Ascii("0"));
    assert Ascii("0") == [48];
    DigitSpells(v, 48);
  }

  function CellOf(x: Piece): Cell { if x.Plain? then Word(x.text) else Literal(x.body) }

  lemma CellMeans(cell: Option<Text>, isBoolean: bool, style: BooleanLiterals)
    ensures Means(cell, isBoolean, style, CellOf(CellPiece(cell, isBoolean, style)))
  {
    if cell.Some? {
      TrueWords(cell.value);
      FalseWords(cell.value);
    }
  }

  // ---------- The reader on the tokens of a statement ----------

  lemma Associate(a: Tokens, b: Tokens, c: Tokens)
    ensures a + (b + c) == (a + b) + c
  {
  }

  lemma IntendedCons(x: Piece, rest: seq<Piece>, all: seq<Piece>)
    requires ValidPiece(x) && ValidPieces(rest) && all == [x] + rest
    ensures ValidPieces(all) && IntendedTokens(all) == PieceLexemes(x) + IntendedTokens(rest)
  {
    assert all[1..] == rest;
  }

  lemma {:induction false} IntendedConcat(a: seq<Piece>, b: seq<Piece>)
    requires ValidPieces(a) && ValidPieces(b)
    ensures ValidPieces(a + b) && IntendedTokens(a + b) == IntendedTokens(a) + IntendedTokens(b)
  {
    if a == [] {
      assert a + b == b;
    } else {
      IntendedConcat(a[1..], b);
      IntendedCons(a[0], a[1..] + b, a + b);
      IntendedCons(a[0], a[1..], a);
      Associate(PieceLexemes(a[0]), IntendedTokens(a[1..]), IntendedTokens(b));
    }
  }

  lemma IntendedOne(x: Piece)
    requires ValidPiece(x)
    ensures ValidPieces([x]) && IntendedTokens([x]) == PieceLexemes(x)
  {
    assert [x][1..] == [];
  }

  lemma {:induction false} CodeIsRead(t: Text, tail: Tokens)
    ensures ReadCode(CodeLexemes(t) + tail, t) == Some(tail)
  {
    if t == [] {
      assert [] + tail == tail;
    } else {
      var ls := CodeLexemes(t) + tail;
      assert ls[1..] == CodeLexemes(t[1..]) + tail && t[..1] == [t[0]];
      CodeIsRead(t[1..], tail);
    }
  }

  lemma QuotedIsRead(v: Text, q: Byte, tail: Tokens)
    requires IsQuote(q)
    ensures ReadQuoted(PieceLexemes(Quoted(q, v)) + tail, QuotedKind(q), q) == Some((v, tail))
  {
    var ls := PieceLexemes(Quoted(q, v)) + tail;
    UnquoteRoundTrip(v, [q]);
    assert ls[0] == Lexeme(QuotedKind(q), QuoteIdentifier(v, [q])) && ls[1..] == tail;
  }

  predicate IsWordText(w: Text) { w != [] && forall k | 0 <= k < |w| :: IsAlphanumeric(w[k]) }

  lemma {:induction false} WordIsRead(w: Text, tail: Tokens)
    requires (forall k | 0 <= k < |w| :: IsAlphanumeric(w[k])) && !StartsWord(tail)
    ensures ReadWord(CodeLexemes(w) + tail) == (w, tail)
  {
    if w == [] {
      assert [] + tail == tail;
    } else {
      var ls := CodeLexemes(w) + tail;
      assert ls[0] == Lexeme(Code, w[..1]) && ls[1..] == CodeLexemes(w[1..]) + tail;
      WordIsRead(w[1..], tail);
      assert w[..1] + w[1..] == w;
    }
  }

  /** What stands after an item of a list ends it: nothing, or code that is no letter and no digit. */
  predicate EndsItem(tail: Tokens) { tail == [] || (tail[0].kind.Code? && !StartsWord(tail)) }

  lemma CellIsRead(x: Piece, tail: Tokens)
    requires x.Plain? ==> IsWordText(x.text)
    requires x.Quoted? ==> x.quote == QUOTE
    requires EndsItem(tail)
    ensures ReadCell(PieceLexemes(x) + tail) == Some((CellOf(x), tail))
  {
    match x
    case Plain(w) =>
      var ls := CodeLexemes(w) + tail;
      assert ls[0].kind == Code;
      WordIsRead(w, tail);
    case Quoted(q, v) =>
      QuotedIsRead(v, QUOTE, tail);
  }

  /** Before any end of an item, the reader reads the tokens `ts` as `x`. */
  ghost predicate ReadsAs<T(!new)>(read: Tokens -> Option<(T, Tokens)>, ts: Tokens, x: T) {
    forall tail: Tokens | EndsItem(tail) :: read(ts + tail) == Some((x, tail))
  }

  function JoinTokens(parts: seq<Tokens>, sep: Tokens): Tokens {
    if parts == [] then []
    else if |parts| == 1 then parts[0]
    else parts[0] + sep + JoinTokens(parts[1..], sep)
  }

  function Comma(): Tokens { CodeLexemes(Ascii(", ")) }

  lemma CommaEndsItem(tail: Tokens)
    ensures EndsItem(Comma() + tail) && ReadCode(Comma() + tail, Ascii(", ")) == Some(tail)
  {
    CodeIsRead(Ascii(", "), tail);
    assert Ascii(", ")[0] == COMMA;
    assert (Comma() + tail)[0] == Lexeme(Code, Ascii(", ")[..1]);
  }

  /** No further item follows. */
  predicate EndsList(tail: Tokens) { EndsItem(tail) && ReadCode(tail, Ascii(", ")).None? }

  ghost predicate AllRead<T(!new)>(read: Tokens -> Option<(T, Tokens)>, parts: seq<Tokens>, xs: seq<T>) {
    |parts| == |xs| && forall k | 0 <= k < |xs| :: ReadsAs(read, parts[k], xs[k])
  }

  lemma {:induction false} ListIsRead<T(!new)>(read: Tokens -> Option<(T, Tokens)>, parts: seq<Tokens>, xs: seq<T>,
                                              tail: Tokens)
    requires xs != [] && AllRead(read, parts, xs) && EndsList(tail)
    ensures ReadList(read, JoinTokens(parts, Comma()) + tail) == Some((xs, tail))
    decreases |xs|
  {
    assert ReadsAs(read, parts[0], xs[0]);
    if |xs| == 1 {
      assert xs == [xs[0]];
    } else {
      var more := JoinTokens(parts[1..], Comma()) + tail;
      CommaEndsItem(more);
      assert JoinTokens(parts, Comma()) + tail == parts[0] + (Comma() + more);
      ListIsRead(read, parts[1..], xs[1..], tail);
      assert [xs[0]] + xs[1..] == xs;
    }
  }

  lemma CodeStart(t: Text, tail: Tokens)
    requires t != []
    ensures CodeLexemes(t) + tail != [] && (CodeLexemes(t) + tail)[0] == Lexeme(Code, [t[0]])
  {
    assert t[..1] == [t[0]];
  }

  lemma OtherCode(ls: Tokens, t: Text)
    requires t != [] && (ls == [] || ls[0] != Lexeme(Code, [t[0]]))
    ensures ReadCode(ls, t).None?
  {
  }

  /** What closes a list ends it. */
  lemma CloserEndsList(close: Text, tail: Tokens)
    requires close != [] && close[0] == CLOSE_PAREN
    ensures EndsList(CodeLexemes(close) + tail)
  {
    CodeStart(close, tail);
    assert Ascii(", ")[0] == COMMA;
    OtherCode(CodeLexemes(close) + tail, Ascii(", "));
  }

  /** No item starts like what closes the list. */
  predicate StartsItem(ts: Tokens) { ts != [] && ts[0] != Lexeme(Code, [CLOSE_PAREN]) }

  predicate AllStart(parts: seq<Tokens>) { forall k | 0 <= k < |parts| :: StartsItem(parts[k]) }

  lemma JoinStart(parts: seq<Tokens>, tail: Tokens)
    requires parts != [] && StartsItem(parts[0])
    ensures StartsItem(JoinTokens(parts, Comma()) + tail)
  {
    assert (JoinTokens(parts, Comma()) + tail)[0] == parts[0][0];
  }

  function ListTokens(parts: seq<Tokens>, open: Text, close: Text): Tokens {
    CodeLexemes(open) + (JoinTokens(parts, Comma()) + CodeLexemes(close))
  }

  lemma ListInIsRead<T(!new)>(read: Tokens -> Option<(T, Tokens)>, parts: seq<Tokens>, xs: seq<T>,
                              open: Text, close: Text, tail: Tokens)
    requires AllRead(read, parts, xs) && AllStart(parts) && close != [] && close[0] == CLOSE_PAREN
    ensures ReadListIn(read, open, close, ListTokens(parts, open, close) + tail) == Some((xs, tail))
  {
    var end := CodeLexemes(close) + tail;
    var inner := JoinTokens(parts, Comma()) + end;
    assert ListTokens(parts, open, close) + tail == CodeLexemes(open) + inner;
    CodeIsRead(open, inner);
    CodeIsRead(close, tail);
    if xs == [] {
      assert inner == end;
    } else {
      JoinStart(parts, end);
      OtherCode(inner, close);
      CloserEndsList(close, tail);
      ListIsRead(read, parts, xs, end);
    }
  }

  function TokensOf(parts: seq<seq<Piece>>): (ts: seq<Tokens>)
    requires forall k | 0 <= k < |parts| :: ValidPieces(parts[k])
  {
    seq(|parts|, k requires 0 <= k < |parts| => IntendedTokens(parts[k]))
  }

  lemma {:induction false} IntendedJoin(parts: seq<seq<Piece>>)
    requires forall k | 0 <= k < |parts| :: ValidPieces(parts[k])
    ensures ValidPieces(JoinPieces(parts, Ascii(", ")))
    ensures IntendedTokens(JoinPieces(parts, Ascii(", "))) == JoinTokens(TokensOf(parts), Comma())
  {
    if |parts| >= 2 {
      IntendedJoin(parts[1..]);
      var sep := Plain(Ascii(", "));
      IntendedOne(sep);
      IntendedConcat(parts[0], [sep]);
      IntendedConcat(parts[0] + [sep], JoinPieces(parts[1..], Ascii(", ")));
      assert TokensOf(parts)[1..] == TokensOf(parts[1..]);
    } else if |parts| == 1 {
      assert TokensOf(parts) == [IntendedTokens(parts[0])];
    }
  }

  lemma WordsAreWords()
    ensures IsWordText(Ascii("NULL")) && IsWordText(Ascii("TRUE")) && IsWordText(Ascii("FALSE"))
    ensures IsWordText(Ascii("1")) && IsWordText(Ascii("0"))
  {
  }

  lemma CellReads(cell: Option<Text>, isBoolean: bool, style: BooleanLiterals)
    ensures var x := CellPiece(cell, isBoolean, style);
            ValidPieces([x]) && ReadsAs(ReadCell, IntendedTokens([x]), CellOf(x)) && StartsItem(IntendedTokens([x]))
  {
    var x := CellPiece(cell, isBoolean, style);
    WordsAreWords();
    IntendedOne(x);
    forall tail: Tokens | EndsItem(tail)
      ensures ReadCell(PieceLexemes(x) + tail) == Some((CellOf(x), tail))
    {
      CellIsRead(x, tail);
    }
    if x.Plain? {
      CodeStart(x.text, []);
      assert PieceLexemes(x) + [] == PieceLexemes(x);
    }
  }

  function RowCells(row: Row, booleanColumns: seq<bool>, style: BooleanLiterals): seq<Cell> {
    seq(|row|, j requires 0 <= j < |row| => CellOf(CellPiece(row[j], IsBooleanColumn(booleanColumns, j), style)))
  }

  lemma CellsRead(row: Row, booleanColumns: seq<bool>, style: BooleanLiterals)
    ensures var parts := CellPieces(row, booleanColumns, style);
            && (forall k | 0 <= k < |parts| :: ValidPieces(parts[k]))
            && AllRead(ReadCell, TokensOf(parts), RowCells(row, booleanColumns, style))
            && AllStart(TokensOf(parts))
  {
    forall j | 0 <= j < |row|
      ensures var x := CellPiece(row[j], IsBooleanColumn(booleanColumns, j), style);
              && ValidPieces([x]) && ReadsAs(ReadCell, IntendedTokens([x]), CellOf(x))
              && StartsItem(IntendedTokens([x]))
    {
      CellReads(row[j], IsBooleanColumn(booleanColumns, j), style);
    }
  }

  lemma GroupTokens(a: Tokens, b: Tokens, c: Tokens)
    ensures a + b + c == a + (b + c)
  {
  }

  lemma HeadTokens(open: Text, body: seq<Piece>) returns (pieces: seq<Piece>)
    requires ValidPieces(body)
    ensures pieces == [Plain(open)] + body && ValidPieces(pieces)
    ensures IntendedTokens(pieces) == CodeLexemes(open) + IntendedTokens(body)
  {
    IntendedOne(Plain(open));
    IntendedConcat([Plain(open)], body);
    pieces := [Plain(open)] + body;
  }

  lemma LastTokens(body: seq<Piece>, close: Text) returns (pieces: seq<Piece>)
    requires ValidPieces(body)
    ensures pieces == body + [Plain(close)] && ValidPieces(pieces)
    ensures IntendedTokens(pieces) == IntendedTokens(body) + CodeLexemes(close)
  {
    IntendedOne(Plain(close));
    IntendedConcat(body, [Plain(close)]);
    pieces := body + [Plain(close)];
  }

  lemma AroundTokens(open: Text, body: seq<Piece>, close: Text)
    requires ValidPieces(body)
    ensures var pieces := [Plain(open)] + body + [Plain(close)];
            && ValidPieces(pieces)
            && IntendedTokens(pieces) == CodeLexemes(open) + (IntendedTokens(body) + CodeLexemes(close))
  {
    var start := HeadTokens(open, body);
    var pieces := LastTokens(start, close);
    GroupTokens(CodeLexemes(open), IntendedTokens(body), CodeLexemes(close));
  }

  lemma BracketedTokens(open: Text, parts: seq<seq<Piece>>, close: Text)
    requires forall k | 0 <= k < |parts| :: ValidPieces(parts[k])
    ensures var pieces := [Plain(open)] + JoinPieces(parts, Ascii(", ")) + [Plain(close)];
            ValidPieces(pieces) && IntendedTokens(pieces) == ListTokens(TokensOf(parts), open, close)
  {
    IntendedJoin(parts);
    AroundTokens(open, JoinPieces(parts, Ascii(", ")), close);
  }

  lemma RowReads(row: Row, booleanColumns: seq<bool>, style: BooleanLiterals)
    ensures var pieces := RowPieces(row, booleanColumns, style);
            && ValidPieces(pieces)
            && ReadsAs(ReadRow, IntendedTokens(pieces), RowCells(row, booleanColumns, style))
  {
    var parts, cells := CellPieces(row, booleanColumns, style), RowCells(row, booleanColumns, style);
    CellsRead(row, booleanColumns, style);
    BracketedTokens(Ascii("("), parts, Ascii(")"));
    var ts := TokensOf(parts);
    forall tail: Tokens | EndsItem(tail)
      ensures ReadRow(ListTokens(ts, Ascii("("), Ascii(")")) + tail) == Some((cells, tail))
    {
      ListInIsRead(ReadCell, ts, cells, Ascii("("), Ascii(")"), tail);
    }
  }

  function RowsCells(rows: seq<Row>, booleanColumns: seq<bool>, style: BooleanLiterals): seq<seq<Cell>> {
    seq(|rows|, i requires 0 <= i < |rows| => RowCells(rows[i], booleanColumns, style))
  }

  lemma RowsRead(rows: seq<Row>, booleanColumns: seq<bool>, style: BooleanLiterals)
    ensures var pieces := JoinPieces(RowsPieces(rows, booleanColumns, style), Ascii(", "));
            ValidPieces(pieces) && ReadRows(IntendedTokens(pieces)) == Some(RowsCells(rows, booleanColumns, style))
  {
    var parts, cells := RowsPieces(rows, booleanColumns, style), RowsCells(rows, booleanColumns, style);
    forall i | 0 <= i < |rows|
      ensures ValidPieces(parts[i]) && ReadsAs(ReadRow, IntendedTokens(parts[i]), cells[i])
    {
      RowReads(rows[i], booleanColumns, style);
    }
    IntendedJoin(parts);
    var ts := TokensOf(parts);
    if rows != [] {
      OtherCode([], Ascii(", "));
      ListIsRead(ReadRow, ts, cells, []);
      var all := JoinTokens(ts, Comma());
      assert all + [] == all;
      RowsAreSomething(ts);
    }
  }

  /** A list of items that are all read is not empty. */
  lemma RowsAreSomething(ts: seq<Tokens>)
    requires ts != [] && ReadList(ReadRow, JoinTokens(ts, Comma())).Some?
    ensures JoinTokens(ts, Comma()) != []
  {
    OtherCode([], Ascii("("));
  }

  lemma NamesRead(names: seq<Text>, q: Byte, tail: Tokens)
    requires IsQuote(q)
    ensures var pieces := [Plain(Ascii(" ("))] + JoinPieces(NamePieces(names, q), Ascii(", ")) +
                          [Plain(Ascii(") VALUES "))];
            && ValidPieces(pieces)
            && ReadColumns(IntendedTokens(pieces) + tail, QuotedKind(q), q) == Some((names, tail))
  {
    var parts := NamePieces(names, q);
    var read := (ls: Tokens) => ReadQuoted(ls, QuotedKind(q), q);
    forall i | 0 <= i < |names|
      ensures ValidPieces(parts[i]) && ReadsAs(read, IntendedTokens(parts[i]), names[i])
      ensures StartsItem(IntendedTokens(parts[i]))
    {
      IntendedOne(Quoted(q, names[i]));
      forall ls: Tokens | EndsItem(ls)
        ensures read(PieceLexemes(Quoted(q, names[i])) + ls) == Some((names[i], ls))
      {
        QuotedIsRead(names[i], q, ls);
      }
    }
    BracketedTokens(Ascii(" ("), parts, Ascii(") VALUES "));
    assert Ascii(") VALUES ")[0] == CLOSE_PAREN;
    ListInIsRead(read, TokensOf(parts), names, Ascii(" ("), Ascii(") VALUES "), tail);
  }

  /** What follows a table is no dot. */
  predicate EndsTable(tail: Tokens) { ReadCode(tail, [DOT]).None? }

  lemma TableReads(table: Text, schema: Option<Text>, q: Byte, tail: Tokens)
    requires IsQuote(q) && EndsTable(tail)
    ensures var pieces := TableRefPieces(table, schema, q);
            && ValidPieces(pieces)
            && ReadTable(IntendedTokens(pieces) + tail, QuotedKind(q), q) == Some(((schema, table), tail))
  {
    var t := Quoted(q, table);
    IntendedOne(t);
    QuotedIsRead(table, q, tail);
    if schema.Some? {
      var s, dot := Quoted(q, schema.value), Plain([DOT]);
      IntendedOne(s);
      IntendedOne(dot);
      IntendedConcat([s], [dot]);
      IntendedConcat([s] + [dot], [t]);
      assert TableRefPieces(table, schema, q) == [s] + [dot] + [t];
      var more := PieceLexemes(t) + tail;
      CodeIsRead([DOT], more);
      QuotedIsRead(schema.value, q, CodeLexemes([DOT]) + more);
      assert PieceLexemes(s) + CodeLexemes([DOT]) + PieceLexemes(t) + tail ==
             PieceLexemes(s) + (CodeLexemes([DOT]) + more);
    }
  }

  lemma GroupPieces(head: seq<Piece>, table: seq<Piece>, open: seq<Piece>, names: seq<Piece>, close: seq<Piece>,
                    rows: seq<Piece>)
    ensures head + table + open + names + close + rows == head + (table + (open + names + close + rows))
  {
  }

  /** The tokens of an INSERT: its opening words, its table, its columns, and its rows. */
  lemma InsertTokens(req: InsertRequest, q: Byte, table: seq<Piece>, names: seq<Piece>, rows: seq<Piece>)
    requires IsQuote(q) && table == TableRefPieces(req.table, req.schema, q)
    requires names == [Plain(Ascii(" ("))] + JoinPieces(NamePieces(req.columns, q), Ascii(", ")) +
                      [Plain(Ascii(") VALUES "))]
    requires rows == JoinPieces(RowsPieces(req.rows, req.booleanColumns, req.booleanStyle), Ascii(", "))
    requires ValidPieces(table) && ValidPieces(names) && ValidPieces(rows)
    ensures ValidPieces(InsertPieces(req, q))
    ensures IntendedTokens(InsertPieces(req, q)) ==
            CodeLexemes(Ascii("INSERT INTO ")) +
            (IntendedTokens(table) + (IntendedTokens(names) + IntendedTokens(rows)))
  {
    var head := [Plain(Ascii("INSERT INTO "))];
    GroupPieces(head, table, [Plain(Ascii(" ("))], JoinPieces(NamePieces(req.columns, q), Ascii(", ")),
                [Plain(Ascii(") VALUES "))], rows);
    FourParts(head, table, names, rows);
  }

  lemma TablePiecesValid(table: Text, schema: Option<Text>, q: Byte)
    requires IsQuote(q)
    ensures ValidPieces(TableRefPieces(table, schema, q))
  {
    OtherCode([], [DOT]);
    TableReads(table, schema, q, []);
  }

  lemma FourParts(head: seq<Piece>, a: seq<Piece>, b: seq<Piece>, c: seq<Piece>)
    requires |head| == 1 && head[0].Plain? && ValidPieces(a) && ValidPieces(b) && ValidPieces(c)
    ensures ValidPieces(head + (a + (b + c)))
    ensures IntendedTokens(head + (a + (b + c))) ==
            CodeLexemes(head[0].text) + (IntendedTokens(a) + (IntendedTokens(b) + IntendedTokens(c)))
  {
    IntendedOne(head[0]);
    assert head == [head[0]];
    IntendedConcat(b, c);
    IntendedConcat(a, b + c);
    IntendedConcat(head, a + (b + c));
  }

  lemma RowsSay(req: InsertRequest)
    ensures var rows := RowsCells(req.rows, req.booleanColumns, req.booleanStyle);
            Says(Statement(req.schema, req.table, req.columns, rows), req)
  {
    var rows := RowsCells(req.rows, req.booleanColumns, req.booleanStyle);
    forall i | 0 <= i < |req.rows|
      ensures RowSays(rows[i], req.rows[i], req.booleanColumns, req.booleanStyle)
    {
      var row := req.rows[i];
      forall j | 0 <= j < |row|
        ensures Means(row[j], IsBooleanColumn(req.booleanColumns, j), req.booleanStyle, rows[i][j])
      {
        CellMeans(row[j], IsBooleanColumn(req.booleanColumns, j), req.booleanStyle);
      }
    }
  }

  lemma IntoRead(ls: Tokens, kind: TokenKind, q: Byte, table: (Option<Text>, Text), rest: Tokens,
                 columns: seq<Text>, values: Tokens, rows: seq<seq<Cell>>)
    requires ReadCode(ls, Ascii("INSERT INTO ")).Some?
    requires ReadTable(ReadCode(ls, Ascii("INSERT INTO ")).value, kind, q) == Some((table, rest))
    requires ReadColumns(rest, kind, q) == Some((columns, values)) && ReadRows(values) == Some(rows)
    ensures ReadInsert(ls, kind, q) == Some(Statement(table.0, table.1, columns, rows))
  {
    assert ReadColumnsAndRows(rest, kind, q) == Some((columns, rows));
  }

  lemma IntendedIsRead(req: InsertRequest, q: Byte)
    requires IsQuote(q)
    ensures ValidPieces(InsertPieces(req, q))
    ensures var r := ReadInsert(IntendedTokens(InsertPieces(req, q)), QuotedKind(q), q);
            r.Some? && Says(r.value, req)
  {
    var table := TableRefPieces(req.table, req.schema, q);
    var names := [Plain(Ascii(" ("))] + JoinPieces(NamePieces(req.columns, q), Ascii(", ")) +
                 [Plain(Ascii(") VALUES "))];
    var rows := JoinPieces(RowsPieces(req.rows, req.booleanColumns, req.booleanStyle), Ascii(", "));
    TablePiecesValid(req.table, req.schema, q);
    NamesRead(req.columns, q, []);
    RowsRead(req.rows, req.booleanColumns, req.booleanStyle);
    InsertTokens(req, q, table, names, rows);
    var values := IntendedTokens(rows);
    var rest := IntendedTokens(names) + values;
    var target := IntendedTokens(table) + rest;
    CodeIsRead(Ascii("INSERT INTO "), target);
    NamesStart(names, values);
    TableReads(req.table, req.schema, q, rest);
    NamesRead(req.columns, q, values);
    var cells := RowsCells(req.rows, req.booleanColumns, req.booleanStyle);
    IntoRead(IntendedTokens(InsertPieces(req, q)), QuotedKind(q), q, (req.schema, req.table), rest,
             req.columns, values, cells);
    RowsSay(req);
  }

  lemma SpaceIsNoDot(rest: Tokens)
    ensures EndsTable(CodeLexemes(Ascii(" (")) + rest)
  {
    CodeStart(Ascii(" ("), rest);
    assert Ascii(" (")[0] == SPACE;
  }

  /** The list of columns starts with a blank, not with a dot. */
  lemma NamesStart(names: seq<Piece>, values: Tokens)
    requires ValidPieces(names) && names != [] && names[0] == Plain(Ascii(" ("))
    ensures EndsTable(IntendedTokens(names) + values)
  {
    var first, rest := CodeLexemes(Ascii(" (")), IntendedTokens(names[1..]);
    assert first + rest + values == first + (rest + values);
    SpaceIsNoDot(rest + values);
  }

  /** Read token by token, a generated INSERT says what was asked for, under every profile that its names and
      literals fit. */
  lemma InsertReadsBack(p: LexProfile, req: InsertRequest, q: Byte)
    requires IsQuote(q) && RequestFits(p, req, q)
    ensures var r := ReadInsert(Tokenize(p, InsertSql(req, [q]), 0), QuotedKind(q), q);
            r.Some? && Says(r.value, req)
  {
    InsertReadAsMeantExactly(p, req, q);
    IntendedIsRead(req, q);
  }

  /** So it does under a profile without backslash escapes and triple quotes, whatever the names and values. */
  lemma InsertReadsBackWhateverTheValues(p: LexProfile, req: InsertRequest, q: Byte)
    requires IsQuote(q) && OnlyDoubles(p)
    ensures var r := ReadInsert(Tokenize(p, InsertSql(req, [q]), 0), QuotedKind(q), q);
            r.Some? && Says(r.value, req)
  {
    DoublingAlwaysFits(p, InsertPieces(req, q));
    InsertTokenizesAsIntended(p, req, q);
    IntendedIsRead(req, q);
  }

  /** And so does every statement of a large import about its batch of rows. */
  lemma BatchesReadBack(p: LexProfile, req: InsertRequest, q: Byte, k: nat)
    requires IsQuote(q) && OnlyDoubles(p) && k < |Batches(req.rows, 0)|
    ensures var bs := Batches(req.rows, 0);
            var r := ReadInsert(Tokenize(p, BatchSql(req, [q], bs)[k], 0), QuotedKind(q), q);
            r.Some? && Says(r.value, req.(rows := bs[k]))
  {
    InsertReadsBackWhateverTheValues(p, req.(rows := Batches(req.rows, 0)[k]), q);
  }
}
