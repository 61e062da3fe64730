/** The SQL that the clipboard import and the dump writer generate, and how the lexer reads it. */
module SqlBuilders {
  import opened Wrappers
  import opened Bytes
  import opened LexProfiles
  import opened Tokenizer
  import opened SqlQuoting

  // ---------- Building ----------

  function Join(parts: seq<Text>, sep: Text): Text {
    if parts == [] then []
    else if |parts| == 1 then parts[0]
    else parts[0] + sep + Join(parts[1..], sep)
  }

  datatype BooleanLiterals = Keywords | Numeric

  function BooleanText(style: BooleanLiterals, value: bool): Text {
    match style
    case Keywords => if value then Ascii("TRUE") else Ascii("FALSE")
    case Numeric => if value then Ascii("1") else Ascii("0")
  }

  function ToLowerByte(b: Byte): Byte { if 65 <= b <= 90 then b + 32 else b }

  function Lower(t: Text): Text { seq(|t|, k requires 0 <= k < |t| => ToLowerByte(t[k])) }

  function BooleanLiteral(value: Text, style: BooleanLiterals): Option<Text> {
    var v := Lower(value);
    if v in [Ascii("true"), Ascii("yes"), Ascii("1")] then Some(BooleanText(style, true))
    else if v in [Ascii("false"), Ascii("no"), Ascii("0")] then Some(BooleanText(style, false))
    else None
  }

  type Row = seq<Option<Text>>

  /** A cell is written as a bare keyword when this is one, as a quoted literal otherwise. */
  function BareCell(cell: Option<Text>, isBoolean: bool, style: BooleanLiterals): Option<Text> {
    match cell
    case None => Some(Ascii("NULL"))
    case Some(v) =>
      if v == [] then Some(Ascii("NULL")) else if isBoolean then BooleanLiteral(v, style) else None
  }

  function CellText(cell: Option<Text>, isBoolean: bool, style: BooleanLiterals): Text {
    match BareCell(cell, isBoolean, style)
    case Some(word) => word
    case None => EscapeSqlString(cell.value)
  }

  predicate IsBooleanColumn(booleanColumns: seq<bool>, i: nat) { i < |booleanColumns| && booleanColumns[i] }

  function RowToValuesClause(row: Row, booleanColumns: seq<bool>, style: BooleanLiterals): Text {
    Ascii("(") +
    Join(seq(|row|, i requires 0 <= i < |row| => CellText(row[i], IsBooleanColumn(booleanColumns, i), style)),
         Ascii(", ")) +
    Ascii(")")
  }

  function QuotedNames(names: seq<Text>, quote: Text): seq<Text> {
    seq(|names|, i requires 0 <= i < |names| => QuoteIdentifier(names[i], quote))
  }

  function ValuesClauses(rows: seq<Row>, booleanColumns: seq<bool>, style: BooleanLiterals): seq<Text> {
    seq(|rows|, i requires 0 <= i < |rows| => RowToValuesClause(rows[i], booleanColumns, style))
  }

  datatype InsertRequest = InsertRequest(table: Text, schema: Option<Text>, columns: seq<Text>, rows: seq<Row>,
                                         booleanColumns: seq<bool>, booleanStyle: BooleanLiterals)

  function InsertSql(req: InsertRequest, quote: Text): Text {
    Ascii("INSERT INTO ") + TableRef(req.table, req.schema, quote) +
    Ascii(" (") + Join(QuotedNames(req.columns, quote), Ascii(", ")) + Ascii(") VALUES ") +
    Join(ValuesClauses(req.rows, req.booleanColumns, req.booleanStyle), Ascii(", "))
  }

  // ---------- Pieces: what is meant to be code and what is meant to be quoted ----------

  datatype Piece = Plain(text: Text) | Quoted(quote: Byte, body: Text)

  function PieceText(x: Piece): Text {
    match x
    case Plain(text) => text
    case Quoted(q, body) => QuoteIdentifier(body, [q])
  }

  function Render(pieces: seq<Piece>): Text {
    if pieces == [] then [] else PieceText(pieces[0]) + Render(pieces[1..])
  }

  function CodeLexemes(text: Text): seq<Lexeme> {
    if text == [] then [] else [Lexeme(Code, text[..1])] + CodeLexemes(text[1..])
  }

  predicate ValidPiece(x: Piece) { x.Quoted? ==> IsQuote(x.quote) }

  predicate ValidPieces(pieces: seq<Piece>) {
    pieces == [] || (ValidPiece(pieces[0]) && ValidPieces(pieces[1..]))
  }

  function PieceLexemes(x: Piece): seq<Lexeme>
    requires ValidPiece(x)
  {
    match x
    case Plain(text) => CodeLexemes(text)
    case Quoted(q, body) => [Lexeme(QuotedKind(q), PieceText(x))]
  }

  /** The tokens the pieces are meant to be: a quoted piece is one token, everything else is code. */
  function IntendedTokens(pieces: seq<Piece>): seq<Lexeme>
    requires ValidPieces(pieces)
  {
    if pieces == [] then [] else PieceLexemes(pieces[0]) + IntendedTokens(pieces[1..])
  }

  /** The pieces with every quoted one replaced by as many spaces: no byte of a name or value is left. */
  function Skeleton(pieces: seq<Piece>): (t: Text)
    ensures |t| == |Render(pieces)|
  {
    if pieces == [] then []
    else (if pieces[0].Plain? then pieces[0].text else Repeat(SPACE, |PieceText(pieces[0])|)) + Skeleton(pieces[1..])
  }

  /** Bytes that open no token but code, wherever they stand; an `E` before a single quote aside. */
  predicate IsPlainByte(b: Byte) {
    IsAlphanumeric(b) || b == SPACE || b == OPEN_PAREN || b == CLOSE_PAREN || b == COMMA || b == DOT
  }

  predicate IsPlainText(t: Text) { t != [] && forall k | 0 <= k < |t| :: IsPlainByte(t[k]) }

  predicate EndsInE(t: Text) { t != [] && (t[|t| - 1] == UPPER_E || t[|t| - 1] == LOWER_E) }

  /** `y` may stand right after `x`: quotes do not run together and no escape string opens. */
  predicate MayFollow(x: Piece, y: Piece) {
    match x
    case Quoted(_, _) => y.Plain?
    case Plain(text) => y.Plain? || y.quote != QUOTE || !EndsInE(text)
  }

  predicate TidyPiece(x: Piece) {
    match x
    case Plain(text) => IsPlainText(text)
    case Quoted(q, _) => IsQuote(q)
  }

  predicate Tidy(pieces: seq<Piece>)
    ensures Tidy(pieces) ==> ValidPieces(pieces)
  {
    || pieces == []
    || (TidyPiece(pieces[0]) && Tidy(pieces[1..]) && (|pieces| > 1 ==> MayFollow(pieces[0], pieces[1])))
  }

  predicate FitsPiece(p: LexProfile, x: Piece) { x.Quoted? ==> FitsQuoted(p, x.body, x.quote) }

  /** The profile reads doubled quotes as the builder means them. */
  predicate Fits(p: LexProfile, pieces: seq<Piece>) {
    pieces == [] || (FitsPiece(p, pieces[0]) && Fits(p, pieces[1..]))
  }

  lemma PlainByteIsCode(p: LexProfile, s: Text, i: nat)
    requires i < |s| && IsPlainByte(s[i])
    requires s[i] == UPPER_E || s[i] == LOWER_E ==> !ByteAt(s, i + 1, QUOTE)
    ensures TokenAt(p, s, i) == Token(Code, i + 1)
  {
  }

  /** From `i` on the lexer reads the tokens `ls` and stops at `j`. */
  ghost predicate Reads(p: LexProfile, s: Text, i: nat, j: nat, ls: seq<Lexeme>)
    decreases |ls|
  {
    if ls == [] then i == j
    else i < |s| && var t := TokenAt(p, s, i);
         ls[0] == Lexeme(t.kind, s[i..t.end]) && Reads(p, s, t.end, j, ls[1..])
  }

  lemma {:induction false} ReadsThenReads(p: LexProfile, s: Text, i: nat, j: nat, k: nat,
                                         a: seq<Lexeme>, b: seq<Lexeme>)
    requires Reads(p, s, i, j, a) && Reads(p, s, j, k, b)
    ensures Reads(p, s, i, k, a + b)
    decreases |a|
  {
    if a == [] {
      assert a + b == b;
    } else {
      var e := ReadsFirst(p, s, i, j, k, a, b);
      ReadsThenReads(p, s, e, j, k, a[1..], b);
    }
  }

  lemma ReadsFirst(p: LexProfile, s: Text, i: nat, j: nat, k: nat, a: seq<Lexeme>, b: seq<Lexeme>) returns (e: nat)
    requires a != [] && Reads(p, s, i, j, a)
    ensures Reads(p, s, e, j, a[1..])
    ensures Reads(p, s, e, k, a[1..] + b) ==> Reads(p, s, i, k, a + b)
  {
    e := TokenAt(p, s, i).end;
    assert (a + b)[1..] == a[1..] + b && (a + b)[0] == a[0];
  }

  lemma {:induction false} ReadsToEnd(p: LexProfile, s: Text, i: nat, ls: seq<Lexeme>)
    requires i <= |s| && Reads(p, s, i, |s|, ls)
    ensures Tokenize(p, s, i) == ls
    decreases |ls|
  {
    if ls != [] {
      ReadsToEnd(p, s, TokenAt(p, s, i).end, ls[1..]);
    }
  }

  lemma PlainByteStep(p: LexProfile, s: Text, i: nat, t: Text)
    requires TextAt(s, i, t) && t != [] && (forall k | 0 <= k < |t| :: IsPlainByte(t[k]))
    requires EndsInE(t) ==> !ByteAt(s, i + |t|, QUOTE)
    ensures TokenAt(p, s, i) == Token(Code, i + 1) && s[i..i + 1] == t[..1]
    ensures TextAt(s, i + 1, t[1..]) && (EndsInE(t[1..]) ==> !ByteAt(s, i + |t|, QUOTE))
  {
    assert s[i + 0] == t[0];
    assert |t| > 1 ==> s[i + 1] == t[1] && IsPlainByte(t[1]);
    PlainByteIsCode(p, s, i);
    assert t == t[..1] + t[1..];
    TextAtSplit(s, i, t[..1], t[1..]);
  }

  lemma {:induction false} PlainTextIsCode(p: LexProfile, s: Text, i: nat, t: Text)
    requires TextAt(s, i, t) && forall k | 0 <= k < |t| :: IsPlainByte(t[k])
    requires EndsInE(t) ==> !ByteAt(s, i + |t|, QUOTE)
    ensures Reads(p, s, i, i + |t|, CodeLexemes(t))
    decreases |t|
  {
    if t != [] {
      PlainByteStep(p, s, i, t);
      PlainTextIsCode(p, s, i + 1, t[1..]);
    }
  }

  /** `y` is what the rendered pieces from `j` on start with. */
  lemma RenderStart(s: Text, j: nat, pieces: seq<Piece>)
    requires j <= |s| && s[j..] == Render(pieces) && pieces != [] && Tidy(pieces)
    ensures var y := pieces[0];
            j < |s| && s[j] == if y.Plain? then y.text[0] else y.quote
    ensures pieces[0].Plain? ==> IsPlainByte(s[j])
  {
    assert s[j] == s[j..][0];
    assert PieceText(pieces[0]) != [];
  }

  lemma PieceStands(s: Text, i: nat, t: Text, rest: Text)
    requires i <= |s| && s[i..] == t + rest
    ensures TextAt(s, i, t) && i + |t| <= |s| && s[i + |t|..] == rest && s[i..i + |t|] == t
  {
    assert s[i..][|t|..] == rest;
    assert s[i..][..|t|] == t;
    forall k | 0 <= k < |t|
      ensures s[i + k] == t[k]
    {
      assert s[i..][k] == t[k];
    }
  }

  /** The byte at `next` neither extends the piece's quote nor opens an escape string with it. */
  predicate EndsAt(s: Text, next: nat, x: Piece) {
    match x
    case Plain(text) => EndsInE(text) ==> !ByteAt(s, next, QUOTE)
    case Quoted(q, _) => !ByteAt(s, next, q)
  }

  /** A piece is read as it is meant, given what follows it. */
  lemma PieceAsIntended(p: LexProfile, s: Text, i: nat, x: Piece)
    requires TidyPiece(x) && FitsPiece(p, x)
    requires TextAt(s, i, PieceText(x)) && EndsAt(s, i + |PieceText(x)|, x)
    ensures Reads(p, s, i, i + |PieceText(x)|, PieceLexemes(x))
  {
    if x.Plain? {
      PlainTextIsCode(p, s, i, x.text);
    } else {
      QuotedReads(p, s, i, x);
    }
  }

  lemma NextByteFits(s: Text, j: nat, pieces: seq<Piece>)
    requires Tidy(pieces) && pieces != [] && j <= |s| && s[j..] == Render(pieces[1..])
    ensures EndsAt(s, j, pieces[0])
  {
    if |pieces| > 1 {
      RenderStart(s, j, pieces[1..]);
    }
  }

  lemma QuotedReads(p: LexProfile, s: Text, i: nat, x: Piece)
    requires x.Quoted? && IsQuote(x.quote) && QuotedAt(s, i, x.body, x.quote)
    requires FitsPiece(p, x)
    ensures Reads(p, s, i, i + |PieceText(x)|, PieceLexemes(x))
  {
    QuotedIsOneToken(p, s, i, x.body, x.quote);
    var t := PieceText(x);
    assert s[i..i + |t|] == t by {
      assert forall k | 0 <= k < |t| :: s[i + k] == t[k];
    }
  }

  lemma PieceIsReady(p: LexProfile, s: Text, i: nat, pieces: seq<Piece>)
    requires Tidy(pieces) && Fits(p, pieces) && pieces != []
    requires i <= |s| && s[i..] == Render(pieces)
    ensures var x := pieces[0];
            var j := i + |PieceText(x)|;
            && TidyPiece(x) && FitsPiece(p, x) && TextAt(s, i, PieceText(x)) && EndsAt(s, j, x)
            && j <= |s| && s[j..] == Render(pieces[1..]) && Tidy(pieces[1..]) && Fits(p, pieces[1..])
  {
    PieceStands(s, i, PieceText(pieces[0]), Render(pieces[1..]));
    NextByteFits(s, i + |PieceText(pieces[0])|, pieces);
  }

  lemma LexemesAsIntended(p: LexProfile, s: Text, i: nat, x: Piece, j: nat) returns (lexemes: seq<Lexeme>)
    requires TidyPiece(x) && FitsPiece(p, x) && j == i + |PieceText(x)|
    requires TextAt(s, i, PieceText(x)) && EndsAt(s, j, x)
    ensures lexemes == PieceLexemes(x) && Reads(p, s, i, j, lexemes)
  {
    lexemes := PieceLexemes(x);
    PieceAsIntended(p, s, i, x);
  }

  lemma FirstPieceAsIntended(p: LexProfile, s: Text, i: nat, pieces: seq<Piece>)
    returns (j: nat, lexemes: seq<Lexeme>)
    requires Tidy(pieces) && Fits(p, pieces) && pieces != []
    requires i <= |s| && s[i..] == Render(pieces)
    ensures TidyPiece(pieces[0]) && lexemes == PieceLexemes(pieces[0]) && Reads(p, s, i, j, lexemes)
    ensures j <= |s| && s[j..] == Render(pieces[1..]) && Tidy(pieces[1..]) && Fits(p, pieces[1..])
  {
    j := i + |PieceText(pieces[0])|;
    PieceIsReady(p, s, i, pieces);
    lexemes := LexemesAsIntended(p, s, i, pieces[0], j);
  }

  lemma {:induction false} PiecesAsIntended(p: LexProfile, s: Text, i: nat, pieces: seq<Piece>)
    requires Tidy(pieces) && Fits(p, pieces)
    requires i <= |s| && s[i..] == Render(pieces)
    ensures Reads(p, s, i, |s|, IntendedTokens(pieces))
    decreases |pieces|
  {
    if pieces != [] {
      var j, lexemes := FirstPieceAsIntended(p, s, i, pieces);
      PiecesAsIntended(p, s, j, pieces[1..]);
      ReadsThenReads(p, s, i, j, |s|, lexemes, IntendedTokens(pieces[1..]));
    }
  }

  /** The lexer reads tidy pieces exactly as they are meant. */
  lemma TokenizesAsIntended(p: LexProfile, pieces: seq<Piece>)
    requires Tidy(pieces) && Fits(p, pieces)
    ensures Tokenize(p, Render(pieces), 0) == IntendedTokens(pieces)
  {
    var s := Render(pieces);
    assert s[0..] == s;
    PiecesAsIntended(p, s, 0, pieces);
    ReadsToEnd(p, s, 0, IntendedTokens(pieces));
  }

  // ---------- Fitting is also necessary ----------

  lemma {:induction false} ReadsSplit(p: LexProfile, s: Text, i: nat, k: nat, a: seq<Lexeme>, b: seq<Lexeme>)
    returns (j: nat)
    requires Reads(p, s, i, k, a + b) && i <= |s|
    ensures j == i + |Concat(a)| && Reads(p, s, j, k, b)
    decreases |a|
  {
    if a == [] {
      assert a + b == b;
      j := i;
    } else {
      var e := FirstReads(p, s, i, k, a, b);
      j := ReadsSplit(p, s, e, k, a[1..], b);
    }
  }

  lemma FirstReads(p: LexProfile, s: Text, i: nat, k: nat, a: seq<Lexeme>, b: seq<Lexeme>) returns (e: nat)
    requires a != [] && Reads(p, s, i, k, a + b) && i <= |s|
    ensures e <= |s| && Reads(p, s, e, k, a[1..] + b)
    ensures i + |Concat(a)| == e + |Concat(a[1..])|
  {
    e := TokenAt(p, s, i).end;
    assert (a + b)[1..] == a[1..] + b && (a + b)[0] == a[0];
  }

  lemma {:induction false} CodeConcat(t: Text)
    ensures Concat(CodeLexemes(t)) == t
  {
    if t != [] {
      CodeConcat(t[1..]);
      assert t == t[..1] + t[1..];
    }
  }

  lemma PieceConcat(x: Piece)
    requires ValidPiece(x)
    ensures Concat(PieceLexemes(x)) == PieceText(x)
  {
    match x
    case Plain(text) => CodeConcat(text);
    case Quoted(_, _) => assert PieceLexemes(x)[1..] == [];
  }

  lemma QuotedReadOnlyIfFits(p: LexProfile, s: Text, i: nat, x: Piece)
    requires x.Quoted? && IsQuote(x.quote) && QuotedAt(s, i, x.body, x.quote) && i + |PieceText(x)| < |s|
    requires TokenAt(p, s, i).kind == QuotedKind(x.quote) && s[i..TokenAt(p, s, i).end] == PieceText(x)
    ensures FitsPiece(p, x)
  {
    QuotedIsOneTokenExactly(p, s, i, x.body, x.quote);
  }

  lemma QuotedFirstFits(p: LexProfile, s: Text, i: nat, j: nat, pieces: seq<Piece>)
    requires Tidy(pieces) && pieces != [] && pieces[|pieces| - 1].Plain? && pieces[0].Quoted?
    requires QuotedAt(s, i, pieces[0].body, pieces[0].quote) && j == i + |PieceText(pieces[0])| && j <= |s|
    requires s[j..] == Render(pieces[1..])
    requires TokenAt(p, s, i).kind == QuotedKind(pieces[0].quote) && s[i..TokenAt(p, s, i).end] == PieceText(pieces[0])
    ensures FitsPiece(p, pieces[0])
  {
    RenderStart(s, j, pieces[1..]);
    QuotedReadOnlyIfFits(p, s, i, pieces[0]);
  }

  /** What is read as the lexemes `a` of the text `t` and others is `t`, and then read as the others. */
  lemma FirstTextRead(p: LexProfile, s: Text, i: nat, t: Text, a: seq<Lexeme>, b: seq<Lexeme>, rest: Text)
    returns (j: nat)
    requires Concat(a) == t && i <= |s| && s[i..] == t + rest && Reads(p, s, i, |s|, a + b)
    ensures j == i + |t| && j <= |s| && s[j..] == rest && TextAt(s, i, t) && Reads(p, s, j, |s|, b)
  {
    j := ReadsSplit(p, s, i, |s|, a, b);
    PieceStands(s, i, t, rest);
  }

  lemma FirstPieceFits(p: LexProfile, s: Text, i: nat, pieces: seq<Piece>) returns (j: nat)
    requires Tidy(pieces) && pieces != [] && pieces[|pieces| - 1].Plain?
    requires i <= |s| && s[i..] == Render(pieces)
    requires Reads(p, s, i, |s|, IntendedTokens(pieces))
    ensures j <= |s| && s[j..] == Render(pieces[1..]) && Reads(p, s, j, |s|, IntendedTokens(pieces[1..]))
    ensures FitsPiece(p, pieces[0])
    ensures Tidy(pieces[1..]) && (pieces[1..] == [] || pieces[1..][|pieces[1..]| - 1].Plain?)
  {
    var x, rest := pieces[0], pieces[1..];
    PieceConcat(x);
    j := FirstTextRead(p, s, i, PieceText(x), PieceLexemes(x), IntendedTokens(rest), Render(rest));
    if pieces[0].Quoted? {
      FirstLexeme(p, s, i, pieces[0], IntendedTokens(pieces[1..]));
      NextByteFits(s, j, pieces);
      QuotedFirstFits(p, s, i, j, pieces);
    }
  }

  lemma FirstLexeme(p: LexProfile, s: Text, i: nat, x: Piece, rest: seq<Lexeme>)
    requires x.Quoted? && IsQuote(x.quote) && Reads(p, s, i, |s|, PieceLexemes(x) + rest)
    ensures i < |s| && TokenAt(p, s, i).kind == QuotedKind(x.quote) && s[i..TokenAt(p, s, i).end] == PieceText(x)
  {
    assert (PieceLexemes(x) + rest)[0] == PieceLexemes(x)[0];
  }

  lemma {:induction false} IntendedOnlyIfFits(p: LexProfile, s: Text, i: nat, pieces: seq<Piece>)
    requires Tidy(pieces) && (pieces == [] || pieces[|pieces| - 1].Plain?)
    requires i <= |s| && s[i..] == Render(pieces)
    requires Reads(p, s, i, |s|, IntendedTokens(pieces))
    ensures Fits(p, pieces)
    decreases |pieces|
  {
    if pieces != [] {
      var j := FirstPieceFits(p, s, i, pieces);
      var rest := pieces[1..];
      IntendedOnlyIfFits(p, s, j, rest);
    }
  }

  lemma {:induction false} TokenizeReads(p: LexProfile, s: Text, i: nat)
    requires i <= |s|
    ensures Reads(p, s, i, |s|, Tokenize(p, s, i))
    decreases |s| - i
  {
    if i < |s| {
      TokenizeReads(p, s, TokenAt(p, s, i).end);
    }
  }

  /** A statement that ends in code is read as meant by exactly the profiles that its quoting fits. */
  lemma TokenizesAsIntendedExactly(p: LexProfile, pieces: seq<Piece>)
    requires Tidy(pieces) && pieces != [] && pieces[|pieces| - 1].Plain?
    ensures Tokenize(p, Render(pieces), 0) == IntendedTokens(pieces) <==> Fits(p, pieces)
  {
    var s := Render(pieces);
    if Fits(p, pieces) {
      TokenizesAsIntended(p, pieces);
    }
    if Tokenize(p, s, 0) == IntendedTokens(pieces) {
      TokenizeReads(p, s, 0);
      assert s[0..] == s;
      IntendedOnlyIfFits(p, s, 0, pieces);
    }
  }

  // ---------- Blanking ----------

  lemma BlankCons(x: Lexeme, tail: seq<Lexeme>, mark: bool)
    ensures BlankAll([x] + tail, mark) == Blank(x.kind, x.text, mark) + BlankAll(tail, mark)
  {
    assert ([x] + tail)[1..] == tail;
  }

  lemma ConsConcat(x: Lexeme, a: seq<Lexeme>, b: seq<Lexeme>)
    ensures [x] + (a + b) == ([x] + a) + b
  {
  }

  lemma HeadAndTail(t: Text, u: Text)
    requires t != []
    ensures t[..1] + (t[1..] + u) == t + u
  {
  }

  lemma {:induction false} BlankCode(t: Text, rest: seq<Lexeme>)
    ensures BlankAll(CodeLexemes(t) + rest, false) == t + BlankAll(rest, false)
    decreases |t|
  {
    if t == [] {
      assert CodeLexemes(t) + rest == rest;
    } else {
      var x := Lexeme(Code, t[..1]);
      BlankCode(t[1..], rest);
      BlankCons(x, CodeLexemes(t[1..]) + rest, false);
      ConsConcat(x, CodeLexemes(t[1..]), rest);
      HeadAndTail(t, BlankAll(rest, false));
    }
  }

  lemma {:induction false} BlankedIntention(pieces: seq<Piece>)
    requires ValidPieces(pieces)
    ensures BlankAll(IntendedTokens(pieces), false) == Skeleton(pieces)
  {
    if pieces != [] {
      var x, rest := pieces[0], pieces[1..];
      BlankedIntention(rest);
      if x.Plain? {
        BlankCode(x.text, IntendedTokens(rest));
      } else {
        assert (PieceLexemes(x) + IntendedTokens(rest))[1..] == IntendedTokens(rest);
      }
    }
  }

  /** Stripping what the builder wrote leaves its skeleton. */
  lemma StripsToSkeleton(p: LexProfile, pieces: seq<Piece>)
    requires Tidy(pieces) && Fits(p, pieces)
    ensures Strip(p, false, Render(pieces)) == Skeleton(pieces)
  {
    TokenizesAsIntended(p, pieces);
    BlankedIntention(pieces);
  }
}
