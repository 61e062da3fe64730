/**
 What each dialect must not let through: a second statement behind text that some server of the dialect reads as
 closed. Such text is written for every lexical rule in both ways, with the rule and without it.
 */
module DialectLaws {
  import opened Wrappers
  import opened Bytes
  import opened LexProfiles
  import opened Tokenizer
  import opened LexTheorems
  import opened TokenLaws
  import opened Classifier
  import opened SqlBuilders
  import opened ReadCertificate
  import opened ProfileSets

  // ---------- The rules of the dialects ----------

  /** None of the rules that only MySQL or GoogleSQL have. */
  predicate NoHashOrEscapes(p: LexProfile) {
    && !p.backslashInDouble && !p.backslashInBacktick && !p.hashComments && !p.dashCommentNeedsSpace
    && !p.executableComments && !p.tripleQuotes
  }

  predicate NoDollarsOrBrackets(p: LexProfile) { !p.eStrings && !p.dollarQuotes && !p.bracketIdentifiers }

  /** The comments of the SQL standard: they do not nest, and only a line feed ends a line. */
  predicate StandardComments(p: LexProfile) { !p.nestedBlockComments && !p.lineCommentEndsAtCr }

  /** Postgres has escape strings and dollar quotes. Its comments nest and end at carriage returns, or the text is
      read the old way; a backslash escapes in single quotes, or not. */
  predicate PostgresReads(p: LexProfile) {
    && NoHashOrEscapes(p) && !p.bracketIdentifiers
    && p.eStrings && p.dollarQuotes && p.nestedBlockComments == p.lineCommentEndsAtCr
  }

  /** MySQL has hash comments, comments of two dashes and a space, and executable comments. A backslash escapes in
      strings, or in none; ANSI quotes take double quotes out of the strings. */
  predicate MysqlReads(p: LexProfile) {
    && StandardComments(p) && NoDollarsOrBrackets(p) && !p.tripleQuotes && !p.backslashInBacktick
    && p.hashComments && p.dashCommentNeedsSpace && p.executableComments
    && (p.backslashInDouble ==> p.backslashInSingle)
  }

  /** SQL Server has brackets, and comments that nest and end at carriage returns; or it is read like SQLite. */
  predicate MssqlReads(p: LexProfile) {
    && NoHashOrEscapes(p) && !p.backslashInSingle && !p.eStrings && !p.dollarQuotes
    && p.bracketIdentifiers && p.nestedBlockComments == p.lineCommentEndsAtCr
  }

  predicate SqliteReads(p: LexProfile) { MssqlReads(p) && StandardComments(p) }

  /** GoogleSQL has backslash escapes in all quotes, hash comments and triple quotes. */
  predicate GoogleReads(p: LexProfile) {
    && StandardComments(p) && NoDollarsOrBrackets(p) && !p.dashCommentNeedsSpace && !p.executableComments
    && p.backslashInSingle && p.backslashInDouble && p.backslashInBacktick && p.hashComments && p.tripleQuotes
  }

  /** A server of the dialect may read text by the rules of `p`; of an unknown dialect, by those of any dialect. */
  predicate MayRead(dialect: Option<SqlDialect>, p: LexProfile) {
    match dialect
    case Some(Postgres) => PostgresReads(p)
    case Some(Mysql) => MysqlReads(p)
    case Some(Mssql) => MssqlReads(p)
    case Some(Sqlite) => SqliteReads(p)
    case Some(Generic) | Some(Oracle) | None =>
      PostgresReads(p) || MysqlReads(p) || MssqlReads(p) || SqliteReads(p) || GoogleReads(p)
  }

  lemma PostgresSetExactly(p: LexProfile)
    ensures p in POSTGRES_PROFILES <==> PostgresReads(p)
  {
    assert p in POSTGRES_PROFILES <==>
           p == LEGACY_STANDARD || p == LEGACY_BACKSLASH || p == POSTGRES || p == POSTGRES_BACKSLASH;
  }

  lemma MysqlSetExactly(p: LexProfile)
    ensures p in MYSQL_PROFILES <==> MysqlReads(p)
  {
    assert p in MYSQL_PROFILES <==> p == MYSQL || p == MYSQL_ANSI_QUOTES || p == MYSQL_NO_BACKSLASH;
  }

  lemma BracketSetsExactly(p: LexProfile)
    ensures p in MSSQL_PROFILES <==> MssqlReads(p)
    ensures p in SQLITE_PROFILES <==> SqliteReads(p)
  {
    assert p in MSSQL_PROFILES <==> p == MSSQL || p == SQLITE;
    assert p in SQLITE_PROFILES <==> p == SQLITE;
  }

  lemma AllProfilesExactly(p: LexProfile)
    ensures p in ALL_PROFILES <==>
            p in POSTGRES_PROFILES || p in MYSQL_PROFILES || p in MSSQL_PROFILES || p == TRIPLE_QUOTED_BACKSLASH
  {
    assert ALL_PROFILES == POSTGRES_PROFILES + (MYSQL_PROFILES + (MSSQL_PROFILES + [TRIPLE_QUOTED_BACKSLASH]));
  }

  lemma GoogleProfileExactly(p: LexProfile)
    ensures p == TRIPLE_QUOTED_BACKSLASH <==> GoogleReads(p)
  {
  }

  /** The profiles of a dialect are exactly the ways in which its servers may read a text. */
  lemma ProfileSetsExactly(dialect: Option<SqlDialect>, p: LexProfile)
    ensures p in LexProfilesFor(dialect) <==> MayRead(dialect, p)
  {
    PostgresSetExactly(p);
    MysqlSetExactly(p);
    BracketSetsExactly(p);
    AllProfilesExactly(p);
    GoogleProfileExactly(p);
  }

  // ---------- Scanning up to a place ----------

  /** Scanning from `i` comes to `j`. */
  predicate Reaches(p: LexProfile, s: Text, i: nat, j: nat)
    decreases |s| - i
  {
    i == j || (i < j && i < |s| && Reaches(p, s, TokenAt(p, s, i).end, j))
  }

  lemma {:induction false} ReachesOn(p: LexProfile, s: Text, i: nat, j: nat, k: nat)
    requires Reaches(p, s, i, j) && Reaches(p, s, j, k) && j <= k
    ensures i <= j && Reaches(p, s, i, k)
    decreases |s| - i
  {
    if i < j {
      ReachesOn(p, s, TokenAt(p, s, i).end, j, k);
    }
  }

  lemma {:induction false} CodeReaches(p: LexProfile, s: Text, i: nat, j: nat)
    requires i <= j <= |s| && forall k | i <= k < j :: KindAt(p, s, k) == Code
    ensures Reaches(p, s, i, j)
    decreases j - i
  {
    if i < j {
      CodeReaches(p, s, i + 1, j);
    }
  }

  lemma {:induction false} ReachedStarts(p: LexProfile, s: Text, i: nat, j: nat)
    requires Reaches(p, s, i, j) && i <= j < |s|
    ensures TokenStart(p, s, i, j) == j
    decreases |s| - i
  {
    if i < j {
      var e := TokenAt(p, s, i).end;
      ReachesForward(p, s, e, j);
      ReachedStarts(p, s, e, j);
    }
  }

  lemma ReachesForward(p: LexProfile, s: Text, i: nat, j: nat)
    requires Reaches(p, s, i, j)
    ensures i <= j
  {
  }

  /** A token from `i` to `e`, and after it one byte of code. */
  lemma TokenThenByte(p: LexProfile, s: Text, i: nat, e: nat)
    requires i < |s| && TokenAt(p, s, i).end == e < |s| && KindAt(p, s, e) == Code
    ensures Reaches(p, s, i, e + 1)
  {
    assert TokenAt(p, s, e).end == e + 1;
    assert Reaches(p, s, e, e + 1);
  }

  // ---------- A second statement ----------

  /** A semicolon and, after whitespace, a letter or digit that opens nothing. */
  predicate SecondStatementAt(s: Text, j: nat, m: nat) {
    && j < m < |s| && s[j] == SEMICOLON && (forall k | j < k < m :: IsWhite(s[k])) && IsAlphanumeric(s[m])
    && (s[m] == UPPER_E || s[m] == LOWER_E ==> !ByteAt(s, m + 1, QUOTE))
  }

  predicate StartsSecondStatement(rest: Text) { exists m | 0 <= m < |rest| :: SecondStatementAt(rest, 0, m) }

  lemma SecondStatementIsCode(p: LexProfile, s: Text, j: nat, m: nat)
    requires SecondStatementAt(s, j, m)
    ensures forall k | j <= k <= m :: KindAt(p, s, k) == Code
  {
    PlainByteIsCode(p, s, m);
    assert TokenAt(p, s, m).kind == Code;
  }

  /** A scan that comes to the semicolon sees the second statement. */
  lemma ReachedStatementIsSeen(p: LexProfile, s: Text, j: nat, m: nat)
    requires Reaches(p, s, 0, j) && SecondStatementAt(s, j, m)
    ensures HasTrailing(Strip(p, false, s)) && ClassifyWithProfile(s, p) != Select
  {
    SecondStatementIsCode(p, s, j, m);
    CodeReaches(p, s, j, m);
    ReachesOn(p, s, 0, j, m);
    ReachedStarts(p, s, 0, j);
    ReachedStarts(p, s, 0, m);
    StripByte(p, false, s, j);
    StripByte(p, false, s, m);
    SelectNeedsNoCreate(Strip(p, false, s), Strip(p, true, s));
  }

  // ---------- Text that one rule decides ----------

  /** Text that some servers read as closed, others as open: what is quoted in it, and what between its quotes. */
  datatype Decoy =
    | Line(a: Text)
    | Hash(a: Text)
    | Dashes(first: Byte, a: Text)
    | CarriageReturn(a: Text, b: Text)
    | Nesting(a: Text, b: Text, c: Text)
    | Executable(a: Text)
    | Backslash(quote: Byte, a: Text, b: Text)
    | Triple(quote: Byte, a: Text, b: Text)
    | Escape(letter: Byte, a: Text, b: Text)
    | NameEscape(first: Byte, letter: Byte, a: Text, b: Text)
    | NameDollar(first: Byte, tag: Text)
    | Dollar(tag: Text, a: Text)
    | Bracket(a: Text)

  predicate Lacks(t: Text, b: Byte) { forall k | 0 <= k < |t| :: t[k] != b }

  predicate OneLine(p: LexProfile, t: Text) { Lacks(t, LF) && (p.lineCommentEndsAtCr ==> Lacks(t, CR)) }

  predicate NoCommentMark(t: Text) { Lacks(t, STAR) && Lacks(t, SLASH) }

  predicate NoQuoteOrEscape(t: Text, quote: Byte) { Lacks(t, quote) && Lacks(t, BACKSLASH) }

  predicate IsTag(t: Text) { t == [] || (IsTagStart(t[0]) && forall k | 0 <= k < |t| :: IsTagContinue(t[k])) }

  predicate ValidNesting(a: Text, b: Text, c: Text) {
    && NoCommentMark(a) && NoCommentMark(b) && NoCommentMark(c)
    && (a != [] ==> a[0] != BANG && a[0] != UPPER_M)
  }

  predicate ValidBackslash(q: Byte, a: Text, b: Text) {
    IsQuoteByte(q) && NoQuoteOrEscape(a, q) && NoQuoteOrEscape(b, q)
  }

  predicate ValidTriple(q: Byte, a: Text, b: Text) { ValidBackslash(q, a, b) && q != BACKTICK && b != [] }

  predicate ValidEscape(a: Text, b: Text) { ValidBackslash(QUOTE, a, b) }

  predicate ValidDollar(tag: Text, a: Text) { IsTag(tag) && Lacks(a, DOLLAR) }

  predicate IsE(b: Byte) { b == 69 || b == 101 }

  predicate IsNameByte(b: Byte) { IsAlpha(b) || IsDigit(b) || b == UNDERSCORE || b >= 128 }

  /** Where dashes need it, a blank or a control byte follows them, or the line ends. */
  predicate ValidLine(p: LexProfile, a: Text) {
    OneLine(p, a) && (p.dashCommentNeedsSpace ==> a == [] || a[0] <= 32 || a[0] == 127)
  }

  /** The free text in a decoy has nothing that would close it early. */
  predicate ValidDecoy(p: LexProfile, d: Decoy) {
    match d
    case Line(a) => ValidLine(p, a)
    case Hash(a) => OneLine(p, a)
    case Dashes(c, a) => (IsAlphanumeric(c) || c >= 128) && OneLine(p, a)
    case CarriageReturn(a, b) => Lacks(a, LF) && Lacks(a, CR) && Lacks(b, LF)
    case Nesting(a, b, c) => ValidNesting(a, b, c)
    case Executable(a) => NoCommentMark(a)
    case Backslash(q, a, b) => ValidBackslash(q, a, b)
    case Triple(q, a, b) => ValidTriple(q, a, b)
    case Escape(letter, a, b) => IsE(letter) && ValidEscape(a, b)
    case NameEscape(c, letter, a, b) => (IsNameByte(c) || c == DOLLAR) && IsE(letter) && ValidEscape(a, b)
    case NameDollar(c, tag) => IsNameByte(c) && IsTag(tag)
    case Dollar(tag, a) => ValidDollar(tag, a)
    case Bracket(a) => Lacks(a, CLOSE_BRACKET)
  }

  const TWO_DASHES: Text := [DASH, DASH, SPACE]
  const OPENER: Text := [SLASH, STAR]
  const CLOSER: Text := [STAR, SLASH]

  function LineText(a: Text): Text { [DASH, DASH] + (a + [LF]) }

  function HashText(p: LexProfile, a: Text): Text {
    if p.hashComments then [HASH] + (a + [LF]) else [HASH, SPACE]
  }

  function DashesText(p: LexProfile, c: Byte, a: Text): Text {
    if p.dashCommentNeedsSpace then [DASH, DASH, c, SPACE] else [DASH, DASH, c] + (a + [LF])
  }

  function ReturnText(p: LexProfile, a: Text, b: Text): Text {
    TWO_DASHES + if p.lineCommentEndsAtCr then a + [CR] else a + ([CR] + (b + [LF]))
  }

  function NestingTail(nested: bool, c: Text): Text { if nested then c + (CLOSER + [SPACE]) else [SPACE] }

  function NestingText(nested: bool, a: Text, b: Text, c: Text): Text {
    OPENER + (a + (OPENER + (b + (CLOSER + NestingTail(nested, c)))))
  }

  function ExecutableText(p: LexProfile, a: Text): Text {
    OPENER + if p.executableComments then [BANG, SPACE] else ([BANG] + a) + (CLOSER + [SPACE])
  }

  function BackslashTail(quote: Byte, a: Text, b: Text, backslash: bool): Text {
    a + ([BACKSLASH, quote] + if backslash then b + [quote, SPACE] else [SPACE])
  }

  /** A string with a backslash before its second quote, closed as `backslash` says. */
  function BackslashText(quote: Byte, a: Text, b: Text, backslash: bool): Text {
    [quote] + BackslashTail(quote, a, b, backslash)
  }

  function TripleTail(q: Byte, a: Text, b: Text, triple: bool): Text {
    if triple then a + ([q] + (b + [q, q, q, SPACE])) else a + [q, SPACE]
  }

  function TripleText(q: Byte, a: Text, b: Text, triple: bool): Text { [q, q, q] + TripleTail(q, a, b, triple) }

  function EscapeText(p: LexProfile, letter: Byte, a: Text, b: Text): Text {
    [letter] + BackslashText(QUOTE, a, b, p.eStrings || p.backslashInSingle)
  }

  function NameEscapeText(p: LexProfile, c: Byte, letter: Byte, a: Text, b: Text): Text {
    [c, letter] + BackslashText(QUOTE, a, b, p.backslashInSingle)
  }

  function Mark(tag: Text): Text { [DOLLAR] + (tag + [DOLLAR]) }

  function NameDollarText(c: Byte, mark: Text): Text { [c] + (mark + [SPACE]) }

  function DollarText(p: LexProfile, mark: Text, a: Text): Text {
    mark + if p.dollarQuotes then a + (mark + [SPACE]) else [SPACE]
  }

  function BracketText(p: LexProfile, a: Text): Text {
    [OPEN_BRACKET] + if p.bracketIdentifiers then a + [CLOSE_BRACKET, SPACE] else [SPACE]
  }

  /** The decoy as a server reads it to its end that follows the rules of `p`. */
  function DecoyText(p: LexProfile, d: Decoy): Text {
    match d
    case Line(a) => LineText(a)
    case Hash(a) => HashText(p, a)
    case Dashes(c, a) => DashesText(p, c, a)
    case CarriageReturn(a, b) => ReturnText(p, a, b)
    case Nesting(a, b, c) => NestingText(p.nestedBlockComments, a, b, c)
    case Executable(a) => ExecutableText(p, a)
    case Backslash(q, a, b) => BackslashText(q, a, b, BackslashIn(p, q))
    case Triple(q, a, b) => TripleText(q, a, b, p.tripleQuotes)
    case Escape(letter, a, b) => EscapeText(p, letter, a, b)
    case NameEscape(c, letter, a, b) => NameEscapeText(p, c, letter, a, b)
    case NameDollar(c, tag) => NameDollarText(c, Mark(tag))
    case Dollar(tag, a) => DollarText(p, Mark(tag), a)
    case Bracket(a) => BracketText(p, a)
  }

  // ---------- Reading the decoys ----------

  lemma TextParts(s: Text, i: nat, a: Text, b: Text)
    requires TextAt(s, i, a + b)
    ensures TextAt(s, i, a) && TextAt(s, i + |a|, b)
  {
    forall k | 0 <= k < |a|
      ensures s[i + k] == a[k]
    {
      assert s[i + k] == (a + b)[k];
    }
    forall k | 0 <= k < |b|
      ensures s[i + |a| + k] == b[k]
    {
      assert s[i + (|a| + k)] == (a + b)[|a| + k];
    }
  }

  /** A byte that is not in `t` is nowhere where `t` stands. */
  lemma AbsentBytes(s: Text, i: nat, t: Text, b: Byte)
    requires TextAt(s, i, t) && Lacks(t, b)
    ensures forall k | i <= k < i + |t| :: s[k] != b
  {
    forall k | i <= k < i + |t|
      ensures s[k] != b
    {
      assert s[i + (k - i)] == t[k - i];
    }
  }

  lemma {:induction false} SkipLine(p: LexProfile, s: Text, i: nat, j: nat)
    requires i <= j <= |s| && forall k | i <= k < j :: !EndsLine(p, s[k])
    ensures LineCommentEnd(p, s, i) == LineCommentEnd(p, s, j)
    decreases j - i
  {
    if i < j {
      SkipLine(p, s, i + 1, j);
    }
  }

  lemma {:induction false} SkipComment(nested: bool, depth: nat, s: Text, i: nat, j: nat)
    requires i <= j <= |s| && depth >= 1 && forall k | i <= k < j :: s[k] != STAR && s[k] != SLASH
    ensures BlockCommentEnd(nested, depth, s, i) == BlockCommentEnd(nested, depth, s, j)
    decreases j - i
  {
    if i < j {
      SkipComment(nested, depth, s, i + 1, j);
    }
  }

  lemma {:induction false} SkipRun(close: Byte, backslash: bool, s: Text, i: nat, j: nat)
    requires i <= j <= |s| && forall k | i <= k < j :: s[k] != close && (backslash ==> s[k] != BACKSLASH)
    ensures DelimitedEnd(close, backslash, s, i) == DelimitedEnd(close, backslash, s, j)
    decreases j - i
  {
    if i < j {
      SkipRun(close, backslash, s, i + 1, j);
    }
  }

  lemma {:induction false} SkipTriple(quote: Byte, backslash: bool, s: Text, i: nat, j: nat)
    requires i <= j <= |s|
    requires forall k | i <= k < j :: (backslash ==> s[k] != BACKSLASH) && !TripleAt(s, k, quote)
    ensures TripleBodyEnd(quote, backslash, s, i) == TripleBodyEnd(quote, backslash, s, j)
    decreases j - i
  {
    if i < j {
      SkipTriple(quote, backslash, s, i + 1, j);
    }
  }

  lemma StartByte(s: Text, i: nat, t: Text)
    requires t != []
    ensures TextAt(s, i, t) ==> ByteAt(s, i, t[0])
  {
    if TextAt(s, i, t) {
      TextByte(s, i, t, 0);
    }
  }

  lemma {:induction false} SkipBody(delim: Text, s: Text, i: nat, j: nat)
    requires i <= j <= |s| && delim != [] && forall k | i <= k < j :: s[k] != delim[0]
    ensures DollarBodyEnd(delim, s, i) == DollarBodyEnd(delim, s, j)
    decreases j - i
  {
    if i < j {
      StartByte(s, i, delim);
      SkipBody(delim, s, i + 1, j);
    }
  }

  lemma TextByte(s: Text, i: nat, t: Text, k: nat)
    requires TextAt(s, i, t) && k < |t|
    ensures i + k < |s| && s[i + k] == t[k]
  {
  }

  /** A line comment that opens at `i`, whose line ends at `e`. */
  lemma LinePasses(p: LexProfile, s: Text, i: nat, e: nat)
    requires i < e < |s| && KindAt(p, s, i) == LineComment && EndsLine(p, s[e])
    requires forall k | i <= k < e :: !EndsLine(p, s[k])
    ensures Reaches(p, s, i, e + 1)
  {
    SkipLine(p, s, i, e);
    TokenThenByte(p, s, i, e);
  }

  lemma LineBody(p: LexProfile, s: Text, i: nat, head: Text, a: Text, end: Byte)
    requires TextAt(s, i, head + (a + [end])) && head != [] && OneLine(p, head) && OneLine(p, a) && EndsLine(p, end)
    requires KindAt(p, s, i) == LineComment
    ensures Reaches(p, s, i, i + |head + (a + [end])|)
  {
    TextParts(s, i, head, a + [end]);
    TextParts(s, i + |head|, a, [end]);
    TextByte(s, i + |head| + |a|, [end], 0);
    AbsentBytes(s, i, head, LF);
    AbsentBytes(s, i + |head|, a, LF);
    if p.lineCommentEndsAtCr {
      AbsentBytes(s, i, head, CR);
      AbsentBytes(s, i + |head|, a, CR);
    }
    LinePasses(p, s, i, i + |head| + |a|);
  }

  lemma DashesOpen(p: LexProfile, s: Text, i: nat, rest: Text)
    requires TextAt(s, i, TWO_DASHES + rest)
    ensures KindAt(p, s, i) == LineComment && OneLine(p, TWO_DASHES)
  {
    TextParts(s, i, TWO_DASHES, rest);
    TextByte(s, i, TWO_DASHES, 0);
    TextByte(s, i, TWO_DASHES, 1);
    TextByte(s, i, TWO_DASHES, 2);
  }

  lemma LineOpens(p: LexProfile, s: Text, i: nat, a: Text, rest: Text)
    requires ValidLine(p, a) && rest == a + [LF] && TextAt(s, i, [DASH, DASH] + rest)
    ensures KindAt(p, s, i) == LineComment
  {
    TextParts(s, i, [DASH, DASH], rest);
    TextByte(s, i, [DASH, DASH], 0);
    TextByte(s, i, [DASH, DASH], 1);
    TextByte(s, i + 2, rest, 0);
    assert rest[0] == if a == [] then LF else a[0];
  }

  lemma LineDecoy(p: LexProfile, s: Text, i: nat, a: Text, t: Text)
    requires ValidLine(p, a) && t == LineText(a) && TextAt(s, i, t)
    ensures Reaches(p, s, i, i + |t|)
  {
    LineOpens(p, s, i, a, a + [LF]);
    LineBody(p, s, i, [DASH, DASH], a, LF);
  }

  lemma HashDecoy(p: LexProfile, s: Text, i: nat, a: Text, t: Text)
    requires OneLine(p, a) && t == HashText(p, a) && TextAt(s, i, t)
    ensures Reaches(p, s, i, i + |t|)
  {
    TextByte(s, i, t, 0);
    if p.hashComments {
      LineBody(p, s, i, [HASH], a, LF);
    } else {
      TextByte(s, i, t, 1);
      CodeReaches(p, s, i, i + 2);
    }
  }

  lemma DashesDecoy(p: LexProfile, s: Text, i: nat, c: Byte, a: Text, t: Text)
    requires (IsAlphanumeric(c) || c >= 128) && OneLine(p, a) && t == DashesText(p, c, a) && TextAt(s, i, t)
    ensures Reaches(p, s, i, i + |t|)
  {
    TextByte(s, i, t, 0);
    TextByte(s, i, t, 1);
    TextByte(s, i, t, 2);
    assert t[0] == DASH && t[1] == DASH && t[2] == c;
    if p.dashCommentNeedsSpace {
      TextByte(s, i, t, 3);
      CodeReaches(p, s, i, i + 4);
    } else {
      LineBody(p, s, i, [DASH, DASH, c], a, LF);
    }
  }

  lemma ReturnInComment(p: LexProfile, s: Text, i: nat, a: Text, b: Text)
    requires Lacks(a, LF) && Lacks(a, CR) && Lacks(b, LF)
    requires !p.lineCommentEndsAtCr && i < |s| && KindAt(p, s, i) == LineComment
    requires TextAt(s, i, TWO_DASHES) && TextAt(s, i + 3, a) && ByteAt(s, i + 3 + |a|, CR)
    requires TextAt(s, i + 4 + |a|, b) && ByteAt(s, i + 4 + |a| + |b|, LF)
    ensures Reaches(p, s, i, i + |a| + |b| + 5)
  {
    AbsentBytes(s, i, TWO_DASHES, LF);
    AbsentBytes(s, i + 3, a, LF);
    AbsentBytes(s, i + 4 + |a|, b, LF);
    LinePasses(p, s, i, i + 4 + |a| + |b|);
  }

  lemma ReturnParts(s: Text, i: nat, a: Text, b: Text)
    requires TextAt(s, i, TWO_DASHES + (a + ([CR] + (b + [LF]))))
    ensures TextAt(s, i, TWO_DASHES) && TextAt(s, i + 3, a) && ByteAt(s, i + 3 + |a|, CR)
    ensures TextAt(s, i + 4 + |a|, b) && ByteAt(s, i + 4 + |a| + |b|, LF)
  {
    TextParts(s, i, TWO_DASHES, a + ([CR] + (b + [LF])));
    TextParts(s, i + 3, a, [CR] + (b + [LF]));
    TextParts(s, i + 3 + |a|, [CR], b + [LF]);
    TextParts(s, i + 4 + |a|, b, [LF]);
    TextByte(s, i + 3 + |a|, [CR], 0);
    TextByte(s, i + 4 + |a| + |b|, [LF], 0);
  }

  lemma ReturnEndsLine(p: LexProfile, s: Text, i: nat, a: Text)
    requires Lacks(a, LF) && Lacks(a, CR) && p.lineCommentEndsAtCr && TextAt(s, i, TWO_DASHES + (a + [CR]))
    ensures Reaches(p, s, i, i + |a| + 4)
  {
    DashesOpen(p, s, i, a + [CR]);
    LineBody(p, s, i, TWO_DASHES, a, CR);
  }

  lemma ReturnIsText(p: LexProfile, s: Text, i: nat, a: Text, b: Text, rest: Text)
    requires Lacks(a, LF) && Lacks(a, CR) && Lacks(b, LF) && !p.lineCommentEndsAtCr
    requires rest == a + ([CR] + (b + [LF])) && TextAt(s, i, TWO_DASHES + rest)
    ensures Reaches(p, s, i, i + |a| + |b| + 5)
  {
    DashesOpen(p, s, i, rest);
    ReturnParts(s, i, a, b);
    ReturnInComment(p, s, i, a, b);
  }

  lemma ReturnDecoy(p: LexProfile, s: Text, i: nat, a: Text, b: Text, t: Text)
    requires Lacks(a, LF) && Lacks(a, CR) && Lacks(b, LF) && t == ReturnText(p, a, b) && TextAt(s, i, t)
    ensures Reaches(p, s, i, i + |t|)
  {
    if p.lineCommentEndsAtCr {
      ReturnEndsLine(p, s, i, a);
    } else {
      ReturnIsText(p, s, i, a, b, a + ([CR] + (b + [LF])));
    }
  }

  /** An opener and text without comment marks: the scan goes on after them. */
  lemma CommentOpens(nested: bool, depth: nat, s: Text, i: nat, a: Text, rest: Text)
    requires TextAt(s, i, OPENER + (a + rest)) && NoCommentMark(a) && depth >= 1
    ensures PairAt(s, i, SLASH, STAR) && TextAt(s, i + 2 + |a|, rest)
    ensures BlockCommentEnd(nested, depth, s, i + 2) == BlockCommentEnd(nested, depth, s, i + 2 + |a|)
    ensures a != [] ==> s[i + 2] == a[0]
  {
    TextParts(s, i, OPENER, a + rest);
    TextParts(s, i + 2, a, rest);
    TextByte(s, i, OPENER, 0);
    TextByte(s, i, OPENER, 1);
    AbsentBytes(s, i + 2, a, STAR);
    AbsentBytes(s, i + 2, a, SLASH);
    if a != [] {
      TextByte(s, i + 2, a, 0);
    }
    SkipComment(nested, depth, s, i + 2, i + 2 + |a|);
  }

  lemma CommentCloses(nested: bool, depth: nat, s: Text, i: nat, rest: Text)
    requires TextAt(s, i, CLOSER + rest) && depth >= 1
    ensures TextAt(s, i + 2, rest) && i + 2 <= |s|
    ensures BlockCommentEnd(nested, depth, s, i) ==
            if depth == 1 then i + 2 else BlockCommentEnd(nested, depth - 1, s, i + 2)
  {
    TextParts(s, i, CLOSER, rest);
    TextByte(s, i, CLOSER, 0);
    TextByte(s, i, CLOSER, 1);
  }

  /** An opener inside a comment counts only where comments nest. */
  lemma InnerOpener(nested: bool, s: Text, i: nat, b: Text, rest: Text)
    requires TextAt(s, i, OPENER + (b + rest)) && NoCommentMark(b) && (b == [] ==> ByteAt(s, i + 2, STAR))
    ensures TextAt(s, i + 2 + |b|, rest)
    ensures BlockCommentEnd(nested, 1, s, i) == BlockCommentEnd(nested, if nested then 2 else 1, s, i + 2 + |b|)
  {
    CommentOpens(nested, if nested then 2 else 1, s, i, b, rest);
    AbsentBytes(s, i + 2, b, SLASH) by {
      TextParts(s, i, OPENER, b + rest);
      TextParts(s, i + 2, b, rest);
    }
    TextParts(s, i, OPENER, b + rest);
    TextByte(s, i, OPENER, 1);
    if !nested {
      SkipInner(s, i);
    }
  }

  lemma SkipInner(s: Text, i: nat)
    requires PairAt(s, i, SLASH, STAR) && !ByteAt(s, i + 2, SLASH)
    ensures BlockCommentEnd(false, 1, s, i) == BlockCommentEnd(false, 1, s, i + 2)
  {
    assert BlockCommentEnd(false, 1, s, i) == BlockCommentEnd(false, 1, s, i + 1);
  }

  lemma ByteAfter(s: Text, i: nat, rest: Text)
    requires TextAt(s, i, rest) && rest != []
    ensures ByteAt(s, i, rest[0])
  {
    TextByte(s, i, rest, 0);
  }

  lemma InnerOpened(nested: bool, s: Text, j: nat, b: Text, rest: Text) returns (k: nat)
    requires NoCommentMark(b) && rest != [] && rest[0] == STAR && TextAt(s, j, OPENER + (b + rest))
    ensures k == j + 2 + |b| && TextAt(s, k, rest) && k <= |s|
    ensures BlockCommentEnd(nested, 1, s, j) == BlockCommentEnd(nested, if nested then 2 else 1, s, k)
  {
    InnerText(s, j, b, rest);
    InnerOpener(nested, s, j, b, rest);
    k := j + 2 + |b|;
    StartByte(s, k, rest);
  }

  lemma InnerRun(nested: bool, s: Text, j: nat, b: Text, c: Text, tail: Text, rest: Text)
    requires NoCommentMark(b) && NoCommentMark(c) && tail == NestingTail(nested, c) && rest == CLOSER + tail
    requires TextAt(s, j, OPENER + (b + rest))
    ensures var e := j + 3 + |b| + |tail|; ByteAt(s, e, SPACE) && BlockCommentEnd(nested, 1, s, j) == e
  {
    var k := InnerOpened(nested, s, j, b, rest);
    CommentCloses(nested, if nested then 2 else 1, s, k, tail);
    NestingEnds(nested, s, k + 2, c);
  }

  /** The whole nesting decoy as a comment: where it ends, and that it opens no executable one. */
  lemma NestingRun(nested: bool, s: Text, i: nat, a: Text, b: Text, c: Text)
    requires ValidNesting(a, b, c)
    requires TextAt(s, i, NestingText(nested, a, b, c))
    ensures PairAt(s, i, SLASH, STAR) && i + 2 < |s| && s[i + 2] != BANG && s[i + 2] != UPPER_M
    ensures var e := i + 6 + |a| + |b| + if nested then |c| + 2 else 0;
            ByteAt(s, e, SPACE) && BlockCommentEnd(nested, 1, s, i + 2) == e
  {
    var tail := NestingTail(nested, c);
    var inner := OPENER + (b + (CLOSER + tail));
    CommentOpens(nested, 1, s, i, a, inner);
    ByteAfter(s, i + 2 + |a|, inner);
    InnerRun(nested, s, i + 2 + |a|, b, c, tail, CLOSER + tail);
  }

  lemma CommentThenSpace(p: LexProfile, s: Text, i: nat, e: nat)
    requires PairAt(s, i, SLASH, STAR) && i + 2 < |s| && s[i + 2] != BANG && s[i + 2] != UPPER_M
    requires ByteAt(s, e, SPACE) && BlockCommentEnd(p.nestedBlockComments, 1, s, i + 2) == e
    ensures Reaches(p, s, i, e + 1)
  {
    PlainComment(p, s, i);
    TokenThenByte(p, s, i, e);
  }

  lemma NestingDecoy(p: LexProfile, s: Text, i: nat, a: Text, b: Text, c: Text, t: Text)
    requires ValidNesting(a, b, c) && t == NestingText(p.nestedBlockComments, a, b, c) && TextAt(s, i, t)
    ensures Reaches(p, s, i, i + |t|)
  {
    NestingRun(p.nestedBlockComments, s, i, a, b, c);
    CommentThenSpace(p, s, i, i + |t| - 1);
  }

  lemma InnerText(s: Text, j: nat, b: Text, rest: Text)
    requires TextAt(s, j, OPENER + (b + rest)) && rest != [] && rest[0] == STAR
    ensures b == [] ==> ByteAt(s, j + 2, STAR)
  {
    TextParts(s, j, OPENER, b + rest);
    TextParts(s, j + 2, b, rest);
    ByteAfter(s, j + 2 + |b|, rest);
  }

  /** What follows the first closer: another one where comments nest, then a space. */
  lemma NestingEnds(nested: bool, s: Text, i: nat, c: Text)
    requires TextAt(s, i, NestingTail(nested, c)) && NoCommentMark(c)
    ensures var e := i + |NestingTail(nested, c)| - 1;
            ByteAt(s, e, SPACE) && (nested ==> BlockCommentEnd(nested, 1, s, i) == e)
  {
    if nested {
      TextParts(s, i, c, CLOSER + [SPACE]);
      AbsentBytes(s, i, c, STAR);
      AbsentBytes(s, i, c, SLASH);
      SkipComment(nested, 1, s, i, i + |c|);
      CommentCloses(nested, 1, s, i + |c|, [SPACE]);
      ByteAfter(s, i + |c| + 2, [SPACE]);
    } else {
      ByteAfter(s, i, [SPACE]);
    }
  }

  /** A comment that starts with no bang opens no executable one. */
  lemma PlainComment(p: LexProfile, s: Text, i: nat)
    requires PairAt(s, i, SLASH, STAR) && i + 2 < |s| && s[i + 2] != BANG && s[i + 2] != UPPER_M
    ensures KindAt(p, s, i) == BlockComment
  {
  }

  lemma ExecutableOpens(p: LexProfile, s: Text, i: nat)
    requires p.executableComments && TextAt(s, i, OPENER + [BANG, SPACE])
    ensures Reaches(p, s, i, i + 4)
  {
    TextParts(s, i, OPENER, [BANG, SPACE]);
    TextByte(s, i, OPENER, 0);
    TextByte(s, i, OPENER, 1);
    TextByte(s, i + 2, [BANG, SPACE], 0);
    TextByte(s, i + 2, [BANG, SPACE], 1);
    assert ExecutableOpenerEnd(s, i) == Some(i + 3);
    TokenThenByte(p, s, i, i + 3);
  }

  lemma ExecutableIsComment(p: LexProfile, s: Text, i: nat, a: Text)
    requires !p.executableComments && NoCommentMark(a) && TextAt(s, i, OPENER + (([BANG] + a) + (CLOSER + [SPACE])))
    ensures Reaches(p, s, i, i + |a| + 6)
  {
    CommentOpens(p.nestedBlockComments, 1, s, i, [BANG] + a, CLOSER + [SPACE]);
    CommentCloses(p.nestedBlockComments, 1, s, i + 3 + |a|, [SPACE]);
    ByteAfter(s, i + 5 + |a|, [SPACE]);
    TokenThenByte(p, s, i, i + 5 + |a|);
  }

  lemma ExecutableDecoy(p: LexProfile, s: Text, i: nat, a: Text, t: Text)
    requires NoCommentMark(a) && t == ExecutableText(p, a) && TextAt(s, i, t)
    ensures Reaches(p, s, i, i + |t|)
  {
    if p.executableComments {
      ExecutableOpens(p, s, i);
    } else {
      ExecutableIsComment(p, s, i, a);
    }
  }

  /** After `i` stand `a`, a backslash and a quote. */
  lemma BackslashStart(quote: Byte, backslash: bool, s: Text, i: nat, a: Text, tail: Text)
    requires NoQuoteOrEscape(a, quote) && TextAt(s, i, a + ([BACKSLASH, quote] + tail))
    ensures PairAt(s, i + |a|, BACKSLASH, quote) && TextAt(s, i + |a| + 2, tail)
    ensures DelimitedEnd(quote, backslash, s, i) == DelimitedEnd(quote, backslash, s, i + |a|)
  {
    var j := i + |a|;
    TextParts(s, i, a, [BACKSLASH, quote] + tail);
    TextParts(s, j, [BACKSLASH, quote], tail);
    AbsentBytes(s, i, a, quote);
    AbsentBytes(s, i, a, BACKSLASH);
    SkipRun(quote, backslash, s, i, j);
    TextByte(s, j, [BACKSLASH, quote], 0);
    TextByte(s, j, [BACKSLASH, quote], 1);
  }

  lemma ClosingRun(quote: Byte, backslash: bool, s: Text, i: nat, b: Text)
    requires quote != BACKSLASH && quote != SPACE && NoQuoteOrEscape(b, quote) && TextAt(s, i, b + [quote, SPACE])
    ensures var e := i + |b| + 1; ByteAt(s, e, SPACE) && DelimitedEnd(quote, backslash, s, i) == e
  {
    var j := i + |b|;
    TextParts(s, i, b, [quote, SPACE]);
    AbsentBytes(s, i, b, quote);
    AbsentBytes(s, i, b, BACKSLASH);
    SkipRun(quote, backslash, s, i, j);
    TextByte(s, j, [quote, SPACE], 0);
    TextByte(s, j, [quote, SPACE], 1);
  }

  lemma SkipEscape(quote: Byte, s: Text, j: nat)
    requires PairAt(s, j, BACKSLASH, quote)
    ensures DelimitedEnd(quote, true, s, j) == DelimitedEnd(quote, true, s, j + 2)
  {
  }

  lemma EscapedRun(quote: Byte, s: Text, i: nat, a: Text, b: Text, tail: Text)
    requires IsQuoteByte(quote) && NoQuoteOrEscape(a, quote) && NoQuoteOrEscape(b, quote)
    requires tail == b + [quote, SPACE] && TextAt(s, i, a + ([BACKSLASH, quote] + tail))
    ensures var e := i + |a| + |b| + 3; ByteAt(s, e, SPACE) && DelimitedEnd(quote, true, s, i) == e
  {
    var j := i + |a|;
    BackslashStart(quote, true, s, i, a, tail);
    SkipEscape(quote, s, j);
    ClosingRun(quote, true, s, j + 2, b);
  }

  lemma LooseRun(quote: Byte, s: Text, i: nat, a: Text)
    requires IsQuoteByte(quote) && NoQuoteOrEscape(a, quote) && TextAt(s, i, a + ([BACKSLASH, quote] + [SPACE]))
    ensures var e := i + |a| + 2; ByteAt(s, e, SPACE) && DelimitedEnd(quote, false, s, i) == e
  {
    var j := i + |a|;
    BackslashStart(quote, false, s, i, a, [SPACE]);
    ByteAfter(s, j + 2, [SPACE]);
    SkipBackslash(quote, s, j);
  }

  /** After `i` stand `a`, a backslash and a quote, and what closes the string. */
  lemma BackslashRun(quote: Byte, backslash: bool, s: Text, i: nat, a: Text, b: Text)
    requires IsQuoteByte(quote) && NoQuoteOrEscape(a, quote) && NoQuoteOrEscape(b, quote)
    requires TextAt(s, i, BackslashTail(quote, a, b, backslash))
    ensures var e := i + |a| + 2 + if backslash then |b| + 1 else 0;
            ByteAt(s, e, SPACE) && DelimitedEnd(quote, backslash, s, i) == e
  {
    if backslash {
      EscapedRun(quote, s, i, a, b, b + [quote, SPACE]);
    } else {
      LooseRun(quote, s, i, a);
    }
  }

  lemma SkipBackslash(quote: Byte, s: Text, j: nat)
    requires quote != BACKSLASH && PairAt(s, j, BACKSLASH, quote) && !ByteAt(s, j + 2, quote)
    ensures DelimitedEnd(quote, false, s, j) == j + 2
  {
    assert DelimitedEnd(quote, false, s, j) == DelimitedEnd(quote, false, s, j + 1);
  }

  lemma BackslashDecoy(p: LexProfile, s: Text, i: nat, q: Byte, a: Text, b: Text, t: Text)
    requires ValidBackslash(q, a, b) && t == BackslashText(q, a, b, BackslashIn(p, q)) && TextAt(s, i, t)
    ensures Reaches(p, s, i, i + |t|)
  {
    var rest := BackslashTail(q, a, b, BackslashIn(p, q));
    TextParts(s, i, [q], rest);
    TextByte(s, i, [q], 0);
    var e := RunEnd(q, BackslashIn(p, q), s, i + 1, a, b, rest);
    SingleQuoteOpens(p, s, i, q);
    TokenThenByte(p, s, i, e);
  }

  /** A quote that is not followed by another one opens a plain quoted run. */
  lemma SingleQuoteOpens(p: LexProfile, s: Text, i: nat, q: Byte)
    requires IsQuoteByte(q) && ByteAt(s, i, q) && !ByteAt(s, i + 1, q)
    ensures TokenAt(p, s, i).end == DelimitedEnd(q, BackslashIn(p, q), s, i + 1)
  {
    assert KindAt(p, s, i) in {SingleQuoted, DoubleQuoted, BacktickQuoted};
  }

  lemma EscapeOpens(p: LexProfile, s: Text, i: nat, letter: Byte, e: nat)
    requires p.eStrings && IsE(letter) && PairAt(s, i, letter, QUOTE) && BoundaryAt(s, i)
    requires ByteAt(s, e, SPACE) && DelimitedEnd(QUOTE, true, s, i + 2) == e
    ensures Reaches(p, s, i, e + 1)
  {
    assert KindAt(p, s, i) == EscapeString;
    TokenThenByte(p, s, i, e);
  }

  /** A letter that opens no escape string, and a string after it. */
  lemma LetterThenQuote(p: LexProfile, s: Text, i: nat, letter: Byte, e: nat)
    requires IsE(letter) && PairAt(s, i, letter, QUOTE) && !ByteAt(s, i + 2, QUOTE)
    requires !p.eStrings || !BoundaryAt(s, i)
    requires ByteAt(s, e, SPACE) && DelimitedEnd(QUOTE, p.backslashInSingle, s, i + 2) == e
    ensures Reaches(p, s, i, e + 1)
  {
    SingleQuoteOpens(p, s, i + 1, QUOTE);
    TokenThenByte(p, s, i + 1, e);
    assert KindAt(p, s, i) == Code;
    assert TokenAt(p, s, i).end == i + 1;
  }

  lemma RunEnd(quote: Byte, backslash: bool, s: Text, i: nat, a: Text, b: Text, rest: Text) returns (e: nat)
    requires ValidBackslash(quote, a, b) && rest == BackslashTail(quote, a, b, backslash) && TextAt(s, i, rest)
    ensures e == i + |rest| - 1 && ByteAt(s, e, SPACE) && DelimitedEnd(quote, backslash, s, i) == e
    ensures !ByteAt(s, i, quote)
  {
    BackslashRun(quote, backslash, s, i, a, b);
    e := i + |rest| - 1;
    ByteAfter(s, i, rest);
    assert rest[0] == if a == [] then BACKSLASH else a[0];
  }

  lemma EscapeParts(s: Text, i: nat, letter: Byte, rest: Text)
    requires TextAt(s, i, [letter] + ([QUOTE] + rest))
    ensures PairAt(s, i, letter, QUOTE) && TextAt(s, i + 2, rest)
  {
    TextParts(s, i, [letter], [QUOTE] + rest);
    TextParts(s, i + 1, [QUOTE], rest);
    TextByte(s, i, [letter], 0);
    TextByte(s, i + 1, [QUOTE], 0);
  }

  lemma EscapeReaches(p: LexProfile, s: Text, i: nat, letter: Byte, a: Text, b: Text, rest: Text)
    requires IsE(letter) && ValidEscape(a, b) && PairAt(s, i, letter, QUOTE) && BoundaryAt(s, i)
    requires rest == BackslashTail(QUOTE, a, b, p.eStrings || p.backslashInSingle) && TextAt(s, i + 2, rest)
    ensures Reaches(p, s, i, i + 2 + |rest|)
  {
    var e := RunEnd(QUOTE, p.eStrings || p.backslashInSingle, s, i + 2, a, b, rest);
    if p.eStrings {
      EscapeOpens(p, s, i, letter, e);
    } else {
      LetterThenQuote(p, s, i, letter, e);
    }
  }

  lemma EscapeDecoy(p: LexProfile, s: Text, i: nat, letter: Byte, a: Text, b: Text, t: Text)
    requires IsE(letter) && ValidEscape(a, b) && i <= |s| && BoundaryAt(s, i)
    requires t == EscapeText(p, letter, a, b) && TextAt(s, i, t)
    ensures Reaches(p, s, i, i + |t|)
  {
    var rest := BackslashTail(QUOTE, a, b, p.eStrings || p.backslashInSingle);
    EscapeParts(s, i, letter, rest);
    EscapeReaches(p, s, i, letter, a, b, rest);
  }

  /** A byte of a name is code, whatever letter follows it. */
  lemma NameByteIsCode(p: LexProfile, s: Text, i: nat)
    requires i + 1 < |s| && (IsNameByte(s[i]) || s[i] == DOLLAR)
    requires s[i + 1] != QUOTE && (s[i] == DOLLAR ==> IsE(s[i + 1]) && ByteAt(s, i + 2, QUOTE))
    ensures KindAt(p, s, i) == Code
  {
  }

  lemma NameEscapeParts(s: Text, i: nat, c: Byte, letter: Byte, rest: Text)
    requires TextAt(s, i, [c, letter] + ([QUOTE] + rest))
    ensures ByteAt(s, i, c) && PairAt(s, i + 1, letter, QUOTE) && TextAt(s, i + 3, rest)
  {
    TextParts(s, i, [c, letter], [QUOTE] + rest);
    TextParts(s, i + 2, [QUOTE], rest);
    TextByte(s, i, [c, letter], 0);
    TextByte(s, i, [c, letter], 1);
    TextByte(s, i + 2, [QUOTE], 0);
  }

  lemma NameThenQuote(p: LexProfile, s: Text, i: nat, letter: Byte, e: nat)
    requires i < |s| && (IsNameByte(s[i]) || s[i] == DOLLAR) && IsE(letter) && PairAt(s, i + 1, letter, QUOTE)
    requires !ByteAt(s, i + 3, QUOTE)
    requires ByteAt(s, e, SPACE) && DelimitedEnd(QUOTE, p.backslashInSingle, s, i + 3) == e
    ensures Reaches(p, s, i, e + 1)
  {
    NameByteIsCode(p, s, i);
    assert !BoundaryAt(s, i + 1);
    LetterThenQuote(p, s, i + 1, letter, e);
    CodeReaches(p, s, i, i + 1);
    ReachesOn(p, s, i, i + 1, e + 1);
  }

  lemma NameEscapeDecoy(p: LexProfile, s: Text, i: nat, c: Byte, letter: Byte, a: Text, b: Text, t: Text)
    requires (IsNameByte(c) || c == DOLLAR) && IsE(letter) && ValidEscape(a, b)
    requires t == NameEscapeText(p, c, letter, a, b) && TextAt(s, i, t)
    ensures Reaches(p, s, i, i + |t|)
  {
    var rest := BackslashTail(QUOTE, a, b, p.backslashInSingle);
    NameEscapeParts(s, i, c, letter, rest);
    var e := RunEnd(QUOTE, p.backslashInSingle, s, i + 3, a, b, rest);
    NameThenQuote(p, s, i, letter, e);
  }

  // ---------- Triple quotes, dollars, brackets ----------

  lemma TripleRun(quote: Byte, backslash: bool, s: Text, i: nat, a: Text, b: Text)
    requires ValidTriple(quote, a, b) && TextAt(s, i, a + ([quote] + (b + [quote, quote, quote, SPACE])))
    ensures var e := i + |a| + |b| + 4;
            ByteAt(s, e, SPACE) && TripleBodyEnd(quote, backslash, s, i) == e
  {
    var close := [quote, quote, quote, SPACE];
    var j := i + |a|;
    var k := j + 1 + |b|;
    TextParts(s, i, a, [quote] + (b + close));
    TextParts(s, j, [quote], b + close);
    TextParts(s, j + 1, b, close);
    AbsentBytes(s, i, a, quote);
    AbsentBytes(s, i, a, BACKSLASH);
    AbsentBytes(s, j + 1, b, quote);
    AbsentBytes(s, j + 1, b, BACKSLASH);
    TextByte(s, j, [quote], 0);
    TextByte(s, k, close, 0);
    TextByte(s, k, close, 1);
    TextByte(s, k, close, 2);
    TextByte(s, k, close, 3);
    LoneQuotes(quote, s, i, j, k);
    SkipTriple(quote, backslash, s, i, k);
  }

  /** A lone quote among other bytes is no triple. */
  lemma LoneQuotes(quote: Byte, s: Text, i: nat, j: nat, k: nat)
    requires i <= j < k - 1 && k <= |s| && forall m | i <= m < k :: s[m] == quote ==> m == j
    ensures forall m | i <= m < k :: !TripleAt(s, m, quote)
  {
    forall m | i <= m < k
      ensures !TripleAt(s, m, quote)
    {
      if m == j {
        assert s[j + 1] != quote;
      }
    }
  }

  lemma PairRun(quote: Byte, backslash: bool, s: Text, i: nat, a: Text)
    requires IsQuoteByte(quote) && NoQuoteOrEscape(a, quote)
    requires PairAt(s, i, quote, quote) && TextAt(s, i + 2, a + [quote, SPACE])
    ensures var e := i + |a| + 3;
            ByteAt(s, e, SPACE) && DelimitedEnd(quote, backslash, s, i) == e
  {
    ClosingRun(quote, backslash, s, i + 2, a);
    assert DelimitedEnd(quote, backslash, s, i) == DelimitedEnd(quote, backslash, s, i + 2);
  }

  lemma TripleOpens(p: LexProfile, s: Text, i: nat, q: Byte, e: nat)
    requires p.tripleQuotes && TripleAt(s, i, q) && (q == QUOTE || q == DOUBLE_QUOTE)
    requires ByteAt(s, e, SPACE) && TripleBodyEnd(q, BackslashIn(p, q), s, i + 3) == e
    ensures Reaches(p, s, i, e + 1)
  {
    assert KindAt(p, s, i) == TripleString;
    TokenThenByte(p, s, i, e);
  }

  lemma TripleIsRun(p: LexProfile, s: Text, i: nat, q: Byte, e: nat)
    requires !p.tripleQuotes && ByteAt(s, i, q) && (q == QUOTE || q == DOUBLE_QUOTE)
    requires ByteAt(s, e, SPACE) && DelimitedEnd(q, BackslashIn(p, q), s, i + 1) == e
    ensures Reaches(p, s, i, e + 1)
  {
    assert KindAt(p, s, i) in {SingleQuoted, DoubleQuoted};
    TokenThenByte(p, s, i, e);
  }

  lemma ThreeQuotes(s: Text, i: nat, q: Byte, rest: Text)
    requires TextAt(s, i, [q, q, q] + rest)
    ensures TripleAt(s, i, q) && TextAt(s, i + 3, rest)
  {
    TextParts(s, i, [q, q, q], rest);
    TextByte(s, i, [q, q, q], 0);
    TextByte(s, i, [q, q, q], 1);
    TextByte(s, i, [q, q, q], 2);
  }

  /** With or without backslash escapes, the body that starts at `i` ends at `e`. */
  predicate TripleEndsAt(quote: Byte, s: Text, i: nat, e: nat)
    requires i <= |s|
  {
    TripleBodyEnd(quote, true, s, i) == e && TripleBodyEnd(quote, false, s, i) == e
  }

  lemma TripleEnd(quote: Byte, s: Text, i: nat, a: Text, b: Text, rest: Text) returns (e: nat)
    requires ValidTriple(quote, a, b)
    requires rest == a + ([quote] + (b + [quote, quote, quote, SPACE])) && TextAt(s, i, rest)
    ensures e == i + |a| + |b| + 4 && ByteAt(s, e, SPACE)
    ensures TripleEndsAt(quote, s, i, e)
  {
    TripleRun(quote, true, s, i, a, b);
    TripleRun(quote, false, s, i, a, b);
    e := i + |a| + |b| + 4;
  }

  lemma TripleOn(p: LexProfile, s: Text, i: nat, q: Byte, e: nat)
    requires (q == QUOTE || q == DOUBLE_QUOTE) && p.tripleQuotes && TripleAt(s, i, q)
    requires ByteAt(s, e, SPACE) && TripleEndsAt(q, s, i + 3, e)
    ensures Reaches(p, s, i, e + 1)
  {
    TripleOpens(p, s, i, q, e);
  }

  lemma TripleOff(p: LexProfile, s: Text, i: nat, q: Byte, a: Text, rest: Text)
    requires IsQuoteByte(q) && q != BACKTICK && NoQuoteOrEscape(a, q) && !p.tripleQuotes
    requires rest == a + [q, SPACE] && TextAt(s, i, [q, q, q] + rest)
    ensures Reaches(p, s, i, i + |a| + 5)
  {
    ThreeQuotes(s, i, q, rest);
    PairRun(q, BackslashIn(p, q), s, i + 1, a);
    TripleIsRun(p, s, i, q, i + |a| + 4);
  }

  lemma TripleReads(p: LexProfile, s: Text, i: nat, q: Byte, a: Text, b: Text, rest: Text) returns (e: nat)
    requires ValidTriple(q, a, b) && p.tripleQuotes
    requires rest == a + ([q] + (b + [q, q, q, SPACE])) && TextAt(s, i, [q, q, q] + rest)
    ensures e == i + |a| + |b| + 7 && Reaches(p, s, i, e + 1)
  {
    ThreeQuotes(s, i, q, rest);
    e := TripleEnd(q, s, i + 3, a, b, rest);
    TripleOn(p, s, i, q, e);
  }

  lemma TripleDecoy(p: LexProfile, s: Text, i: nat, q: Byte, a: Text, b: Text, t: Text)
    requires ValidTriple(q, a, b) && t == TripleText(q, a, b, p.tripleQuotes) && TextAt(s, i, t)
    ensures Reaches(p, s, i, i + |t|)
  {
    if p.tripleQuotes {
      var e := TripleReads(p, s, i, q, a, b, TripleTail(q, a, b, true));
    } else {
      TripleOff(p, s, i, q, a, TripleTail(q, a, b, false));
    }
  }

  lemma TagBytes(s: Text, i: nat, tag: Text, mark: Text)
    requires IsTag(tag) && mark == Mark(tag) && TextAt(s, i, mark)
    ensures IsDollarTag(s, i, i + |mark|) && s[i..i + |mark|] == mark
    ensures forall k | i <= k < i + |mark| :: s[k] == DOLLAR || IsTagContinue(s[k])
  {
    forall k | i <= k < i + |mark|
      ensures s[k] == mark[k - i]
    {
      TextByte(s, i, mark, k - i);
    }
    assert forall k | i < k < i + |tag| + 1 :: s[k] == tag[k - i - 1];
  }

  lemma DollarRun(s: Text, i: nat, mark: Text, a: Text)
    requires mark != [] && mark[0] == DOLLAR && Lacks(a, DOLLAR) && TextAt(s, i, a + (mark + [SPACE]))
    ensures var e := i + |a| + |mark|;
            ByteAt(s, e, SPACE) && DollarBodyEnd(mark, s, i) == e
  {
    var c := i + |a|;
    TextParts(s, i, a, mark + [SPACE]);
    TextParts(s, c, mark, [SPACE]);
    AbsentBytes(s, i, a, DOLLAR);
    SkipBody(mark, s, i, c);
    ByteAfter(s, c + |mark|, [SPACE]);
  }

  lemma DollarStarts(p: LexProfile, s: Text, i: nat, b: nat, e: nat)
    requires p.dollarQuotes && i < b <= |s| && BoundaryAt(s, i) && IsDollarTag(s, i, b)
    requires DollarBodyEnd(s[i..b], s, b) == e && ByteAt(s, e, SPACE)
    ensures Reaches(p, s, i, e + 1)
  {
    DollarTagExactly(s, i, b);
    assert KindAt(p, s, i) == DollarString;
    TokenThenByte(p, s, i, e);
  }

  lemma DollarEnds(p: LexProfile, s: Text, i: nat, b: nat, mark: Text, e: nat)
    requires p.dollarQuotes && i < b <= |s| && BoundaryAt(s, i) && IsDollarTag(s, i, b) && s[i..b] == mark
    requires mark != [] && DollarBodyEnd(mark, s, b) == e && ByteAt(s, e, SPACE)
    ensures Reaches(p, s, i, e + 1)
  {
    DollarStarts(p, s, i, b, e);
  }

  lemma TagOpens(s: Text, i: nat, tag: Text, mark: Text, tail: Text) returns (b: nat)
    requires IsTag(tag) && mark == Mark(tag) && TextAt(s, i, mark + tail)
    ensures b == i + |mark| && i < b <= |s| && IsDollarTag(s, i, b) && s[i..b] == mark && TextAt(s, b, tail)
  {
    b := i + |mark|;
    TextParts(s, i, mark, tail);
    TagBytes(s, i, tag, mark);
  }

  lemma DollarEnd(s: Text, i: nat, tag: Text, mark: Text, a: Text, tail: Text) returns (e: nat)
    requires mark == Mark(tag) && Lacks(a, DOLLAR) && tail == a + (mark + [SPACE]) && TextAt(s, i, tail)
    ensures e == i + |a| + |mark| && ByteAt(s, e, SPACE) && mark != [] && DollarBodyEnd(mark, s, i) == e
  {
    MarkStart(tag, mark);
    DollarRun(s, i, mark, a);
    e := i + |a| + |mark|;
  }

  lemma DollarRest(p: LexProfile, s: Text, i: nat, b: nat, tag: Text, mark: Text, a: Text, tail: Text) returns (e: nat)
    requires p.dollarQuotes && Lacks(a, DOLLAR) && i < b <= |s| && BoundaryAt(s, i)
    requires IsDollarTag(s, i, b) && s[i..b] == mark && mark == Mark(tag)
    requires tail == a + (mark + [SPACE]) && TextAt(s, b, tail)
    ensures e == b + |tail| && Reaches(p, s, i, e)
  {
    var f := DollarEnd(s, b, tag, mark, a, tail);
    DollarEnds(p, s, i, b, mark, f);
    e := f + 1;
  }

  lemma DollarOpens(p: LexProfile, s: Text, i: nat, tag: Text, mark: Text, a: Text, tail: Text) returns (e: nat)
    requires p.dollarQuotes && IsTag(tag) && mark == Mark(tag) && Lacks(a, DOLLAR) && i <= |s| && BoundaryAt(s, i)
    requires tail == a + (mark + [SPACE]) && TextAt(s, i, mark + tail)
    ensures e == i + |mark| + |tail| && Reaches(p, s, i, e)
  {
    var b := TagOpens(s, i, tag, mark, tail);
    e := DollarRest(p, s, i, b, tag, mark, a, tail);
  }

  lemma MarkStart(tag: Text, mark: Text)
    requires mark == Mark(tag)
    ensures mark != [] && mark[0] == DOLLAR
  {
  }

  lemma DollarIsCode(p: LexProfile, s: Text, i: nat, tag: Text, mark: Text)
    requires !p.dollarQuotes && IsTag(tag) && mark == Mark(tag) && TextAt(s, i, mark + [SPACE])
    ensures Reaches(p, s, i, i + |mark| + 1)
  {
    TextParts(s, i, mark, [SPACE]);
    ByteAfter(s, i + |mark|, [SPACE]);
    TagBytes(s, i, tag, mark);
    CodeReaches(p, s, i, i + |mark| + 1);
  }

  lemma DollarDecoy(p: LexProfile, s: Text, i: nat, tag: Text, a: Text, mark: Text, t: Text)
    requires ValidDollar(tag, a) && i <= |s| && BoundaryAt(s, i)
    requires mark == Mark(tag) && t == DollarText(p, mark, a) && TextAt(s, i, t)
    ensures Reaches(p, s, i, i + |t|)
  {
    if p.dollarQuotes {
      var e := DollarOpens(p, s, i, tag, mark, a, a + (mark + [SPACE]));
    } else {
      DollarIsCode(p, s, i, tag, mark);
    }
  }

  lemma DollarAfterName(p: LexProfile, s: Text, k: nat)
    requires 0 < k < |s| && IsIdentContinue(s[k - 1]) && (s[k] == DOLLAR || IsTagContinue(s[k]))
    requires k + 1 < |s| && s[k + 1] != QUOTE
    ensures KindAt(p, s, k) == Code
  {
  }

  lemma NameDollarDecoy(p: LexProfile, s: Text, i: nat, c: Byte, tag: Text, mark: Text, t: Text)
    requires IsNameByte(c) && IsTag(tag) && mark == Mark(tag) && t == NameDollarText(c, mark) && TextAt(s, i, t)
    ensures Reaches(p, s, i, i + |t|)
  {
    TextParts(s, i, [c], mark + [SPACE]);
    TextParts(s, i + 1, mark, [SPACE]);
    TextByte(s, i, [c], 0);
    ByteAfter(s, i + 1 + |mark|, [SPACE]);
    TagBytes(s, i + 1, tag, mark);
    NameByteIsCode(p, s, i);
    forall k | i < k < i + 1 + |mark|
      ensures KindAt(p, s, k) == Code
    {
      DollarAfterName(p, s, k);
    }
    CodeReaches(p, s, i, i + |t|);
  }

  lemma BracketOpens(p: LexProfile, s: Text, i: nat, a: Text)
    requires p.bracketIdentifiers && Lacks(a, CLOSE_BRACKET)
    requires TextAt(s, i, [OPEN_BRACKET] + (a + [CLOSE_BRACKET, SPACE]))
    ensures Reaches(p, s, i, i + |a| + 3)
  {
    var close := [CLOSE_BRACKET, SPACE];
    var j := i + 1 + |a|;
    TextParts(s, i, [OPEN_BRACKET], a + close);
    TextParts(s, i + 1, a, close);
    TextByte(s, i, [OPEN_BRACKET], 0);
    TextByte(s, j, close, 0);
    TextByte(s, j, close, 1);
    AbsentBytes(s, i + 1, a, CLOSE_BRACKET);
    SkipRun(CLOSE_BRACKET, false, s, i + 1, j);
    TokenThenByte(p, s, i, j + 1);
  }

  lemma BracketDecoy(p: LexProfile, s: Text, i: nat, a: Text, t: Text)
    requires Lacks(a, CLOSE_BRACKET) && t == BracketText(p, a) && TextAt(s, i, t)
    ensures Reaches(p, s, i, i + |t|)
  {
    if p.bracketIdentifiers {
      BracketOpens(p, s, i, a);
    } else {
      TextByte(s, i, t, 0);
      TextByte(s, i, t, 1);
      CodeReaches(p, s, i, i + 2);
    }
  }

  // ---------- Any number of decoys ----------

  /** No decoy ends in the middle of an identifier. */
  lemma DecoyEndsClean(p: LexProfile, d: Decoy)
    ensures var t := DecoyText(p, d); t != [] && !IsIdentContinue(t[|t| - 1])
  {
    match d
    case Backslash(q, a, b) => BackslashEndsClean(q, a, b, BackslashIn(p, q));
    case Escape(_, a, b) => BackslashEndsClean(QUOTE, a, b, p.eStrings || p.backslashInSingle);
    case NameEscape(_, _, a, b) => BackslashEndsClean(QUOTE, a, b, p.backslashInSingle);
    case _ =>
  }

  lemma BackslashEndsClean(q: Byte, a: Text, b: Text, backslash: bool)
    ensures var t := BackslashText(q, a, b, backslash); t != [] && t[|t| - 1] == SPACE
  {
  }

  /** Where no identifier runs into it, `t` is read to its end by the rules of `p`, and none runs out of it. */
  ghost predicate Passes(p: LexProfile, t: Text) {
    && t != [] && !IsIdentContinue(t[|t| - 1])
    && forall s: Text, i: nat | i <= |s| && BoundaryAt(s, i) && TextAt(s, i, t) :: Reaches(p, s, i, i + |t|)
  }

  lemma DecoyReaches(p: LexProfile, s: Text, i: nat, d: Decoy, t: Text)
    requires ValidDecoy(p, d) && i <= |s| && BoundaryAt(s, i) && t == DecoyText(p, d) && TextAt(s, i, t)
    ensures Reaches(p, s, i, i + |t|)
  {
    match d
    case Line(a) => LineDecoy(p, s, i, a, t);
    case Hash(a) => HashDecoy(p, s, i, a, t);
    case Dashes(c, a) => DashesDecoy(p, s, i, c, a, t);
    case CarriageReturn(a, b) => ReturnDecoy(p, s, i, a, b, t);
    case Nesting(a, b, c) => NestingDecoy(p, s, i, a, b, c, t);
    case Executable(a) => ExecutableDecoy(p, s, i, a, t);
    case Backslash(q, a, b) => BackslashDecoy(p, s, i, q, a, b, t);
    case Triple(q, a, b) => TripleDecoy(p, s, i, q, a, b, t);
    case Escape(letter, a, b) => EscapeDecoy(p, s, i, letter, a, b, t);
    case NameEscape(c, letter, a, b) => NameEscapeDecoy(p, s, i, c, letter, a, b, t);
    case NameDollar(c, tag) => NameDollarDecoy(p, s, i, c, tag, Mark(tag), t);
    case Dollar(tag, a) => DollarDecoy(p, s, i, tag, a, Mark(tag), t);
    case Bracket(a) => BracketDecoy(p, s, i, a, t);
  }

  /** `d` is a text to be read by the rules of `p`, and written `t`. */
  predicate Writes(p: LexProfile, d: Decoy, t: Text) { ValidDecoy(p, d) && t == DecoyText(p, d) }

  lemma WrittenReaches(p: LexProfile, d: Decoy, t: Text)
    requires Writes(p, d, t)
    ensures forall s: Text, i: nat | i <= |s| && BoundaryAt(s, i) && TextAt(s, i, t) :: Reaches(p, s, i, i + |t|)
  {
    forall s: Text, i: nat | i <= |s| && BoundaryAt(s, i) && TextAt(s, i, t)
      ensures Reaches(p, s, i, i + |t|)
    {
      DecoyReaches(p, s, i, d, t);
    }
  }

  /** By the rules it is written for, a decoy is read to its end. */
  lemma DecoyPasses(p: LexProfile, d: Decoy)
    requires ValidDecoy(p, d)
    ensures Passes(p, DecoyText(p, d))
  {
    DecoyEndsClean(p, d);
    WrittenReaches(p, d, DecoyText(p, d));
  }

  predicate ValidDecoys(p: LexProfile, ds: seq<Decoy>) { forall k | 0 <= k < |ds| :: ValidDecoy(p, ds[k]) }

  function DecoyTexts(p: LexProfile, ds: seq<Decoy>): seq<Text> {
    seq(|ds|, k requires 0 <= k < |ds| => DecoyText(p, ds[k]))
  }

  function Flat(ts: seq<Text>): Text { if ts == [] then [] else ts[0] + Flat(ts[1..]) }

  ghost predicate AllPass(p: LexProfile, ts: seq<Text>) { forall k | 0 <= k < |ts| :: Passes(p, ts[k]) }

  lemma TextPasses(p: LexProfile, s: Text, i: nat, t: Text)
    requires Passes(p, t) && i <= |s| && BoundaryAt(s, i) && TextAt(s, i, t)
    ensures Reaches(p, s, i, i + |t|) && i + |t| <= |s| && BoundaryAt(s, i + |t|)
  {
    TextByte(s, i, t, |t| - 1);
  }

  lemma FirstTextPasses(p: LexProfile, s: Text, i: nat, ts: seq<Text>) returns (j: nat)
    requires ts != [] && AllPass(p, ts) && i <= |s| && BoundaryAt(s, i) && TextAt(s, i, Flat(ts))
    ensures Reaches(p, s, i, j) && j <= |s| && BoundaryAt(s, j) && TextAt(s, j, Flat(ts[1..]))
    ensures j + |Flat(ts[1..])| == i + |Flat(ts)|
  {
    j := i + |ts[0]|;
    TextParts(s, i, ts[0], Flat(ts[1..]));
    TextPasses(p, s, i, ts[0]);
  }

  lemma {:induction false} TextsPass(p: LexProfile, s: Text, i: nat, ts: seq<Text>, e: nat)
    requires AllPass(p, ts) && i <= |s| && BoundaryAt(s, i) && TextAt(s, i, Flat(ts)) && e == i + |Flat(ts)|
    ensures Reaches(p, s, i, e)
    decreases |ts|
  {
    if ts != [] {
      var j := FirstTextPasses(p, s, i, ts);
      TextsPass(p, s, j, ts[1..], e);
      ReachesOn(p, s, i, j, e);
    }
  }

  function DecoysText(p: LexProfile, ds: seq<Decoy>): Text { Flat(DecoyTexts(p, ds)) }

  lemma DecoysPass(p: LexProfile, ds: seq<Decoy>)
    requires ValidDecoys(p, ds)
    ensures AllPass(p, DecoyTexts(p, ds))
  {
    forall k | 0 <= k < |ds|
      ensures Passes(p, DecoyTexts(p, ds)[k])
    {
      DecoyPasses(p, ds[k]);
    }
  }

  /** A bare start of a statement: letters, digits, blanks, commas, dots and parentheses, no name at its end. */
  predicate BareStart(h: Text) { IsPlainText(h) && h[|h| - 1] in [SPACE, COMMA, DOT, OPEN_PAREN, CLOSE_PAREN] }

  lemma BareStartIsCode(p: LexProfile, s: Text, h: Text)
    requires BareStart(h) && TextAt(s, 0, h)
    ensures Reaches(p, s, 0, |h|) && BoundaryAt(s, |h|)
  {
    forall k | 0 <= k < |h|
      ensures KindAt(p, s, k) == Code
    {
      TextByte(s, 0, h, k);
      if k + 1 < |h| {
        TextByte(s, 0, h, k + 1);
      }
      PlainByteIsCode(p, s, k);
      assert TokenAt(p, s, k).kind == Code;
    }
    TextByte(s, 0, h, |h| - 1);
    CodeReaches(p, s, 0, |h|);
  }

  lemma WholeText(s: Text, h: Text, t: Text, rest: Text)
    requires s == h + t + rest
    ensures TextAt(s, 0, h) && TextAt(s, |h|, t) && TextAt(s, |h| + |t|, rest)
  {
    assert TextAt(s, 0, h + t + rest);
    TextParts(s, 0, h + t, rest);
    TextParts(s, 0, h, t);
  }

  lemma MovedStatement(s: Text, j: nat, rest: Text, m: nat)
    requires TextAt(s, j, rest) && |s| == j + |rest| && SecondStatementAt(rest, 0, m)
    ensures SecondStatementAt(s, j, j + m)
  {
    forall k | 0 <= k < |rest|
      ensures s[j + k] == rest[k]
    {
      TextByte(s, j, rest, k);
    }
    assert forall k | j < k < j + m :: s[k] == rest[k - j];
  }

  lemma TextsReach(p: LexProfile, h: Text, ts: seq<Text>, t: Text, s: Text)
    requires BareStart(h) && AllPass(p, ts) && t == Flat(ts) && TextAt(s, 0, h) && TextAt(s, |h|, t)
    ensures Reaches(p, s, 0, |h| + |t|)
  {
    BareStartIsCode(p, s, h);
    TextsPass(p, s, |h|, ts, |h| + |t|);
    ReachesOn(p, s, 0, |h|, |h| + |t|);
  }

  lemma StatementAfter(p: LexProfile, s: Text, j: nat, rest: Text)
    requires Reaches(p, s, 0, j) && TextAt(s, j, rest) && |s| == j + |rest| && StartsSecondStatement(rest)
    ensures HasTrailing(Strip(p, false, s)) && ClassifyWithProfile(s, p) != Select
  {
    var m :| 0 <= m < |rest| && SecondStatementAt(rest, 0, m);
    MovedStatement(s, j, rest, m);
    ReachedStatementIsSeen(p, s, j, j + m);
  }

  /** A second statement is seen by a profile behind any texts that it reads to their ends. */
  lemma SeenBehindTexts(p: LexProfile, h: Text, ts: seq<Text>, t: Text, rest: Text, s: Text)
    requires BareStart(h) && AllPass(p, ts) && t == Flat(ts) && StartsSecondStatement(rest) && s == h + t + rest
    ensures HasTrailing(Strip(p, false, s)) && ClassifyWithProfile(s, p) != Select
  {
    WholeText(s, h, t, rest);
    TextsReach(p, h, ts, t, s);
    StatementAfter(p, s, |h| + |t|, rest);
  }

  lemma OneProfileRefuses(p: LexProfile, profiles: seq<LexProfile>, s: Text)
    requires p in profiles && ClassifyWithProfile(s, p) != Select
    ensures ClassifyWithProfiles(s, profiles) != Select
  {
    var k :| 0 <= k < |profiles| && profiles[k] == p;
    ReadUnderEveryProfile(s, profiles);
  }

  lemma OneProfileCounts(p: LexProfile, dialect: Option<SqlDialect>, s: Text)
    requires p in LexProfilesFor(dialect) && HasTrailing(Strip(p, false, s))
    ensures HasMultipleStatements(s, dialect)
  {
    var profiles := LexProfilesFor(dialect);
    var k :| 0 <= k < |profiles| && profiles[k] == p;
  }

  /**
   * Whatever a server of the dialect may read as closed, and however many such texts stand in a row, a second
   * statement behind them is seen: the text is no read.
   */
  lemma SecondStatementIsSeen(dialect: Option<SqlDialect>, p: LexProfile, h: Text, ds: seq<Decoy>, rest: Text, s: Text)
    requires MayRead(dialect, p) && BareStart(h) && ValidDecoys(p, ds) && StartsSecondStatement(rest)
    requires s == h + DecoysText(p, ds) + rest
    ensures ClassifyQueryKind(s, dialect) != Select && HasMultipleStatements(s, dialect)
  {
    ProfileSetsExactly(dialect, p);
    DecoysPass(p, ds);
    SeenBehindTexts(p, h, DecoyTexts(p, ds), DecoysText(p, ds), rest, s);
    OneProfileRefuses(p, LexProfilesFor(dialect), s);
    OneProfileCounts(p, dialect, s);
  }

  /** A server may read text as its dialect does, or by the syntax its driver declares; without capabilities, by any. */
  predicate MayReadFor(caps: Option<Capabilities>, p: LexProfile) {
    match caps
    case None => MayRead(None, p)
    case Some(c) => MayRead(c.dialect, p) || c.declaredSyntax == Some(p)
  }

  lemma OneMoreProfile(profiles: seq<LexProfile>, declared: LexProfile, p: LexProfile)
    ensures p in profiles + [declared] <==> p in profiles || p == declared
  {
  }

  lemma CapabilityProfilesExactly(caps: Option<Capabilities>, p: LexProfile)
    ensures p in LexProfilesForCapabilities(caps) <==> MayReadFor(caps, p)
  {
    match caps
    case None =>
      ProfileSetsExactly(None, p);
      assert LexProfilesForCapabilities(None) == LexProfilesFor(None);
    case Some(c) =>
      ProfileSetsExactly(c.dialect, p);
      if c.declaredSyntax.Some? {
        OneMoreProfile(LexProfilesFor(c.dialect), c.declaredSyntax.value, p);
      }
  }

  /** The same for the capabilities of a driver. */
  lemma SecondStatementIsSeenFor(caps: Option<Capabilities>, p: LexProfile, h: Text, ds: seq<Decoy>, rest: Text,
                                 s: Text)
    requires MayReadFor(caps, p) && BareStart(h) && ValidDecoys(p, ds) && StartsSecondStatement(rest)
    requires s == h + DecoysText(p, ds) + rest
    ensures ClassifyForCapabilities(s, caps) != Select
  {
    CapabilityProfilesExactly(caps, p);
    DecoysPass(p, ds);
    SeenBehindTexts(p, h, DecoyTexts(p, ds), DecoysText(p, ds), rest, s);
    OneProfileRefuses(p, LexProfilesForCapabilities(caps), s);
  }

  /** Without capabilities a text is classified as for an unknown dialect, and without a declared syntax as for the
      declared dialect; an unknown dialect is read in every way that any dialect is. */
  lemma CapabilitiesAreDialects(s: Text, dialect: Option<SqlDialect>, p: LexProfile)
    ensures ClassifyForCapabilities(s, None) == ClassifyQueryKind(s, None)
    ensures ClassifyForCapabilities(s, Some(Capabilities(dialect, None))) == ClassifyQueryKind(s, dialect)
    ensures MayRead(dialect, p) || GoogleReads(p) ==> MayRead(None, p)
  {
    ProfileSetsExactly(dialect, p);
    ProfileSetsExactly(None, p);
  }

  // ---------- Some of these texts, byte for byte ----------

  lemma OneDecoy(dialect: Option<SqlDialect>, p: LexProfile, h: Text, d: Decoy, t: Text, rest: Text)
    requires MayRead(dialect, p) && BareStart(h) && ValidDecoy(p, d) && StartsSecondStatement(rest)
    requires t == DecoyText(p, d)
    ensures ClassifyQueryKind(h + t + rest, dialect) != Select
  {
    var ts := DecoyTexts(p, [d]);
    assert ts == [t] && ts[1..] == [];
    assert Flat(ts) == t;
    SecondStatementIsSeen(dialect, p, h, [d], rest, h + t + rest);
  }

  /** What follows the line of a hash comment is never taken for a part of it. */
  lemma HashOnMysql(h: Text, t: Text, rest: Text)
    requires BareStart(h) && Lacks(t, LF) && StartsSecondStatement(rest)
    ensures ClassifyQueryKind(h + ([HASH] + (t + [LF])) + rest, Some(Mysql)) != Select
  {
    OneDecoy(Some(Mysql), MYSQL, h, Hash(t), [HASH] + (t + [LF]), rest);
  }

  /** Nor, on other dialects, the line after a hash. */
  lemma HashElsewhere(h: Text, rest: Text, dialect: SqlDialect)
    requires BareStart(h) && StartsSecondStatement(rest) && dialect in {Postgres, Mssql, Sqlite}
    ensures ClassifyQueryKind(h + [HASH, SPACE] + rest, Some(dialect)) != Select
  {
    var p := if dialect == Postgres then POSTGRES else SQLITE;
    OneDecoy(Some(dialect), p, h, Hash([]), [HASH, SPACE], rest);
  }

  /** Two dashes and no blank are no comment on MySQL. */
  lemma DashesOnMysql(h: Text, c: Byte, rest: Text)
    requires BareStart(h) && StartsSecondStatement(rest) && IsAlphanumeric(c)
    ensures ClassifyQueryKind(h + [DASH, DASH, c, SPACE] + rest, Some(Mysql)) != Select
  {
    OneDecoy(Some(Mysql), MYSQL, h, Dashes(c, []), [DASH, DASH, c, SPACE], rest);
  }

  /** What an executable comment holds is executed. */
  lemma ExecutableOnMysql(h: Text, rest: Text)
    requires BareStart(h) && StartsSecondStatement(rest)
    ensures ClassifyQueryKind(h + (OPENER + [BANG, SPACE]) + rest, Some(Mysql)) != Select
  {
    OneDecoy(Some(Mysql), MYSQL, h, Executable([]), OPENER + [BANG, SPACE], rest);
  }

  /** A carriage return ends a line comment. */
  lemma ReturnEndsComment(h: Text, t: Text, rest: Text, dialect: SqlDialect)
    requires BareStart(h) && Lacks(t, LF) && Lacks(t, CR) && StartsSecondStatement(rest)
    requires dialect in {Postgres, Mssql}
    ensures ClassifyQueryKind(h + (TWO_DASHES + (t + [CR])) + rest, Some(dialect)) != Select
  {
    var p := if dialect == Postgres then POSTGRES else MSSQL;
    OneDecoy(Some(dialect), p, h, CarriageReturn(t, []), TWO_DASHES + (t + [CR]), rest);
  }

  /** Comments nest, and so end late; or they do not, and end early. */
  lemma CommentsNest(h: Text, a: Text, b: Text, c: Text, rest: Text, dialect: SqlDialect)
    requires BareStart(h) && ValidNesting(a, b, c) && StartsSecondStatement(rest) && dialect in {Postgres, Mssql}
    ensures var inner := OPENER + (b + (CLOSER + (c + (CLOSER + [SPACE]))));
            ClassifyQueryKind(h + (OPENER + (a + inner)) + rest, Some(dialect)) != Select
    ensures var inner := OPENER + (b + (CLOSER + [SPACE]));
            ClassifyQueryKind(h + (OPENER + (a + inner)) + rest, Some(dialect)) != Select
  {
    var nested, flat := if dialect == Postgres then POSTGRES else MSSQL,
                        if dialect == Postgres then LEGACY_STANDARD else SQLITE;
    OneDecoy(Some(dialect), nested, h, Nesting(a, b, c), DecoyText(nested, Nesting(a, b, c)), rest);
    OneDecoy(Some(dialect), flat, h, Nesting(a, b, c), DecoyText(flat, Nesting(a, b, c)), rest);
  }

  /** A backslash may escape a quote, or not. */
  lemma BackslashBothWays(h: Text, a: Text, b: Text, rest: Text, dialect: SqlDialect, escapes: bool)
    requires BareStart(h) && ValidBackslash(QUOTE, a, b) && StartsSecondStatement(rest)
    requires dialect in {Postgres, Mysql}
    ensures ClassifyQueryKind(h + BackslashText(QUOTE, a, b, escapes) + rest, Some(dialect)) != Select
  {
    var p := if dialect == Postgres then if escapes then POSTGRES_BACKSLASH else POSTGRES
             else if escapes then MYSQL else MYSQL_NO_BACKSLASH;
    OneDecoy(Some(dialect), p, h, Backslash(QUOTE, a, b), BackslashText(QUOTE, a, b, escapes), rest);
  }

  /** Nothing in brackets counts. */
  lemma BracketsHide(h: Text, a: Text, rest: Text, dialect: SqlDialect)
    requires BareStart(h) && Lacks(a, CLOSE_BRACKET) && StartsSecondStatement(rest) && dialect in {Sqlite, Mssql}
    ensures ClassifyQueryKind(h + ([OPEN_BRACKET] + (a + [CLOSE_BRACKET, SPACE])) + rest, Some(dialect)) != Select
  {
    OneDecoy(Some(dialect), SQLITE, h, Bracket(a), [OPEN_BRACKET] + (a + [CLOSE_BRACKET, SPACE]), rest);
  }
}
