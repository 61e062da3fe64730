/** The kind of a SQL statement, as one lexer profile or a whole set of them reads it. */
module Classifier {
  import opened Wrappers
  import opened Bytes
  import opened LexProfiles
  import opened Tokenizer
  import opened WordSearch

  datatype QueryKind = Select | Write | Ddl | Unknown

  const CTE_DDL := [Ascii("CREATE"), Ascii("DROP"), Ascii("ALTER"), Ascii("TRUNCATE"), Ascii("RENAME")]
  const DML := [Ascii("INSERT"), Ascii("UPDATE"), Ascii("DELETE"), Ascii("MERGE"), Ascii("REPLACE")]
  const DDL := CTE_DDL + [Ascii("GRANT"), Ascii("REVOKE"), Ascii("COMMENT")]

  const SIDE_EFFECT_FUNCTIONS := [
    Ascii("PG_TERMINATE_BACKEND"), Ascii("PG_CANCEL_BACKEND"), Ascii("PG_RELOAD_CONF"), Ascii("PG_ROTATE_LOGFILE"),
    Ascii("PG_SWITCH_WAL"), Ascii("PG_PROMOTE"), Ascii("PG_CREATE_RESTORE_POINT"),
    Ascii("PG_LOG_BACKEND_MEMORY_CONTEXTS"), Ascii("LO_IMPORT"), Ascii("LO_EXPORT"), Ascii("LO_UNLINK"),
    Ascii("LO_CREATE"), Ascii("LO_CREAT"), Ascii("LO_PUT"), Ascii("LO_FROM_BYTEA"), Ascii("LO_TRUNCATE"),
    Ascii("LOWRITE"), Ascii("DBLINK"), Ascii("DBLINK_EXEC"), Ascii("DBLINK_CONNECT"), Ascii("DBLINK_CONNECT_U"),
    Ascii("DBLINK_SEND_QUERY"), Ascii("SETVAL"), Ascii("NEXTVAL")]

  const INTROSPECTION_PRAGMAS := [
    Ascii("TABLE_INFO"), Ascii("TABLE_XINFO"), Ascii("TABLE_LIST"), Ascii("INDEX_LIST"), Ascii("INDEX_INFO"),
    Ascii("INDEX_XINFO"), Ascii("FOREIGN_KEY_LIST"), Ascii("FOREIGN_KEY_CHECK"), Ascii("INTEGRITY_CHECK"),
    Ascii("QUICK_CHECK")]

  const ACTION_PRAGMAS := [
    Ascii("OPTIMIZE"), Ascii("WAL_CHECKPOINT"), Ascii("INCREMENTAL_VACUUM"), Ascii("SHRINK_MEMORY")]

  const EXPLAINABLE := [
    Ascii("SELECT"), Ascii("INSERT"), Ascii("UPDATE"), Ascii("DELETE"), Ascii("MERGE"), Ascii("REPLACE"),
    Ascii("VALUES"), Ascii("TABLE"), Ascii("WITH"), Ascii("CREATE"), Ascii("DROP"), Ascii("ALTER"),
    Ascii("TRUNCATE"), Ascii("RENAME")]

  const ROUTINES := [Ascii("PROCEDURE"), Ascii("FUNCTION"), Ascii("TRIGGER"), Ascii("EVENT")]

  // ---------- Text helpers ----------

  function Upper(t: Text): (u: Text)
    ensures |u| == |t|
    ensures forall k | 0 <= k < |t| :: u[k] == ToUpperByte(t[k])
  {
    seq(|t|, k requires 0 <= k < |t| => ToUpperByte(t[k]))
  }

  function TrimStart(t: Text): Text { t[SkipWhite(t, 0)..] }

  function TrimEnd(t: Text): (r: Text)
    ensures r <= t
    ensures r != [] ==> !IsWhite(r[|r| - 1])
    ensures forall k | |r| <= k < |t| :: IsWhite(t[k])
  {
    if t != [] && IsWhite(t[|t| - 1]) then TrimEnd(t[..|t| - 1]) else t
  }

  function Trim(t: Text): Text { TrimEnd(TrimStart(t)) }

  function TrimSemicolons(t: Text): (r: Text)
    ensures r <= t
    ensures r != [] ==> r[|r| - 1] != SEMICOLON
    ensures forall k | |r| <= k < |t| :: t[k] == SEMICOLON
  {
    if t != [] && t[|t| - 1] == SEMICOLON then TrimSemicolons(t[..|t| - 1]) else t
  }

  predicate IsPeelable(b: Byte) { b == OPEN_PAREN || IsWhite(b) }

  /** Where `t` begins once leading parentheses and whitespace are peeled off. */
  function PeelStart(t: Text, i: nat): (e: nat)
    requires i <= |t|
    ensures i <= e <= |t|
    ensures forall k | i <= k < e :: IsPeelable(t[k])
    ensures e < |t| ==> !IsPeelable(t[e])
    decreases |t| - i
  {
    if i < |t| && IsPeelable(t[i]) then PeelStart(t, i + 1) else i
  }

  function Peel(t: Text): Text { t[PeelStart(t, 0)..] }

  function AlphaRunEnd(t: Text, i: nat): (e: nat)
    requires i <= |t|
    ensures i <= e <= |t|
    ensures forall k | i <= k < e :: IsAlpha(t[k])
    ensures e < |t| ==> !IsAlpha(t[e])
    decreases |t| - i
  {
    if i < |t| && IsAlpha(t[i]) then AlphaRunEnd(t, i + 1) else i
  }

  function FirstKeyword(upper: Text): Text { upper[..AlphaRunEnd(upper, 0)] }

  /** Where `b` first occurs in `t`, or the length of `t`. */
  function IndexOf(t: Text, b: Byte): (e: nat)
    ensures e <= |t|
    ensures b !in t[..e]
    ensures e < |t| ==> t[e] == b
  {
    if t == [] || t[0] == b then 0
    else
      var e := 1 + IndexOf(t[1..], b);
      assert t[..e] == [t[0]] + t[1..][..e - 1];
      e
  }

  /** What follows the last `b` in `t`, or all of `t`. */
  function AfterLast(t: Text, b: Byte): (r: Text)
    ensures b !in r
  {
    var i := IndexOf(t, b);
    if i == |t| then
      assert t[..i] == t;
      t
    else AfterLast(t[i + 1..], b)
  }

  /** The text before the first occurrence of `w`, or all of it. */
  function BeforeText(t: Text, w: Text, i: nat): Text
    requires i <= |t|
    decreases |t| - i
  {
    if TextAt(t, i, w) then t[..i] else if i == |t| then t else BeforeText(t, w, i + 1)
  }

  // ---------- Statement shape ----------

  /** A code byte other than whitespace follows a semicolon. */
  predicate HasTrailing(stripped: Text) {
    exists i, j | 0 <= i < j < |stripped| :: stripped[i] == SEMICOLON && !IsWhite(stripped[j])
  }

  method HasTrailingStatements(stripped: Text) returns (found: bool)
    ensures found <==> HasTrailing(stripped)
  {
    var foundSemi := false;
    for j := 0 to |stripped|
      invariant foundSemi <==> SEMICOLON in stripped[..j]
      invariant forall i, k | 0 <= i < k < j :: stripped[i] == SEMICOLON ==> IsWhite(stripped[k])
    {
      var c := stripped[j];
      if foundSemi && !IsWhite(c) {
        var i :| 0 <= i < j && stripped[..j][i] == SEMICOLON;
        assert stripped[i] == SEMICOLON;
        return true;
      }
      assert stripped[..j + 1] == stripped[..j] + [c];
      if c == SEMICOLON {
        foundSemi := true;
      }
    }
    return false;
  }

  /** A quoted identifier, after optional ASCII whitespace, is followed by an opening parenthesis. */
  predicate QuotedCall(marked: Text) {
    exists i, j | 0 <= i < j < |marked| :: QuotedCallAt(marked, i, j)
  }

  predicate QuotedCallAt(marked: Text, i: int, j: int)
    requires 0 <= i < j < |marked|
  {
    && marked[i] == IDENT_MARK && marked[j] == OPEN_PAREN
    && forall k | i < k < j :: IsAsciiWhitespace(marked[k])
  }

  method HasQuotedFunctionCall(marked: Text) returns (found: bool)
    ensures found <==> QuotedCall(marked)
  {
    var i := 0;
    while i < |marked|
      invariant 0 <= i <= |marked|
      invariant forall a, b | 0 <= a < b < |marked| && a < i :: !QuotedCallAt(marked, a, b)
    {
      if marked[i] == IDENT_MARK {
        ghost var start := i;
        while i < |marked| && marked[i] == IDENT_MARK
          invariant start <= i <= |marked|
          invariant forall a | start <= a < i :: marked[a] == IDENT_MARK
          invariant i == start ==> marked[i] == IDENT_MARK
        {
          i := i + 1;
        }
        var next := i;
        while next < |marked| && IsAsciiWhitespace(marked[next])
          invariant i <= next <= |marked|
          invariant forall k | i <= k < next :: IsAsciiWhitespace(marked[k])
        {
          next := next + 1;
        }
        if next < |marked| && marked[next] == OPEN_PAREN {
          assert QuotedCallAt(marked, i - 1, next);
          return true;
        }
        RunIsNoCall(marked, start, i, next);
      } else {
        i := i + 1;
      }
    }
    return false;
  }

  lemma RunIsNoCall(marked: Text, start: nat, end: nat, next: nat)
    requires start < end <= next <= |marked|
    requires forall a | start <= a < end :: marked[a] == IDENT_MARK
    requires forall k | end <= k < next :: IsAsciiWhitespace(marked[k])
    requires next < |marked| ==> !IsAsciiWhitespace(marked[next]) && marked[next] != OPEN_PAREN
    ensures forall a, b | start <= a < end && a < b < |marked| :: !QuotedCallAt(marked, a, b)
  {
    forall a, b | start <= a < end && a < b < |marked|
      ensures !QuotedCallAt(marked, a, b)
    {
      if a + 1 < end {
        assert b == a + 1 || !IsAsciiWhitespace(marked[a + 1]);
      } else {
        assert b < next || b == next || !IsAsciiWhitespace(marked[next]);
      }
    }
  }

  // ---------- CREATE ... BEGIN ... END ----------

  function SkipAsciiWhitespace(t: Text, i: nat): (e: nat)
    requires i <= |t|
    ensures i <= e <= |t|
    ensures forall k | i <= k < e :: IsAsciiWhitespace(t[k])
    ensures e < |t| ==> !IsAsciiWhitespace(t[e])
    decreases |t| - i
  {
    if i < |t| && IsAsciiWhitespace(t[i]) then SkipAsciiWhitespace(t, i + 1) else i
  }

  function SkipBlankStatements(t: Text, i: nat): (e: nat)
    requires i <= |t|
    ensures i <= e <= |t|
    ensures forall k | i <= k < e :: IsAsciiWhitespace(t[k]) || t[k] == SEMICOLON
    ensures e < |t| ==> !IsAsciiWhitespace(t[e]) && t[e] != SEMICOLON
    decreases |t| - i
  {
    if i < |t| && (IsAsciiWhitespace(t[i]) || t[i] == SEMICOLON) then SkipBlankStatements(t, i + 1) else i
  }

  /** An `END` that completes a statement with another one after it. */
  predicate CompleteEndAt(t: Text, i: nat) {
    WordAt(t, Ascii("END"), i) &&
    var c := SkipAsciiWhitespace(t, i + 3);
    ByteAt(t, c, SEMICOLON) &&
    var d := SkipBlankStatements(t, c + 1);
    d < |t| && IsAlpha(t[d])
  }

  predicate IsCreateCompoundRoutine(upper: Text) {
    && FirstKeyword(upper) == Ascii("CREATE")
    && (exists k | 0 <= k < |ROUTINES| :: HasWord(BeforeText(upper, Ascii("BEGIN"), 0), ROUTINES[k]))
    && var body := TrimEnd(TrimSemicolons(TrimEnd(upper)));
    && |body| >= 3 && TextAt(body, |body| - 3, Ascii("END"))
    && var before := body[..|body| - 3];
    && !exists i | 0 <= i < |before| :: CompleteEndAt(before, i)
  }

  // ---------- Statement kinds ----------

  predicate HasAnyWord(t: Text, words: seq<Text>) { exists k | 0 <= k < |words| :: HasWord(t, words[k]) }

  const LOCK_STRENGTHS := [Ascii("UPDATE"), Ascii("SHARE"), Ascii("NO"), Ascii("KEY")]
  const LOCK_IN_SHARE_MODE := [Ascii("LOCK"), Ascii("IN"), Ascii("SHARE"), Ascii("MODE")]

  /** `row` stands in `ws` from index `k` on. */
  predicate RowAt(ws: seq<Text>, row: seq<Text>, k: nat) { k + |row| <= |ws| && ws[k..k + |row|] == row }

  predicate HasRow(ws: seq<Text>, row: seq<Text>) { exists k: nat | k <= |ws| :: RowAt(ws, row, k) }

  predicate LockingClause(ws: seq<Text>) {
    || (exists m | 0 <= m < |LOCK_STRENGTHS| :: HasRow(ws, [Ascii("FOR"), LOCK_STRENGTHS[m]]))
    || HasRow(ws, LOCK_IN_SHARE_MODE)
  }

  predicate CallsSideEffect(t: Text) {
    exists k | 0 <= k < |SIDE_EFFECT_FUNCTIONS| :: HasCall(t, SIDE_EFFECT_FUNCTIONS[k])
  }

  function ClassifySelectSideEffects(t: Text): QueryKind {
    if HasWord(t, Ascii("INTO")) then Write
    else if LockingClause(Words(t, 0)) then Write
    else if CallsSideEffect(t) then Write
    else Select
  }

  function ClassifyCte(t: Text): QueryKind {
    if HasAnyWord(t, CTE_DDL) then Ddl
    else if HasAnyWord(t, DML) then Write
    else ClassifySelectSideEffects(t)
  }

  function ClassifyPragma(t: Text): QueryKind
    requires FirstKeyword(t) == Ascii("PRAGMA")
  {
    var body := TrimEnd(TrimSemicolons(Trim(t[6..])));
    if EQUALS in body then Write
    else
      var name := Trim(AfterLast(Trim(body[..IndexOf(body, OPEN_PAREN)]), DOT));
      if !IsWord(name) then Unknown
      else if name in ACTION_PRAGMAS then Write
      else if OPEN_PAREN in body && name !in INTROSPECTION_PRAGMAS then Write
      else Select
  }

  /** The position of the `)` that closes the parenthesis nesting of depth `depth` at `i`. */
  function ClosingParen(t: Text, i: nat, depth: nat): (r: Option<nat>)
    requires i <= |t| && depth >= 1
    ensures r.Some? ==> i <= r.value < |t| && t[r.value] == CLOSE_PAREN
    decreases |t| - i
  {
    if i == |t| then None
    else if t[i] == OPEN_PAREN then ClosingParen(t, i + 1, depth + 1)
    else if t[i] == CLOSE_PAREN then if depth == 1 then Some(i) else ClosingParen(t, i + 1, depth - 1)
    else ClosingParen(t, i + 1, depth)
  }

  /** How many more parentheses open than close from `i` to before `j`. */
  function ParenDepth(t: Text, i: nat, j: nat): int
    requires j <= |t|
    decreases j - i
  {
    if i >= j then 0
    else (if t[i] == OPEN_PAREN then 1 else if t[i] == CLOSE_PAREN then -1 else 0) + ParenDepth(t, i + 1, j)
  }

  /** The depth first drops to zero at the closing parenthesis, and never does if there is none. */
  lemma {:induction false} ClosingParenBalances(t: Text, i: nat, depth: nat)
    requires i <= |t| && depth >= 1
    ensures var r := ClosingParen(t, i, depth);
            && (r.Some? ==> depth + ParenDepth(t, i, r.value + 1) == 0)
            && forall j | i <= j <= (if r.Some? then r.value else |t|) :: depth + ParenDepth(t, i, j) >= 1
    decreases |t| - i
  {
    if i < |t| {
      var d := if t[i] == OPEN_PAREN then depth + 1 else if t[i] == CLOSE_PAREN then depth - 1 else depth;
      if d >= 1 {
        ClosingParenBalances(t, i + 1, d);
      }
    }
  }

  /** The first position where one of `words` occurs as a whole word. */
  function FirstOf(t: Text, words: seq<Text>): (r: Option<nat>)
    ensures r.Some? ==> r.value <= |t|
  {
    if words == [] then None
    else
      var rest := FirstOf(t, words[1..]);
      var here := WordIndex(t, words[0]);
      if here.None? || (rest.Some? && rest.value < here.value) then rest else here
  }

  lemma {:induction false} FirstOfIsLeast(t: Text, words: seq<Text>)
    ensures var r := FirstOf(t, words);
            && (r.Some? ==> exists k | 0 <= k < |words| :: WordIndex(t, words[k]) == r)
            && forall k | 0 <= k < |words| && HasWord(t, words[k]) ::
                 r.Some? && r.value <= WordIndex(t, words[k]).value
  {
    if words != [] {
      var rest := words[1..];
      FirstOfIsLeast(t, rest);
      forall k | 0 <= k < |words| && HasWord(t, words[k])
        ensures FirstOf(t, words).Some? && FirstOf(t, words).value <= WordIndex(t, words[k]).value
      {
        assert k > 0 ==> words[k] == rest[k - 1];
      }
      if FirstOf(t, words) == WordIndex(t, words[0]) {
        assert WordIndex(t, words[0]) == FirstOf(t, words);
      } else if FirstOf(t, rest).Some? {
        var k :| 0 <= k < |rest| && WordIndex(t, rest[k]) == FirstOf(t, rest);
        assert WordIndex(t, words[k + 1]) == FirstOf(t, rest);
      }
    }
  }

  /** An EXPLAIN's options and the statement they apply to. */
  function SplitExplainOptions(after: Text): (Text, Text) {
    if ByteAt(after, 0, OPEN_PAREN) then
      match ClosingParen(after, 1, 1)
      case Some(i) => (after[1..i], TrimStart(after[i + 1..]))
      case None => (after, [])
    else
      match FirstOf(after, EXPLAINABLE)
      case Some(i) => (after[..i], after[i..])
      case None => (after, [])
  }

  /** The scan of the parenthesized form; `depth` is a natural number, so it never underflows. */
  method FindClosingParen(after: Text) returns (r: Option<nat>)
    requires ByteAt(after, 0, OPEN_PAREN)
    ensures r == ClosingParen(after, 1, 1)
    ensures r.Some? ==> r.value < |after| && ParenDepth(after, 0, r.value + 1) == 0
    ensures forall j | 1 <= j <= (if r.Some? then r.value else |after|) :: ParenDepth(after, 0, j) >= 1
  {
    ClosingParenBalances(after, 1, 1);
    var depth: nat := 0;
    for i := 0 to |after|
      invariant depth == 0 <==> i == 0
      invariant i > 0 ==> ClosingParen(after, i, depth) == ClosingParen(after, 1, 1)
    {
      if after[i] == OPEN_PAREN {
        depth := depth + 1;
      } else if after[i] == CLOSE_PAREN {
        depth := depth - 1;
        if depth == 0 {
          return Some(i);
        }
      }
    }
    return None;
  }

  /** What the first keyword says about a statement, `KwOther` when it is none of the listed ones. */
  datatype Keyword = KwExplain | KwQuery | KwPragma | KwShow | KwTable | KwDml | KwDdl | KwWith | KwOther

  function KeywordOf(first: Text): Keyword {
    if first == Ascii("EXPLAIN") then KwExplain
    else if first in [Ascii("SELECT"), Ascii("VALUES")] then KwQuery
    else if first == Ascii("PRAGMA") then KwPragma
    else if first in [Ascii("SHOW"), Ascii("DESCRIBE"), Ascii("DESC")] then KwShow
    else if first == Ascii("TABLE") then KwTable
    else if first in DML then KwDml
    else if first in DDL then KwDdl
    else if first == Ascii("WITH") then KwWith
    else KwOther
  }

  function ClassifyWrappedStatement(wrapped: Text): QueryKind {
    var peeled := Peel(wrapped);
    match KeywordOf(FirstKeyword(peeled))
    case KwQuery => ClassifySelectSideEffects(peeled)
    case KwPragma => ClassifyPragma(peeled)
    case KwShow | KwTable => Select
    case KwDml => Write
    case KwDdl => Ddl
    case KwWith => ClassifyCte(peeled)
    case KwExplain | KwOther => Unknown
  }

  function ClassifyExplain(t: Text): QueryKind
    requires FirstKeyword(t) == Ascii("EXPLAIN")
  {
    var (options, wrapped) := SplitExplainOptions(TrimStart(t[7..]));
    if !HasWord(options, Ascii("ANALYZE")) then Select else ClassifyWrappedStatement(wrapped)
  }

  /** The kind of a peeled, upper-cased statement, by its first keyword. */
  function ClassifyByKeyword(peeled: Text): QueryKind {
    match KeywordOf(FirstKeyword(peeled))
    case KwExplain => ClassifyExplain(peeled)
    case KwQuery => ClassifySelectSideEffects(peeled)
    case KwPragma => ClassifyPragma(peeled)
    case KwShow => Select
    case KwDml => Write
    case KwDdl => Ddl
    case KwWith => ClassifyCte(peeled)
    case KwTable | KwOther => Unknown
  }

  /** The kind of a stripped statement; `marked` is the same statement with quoted identifiers marked. */
  function ClassifyStripped(stripped: Text, marked: Text): QueryKind {
    var trimmed := TrimStart(stripped);
    if trimmed == [] then Unknown
    else if IsCreateCompoundRoutine(Upper(trimmed)) then Ddl
    else if HasTrailing(stripped) then Unknown
    else
      var kind := ClassifyByKeyword(Upper(Peel(trimmed)));
      if kind == Select && QuotedCall(marked) then Unknown else kind
  }

  function ClassifyWithProfile(sql: Text, p: LexProfile): QueryKind {
    ClassifyStripped(Strip(p, false, sql), Strip(p, true, sql))
  }

  /** A read only when every profile reads one read statement; else the first other answer. */
  function ClassifyWithProfiles(sql: Text, profiles: seq<LexProfile>): QueryKind {
    if profiles == [] then Select
    else
      var kind := ClassifyWithProfile(sql, profiles[0]);
      if kind != Select then kind else ClassifyWithProfiles(sql, profiles[1..])
  }

  function ClassifyQueryKind(sql: Text, dialect: Option<SqlDialect>): QueryKind {
    ClassifyWithProfiles(sql, LexProfilesFor(dialect))
  }

  function ClassifyForCapabilities(sql: Text, caps: Option<Capabilities>): QueryKind {
    ClassifyWithProfiles(sql, LexProfilesForCapabilities(caps))
  }

  predicate HasMultipleStatements(sql: Text, dialect: Option<SqlDialect>) {
    var profiles := LexProfilesFor(dialect);
    exists k | 0 <= k < |profiles| :: HasTrailing(Strip(profiles[k], false, sql))
  }
}
