/** Which kind a profile gives to a statement, read or not, in terms of the code bytes of the source. */
module KindLaws {
  import opened Wrappers
  import opened Bytes
  import opened LexProfiles
  import opened Tokenizer
  import opened WordSearch
  import opened Classifier
  import opened SourceText
  import opened SourceSlices
  import opened PragmaSource
  import opened ReadCertificate

  // ---------- The word lists ----------

  predicate AreSpelled(ts: seq<Text>, ws: seq<string>) {
    |ts| == |ws| && forall k | 0 <= k < |ws| :: ts[k] == Ascii(ws[k])
  }

  /** The words that the classifier knows. */
  lemma ListsAreThese()
    ensures AreSpelled(DML, ["INSERT", "UPDATE", "DELETE", "MERGE", "REPLACE"])
    ensures AreSpelled(CTE_DDL, ["CREATE", "DROP", "ALTER", "TRUNCATE", "RENAME"])
    ensures AreSpelled(DDL, ["CREATE", "DROP", "ALTER", "TRUNCATE", "RENAME", "GRANT", "REVOKE", "COMMENT"])
    ensures AreSpelled(ROUTINES, ["PROCEDURE", "FUNCTION", "TRIGGER", "EVENT"])
    ensures AreSpelled(LOCK_STRENGTHS, ["UPDATE", "SHARE", "NO", "KEY"])
    ensures AreSpelled(LOCK_IN_SHARE_MODE, ["LOCK", "IN", "SHARE", "MODE"])
    ensures AreSpelled(EXPLAINABLE, ["SELECT", "INSERT", "UPDATE", "DELETE", "MERGE", "REPLACE", "VALUES", "TABLE",
                                     "WITH", "CREATE", "DROP", "ALTER", "TRUNCATE", "RENAME"])
  {
  }

  lemma PragmaListsAreThese()
    ensures AreSpelled(ACTION_PRAGMAS, ["OPTIMIZE", "WAL_CHECKPOINT", "INCREMENTAL_VACUUM", "SHRINK_MEMORY"])
    ensures AreSpelled(INTROSPECTION_PRAGMAS,
                       ["TABLE_INFO", "TABLE_XINFO", "TABLE_LIST", "INDEX_LIST", "INDEX_INFO", "INDEX_XINFO",
                        "FOREIGN_KEY_LIST", "FOREIGN_KEY_CHECK", "INTEGRITY_CHECK", "QUICK_CHECK"])
  {
  }

  lemma FunctionsAreThese()
    ensures AreSpelled(SIDE_EFFECT_FUNCTIONS,
                       ["PG_TERMINATE_BACKEND", "PG_CANCEL_BACKEND", "PG_RELOAD_CONF", "PG_ROTATE_LOGFILE",
                        "PG_SWITCH_WAL", "PG_PROMOTE", "PG_CREATE_RESTORE_POINT", "PG_LOG_BACKEND_MEMORY_CONTEXTS",
                        "LO_IMPORT", "LO_EXPORT", "LO_UNLINK", "LO_CREATE", "LO_CREAT", "LO_PUT", "LO_FROM_BYTEA",
                        "LO_TRUNCATE", "LOWRITE", "DBLINK", "DBLINK_EXEC", "DBLINK_CONNECT", "DBLINK_CONNECT_U",
                        "DBLINK_SEND_QUERY", "SETVAL", "NEXTVAL"])
  {
  }

  // ---------- Kinds ----------

  ghost predicate AnyWordFrom(x: Lexed, words: seq<Text>, k: nat)
    requires x.Valid()
  {
    exists m, i: nat | 0 <= m < |words| && i >= k :: x.CodeWordAt(words[m], i)
  }

  ghost predicate AnyKeywordAt(x: Lexed, words: seq<Text>, k: nat)
    requires x.Valid()
  {
    exists m | 0 <= m < |words| :: x.KeywordAt(words[m], k)
  }

  /** A query with side effects is a write. */
  ghost function KindOfQuery(x: Lexed, k: nat): QueryKind
    requires x.Valid()
  {
    if NoSideEffectsFrom(x, k) then Select else Write
  }

  /** A CTE with a word that changes the schema is DDL, with one that changes data a write. */
  ghost function KindOfCte(x: Lexed, k: nat): QueryKind
    requires x.Valid()
  {
    if AnyWordFrom(x, CTE_DDL, k) then Ddl else if AnyWordFrom(x, DML, k) then Write else KindOfQuery(x, k)
  }

  /** A PRAGMA that assigns is a write, and so is one that acts or takes an argument; one without a name is unknown. */
  ghost function KindOfPragma(x: Lexed, k: nat): QueryKind
    requires x.Valid()
  {
    if PragmaReads(x, k) then Select
    else if NoCodeIn(x, k + 6, |x.text|, EQUALS) && !HasName(x, k + 6) then Unknown
    else Write
  }

  /** A statement that an EXPLAIN runs: TABLE reads, and another EXPLAIN is unknown. */
  ghost function KindOfWrapped(x: Lexed, k: nat): QueryKind
    requires x.Valid()
  {
    if x.KeywordAt(Ascii("SELECT"), k) || x.KeywordAt(Ascii("VALUES"), k) then KindOfQuery(x, k)
    else if x.KeywordAt(Ascii("PRAGMA"), k) then KindOfPragma(x, k)
    else if x.KeywordAt(Ascii("SHOW"), k) || x.KeywordAt(Ascii("DESCRIBE"), k) then Select
    else if x.KeywordAt(Ascii("DESC"), k) || x.KeywordAt(Ascii("TABLE"), k) then Select
    else if AnyKeywordAt(x, DML, k) then Write
    else if AnyKeywordAt(x, DDL, k) then Ddl
    else if x.KeywordAt(Ascii("WITH"), k) then KindOfCte(x, k)
    else Unknown
  }

  /** An EXPLAIN reads unless its options name ANALYZE; then it is of the kind of what it runs. */
  ghost function KindOfExplain(x: Lexed, k: nat): QueryKind
    requires x.Valid() && k + 7 <= |x.text|
  {
    var a := x.GapEnd(k + 7);
    if exists e: nat, w: nat :: OptionsEndAt(x, a, e, w) then
      var e: nat, w: nat :| OptionsEndAt(x, a, e, w);
      if AnalyzeIn(x, a, e) then KindOfWrapped(x, w) else Select
    else if AnalyzeIn(x, a, |x.text|) then Unknown
    else Select
  }

  /** Any other statement is of the kind it has under an EXPLAIN, but a bare TABLE is unknown. */
  ghost function KindOfStatement(x: Lexed, k: nat): QueryKind
    requires x.Valid()
  {
    if x.KeywordAt(Ascii("EXPLAIN"), k) && k + 7 <= |x.text| then KindOfExplain(x, k)
    else if x.KeywordAt(Ascii("TABLE"), k) then Unknown
    else KindOfWrapped(x, k)
  }

  // ---------- The classifier gives these kinds ----------

  lemma QueryKindIs(x: Lexed, k: nat, t: Text)
    requires x.Valid() && k <= |x.text| && WordCut(x.CodeText(), k) && t == x.CodeText()[k..]
    ensures ClassifySelectSideEffects(t) == KindOfQuery(x, k)
  {
    QueryAnswer(x, k);
  }

  lemma CteKindIs(x: Lexed, k: nat, t: Text)
    requires x.Valid() && k <= |x.text| && WordCut(x.CodeText(), k) && t == x.CodeText()[k..]
    ensures ClassifyCte(t) == KindOfCte(x, k)
  {
    ModifyingWordsAreNames();
    AnyWordAnswer(x, k, CTE_DDL);
    AnyWordAnswer(x, k, DML);
    QueryKindIs(x, k, t);
  }

  lemma PragmaKindIs(x: Lexed, k: nat, t: Text)
    requires x.Valid() && k <= |x.text| && t == x.CodeText()[k..] && FirstKeyword(t) == Ascii("PRAGMA")
    ensures ClassifyPragma(t) == KindOfPragma(x, k)
  {
    PragmaAnswer(x, k);
    PragmaKind(x, k);
  }

  predicate IsReadKeyword(f: Text) {
    || f == Ascii("EXPLAIN") || f in [Ascii("SELECT"), Ascii("VALUES")] || f == Ascii("PRAGMA")
    || f in [Ascii("SHOW"), Ascii("DESCRIBE"), Ascii("DESC")] || f == Ascii("TABLE")
  }

  lemma ReadKeywordBytes(f: Text)
    requires IsReadKeyword(f)
    ensures |f| >= 4 && f[0] in {69, 83, 86, 80, 68, 84}
    ensures f[0] == 68 ==> f[1] == 69 && f[2] == 83
    ensures f[0] == 84 ==> f[1] == 65
  {
    assert Ascii("EXPLAIN")[0] == 69 && Ascii("SELECT")[0] == 83 && Ascii("VALUES")[0] == 86;
    assert Ascii("PRAGMA")[0] == 80 && Ascii("SHOW")[0] == 83;
    assert Ascii("DESCRIBE")[0] == 68 && Ascii("DESCRIBE")[1] == 69 && Ascii("DESCRIBE")[2] == 83;
    assert Ascii("DESC")[0] == 68 && Ascii("DESC")[1] == 69 && Ascii("DESC")[2] == 83;
    assert Ascii("TABLE")[0] == 84 && Ascii("TABLE")[1] == 65;
  }

  lemma DmlBytes(f: Text)
    requires f in DML
    ensures |f| >= 5 && f[0] in {73, 85, 68, 77, 82} && (f[0] == 68 ==> f[2] == 76) && (f[0] == 82 ==> f[2] == 80)
  {
    assert DML[0][0] == 73 && DML[1][0] == 85 && DML[2][0] == 68 && DML[3][0] == 77 && DML[4][0] == 82;
    assert DML[2][2] == 76 && DML[4][2] == 80;
  }

  lemma DdlBytes(f: Text)
    requires f in DDL
    ensures |f| >= 4 && f[0] in {67, 68, 65, 84, 82, 71}
    ensures (f[0] == 68 || f[0] == 84 ==> f[1] == 82) && (f[0] == 82 ==> f[2] != 80) && (f[0] == 68 ==> f[2] == 79)
  {
    assert DDL[0][0] == 67 && DDL[1][0] == 68 && DDL[2][0] == 65 && DDL[3][0] == 84 && DDL[4][0] == 82;
    assert DDL[5][0] == 71 && DDL[6][0] == 82 && DDL[7][0] == 67;
    assert DDL[1][1] == 82 && DDL[1][2] == 79 && DDL[3][1] == 82 && DDL[4][2] == 78 && DDL[6][2] == 86;
  }

  lemma ModifyingKeywords(f: Text)
    ensures KeywordOf(f) == KwDml <==> f in DML
    ensures KeywordOf(f) == KwDdl <==> f in DDL
  {
    if f in DML {
      DmlBytes(f);
    }
    if f in DDL {
      DdlBytes(f);
    }
    if IsReadKeyword(f) {
      ReadKeywordBytes(f);
    }
  }

  lemma ModifyingWordsAreKeywords()
    ensures forall m | 0 <= m < |DML| :: IsKeyword(DML[m])
    ensures forall m | 0 <= m < |DDL| :: IsKeyword(DDL[m])
  {
    KeywordConstant("INSERT");
    KeywordConstant("UPDATE");
    KeywordConstant("DELETE");
    KeywordConstant("MERGE");
    KeywordConstant("REPLACE");
    KeywordConstant("CREATE");
    KeywordConstant("DROP");
    KeywordConstant("ALTER");
    KeywordConstant("TRUNCATE");
    KeywordConstant("RENAME");
    KeywordConstant("GRANT");
    KeywordConstant("REVOKE");
    KeywordConstant("COMMENT");
  }

  lemma AnyKeywordIs(x: Lexed, words: seq<Text>, k: nat, f: Text)
    requires x.Valid() && k <= |x.text| && f == FirstKeyword(x.CodeText()[k..])
    requires forall m | 0 <= m < |words| :: IsKeyword(words[m])
    ensures f in words <==> AnyKeywordAt(x, words, k)
  {
    forall m | 0 <= m < |words|
      ensures f == words[m] <==> x.KeywordAt(words[m], k)
    {
      KeywordAtSource(x, words[m], k);
    }
  }

  /** The kind of a statement by its first keyword, for the classifier and in the code. */
  function KindBy(kw: Keyword, query: QueryKind, pragma: QueryKind, cte: QueryKind): QueryKind {
    match kw
    case KwQuery => query
    case KwPragma => pragma
    case KwShow | KwTable => Select
    case KwDml => Write
    case KwDdl => Ddl
    case KwWith => cte
    case KwExplain | KwOther => Unknown
  }

  lemma WrappedByKind(w: Text, t: Text)
    requires t == Peel(w)
    ensures var kw := KeywordOf(FirstKeyword(t));
            && (kw == KwPragma ==> FirstKeyword(t) == Ascii("PRAGMA"))
            && ClassifyWrappedStatement(w) ==
               KindBy(kw, ClassifySelectSideEffects(t), if kw == KwPragma then ClassifyPragma(t) else Unknown,
                      ClassifyCte(t))
  {
    KeywordOfReads(FirstKeyword(t));
  }

  /** The keyword of the code at `k`, class by class. */
  lemma KeywordClasses(x: Lexed, k: nat, kw: Keyword)
    requires x.Valid() && k <= |x.text| && kw == KeywordOf(FirstKeyword(x.CodeText()[k..]))
    ensures kw == KwDml <==> AnyKeywordAt(x, DML, k)
    ensures kw == KwDdl <==> AnyKeywordAt(x, DDL, k)
  {
    var f := FirstKeyword(x.CodeText()[k..]);
    ModifyingKeywords(f);
    ModifyingWordsAreKeywords();
    AnyKeywordIs(x, DML, k, f);
    AnyKeywordIs(x, DDL, k, f);
  }

  lemma CodeKind(x: Lexed, k: nat, kw: Keyword)
    requires x.Valid() && k <= |x.text| && kw == KeywordOf(FirstKeyword(x.CodeText()[k..]))
    ensures KindOfWrapped(x, k) == KindBy(kw, KindOfQuery(x, k), KindOfPragma(x, k), KindOfCte(x, k))
  {
    KeywordKind(x, k);
    KeywordClasses(x, k, kw);
  }

  /** The kind of a peeled statement that starts at `k`. */
  lemma PeeledKind(x: Lexed, k: nat, t: Text)
    requires x.Valid() && k <= |x.text| && WordCut(x.CodeText(), k) && t == x.CodeText()[k..]
    ensures var kw := KeywordOf(FirstKeyword(t));
            && (kw == KwPragma ==> FirstKeyword(t) == Ascii("PRAGMA"))
            && KindOfWrapped(x, k) ==
               KindBy(kw, ClassifySelectSideEffects(t), if kw == KwPragma then ClassifyPragma(t) else Unknown,
                      ClassifyCte(t))
  {
    var kw := KeywordOf(FirstKeyword(t));
    CodeKind(x, k, kw);
    KeywordOfReads(FirstKeyword(t));
    QueryKindIs(x, k, t);
    CteKindIs(x, k, t);
    if kw == KwPragma {
      PragmaKindIs(x, k, t);
    }
  }

  /** What an EXPLAIN runs is of the kind of its own code, after gaps and opening parentheses. */
  lemma WrappedKindIs(x: Lexed, g: nat, w: nat, t: Text)
    requires x.Valid() && g <= |x.text| && w == x.OpenersEnd(g) && WordCut(x.CodeText(), w) && t == x.CodeText()[g..]
    ensures ClassifyWrappedStatement(t) == KindOfWrapped(x, w)
  {
    PeelRest(x, g);
    WrappedByKind(t, x.CodeText()[w..]);
    PeeledKind(x, w, x.CodeText()[w..]);
  }

  // ---------- EXPLAIN ----------

  /** The kind of what follows EXPLAIN. */
  function SplitKind(after: Text): QueryKind {
    var (options, wrapped) := SplitExplainOptions(after);
    if HasWord(options, Ascii("ANALYZE")) then ClassifyWrappedStatement(wrapped) else Select
  }

  lemma ListKind(x: Lexed, a: nat, e: nat, after: Text)
    requires x.Valid() && x.CodeByteAt(a, OPEN_PAREN) && after == x.CodeText()[a..] && a < e
    requires ClosingParen(after, 1, 1) == Some(e - a)
    ensures e < |x.text|
    ensures SplitKind(after) == if AnalyzeIn(x, a, e) then KindOfWrapped(x, x.OpenersEnd(e + 1)) else Select
  {
    var options, wrapped := ClosedListTexts(x, a, e, after);
    SplitAtParen(after, options, wrapped);
    ClosedListOptions(x, a, e, options);
    var g, w := ClosedListPoint(x, e, wrapped);
    WrappedKindIs(x, g, w, wrapped);
  }

  lemma BareSplit(x: Lexed, a: nat, f: nat, after: Text) returns (options: Text, wrapped: Text)
    requires x.Valid() && a <= f <= |x.text| && !x.CodeByteAt(a, OPEN_PAREN) && after == x.CodeText()[a..]
    requires FirstOf(after, EXPLAINABLE) == Some(f - a)
    ensures options == x.CodeText()[a..f] && wrapped == x.CodeText()[f..]
    ensures SplitExplainOptions(after) == (options, wrapped)
  {
    options, wrapped := x.CodeText()[a..f], x.CodeText()[f..];
    assert after[..f - a] == options && after[f - a..] == wrapped;
    BareIsNoList(x, a, after);
  }

  lemma BareKind(x: Lexed, a: nat, f: nat, after: Text)
    requires x.Valid() && a <= f <= |x.text| && !x.CodeByteAt(a, OPEN_PAREN) && after == x.CodeText()[a..]
    requires NameCut(x.CodeText(), a) && FirstOf(after, EXPLAINABLE) == Some(f - a)
    ensures SplitKind(after) == if AnalyzeIn(x, a, f) then KindOfWrapped(x, f) else Select
  {
    FirstExplainable(x, a, f, after);
    BareStart(x, a, f);
    var options, wrapped := BareSplit(x, a, f, after);
    BareListOptions(x, a, f, options);
    WrappedKindIs(x, f, f, wrapped);
  }

  lemma EmptyIsUnknown(t: Text)
    requires t == []
    ensures ClassifyWrappedStatement(t) == Unknown
  {
    EmptyKeyword();
    WrappedByKind(t, Peel(t));
  }

  lemma UnendedKind(x: Lexed, a: nat, after: Text)
    requires x.Valid() && a <= |x.text| && after == x.CodeText()[a..] && NameCut(x.CodeText(), a)
    requires if ByteAt(after, 0, OPEN_PAREN) then ClosingParen(after, 1, 1).None? else FirstOf(after, EXPLAINABLE).None?
    ensures SplitKind(after) == if AnalyzeIn(x, a, |x.text|) then Unknown else Select
  {
    AnalyzeInSlice(x, a, a, |x.text|);
    assert after == x.CodeText()[a..|x.text|];
    EmptyIsUnknown([]);
  }

  /** The kind that the options from `a` on leave to what they apply to, if they end in one place only. */
  ghost predicate IsKindAfter(x: Lexed, a: nat, kind: QueryKind)
    requires x.Valid()
  {
    || (exists e: nat, w: nat :: OptionsEndOnce(x, a, e, w) &&
                                 kind == if AnalyzeIn(x, a, e) then KindOfWrapped(x, w) else Select)
    || ((forall e: nat, w: nat :: !OptionsEndAt(x, a, e, w)) &&
        kind == if AnalyzeIn(x, a, |x.text|) then Unknown else Select)
  }

  ghost predicate OptionsEndOnce(x: Lexed, a: nat, e: nat, w: nat)
    requires x.Valid()
  {
    OptionsEndAt(x, a, e, w) && forall e': nat, w': nat | OptionsEndAt(x, a, e', w') :: e' == e && w' == w
  }

  lemma ListIsKind(x: Lexed, a: nat, after: Text)
    requires x.Valid() && x.CodeByteAt(a, OPEN_PAREN) && after == x.CodeText()[a..]
    ensures IsKindAfter(x, a, SplitKind(after))
  {
    assert after[0] == OPEN_PAREN;
    var r := ClosingParen(after, 1, 1);
    forall e: nat
      ensures x.ClosesAt(a, e) <==> r.Some? && e == a + r.value
    {
      ClosesExactly(x, a, e);
    }
    if r.Some? {
      var e := a + r.value;
      ListKind(x, a, e, after);
      assert OptionsEndOnce(x, a, e, x.OpenersEnd(e + 1));
    } else {
      UnendedKind(x, a, after);
    }
  }

  lemma BareIsKind(x: Lexed, a: nat, after: Text)
    requires x.Valid() && a <= |x.text| && !x.CodeByteAt(a, OPEN_PAREN) && after == x.CodeText()[a..]
    requires NameCut(x.CodeText(), a)
    ensures IsKindAfter(x, a, SplitKind(after))
  {
    var r := FirstOf(after, EXPLAINABLE);
    if r.Some? {
      var f := a + r.value;
      BareKind(x, a, f, after);
      FirstExplainable(x, a, f, after);
      BareEndsOnce(x, a, f);
      assert OptionsEndOnce(x, a, f, f);
    } else {
      BareIsNoList(x, a, after);
      BareNeverEnds(x, a, after);
      UnendedKind(x, a, after);
    }
  }

  lemma ExplainByKind(t: Text, after: Text)
    requires FirstKeyword(t) == Ascii("EXPLAIN") && after == TrimStart(t[7..])
    ensures ClassifyExplain(t) == SplitKind(after)
  {
  }

  /** The one kind that IsKindAfter allows is the kind of the EXPLAIN. */
  lemma KindAfterIsKind(x: Lexed, k: nat, kind: QueryKind)
    requires x.Valid() && k + 7 <= |x.text| && IsKindAfter(x, x.GapEnd(k + 7), kind)
    ensures kind == KindOfExplain(x, k)
  {
  }

  lemma ExplainKindIs(x: Lexed, k: nat, t: Text)
    requires x.Valid() && k <= |x.text| && t == x.CodeText()[k..] && FirstKeyword(t) == Ascii("EXPLAIN")
    ensures k + 7 <= |x.text| && ClassifyExplain(t) == KindOfExplain(x, k)
  {
    var u := x.CodeText();
    ReadKeywords();
    KeywordAtSource(x, Ascii("EXPLAIN"), k);
    assert t[7..] == u[k + 7..];
    TrimRest(x, k + 7);
    var a := x.GapEnd(k + 7);
    AfterKeywordCut(x, k + 7);
    ExplainByKind(t, u[a..]);
    if x.CodeByteAt(a, OPEN_PAREN) {
      ListIsKind(x, a, u[a..]);
    } else {
      BareIsKind(x, a, u[a..]);
    }
    KindAfterIsKind(x, k, SplitKind(u[a..]));
  }

  // ---------- Statements ----------

  lemma TopKind(t: Text)
    ensures var kw := KeywordOf(FirstKeyword(t));
            && (kw == KwPragma ==> FirstKeyword(t) == Ascii("PRAGMA"))
            && (kw == KwExplain ==> FirstKeyword(t) == Ascii("EXPLAIN") && ClassifyByKeyword(t) == ClassifyExplain(t))
            && (kw == KwTable ==> ClassifyByKeyword(t) == Unknown)
            && (kw !in {KwExplain, KwTable} ==>
                  ClassifyByKeyword(t) ==
                  KindBy(kw, ClassifySelectSideEffects(t), if kw == KwPragma then ClassifyPragma(t) else Unknown,
                         ClassifyCte(t)))
  {
    KeywordOfReads(FirstKeyword(t));
  }

  lemma StatementKindIs(x: Lexed, k: nat, t: Text)
    requires x.Valid() && k <= |x.text| && WordCut(x.CodeText(), k) && t == x.CodeText()[k..]
    ensures ClassifyByKeyword(t) == KindOfStatement(x, k)
  {
    var kw := KeywordOf(FirstKeyword(t));
    TopKind(t);
    KeywordKind(x, k);
    if kw == KwExplain {
      ExplainKindIs(x, k, t);
    } else if kw != KwTable {
      PeeledKind(x, k, t);
    }
  }

  // ---------- Routines ----------

  /** `w` first stands in `t` at `b`, or nowhere and `b` is the end. */
  predicate FirstOrEnd(t: Text, w: Text, b: nat) {
    b <= |t| && (forall j | 0 <= j < b :: !TextAt(t, j, w)) && (TextAt(t, b, w) || b == |t|)
  }

  /** From `e` on `t` is white space up to `g`, semicolons up to `h`, and white space. */
  predicate SemicolonTail(t: Text, e: nat, g: nat, h: nat) {
    && e <= g <= h <= |t| && (forall k | e <= k < g :: IsWhite(t[k]))
    && (forall k | g <= k < h :: t[k] == SEMICOLON) && forall k | h <= k < |t| :: IsWhite(t[k])
  }

  /** In `t` the word END at `i` ends a statement with the semicolon at `c`, and another one starts with a letter at
      `d`. */
  predicate EndsStatementAt(t: Text, i: nat, c: nat, d: nat) {
    && WordAt(t, Ascii("END"), i) && i + 3 <= c < d < |t| && t[c] == SEMICOLON && IsAlpha(t[d])
    && (forall k | i + 3 <= k < c :: IsAsciiWhitespace(t[k]))
    && forall k | c < k < d :: IsAsciiWhitespace(t[k]) || t[k] == SEMICOLON
  }

  ghost predicate EndsNoStatement(t: Text) { forall i: nat, c: nat, d: nat :: !EndsStatementAt(t, i, c, d) }

  /** A kind of routine stands before any BEGIN. */
  ghost predicate NamesRoutine(t: Text) {
    exists b: nat, m, i: nat | b <= |t| && 0 <= m < |ROUTINES| ::
      FirstOrEnd(t, Ascii("BEGIN"), b) && WordAt(t[..b], ROUTINES[m], i)
  }

  /** `t` ends with END at `e`, but for a tail of semicolons. */
  ghost predicate EndsWithEnd(t: Text, e: nat) {
    3 <= e <= |t| && TextAt(t, e - 3, Ascii("END")) && exists g: nat, h: nat :: SemicolonTail(t, e, g, h)
  }

  /** Upper-case code that creates a routine with a body: CREATE, a kind of routine before any BEGIN, and an END at its
      end, but no END before that with another statement after it. */
  ghost predicate CompoundShape(t: Text) {
    && FirstKeyword(t) == Ascii("CREATE") && NamesRoutine(t)
    && exists e: nat :: EndsWithEnd(t, e) && EndsNoStatement(t[..e - 3])
  }

  lemma {:induction false} BeforeFirst(t: Text, w: Text, i: nat) returns (b: nat)
    requires i <= |t| && w != [] && forall j | 0 <= j < i :: !TextAt(t, j, w)
    ensures FirstOrEnd(t, w, b) && BeforeText(t, w, i) == t[..b]
    decreases |t| - i
  {
    if TextAt(t, i, w) {
      b := i;
    } else if i == |t| {
      b := i;
      assert t[..b] == t;
    } else {
      b := BeforeFirst(t, w, i + 1);
    }
  }

  lemma FirstOrEndIsUnique(t: Text, w: Text, b: nat, c: nat)
    requires w != [] && FirstOrEnd(t, w, b) && FirstOrEnd(t, w, c)
    ensures b == c
  {
  }

  lemma RoutineWordsAreWords()
    ensures forall m | 0 <= m < |ROUTINES| :: ROUTINES[m] != []
  {
  }

  lemma NamesRoutineExactly(t: Text)
    ensures NamesRoutine(t) <==>
            exists m | 0 <= m < |ROUTINES| :: HasWord(BeforeText(t, Ascii("BEGIN"), 0), ROUTINES[m])
  {
    var b := BeforeFirst(t, Ascii("BEGIN"), 0);
    RoutineWordsAreWords();
    forall m | 0 <= m < |ROUTINES|
      ensures HasWord(t[..b], ROUTINES[m]) <==> exists i: nat :: WordAt(t[..b], ROUTINES[m], i)
    {
      HasWordExactly(t[..b], ROUTINES[m]);
    }
    if c: nat, m, i: nat :| c <= |t| && 0 <= m < |ROUTINES| && FirstOrEnd(t, Ascii("BEGIN"), c) &&
                            WordAt(t[..c], ROUTINES[m], i) {
      FirstOrEndIsUnique(t, Ascii("BEGIN"), b, c);
    }
  }

  lemma CompleteEndExactly(t: Text, i: nat)
    ensures CompleteEndAt(t, i) <==> exists c: nat, d: nat :: EndsStatementAt(t, i, c, d)
  {
    if CompleteEndAt(t, i) {
      var c := SkipAsciiWhitespace(t, i + 3);
      assert EndsStatementAt(t, i, c, SkipBlankStatements(t, c + 1));
    }
    if c: nat, d: nat :| EndsStatementAt(t, i, c, d) {
      assert SkipAsciiWhitespace(t, i + 3) == c;
      assert SkipBlankStatements(t, c + 1) == d;
    }
  }

  predicate HasCompleteEnd(t: Text) { exists i | 0 <= i < |t| :: CompleteEndAt(t, i) }

  lemma EndsNoStatementExactly(t: Text)
    ensures EndsNoStatement(t) <==> !HasCompleteEnd(t)
  {
    forall i: nat
      ensures CompleteEndAt(t, i) <==> exists c: nat, d: nat :: EndsStatementAt(t, i, c, d)
    {
      CompleteEndExactly(t, i);
    }
    if i: nat, c: nat, d: nat :| EndsStatementAt(t, i, c, d) {
      assert i < |t| && CompleteEndAt(t, i);
    }
  }

  /** What is left without the tail. */
  lemma BodyTail(t: Text) returns (e: nat, g: nat, h: nat)
    ensures SemicolonTail(t, e, g, h) && TrimEnd(TrimSemicolons(TrimEnd(t))) == t[..e]
    ensures h > 0 ==> !IsWhite(t[h - 1])
    ensures g > 0 ==> t[g - 1] != SEMICOLON
    ensures e > 0 ==> !IsWhite(t[e - 1])
  {
    var r := TrimEnd(t);
    var q := TrimSemicolons(r);
    var o := TrimEnd(q);
    e, g, h := |o|, |q|, |r|;
    assert o == t[..e];
  }

  lemma EndIsBody(t: Text, e: nat, e': nat, g: nat, h: nat, g': nat, h': nat)
    requires e' > 0 && SemicolonTail(t, e, g, h) && SemicolonTail(t, e', g', h')
    requires !IsWhite(t[e' - 1]) && t[e' - 1] != SEMICOLON
    requires (h > 0 ==> !IsWhite(t[h - 1])) && (g > 0 ==> t[g - 1] != SEMICOLON) && (e > 0 ==> !IsWhite(t[e - 1]))
    ensures e == e'
  {
  }

  lemma EndIsTail(t: Text, e: nat, b: nat, g: nat, h: nat)
    requires EndsWithEnd(t, e) && SemicolonTail(t, b, g, h)
    requires (h > 0 ==> !IsWhite(t[h - 1])) && (g > 0 ==> t[g - 1] != SEMICOLON) && (b > 0 ==> !IsWhite(t[b - 1]))
    ensures e == b
  {
    var g': nat, h': nat :| SemicolonTail(t, e, g', h');
    assert t[e - 3 + 2] == Ascii("END")[2] == 68;
    EndIsBody(t, b, e, g, h, g', h');
  }

  lemma EndText(t: Text, e: nat, body: Text)
    requires 3 <= e <= |t| && body == t[..e]
    ensures TextAt(body, e - 3, Ascii("END")) <==> TextAt(t, e - 3, Ascii("END"))
  {
  }

  function BodyOf(t: Text): Text { TrimEnd(TrimSemicolons(TrimEnd(t))) }

  predicate EndsInEnd(body: Text) { |body| >= 3 && TextAt(body, |body| - 3, Ascii("END")) }

  lemma EndsWithEndExactly(t: Text, e: nat)
    ensures EndsWithEnd(t, e) <==> e == |BodyOf(t)| && EndsInEnd(BodyOf(t))
  {
    var b, g, h := BodyTail(t);
    if b >= 3 {
      EndText(t, b, BodyOf(t));
    }
    if EndsWithEnd(t, e) {
      EndIsTail(t, e, b, g, h);
    }
  }

  lemma BodyExactly(t: Text)
    ensures var body := BodyOf(t);
            (exists e: nat :: EndsWithEnd(t, e) && EndsNoStatement(t[..e - 3])) <==>
            EndsInEnd(body) && EndsNoStatement(body[..|body| - 3])
  {
    var body := BodyOf(t);
    var b, g, h := BodyTail(t);
    forall e: nat
      ensures EndsWithEnd(t, e) <==> e == |body| && EndsInEnd(body)
    {
      EndsWithEndExactly(t, e);
    }
    if EndsInEnd(body) {
      assert EndsWithEnd(t, |body|);
      assert body[..|body| - 3] == t[..|body| - 3];
    }
  }

  lemma CompoundByParts(t: Text)
    ensures var body := BodyOf(t);
            IsCreateCompoundRoutine(t) <==>
            && FirstKeyword(t) == Ascii("CREATE")
            && (exists m | 0 <= m < |ROUTINES| :: HasWord(BeforeText(t, Ascii("BEGIN"), 0), ROUTINES[m]))
            && EndsInEnd(body)
            && !HasCompleteEnd(body[..|body| - 3])
  {
  }

  lemma CompoundExactly(t: Text)
    ensures IsCreateCompoundRoutine(t) <==> CompoundShape(t)
  {
    CompoundByParts(t);
    NamesRoutineExactly(t);
    BodyExactly(t);
    var body := BodyOf(t);
    if EndsInEnd(body) {
      EndsNoStatementExactly(body[..|body| - 3]);
    }
  }

  // ---------- The kind of a text ----------

  ghost predicate HasNoCode(x: Lexed)
    requires x.Valid()
  {
    forall k: nat | k < |x.text| :: x.IsGap(k)
  }

  ghost predicate CallsIdentifier(x: Lexed)
    requires x.Valid()
  {
    exists i: nat, j: nat | i < j < |x.text| :: x.IdentifierCallAt(i, j)
  }

  /** The kind that one profile gives to a text: without code it is unknown, the CREATE of a routine with a body is DDL,
      several statements are unknown; and one statement is of its own kind, but a read that calls a quoted name is
      unknown. */
  ghost function KindOf(p: LexProfile, s: Text): QueryKind {
    var x := Lex(p, s);
    var kind := KindOfStatement(x, x.OpenersEnd(0));
    if HasNoCode(x) then Unknown
    else if CompoundShape(x.CodeText()[x.GapEnd(0)..]) then Ddl
    else if !x.SingleStatement() || (kind == Select && CallsIdentifier(x)) then Unknown
    else kind
  }

  lemma TrimmedText(p: LexProfile, s: Text)
    ensures var x, trimmed := Lex(p, s), TrimStart(Strip(p, false, s));
            Upper(trimmed) == x.CodeText()[x.GapEnd(0)..] && (trimmed == [] <==> HasNoCode(x))
  {
    var x, stripped := Lex(p, s), Strip(p, false, s);
    StripIsCodeText(p, s);
    UpperKeepsShape(stripped);
    assert x.CodeText()[0..] == x.CodeText();
    TrimRest(x, 0);
  }

  lemma StatementKind(p: LexProfile, s: Text)
    ensures var x := Lex(p, s);
            ClassifyByKeyword(Upper(Peel(TrimStart(Strip(p, false, s))))) == KindOfStatement(x, x.OpenersEnd(0))
  {
    var x := Lex(p, s);
    var k := x.OpenersEnd(0);
    StatementText(p, s);
    OpenersCut(x, 0);
    StatementKindIs(x, k, x.CodeText()[k..]);
  }

  /** One profile gives every text exactly this kind. */
  lemma KindExactly(p: LexProfile, s: Text)
    ensures ClassifyWithProfile(s, p) == KindOf(p, s)
  {
    var x, stripped := Lex(p, s), Strip(p, false, s);
    TrimmedText(p, s);
    CompoundExactly(Upper(TrimStart(stripped)));
    TrailingInSource(p, s);
    IdentifierCallInSource(p, s);
    StatementKind(p, s);
  }
}
