/** What a "select" answer of one profile certifies about the code bytes of the source. */
module ReadCertificate {
  import opened Wrappers
  import opened Bytes
  import opened LexProfiles
  import opened Tokenizer
  import opened WordSearch
  import opened Classifier
  import opened SourceText
  import opened SourceSlices
  import opened PragmaSource

  // ---------- The listed words start with letters ----------

  lemma NameConstant(s: string)
    requires s != "" && 'A' <= s[0] <= 'Z' && forall i | 0 <= i < |s| :: s[i] == '_' || 'A' <= s[i] <= 'Z'
    ensures IsName(Ascii(s))
  {
  }

  lemma ServerFunctionsAreNames()
    ensures forall k | 0 <= k < 8 :: IsName(SIDE_EFFECT_FUNCTIONS[k])
  {
    NameConstant("PG_TERMINATE_BACKEND");
    NameConstant("PG_CANCEL_BACKEND");
    NameConstant("PG_RELOAD_CONF");
    NameConstant("PG_ROTATE_LOGFILE");
    NameConstant("PG_SWITCH_WAL");
    NameConstant("PG_PROMOTE");
    NameConstant("PG_CREATE_RESTORE_POINT");
    NameConstant("PG_LOG_BACKEND_MEMORY_CONTEXTS");
  }

  lemma LargeObjectFunctionsAreNames()
    ensures forall k | 8 <= k < 16 :: IsName(SIDE_EFFECT_FUNCTIONS[k])
  {
    NameConstant("LO_IMPORT");
    NameConstant("LO_EXPORT");
    NameConstant("LO_UNLINK");
    NameConstant("LO_CREATE");
    NameConstant("LO_CREAT");
    NameConstant("LO_PUT");
    NameConstant("LO_FROM_BYTEA");
    NameConstant("LO_TRUNCATE");
  }

  lemma OtherFunctionsAreNames()
    ensures forall k | 16 <= k < 24 :: IsName(SIDE_EFFECT_FUNCTIONS[k])
  {
    NameConstant("LOWRITE");
    NameConstant("DBLINK");
    NameConstant("DBLINK_EXEC");
    NameConstant("DBLINK_CONNECT");
    NameConstant("DBLINK_CONNECT_U");
    NameConstant("DBLINK_SEND_QUERY");
    NameConstant("SETVAL");
    NameConstant("NEXTVAL");
  }

  lemma SideEffectNamesAreNames()
    ensures forall k | 0 <= k < |SIDE_EFFECT_FUNCTIONS| :: IsName(SIDE_EFFECT_FUNCTIONS[k])
  {
    ServerFunctionsAreNames();
    LargeObjectFunctionsAreNames();
    OtherFunctionsAreNames();
  }

  lemma ModifyingWordsAreNames()
    ensures forall k | 0 <= k < |CTE_DDL| :: IsName(CTE_DDL[k])
    ensures forall k | 0 <= k < |DML| :: IsName(DML[k])
  {
    NameConstant("CREATE");
    NameConstant("DROP");
    NameConstant("ALTER");
    NameConstant("TRUNCATE");
    NameConstant("RENAME");
    NameConstant("INSERT");
    NameConstant("UPDATE");
    NameConstant("DELETE");
    NameConstant("MERGE");
    NameConstant("REPLACE");
  }

  lemma ExplainableWordsAreNames()
    ensures forall k | 0 <= k < |EXPLAINABLE| :: IsName(EXPLAINABLE[k])
  {
    NameConstant("SELECT");
    NameConstant("INSERT");
    NameConstant("UPDATE");
    NameConstant("DELETE");
    NameConstant("MERGE");
    NameConstant("REPLACE");
    NameConstant("VALUES");
    NameConstant("TABLE");
    NameConstant("WITH");
    NameConstant("CREATE");
    NameConstant("DROP");
    NameConstant("ALTER");
    NameConstant("TRUNCATE");
    NameConstant("RENAME");
  }

  lemma LockingWordsAreWords()
    ensures AreWords(LOCK_IN_SHARE_MODE)
    ensures forall m | 0 <= m < |LOCK_STRENGTHS| :: AreWords([Ascii("FOR"), LOCK_STRENGTHS[m]])
  {
    NameConstant("LOCK");
    NameConstant("IN");
    NameConstant("SHARE");
    NameConstant("MODE");
    NameConstant("FOR");
    NameConstant("UPDATE");
    NameConstant("NO");
    NameConstant("KEY");
  }

  // ---------- Queries ----------

  /** From `k` on, FOR is directly followed by one of four words, or LOCK IN SHARE MODE stands in the code. */
  ghost predicate LocksFrom(x: Lexed, k: nat)
    requires x.Valid()
  {
    || (exists m | 0 <= m < |LOCK_STRENGTHS| :: CodeRowFrom(x, [Ascii("FOR"), LOCK_STRENGTHS[m]], k))
    || CodeRowFrom(x, LOCK_IN_SHARE_MODE, k)
  }

  /** From `k` on the code has no INTO, no locking clause and no call of a listed function. */
  ghost predicate NoSideEffectsFrom(x: Lexed, k: nat)
    requires x.Valid()
  {
    && (forall i: nat | i >= k :: !x.CodeWordAt(Ascii("INTO"), i))
    && !LocksFrom(x, k)
    && forall m, i: nat | 0 <= m < |SIDE_EFFECT_FUNCTIONS| && i >= k :: !x.CodeCallAt(SIDE_EFFECT_FUNCTIONS[m], i)
  }

  /** From `k` on the code has none of the ten words that modify data or schema. */
  ghost predicate NoModifyingWordFrom(x: Lexed, k: nat)
    requires x.Valid()
  {
    && (forall m, i: nat | 0 <= m < |CTE_DDL| && i >= k :: !x.CodeWordAt(CTE_DDL[m], i))
    && (forall m, i: nat | 0 <= m < |DML| && i >= k :: !x.CodeWordAt(DML[m], i))
  }

  lemma {:induction false} SliceWordEnd(h: Text, k: nat, i: nat, t: Text)
    requires k + i <= |h| && t == h[k..]
    ensures WordEnd(h, k + i) == k + WordEnd(t, i)
    decreases |h| - k - i
  {
    if k + i < |h| {
      assert t[i] == h[k + i];
      SliceWordEnd(h, k, i + 1, t);
    }
  }

  lemma SliceFirstWord(h: Text, k: nat, i: nat, t: Text) returns (e: nat, w: Text)
    requires k + i < |h| && t == h[k..] && IsWordByte(h[k + i])
    ensures i < e && k + e <= |h| && Words(t, i) == [w] + Words(t, e) && Words(h, k + i) == [w] + Words(h, k + e)
  {
    SliceWordEnd(h, k, i, t);
    e := WordEnd(t, i);
    w := h[k + i..k + e];
    assert t[i] == h[k + i];
    assert t[i..e] == w;
  }

  lemma {:induction false} SliceWords(h: Text, k: nat, i: nat)
    requires k + i <= |h|
    ensures Words(h[k..], i) == Words(h, k + i)
    decreases |h| - k - i
  {
    if k + i < |h| {
      if IsWordByte(h[k + i]) {
        var e, w := SliceFirstWord(h, k, i, h[k..]);
        SliceWords(h, k, e);
      } else {
        SliceWords(h, k, i + 1);
      }
    }
  }

  lemma LockingAnswer(x: Lexed, k: nat)
    requires x.Valid() && k <= |x.text| && WordCut(x.CodeText(), k)
    ensures LockingClause(Words(x.CodeText()[k..], 0)) <==> LocksFrom(x, k)
  {
    SliceWords(x.CodeText(), k, 0);
    LockingWordsAreWords();
    forall m | 0 <= m < |LOCK_STRENGTHS|
      ensures HasRow(Words(x.CodeText(), k), [Ascii("FOR"), LOCK_STRENGTHS[m]]) <==>
              CodeRowFrom(x, [Ascii("FOR"), LOCK_STRENGTHS[m]], k)
    {
      WordsHaveRow(x, k, [Ascii("FOR"), LOCK_STRENGTHS[m]]);
    }
    WordsHaveRow(x, k, LOCK_IN_SHARE_MODE);
  }

  lemma CallsAnswer(x: Lexed, k: nat)
    requires x.Valid() && k <= |x.text| && WordCut(x.CodeText(), k)
    ensures CallsSideEffect(x.CodeText()[k..]) <==>
            exists m, i: nat | 0 <= m < |SIDE_EFFECT_FUNCTIONS| && i >= k :: x.CodeCallAt(SIDE_EFFECT_FUNCTIONS[m], i)
  {
    SideEffectNamesAreNames();
    forall m | 0 <= m < |SIDE_EFFECT_FUNCTIONS|
      ensures HasCall(x.CodeText()[k..], SIDE_EFFECT_FUNCTIONS[m]) <==>
              exists i: nat | i >= k :: x.CodeCallAt(SIDE_EFFECT_FUNCTIONS[m], i)
    {
      RestHasCall(x, SIDE_EFFECT_FUNCTIONS[m], k);
    }
  }

  /** A query is classified as a read exactly when its code has none of the side effects. */
  lemma QueryAnswer(x: Lexed, k: nat)
    requires x.Valid() && k <= |x.text| && WordCut(x.CodeText(), k)
    ensures ClassifySelectSideEffects(x.CodeText()[k..]) == Select <==> NoSideEffectsFrom(x, k)
  {
    NameConstant("INTO");
    RestHasWord(x, Ascii("INTO"), k);
    LockingAnswer(x, k);
    CallsAnswer(x, k);
  }

  lemma AnyWordAnswer(x: Lexed, k: nat, words: seq<Text>)
    requires x.Valid() && k <= |x.text| && WordCut(x.CodeText(), k)
    requires forall m | 0 <= m < |words| :: IsName(words[m])
    ensures HasAnyWord(x.CodeText()[k..], words) <==>
            exists m, i: nat | 0 <= m < |words| && i >= k :: x.CodeWordAt(words[m], i)
  {
    forall m | 0 <= m < |words|
      ensures HasWord(x.CodeText()[k..], words[m]) <==> exists i: nat | i >= k :: x.CodeWordAt(words[m], i)
    {
      RestHasWord(x, words[m], k);
    }
  }

  lemma CteAnswer(x: Lexed, k: nat)
    requires x.Valid() && k <= |x.text| && WordCut(x.CodeText(), k)
    ensures ClassifyCte(x.CodeText()[k..]) == Select <==> NoModifyingWordFrom(x, k) && NoSideEffectsFrom(x, k)
  {
    ModifyingWordsAreNames();
    AnyWordAnswer(x, k, CTE_DDL);
    AnyWordAnswer(x, k, DML);
    QueryAnswer(x, k);
  }

  // ---------- Statements ----------

  /** The statement whose keyword starts at `k` is a query, a CTE, a SHOW or a PRAGMA that reads. */
  ghost predicate ReadsAt(x: Lexed, k: nat)
    requires x.Valid()
  {
    || ((x.KeywordAt(Ascii("SELECT"), k) || x.KeywordAt(Ascii("VALUES"), k)) && NoSideEffectsFrom(x, k))
    || (x.KeywordAt(Ascii("WITH"), k) && NoModifyingWordFrom(x, k) && NoSideEffectsFrom(x, k))
    || x.KeywordAt(Ascii("SHOW"), k) || x.KeywordAt(Ascii("DESCRIBE"), k) || x.KeywordAt(Ascii("DESC"), k)
    || (x.KeywordAt(Ascii("PRAGMA"), k) && PragmaReads(x, k))
  }

  predicate IsKeyword(w: Text) { w != [] && forall i | 0 <= i < |w| :: IsAlpha(w[i]) && ToUpperByte(w[i]) == w[i] }

  lemma KeywordConstant(s: string)
    requires s != "" && forall i | 0 <= i < |s| :: 'A' <= s[i] <= 'Z'
    ensures IsKeyword(Ascii(s))
  {
  }

  lemma KeywordAtSource(x: Lexed, w: Text, k: nat)
    requires x.Valid() && k <= |x.text| && IsKeyword(w)
    ensures FirstKeyword(x.CodeText()[k..]) == w <==> x.KeywordAt(w, k)
  {
    var u := x.CodeText();
    var t := u[k..];
    var e := AlphaRunEnd(t, 0);
    if FirstKeyword(t) == w {
      assert e == |w|;
      forall i | 0 <= i < |w|
        ensures x.SpellsAt(k + i, w[i])
      {
        assert t[..e][i] == w[i] && t[i] == u[k + i];
      }
      assert e < |t| ==> t[e] == u[k + e];
    }
    if x.KeywordAt(w, k) {
      forall i | 0 <= i < |w|
        ensures t[i] == w[i]
      {
        assert x.SpellsAt(k + i, w[i]);
      }
      assert |w| < |t| ==> t[|w|] == u[k + |w|];
      assert e == |w|;
    }
  }

  lemma KeywordOfReads(f: Text)
    ensures KeywordOf(f) == KwQuery <==> f == Ascii("SELECT") || f == Ascii("VALUES")
    ensures KeywordOf(f) == KwPragma <==> f == Ascii("PRAGMA")
    ensures KeywordOf(f) == KwShow <==> f == Ascii("SHOW") || f == Ascii("DESCRIBE") || f == Ascii("DESC")
    ensures KeywordOf(f) == KwExplain <==> f == Ascii("EXPLAIN")
  {
    assert Ascii("EXPLAIN")[0] == 69 && Ascii("SELECT")[0] == 83 && Ascii("VALUES")[0] == 86;
    assert Ascii("PRAGMA")[0] == 80 && Ascii("SHOW")[0] == 83 && Ascii("DESCRIBE")[0] == 68 && Ascii("DESC")[0] == 68;
    assert |Ascii("SHOW")| == 4 && |Ascii("SELECT")| == 6;
  }

  lemma WithModifiesNothing()
    ensures Ascii("WITH") !in DML && Ascii("WITH") !in DDL
  {
    assert Ascii("WITH")[0] == 87;
    assert DML[0][0] == 73 && DML[1][0] == 85 && DML[2][0] == 68 && DML[3][0] == 77 && DML[4][0] == 82;
    assert DDL[0][0] == 67 && DDL[1][0] == 68 && DDL[2][0] == 65 && DDL[3][0] == 84 && DDL[4][0] == 82;
    assert DDL[5][0] == 71 && DDL[6][0] == 82 && DDL[7][0] == 67;
  }

  lemma KeywordOfTableAndWith(f: Text)
    ensures KeywordOf(f) == KwTable <==> f == Ascii("TABLE")
    ensures KeywordOf(f) == KwWith <==> f == Ascii("WITH")
  {
    assert Ascii("EXPLAIN")[0] == 69 && Ascii("SELECT")[0] == 83 && Ascii("VALUES")[0] == 86;
    assert Ascii("PRAGMA")[0] == 80 && Ascii("SHOW")[0] == 83 && Ascii("DESCRIBE")[0] == 68 && Ascii("DESC")[0] == 68;
    assert Ascii("TABLE")[0] == 84 && Ascii("WITH")[0] == 87;
    WithModifiesNothing();
  }

  lemma ReadKeywords()
    ensures IsKeyword(Ascii("SELECT")) && IsKeyword(Ascii("VALUES")) && IsKeyword(Ascii("WITH"))
    ensures IsKeyword(Ascii("SHOW")) && IsKeyword(Ascii("DESCRIBE")) && IsKeyword(Ascii("DESC"))
    ensures IsKeyword(Ascii("PRAGMA")) && IsKeyword(Ascii("TABLE")) && IsKeyword(Ascii("EXPLAIN"))
  {
    KeywordConstant("SELECT");
    KeywordConstant("VALUES");
    KeywordConstant("WITH");
    KeywordConstant("SHOW");
    KeywordConstant("DESCRIBE");
    KeywordConstant("DESC");
    KeywordConstant("PRAGMA");
    KeywordConstant("TABLE");
    KeywordConstant("EXPLAIN");
  }

  /** Which keyword the statement at `k` starts with, in the code and for the classifier. */
  lemma KeywordKind(x: Lexed, k: nat)
    requires x.Valid() && k <= |x.text|
    ensures var kw := KeywordOf(FirstKeyword(x.CodeText()[k..]));
            && (kw == KwQuery <==> x.KeywordAt(Ascii("SELECT"), k) || x.KeywordAt(Ascii("VALUES"), k))
            && (kw == KwPragma <==> x.KeywordAt(Ascii("PRAGMA"), k))
            && (kw == KwShow <==>
                x.KeywordAt(Ascii("SHOW"), k) || x.KeywordAt(Ascii("DESCRIBE"), k) || x.KeywordAt(Ascii("DESC"), k))
            && (kw == KwExplain <==> x.KeywordAt(Ascii("EXPLAIN"), k))
            && (kw == KwTable <==> x.KeywordAt(Ascii("TABLE"), k))
            && (kw == KwWith <==> x.KeywordAt(Ascii("WITH"), k))
  {
    var f := FirstKeyword(x.CodeText()[k..]);
    KeywordOfReads(f);
    KeywordOfTableAndWith(f);
    ReadKeywords();
    KeywordAtSource(x, Ascii("SELECT"), k);
    KeywordAtSource(x, Ascii("VALUES"), k);
    KeywordAtSource(x, Ascii("PRAGMA"), k);
    KeywordAtSource(x, Ascii("SHOW"), k);
    KeywordAtSource(x, Ascii("DESCRIBE"), k);
    KeywordAtSource(x, Ascii("DESC"), k);
    KeywordAtSource(x, Ascii("EXPLAIN"), k);
    KeywordAtSource(x, Ascii("TABLE"), k);
    KeywordAtSource(x, Ascii("WITH"), k);
  }

  /** What an executing EXPLAIN may wrap: it also knows TABLE. */
  ghost predicate WrappedReads(x: Lexed, k: nat)
    requires x.Valid()
  {
    ReadsAt(x, k) || x.KeywordAt(Ascii("TABLE"), k)
  }

  /** Gaps and opening parentheses are peeled off a statement. */
  lemma PeelRest(x: Lexed, k: nat)
    requires x.Valid() && k <= |x.text|
    ensures Peel(x.CodeText()[k..]) == x.CodeText()[x.OpenersEnd(k)..]
  {
    var u := x.CodeText();
    var t := u[k..];
    CodeBytes(x);
    var a, b := PeelStart(t, 0), x.OpenersEnd(k);
    assert a < |t| ==> t[a] == u[k + a];
    assert b < |u| ==> t[b - k] == u[b];
    assert forall j | k <= j < k + a :: u[j] == t[j - k];
    assert forall j | 0 <= j < b - k :: t[j] == u[k + j];
    assert k + a == b;
    assert t[a..] == u[b..];
  }

  /** Gaps are trimmed off an option list. */
  lemma TrimRest(x: Lexed, k: nat)
    requires x.Valid() && k <= |x.text|
    ensures TrimStart(x.CodeText()[k..]) == x.CodeText()[x.GapEnd(k)..]
    ensures x.OpenersEnd(x.GapEnd(k)) == x.OpenersEnd(k)
  {
    var u := x.CodeText();
    var n := TrimStartSlice(u, k, |u|);
    assert u[k..] == u[k..|u|];
    CodeBytes(x);
    var d := x.GapEnd(k);
    assert |TrimStart(u[k..])| == |u| - n;
    assert n == d;
  }

  /** What ReadsAt asks for, by the first keyword. */
  lemma ReadsByKeyword(x: Lexed, k: nat)
    requires x.Valid() && k <= |x.text|
    ensures var kw := KeywordOf(FirstKeyword(x.CodeText()[k..]));
            && (kw == KwQuery ==> (ReadsAt(x, k) <==> NoSideEffectsFrom(x, k)))
            && (kw == KwWith ==> (ReadsAt(x, k) <==> NoModifyingWordFrom(x, k) && NoSideEffectsFrom(x, k)))
            && (kw == KwPragma ==> (ReadsAt(x, k) <==> PragmaReads(x, k)))
            && (kw == KwShow ==> ReadsAt(x, k))
            && (kw !in {KwQuery, KwWith, KwPragma, KwShow} ==> !ReadsAt(x, k))
            && (kw == KwTable <==> x.KeywordAt(Ascii("TABLE"), k))
            && (kw == KwExplain <==> x.KeywordAt(Ascii("EXPLAIN"), k))
  {
    KeywordKind(x, k);
  }

  /** What the classifier answers for a query, a CTE or a PRAGMA at `k`. */
  lemma ClauseAnswer(x: Lexed, k: nat, t: Text)
    requires x.Valid() && k <= |x.text| && WordCut(x.CodeText(), k) && t == x.CodeText()[k..]
    ensures ClassifySelectSideEffects(t) == Select <==> NoSideEffectsFrom(x, k)
    ensures ClassifyCte(t) == Select <==> NoModifyingWordFrom(x, k) && NoSideEffectsFrom(x, k)
    ensures FirstKeyword(t) == Ascii("PRAGMA") ==> (ClassifyPragma(t) == Select <==> PragmaReads(x, k))
  {
    QueryAnswer(x, k);
    CteAnswer(x, k);
    if FirstKeyword(t) == Ascii("PRAGMA") {
      PragmaAnswer(x, k);
    }
  }

  /** Whether a statement of kind `kw` reads, given whether it would read as a query, a CTE or a PRAGMA. */
  predicate ByKeyword(kw: Keyword, query: bool, cte: bool, pragma: bool) {
    match kw
    case KwQuery => query
    case KwPragma => pragma
    case KwShow | KwTable => true
    case KwWith => cte
    case KwDml | KwDdl | KwExplain | KwOther => false
  }

  predicate IsReadingPragma(t: Text) { FirstKeyword(t) == Ascii("PRAGMA") && ClassifyPragma(t) == Select }

  /** The classifier's answer for a peeled statement that an EXPLAIN executes. */
  predicate ReadKind(t: Text) {
    ByKeyword(KeywordOf(FirstKeyword(t)), ClassifySelectSideEffects(t) == Select, ClassifyCte(t) == Select,
              IsReadingPragma(t))
  }

  lemma WrappedByKeyword(w: Text, t: Text)
    requires t == Peel(w)
    ensures ClassifyWrappedStatement(w) == Select <==> ReadKind(t)
  {
    KeywordOfReads(FirstKeyword(t));
  }

  /** What WrappedReads asks for, by the first keyword. */
  ghost predicate SourceReads(x: Lexed, k: nat, kw: Keyword)
    requires x.Valid()
  {
    ByKeyword(kw, NoSideEffectsFrom(x, k), NoModifyingWordFrom(x, k) && NoSideEffectsFrom(x, k), PragmaReads(x, k))
  }

  lemma WrappedByCode(x: Lexed, k: nat, kw: Keyword)
    requires x.Valid() && k <= |x.text| && kw == KeywordOf(FirstKeyword(x.CodeText()[k..]))
    ensures WrappedReads(x, k) <==> SourceReads(x, k, kw)
  {
    ReadsByKeyword(x, k);
  }

  lemma ReadKindByCode(x: Lexed, k: nat, t: Text)
    requires x.Valid() && k <= |x.text| && WordCut(x.CodeText(), k) && t == x.CodeText()[k..]
    ensures ReadKind(t) <==> SourceReads(x, k, KeywordOf(FirstKeyword(t)))
  {
    ClauseAnswer(x, k, t);
    KeywordOfReads(FirstKeyword(t));
  }

  lemma ReadKindAnswer(x: Lexed, k: nat, t: Text)
    requires x.Valid() && k <= |x.text| && WordCut(x.CodeText(), k) && t == x.CodeText()[k..]
    ensures ReadKind(t) <==> WrappedReads(x, k)
  {
    ReadKindByCode(x, k, t);
    WrappedByCode(x, k, KeywordOf(FirstKeyword(t)));
  }

  lemma WrappedAnswer(x: Lexed, w: nat, t: Text)
    requires x.Valid() && w <= |x.text| && WordCut(x.CodeText(), x.OpenersEnd(w)) && t == x.CodeText()[w..]
    ensures ClassifyWrappedStatement(t) == Select <==> WrappedReads(x, x.OpenersEnd(w))
  {
    var k := x.OpenersEnd(w);
    PeelRest(x, w);
    WrappedByKeyword(t, x.CodeText()[k..]);
    ReadKindAnswer(x, k, x.CodeText()[k..]);
  }

  // ---------- EXPLAIN ----------

  ghost predicate OneCodeWordAt(x: Lexed, words: seq<Text>, i: nat)
    requires x.Valid()
  {
    exists m | 0 <= m < |words| :: x.CodeWordAt(words[m], i)
  }

  /** One of `words` stands in the code at `f`, and none before it from `a` on. */
  ghost predicate FirstCodeWordAt(x: Lexed, words: seq<Text>, a: nat, f: nat)
    requires x.Valid()
  {
    a <= f && OneCodeWordAt(x, words, f) && forall i: nat | a <= i < f :: !OneCodeWordAt(x, words, i)
  }

  /** The options that start at `a` end before `e`, and what they apply to starts at `w`: a parenthesized list ends
      with its parenthesis, a bare one before the first word that can start a statement. */
  ghost predicate OptionsEndAt(x: Lexed, a: nat, e: nat, w: nat)
    requires x.Valid()
  {
    if x.CodeByteAt(a, OPEN_PAREN) then x.ClosesAt(a, e) && w == x.OpenersEnd(e + 1)
    else FirstCodeWordAt(x, EXPLAINABLE, a, e) && w == e
  }

  ghost predicate AnalyzeIn(x: Lexed, a: nat, e: nat)
    requires x.Valid()
  {
    exists i: nat | a <= i < e :: x.CodeWordAt(Ascii("ANALYZE"), i)
  }

  /** With ANALYZE among the options from `a` on the wrapped statement must read, and options that never end must
      not name ANALYZE. */
  ghost predicate OptionsRead(x: Lexed, a: nat)
    requires x.Valid()
  {
    && (forall e: nat, w: nat | OptionsEndAt(x, a, e, w) :: AnalyzeIn(x, a, e) ==> WrappedReads(x, w))
    && ((forall e: nat, w: nat :: !OptionsEndAt(x, a, e, w)) ==> !AnalyzeIn(x, a, |x.text|))
  }

  /** The EXPLAIN whose keyword starts at `k` only plans, or what it runs reads. */
  ghost predicate ExplainReads(x: Lexed, k: nat)
    requires x.Valid() && k + 7 <= |x.text|
  {
    OptionsRead(x, x.GapEnd(k + 7))
  }

  lemma {:induction false} DepthInRest(x: Lexed, a: nat, i: nat, j: nat)
    requires x.Valid() && a + j <= |x.text|
    ensures ParenDepth(x.CodeText()[a..], i, j) == x.Depth(a + i, a + j)
    decreases j - i
  {
    if i < j {
      DepthInRest(x, a, i + 1, j);
    }
  }

  /** Up to `e` the parenthesis that opens at `a` is not closed. */
  predicate StaysOpen(x: Lexed, a: nat, e: nat)
    requires x.Valid()
  {
    forall j | a < j <= e :: x.Depth(a, j) >= 1
  }

  lemma OpenUntil(x: Lexed, a: nat, e: nat)
    requires x.Valid() && x.CodeByteAt(a, OPEN_PAREN)
    requires var r := ClosingParen(x.CodeText()[a..], 1, 1);
             e == if r.Some? then a + r.value else |x.text|
    ensures StaysOpen(x, a, e)
    ensures ClosingParen(x.CodeText()[a..], 1, 1).Some? ==> x.ClosesAt(a, e)
  {
    var t := x.CodeText()[a..];
    var r := ClosingParen(t, 1, 1);
    ClosingParenBalances(t, 1, 1);
    forall j | a < j <= e
      ensures x.Depth(a, j) >= 1
    {
      DepthInRest(x, a, 1, j - a);
      assert 1 + ParenDepth(t, 1, j - a) >= 1;
    }
    if r.Some? {
      DepthInRest(x, a, 1, r.value + 1);
    }
  }

  /** The scan finds the parenthesis that closes the list, and there is at most one. */
  lemma ClosesExactly(x: Lexed, a: nat, c: nat)
    requires x.Valid() && x.CodeByteAt(a, OPEN_PAREN)
    ensures var r := ClosingParen(x.CodeText()[a..], 1, 1);
            x.ClosesAt(a, c) <==> r.Some? && c == a + r.value
  {
    var r := ClosingParen(x.CodeText()[a..], 1, 1);
    var e := if r.Some? then a + r.value else |x.text|;
    OpenUntil(x, a, e);
    if x.ClosesAt(a, c) {
      ClosedNotBefore(x, a, c, e);
      if r.Some? {
        ClosedNotBefore(x, a, e, c);
      }
    }
  }

  lemma ClosedNotBefore(x: Lexed, a: nat, c: nat, e: nat)
    requires x.Valid() && StaysOpen(x, a, e) && a < c && x.Depth(a, c + 1) == 0
    ensures c >= e
  {
  }

  predicate OneWordAt(t: Text, words: seq<Text>, i: nat) { exists m | 0 <= m < |words| :: WordAt(t, words[m], i) }

  predicate NoWordBefore(t: Text, words: seq<Text>, r: nat) { forall j: nat | j < r :: !OneWordAt(t, words, j) }

  /** `r` is the first position of any of the words in `t`. */
  ghost predicate IsFirst(t: Text, words: seq<Text>, r: Option<nat>) {
    match r
    case Some(i) => OneWordAt(t, words, i) && NoWordBefore(t, words, i)
    case None => forall j: nat :: !OneWordAt(t, words, j)
  }

  lemma FirstOfIsFirst(t: Text, words: seq<Text>)
    requires forall m | 0 <= m < |words| :: IsName(words[m])
    ensures IsFirst(t, words, FirstOf(t, words))
  {
    var r := FirstOf(t, words);
    FirstOfIsLeast(t, words);
    if r.Some? {
      var m :| 0 <= m < |words| && WordIndex(t, words[m]) == r;
      assert WordAt(t, words[m], r.value);
    }
    forall j: nat | OneWordAt(t, words, j)
      ensures r.Some? && r.value <= j
    {
      var m :| 0 <= m < |words| && WordAt(t, words[m], j);
      IndexIsFirst(t, words[m], j);
    }
  }

  lemma IndexIsFirst(t: Text, w: Text, j: nat)
    requires w != [] && WordAt(t, w, j)
    ensures HasWord(t, w) && WordIndex(t, w).value <= j
  {
    HasWordExactly(t, w);
  }

  lemma RestWordAt(x: Lexed, w: Text, a: nat, i: nat)
    requires x.Valid() && a <= |x.text| && NameCut(x.CodeText(), a) && IsName(w)
    ensures WordAt(x.CodeText()[a..], w, i) <==> x.CodeWordAt(w, a + i)
  {
    var u, n := x.CodeText(), |x.text|;
    assert u[a..] == u[a..n];
    SliceWordAt(x, w, a, n, i);
    if x.CodeWordAt(w, a + i) {
      assert x.SpellsAt(a + i + 0, w[0]);
    }
  }

  lemma OneWordInCode(x: Lexed, words: seq<Text>, a: nat, i: nat, t: Text)
    requires x.Valid() && a <= |x.text| && NameCut(x.CodeText(), a) && t == x.CodeText()[a..]
    requires forall m | 0 <= m < |words| :: IsName(words[m])
    ensures OneWordAt(t, words, i) <==> OneCodeWordAt(x, words, a + i)
  {
    if m :| 0 <= m < |words| && WordAt(t, words[m], i) {
      RestWordAt(x, words[m], a, i);
    }
    if m :| 0 <= m < |words| && x.CodeWordAt(words[m], a + i) {
      RestWordAt(x, words[m], a, i);
    }
  }

  lemma NoneBefore(x: Lexed, words: seq<Text>, a: nat, i: nat, f: nat, t: Text)
    requires x.Valid() && a <= i < f && a <= |x.text| && NameCut(x.CodeText(), a) && t == x.CodeText()[a..]
    requires forall m | 0 <= m < |words| :: IsName(words[m])
    requires NoWordBefore(t, words, f - a)
    ensures !OneCodeWordAt(x, words, i)
  {
    assert !OneWordAt(t, words, i - a);
    OneWordInCode(x, words, a, i - a, t);
  }

  lemma FoundInCode(x: Lexed, words: seq<Text>, a: nat, f: nat, t: Text)
    requires x.Valid() && a <= f && a <= |x.text| && NameCut(x.CodeText(), a) && t == x.CodeText()[a..]
    requires forall m | 0 <= m < |words| :: IsName(words[m])
    requires OneWordAt(t, words, f - a) && NoWordBefore(t, words, f - a)
    ensures FirstCodeWordAt(x, words, a, f)
  {
    forall i: nat | a <= i < f
      ensures !OneCodeWordAt(x, words, i)
    {
      NoneBefore(x, words, a, i, f, t);
    }
    OneWordInCode(x, words, a, f - a, t);
  }

  lemma FirstIsUnique(x: Lexed, words: seq<Text>, a: nat, f: nat, g: nat)
    requires x.Valid() && FirstCodeWordAt(x, words, a, f) && FirstCodeWordAt(x, words, a, g)
    ensures f == g
  {
  }

  lemma FirstIsFound(x: Lexed, words: seq<Text>, a: nat, f: nat, t: Text)
    requires x.Valid() && a <= |x.text| && NameCut(x.CodeText(), a) && t == x.CodeText()[a..]
    requires forall m | 0 <= m < |words| :: IsName(words[m])
    requires FirstCodeWordAt(x, words, a, f)
    ensures OneWordAt(t, words, f - a)
  {
    OneWordInCode(x, words, a, f - a, t);
  }

  lemma FirstInCode(x: Lexed, words: seq<Text>, a: nat, f: nat, t: Text, r: Option<nat>)
    requires x.Valid() && a <= f && a <= |x.text| && NameCut(x.CodeText(), a) && t == x.CodeText()[a..]
    requires forall m | 0 <= m < |words| :: IsName(words[m])
    requires IsFirst(t, words, r)
    ensures FirstCodeWordAt(x, words, a, f) <==> r == Some(f - a)
  {
    if r.Some? {
      FoundInCode(x, words, a, a + r.value, t);
      if FirstCodeWordAt(x, words, a, f) {
        FirstIsUnique(x, words, a, f, a + r.value);
      }
    } else if FirstCodeWordAt(x, words, a, f) {
      FirstIsFound(x, words, a, f, t);
    }
  }

  /** The scan of the rest finds the first of the words in the code. */
  lemma FirstCodeWordExactly(x: Lexed, words: seq<Text>, a: nat, f: nat, t: Text)
    requires x.Valid() && a <= f && a <= |x.text| && NameCut(x.CodeText(), a) && t == x.CodeText()[a..]
    requires forall m | 0 <= m < |words| :: IsName(words[m])
    ensures FirstCodeWordAt(x, words, a, f) <==> FirstOf(t, words) == Some(f - a)
  {
    FirstOfIsFirst(t, words);
    FirstInCode(x, words, a, f, t, FirstOf(t, words));
  }

  /** The classifier's answer for what follows EXPLAIN. */
  predicate SplitReads(after: Text) {
    var (options, wrapped) := SplitExplainOptions(after);
    HasWord(options, Ascii("ANALYZE")) ==> ClassifyWrappedStatement(wrapped) == Select
  }

  lemma EmptyKeyword()
    ensures Peel([]) == [] && KeywordOf(FirstKeyword([])) == KwOther
  {
    assert FirstKeyword([]) == [];
    CreateIsDdl();
  }

  lemma EmptyIsNoRead()
    ensures ClassifyWrappedStatement([]) != Select
  {
    EmptyKeyword();
    WrappedByKeyword([], []);
  }

  /** When the options end in one place only, that place decides. */
  lemma OptionsReadAt(x: Lexed, a: nat, e: nat, w: nat)
    requires x.Valid() && OptionsEndAt(x, a, e, w)
    requires forall e': nat, w': nat | OptionsEndAt(x, a, e', w') :: e' == e && w' == w
    ensures OptionsRead(x, a) <==> (AnalyzeIn(x, a, e) ==> WrappedReads(x, w))
  {
  }

  lemma AnalyzeInSlice(x: Lexed, a: nat, b: nat, e: nat)
    requires x.Valid() && a <= b <= e <= |x.text| && NameCut(x.CodeText(), b) && WordCut(x.CodeText(), e)
    requires forall i: nat | a <= i < b :: !x.CodeLetterAt(i)
    ensures HasWord(x.CodeText()[b..e], Ascii("ANALYZE")) <==> AnalyzeIn(x, a, e)
  {
    NameConstant("ANALYZE");
    SliceHasWord(x, Ascii("ANALYZE"), b, e);
    forall i: nat | a <= i < b
      ensures !x.CodeWordAt(Ascii("ANALYZE"), i)
    {
      if x.CodeWordAt(Ascii("ANALYZE"), i) {
        AnalyzeStartsWithLetter(x, i);
      }
    }
  }

  lemma AnalyzeStartsWithLetter(x: Lexed, i: nat)
    requires x.Valid() && x.CodeWordAt(Ascii("ANALYZE"), i)
    ensures x.CodeLetterAt(i)
  {
    assert Ascii("ANALYZE")[0] == 65;
    assert x.SpellsAt(i + 0, Ascii("ANALYZE")[0]);
  }

  lemma SplitList(after: Text, options: Text, wrapped: Text)
    requires ByteAt(after, 0, OPEN_PAREN)
    requires var r := ClosingParen(after, 1, 1);
             r.Some? && options == after[1..r.value] && wrapped == TrimStart(after[r.value + 1..])
    ensures SplitReads(after) <==> (HasWord(options, Ascii("ANALYZE")) ==> ClassifyWrappedStatement(wrapped) == Select)
  {
    SplitAtParen(after, options, wrapped);
  }

  lemma SplitAtParen(after: Text, options: Text, wrapped: Text)
    requires ByteAt(after, 0, OPEN_PAREN)
    requires var r := ClosingParen(after, 1, 1);
             r.Some? && options == after[1..r.value] && wrapped == TrimStart(after[r.value + 1..])
    ensures SplitExplainOptions(after) == (options, wrapped)
  {
  }

  lemma SplitBare(after: Text, options: Text, wrapped: Text)
    requires !ByteAt(after, 0, OPEN_PAREN)
    requires var r := FirstOf(after, EXPLAINABLE);
             r.Some? && options == after[..r.value] && wrapped == after[r.value..]
    ensures SplitReads(after) <==> (HasWord(options, Ascii("ANALYZE")) ==> ClassifyWrappedStatement(wrapped) == Select)
  {
  }

  lemma SplitNone(after: Text)
    requires if ByteAt(after, 0, OPEN_PAREN) then ClosingParen(after, 1, 1).None? else FirstOf(after, EXPLAINABLE).None?
    ensures SplitReads(after) <==> !HasWord(after, Ascii("ANALYZE"))
  {
    EmptyIsNoRead();
  }

  /** A parenthesized option list. */
  lemma ListAnswer(x: Lexed, a: nat, after: Text)
    requires x.Valid() && x.CodeByteAt(a, OPEN_PAREN) && after == x.CodeText()[a..]
    ensures SplitReads(after) <==> OptionsRead(x, a)
  {
    var u := x.CodeText();
    assert after[0] == OPEN_PAREN;
    var r := ClosingParen(after, 1, 1);
    forall e: nat
      ensures x.ClosesAt(a, e) <==> r.Some? && e == a + r.value
    {
      ClosesExactly(x, a, e);
    }
    if r.Some? {
      var e := a + r.value;
      ClosedListAnswer(x, a, e, after);
      OptionsReadAt(x, a, e, x.OpenersEnd(e + 1));
    } else {
      UnendedAnswer(x, a, after);
    }
  }

  lemma ClosedListOptions(x: Lexed, a: nat, e: nat, options: Text)
    requires x.Valid() && x.CodeByteAt(a, OPEN_PAREN) && x.CodeByteAt(e, CLOSE_PAREN) && a < e
    requires options == x.CodeText()[a + 1..e]
    ensures HasWord(options, Ascii("ANALYZE")) <==> AnalyzeIn(x, a, e)
  {
    var u := x.CodeText();
    assert u[a] == OPEN_PAREN && u[e] == CLOSE_PAREN;
    AnalyzeInSlice(x, a, a + 1, e);
  }

  lemma TrimPoint(x: Lexed, k: nat, t: Text) returns (g: nat)
    requires x.Valid() && k <= |x.text| && t == TrimStart(x.CodeText()[k..])
    ensures g <= |x.text| && t == x.CodeText()[g..] && x.OpenersEnd(g) == x.OpenersEnd(k)
  {
    g := x.GapEnd(k);
    TrimRest(x, k);
  }

  lemma CutAfterParen(x: Lexed, e: nat) returns (w: nat)
    requires x.Valid() && x.CodeByteAt(e, CLOSE_PAREN)
    ensures w == x.OpenersEnd(e + 1) && WordCut(x.CodeText(), w)
  {
    w := x.OpenersEnd(e + 1);
    OpenersCut(x, e + 1);
  }

  lemma WrappedAt(x: Lexed, g: nat, w: nat, t: Text)
    requires x.Valid() && g <= |x.text| && w == x.OpenersEnd(g) && WordCut(x.CodeText(), w) && t == x.CodeText()[g..]
    ensures ClassifyWrappedStatement(t) == Select <==> WrappedReads(x, w)
  {
    WrappedAnswer(x, g, t);
  }

  lemma ClosedListPoint(x: Lexed, e: nat, wrapped: Text) returns (g: nat, w: nat)
    requires x.Valid() && x.CodeByteAt(e, CLOSE_PAREN) && wrapped == TrimStart(x.CodeText()[e + 1..])
    ensures g <= |x.text| && wrapped == x.CodeText()[g..]
    ensures w == x.OpenersEnd(g) == x.OpenersEnd(e + 1) && WordCut(x.CodeText(), w)
  {
    w := CutAfterParen(x, e);
    g := TrimPoint(x, e + 1, wrapped);
  }

  lemma ClosedListWrapped(x: Lexed, e: nat, wrapped: Text)
    requires x.Valid() && x.CodeByteAt(e, CLOSE_PAREN) && wrapped == TrimStart(x.CodeText()[e + 1..])
    ensures ClassifyWrappedStatement(wrapped) == Select <==> WrappedReads(x, x.OpenersEnd(e + 1))
  {
    var g, w := ClosedListPoint(x, e, wrapped);
    WrappedAt(x, g, w, wrapped);
  }

  lemma ClosedListTexts(x: Lexed, a: nat, e: nat, after: Text) returns (options: Text, wrapped: Text)
    requires x.Valid() && x.CodeByteAt(a, OPEN_PAREN) && after == x.CodeText()[a..] && a < e
    requires ClosingParen(after, 1, 1) == Some(e - a)
    ensures x.CodeByteAt(e, CLOSE_PAREN)
    ensures ByteAt(after, 0, OPEN_PAREN) && options == after[1..e - a] && wrapped == TrimStart(after[e - a + 1..])
    ensures options == x.CodeText()[a + 1..e] && wrapped == TrimStart(x.CodeText()[e + 1..])
  {
    var u := x.CodeText();
    assert u[a] == OPEN_PAREN && after[0] == OPEN_PAREN && after[e - a] == CLOSE_PAREN && u[e] == CLOSE_PAREN;
    options := u[a + 1..e];
    assert after[1..e - a] == options;
    assert after[e - a + 1..] == u[e + 1..];
    wrapped := TrimStart(u[e + 1..]);
  }

  lemma ClosedListAnswer(x: Lexed, a: nat, e: nat, after: Text)
    requires x.Valid() && x.CodeByteAt(a, OPEN_PAREN) && after == x.CodeText()[a..] && a < e
    requires ClosingParen(after, 1, 1) == Some(e - a)
    ensures e < |x.text|
    ensures SplitReads(after) <==> (AnalyzeIn(x, a, e) ==> WrappedReads(x, x.OpenersEnd(e + 1)))
  {
    var options, wrapped := ClosedListTexts(x, a, e, after);
    SplitList(after, options, wrapped);
    ClosedListOptions(x, a, e, options);
    ClosedListWrapped(x, e, wrapped);
  }

  /** After a byte that is no word byte, peeling ends at a clean cut. */
  lemma OpenersCut(x: Lexed, k: nat)
    requires x.Valid() && k <= |x.text| && !x.CodeWordByteAt(k - 1)
    ensures WordCut(x.CodeText(), x.OpenersEnd(k))
  {
    var w := x.OpenersEnd(k);
    CodeWordBytes(x);
    assert w > k ==> x.IsGap(w - 1) || x.CodeByteAt(w - 1, OPEN_PAREN);
    assert WordByteAt(x.CodeText(), w - 1) == x.CodeWordByteAt(w - 1);
  }

  /** Options that never end. */
  lemma UnendedAnswer(x: Lexed, a: nat, after: Text)
    requires x.Valid() && a <= |x.text| && after == x.CodeText()[a..] && NameCut(x.CodeText(), a)
    requires if ByteAt(after, 0, OPEN_PAREN) then ClosingParen(after, 1, 1).None? else FirstOf(after, EXPLAINABLE).None?
    ensures SplitReads(after) <==> !AnalyzeIn(x, a, |x.text|)
  {
    AnalyzeInSlice(x, a, a, |x.text|);
    assert after == x.CodeText()[a..|x.text|];
    SplitNone(after);
  }

  lemma FirstExplainable(x: Lexed, a: nat, f: nat, after: Text)
    requires x.Valid() && a <= f && a <= |x.text| && NameCut(x.CodeText(), a) && after == x.CodeText()[a..]
    requires FirstOf(after, EXPLAINABLE) == Some(f - a)
    ensures FirstCodeWordAt(x, EXPLAINABLE, a, f)
  {
    ExplainableWordsAreNames();
    FirstCodeWordExactly(x, EXPLAINABLE, a, f, after);
  }

  lemma BareStart(x: Lexed, a: nat, f: nat)
    requires x.Valid() && FirstCodeWordAt(x, EXPLAINABLE, a, f)
    ensures f < |x.text| && WordCut(x.CodeText(), f) && x.OpenersEnd(f) == f
  {
    ExplainableWordsAreNames();
    BareListWrapped(x, EXPLAINABLE, a, f);
  }

  /** A bare option list that ends at `f`. */
  lemma BareFound(x: Lexed, a: nat, f: nat, after: Text)
    requires x.Valid() && a <= f <= |x.text| && !x.CodeByteAt(a, OPEN_PAREN) && after == x.CodeText()[a..]
    requires NameCut(x.CodeText(), a) && FirstOf(after, EXPLAINABLE) == Some(f - a)
    ensures SplitReads(after) <==> OptionsRead(x, a)
  {
    FirstExplainable(x, a, f, after);
    BareStart(x, a, f);
    BareListAnswer(x, a, f, after);
    BareEndsOnce(x, a, f);
    OptionsReadAt(x, a, f, f);
  }

  lemma BareEndsOnce(x: Lexed, a: nat, f: nat)
    requires x.Valid() && !x.CodeByteAt(a, OPEN_PAREN) && FirstCodeWordAt(x, EXPLAINABLE, a, f)
    ensures OptionsEndAt(x, a, f, f)
    ensures forall e: nat, w: nat | OptionsEndAt(x, a, e, w) :: e == f && w == f
  {
    forall e: nat, w: nat | OptionsEndAt(x, a, e, w)
      ensures e == f && w == f
    {
      FirstIsUnique(x, EXPLAINABLE, a, e, f);
    }
  }

  lemma BareIsNoList(x: Lexed, a: nat, after: Text)
    requires x.Valid() && a <= |x.text| && !x.CodeByteAt(a, OPEN_PAREN) && after == x.CodeText()[a..]
    ensures !ByteAt(after, 0, OPEN_PAREN)
  {
    CodeBytes(x);
    assert after != [] ==> after[0] == x.CodeText()[a];
  }

  lemma BareNeverEnds(x: Lexed, a: nat, after: Text)
    requires x.Valid() && a <= |x.text| && !x.CodeByteAt(a, OPEN_PAREN) && after == x.CodeText()[a..]
    requires NameCut(x.CodeText(), a) && FirstOf(after, EXPLAINABLE).None?
    ensures forall e: nat, w: nat :: !OptionsEndAt(x, a, e, w)
  {
    ExplainableWordsAreNames();
    forall e: nat
      ensures !FirstCodeWordAt(x, EXPLAINABLE, a, e)
    {
      if a <= e {
        FirstCodeWordExactly(x, EXPLAINABLE, a, e, after);
      }
    }
  }

  /** A bare option list that does not end. */
  lemma BareUnended(x: Lexed, a: nat, after: Text)
    requires x.Valid() && a <= |x.text| && !x.CodeByteAt(a, OPEN_PAREN) && after == x.CodeText()[a..]
    requires NameCut(x.CodeText(), a) && FirstOf(after, EXPLAINABLE).None?
    ensures SplitReads(after) <==> OptionsRead(x, a)
  {
    BareIsNoList(x, a, after);
    BareNeverEnds(x, a, after);
    UnendedAnswer(x, a, after);
  }

  /** A bare option list. */
  lemma BareAnswer(x: Lexed, a: nat, after: Text)
    requires x.Valid() && a <= |x.text| && !x.CodeByteAt(a, OPEN_PAREN) && after == x.CodeText()[a..]
    requires NameCut(x.CodeText(), a)
    ensures SplitReads(after) <==> OptionsRead(x, a)
  {
    var r := FirstOf(after, EXPLAINABLE);
    if r.Some? {
      BareFound(x, a, a + r.value, after);
    } else {
      BareUnended(x, a, after);
    }
  }

  lemma BareListWrapped(x: Lexed, words: seq<Text>, a: nat, f: nat)
    requires x.Valid() && FirstCodeWordAt(x, words, a, f) && forall m | 0 <= m < |words| :: IsName(words[m])
    ensures f < |x.text| && WordCut(x.CodeText(), f) && x.OpenersEnd(f) == f
  {
    assert OneCodeWordAt(x, words, f);
    var m :| 0 <= m < |words| && x.CodeWordAt(words[m], f);
    NameStartsAt(x, words[m], f);
  }

  lemma BareListTexts(x: Lexed, a: nat, f: nat, after: Text) returns (options: Text, wrapped: Text)
    requires x.Valid() && a <= f <= |x.text| && !x.CodeByteAt(a, OPEN_PAREN) && after == x.CodeText()[a..]
    requires FirstOf(after, EXPLAINABLE) == Some(f - a)
    ensures options == x.CodeText()[a..f] && wrapped == x.CodeText()[f..]
    ensures SplitReads(after) <==> (HasWord(options, Ascii("ANALYZE")) ==> ClassifyWrappedStatement(wrapped) == Select)
  {
    options, wrapped := x.CodeText()[a..f], x.CodeText()[f..];
    assert after[..f - a] == options && after[f - a..] == wrapped;
    BareIsNoList(x, a, after);
    SplitBare(after, options, wrapped);
  }

  lemma BareListOptions(x: Lexed, a: nat, f: nat, options: Text)
    requires x.Valid() && a <= f <= |x.text| && options == x.CodeText()[a..f]
    requires NameCut(x.CodeText(), a) && WordCut(x.CodeText(), f)
    ensures HasWord(options, Ascii("ANALYZE")) <==> AnalyzeIn(x, a, f)
  {
    AnalyzeInSlice(x, a, a, f);
  }

  lemma BareListStatement(x: Lexed, f: nat, wrapped: Text)
    requires x.Valid() && f <= |x.text| && wrapped == x.CodeText()[f..]
    requires WordCut(x.CodeText(), f) && x.OpenersEnd(f) == f
    ensures ClassifyWrappedStatement(wrapped) == Select <==> WrappedReads(x, f)
  {
    WrappedAnswer(x, f, wrapped);
  }

  lemma BareListParts(x: Lexed, a: nat, f: nat, options: Text, wrapped: Text)
    requires x.Valid() && a <= f <= |x.text| && NameCut(x.CodeText(), a)
    requires WordCut(x.CodeText(), f) && x.OpenersEnd(f) == f
    requires options == x.CodeText()[a..f] && wrapped == x.CodeText()[f..]
    ensures (HasWord(options, Ascii("ANALYZE")) ==> ClassifyWrappedStatement(wrapped) == Select) <==>
            (AnalyzeIn(x, a, f) ==> WrappedReads(x, f))
  {
    BareListOptions(x, a, f, options);
    BareListStatement(x, f, wrapped);
  }

  lemma BareListAnswer(x: Lexed, a: nat, f: nat, after: Text)
    requires x.Valid() && a <= f <= |x.text| && !x.CodeByteAt(a, OPEN_PAREN) && after == x.CodeText()[a..]
    requires NameCut(x.CodeText(), a) && WordCut(x.CodeText(), f) && x.OpenersEnd(f) == f
    requires FirstOf(after, EXPLAINABLE) == Some(f - a)
    ensures SplitReads(after) <==> (AnalyzeIn(x, a, f) ==> WrappedReads(x, f))
  {
    var options, wrapped := BareListTexts(x, a, f, after);
    BareListParts(x, a, f, options, wrapped);
  }

  /** A word of the code starts at a clean cut, and nothing is peeled off it. */
  lemma NameStartsAt(x: Lexed, w: Text, f: nat)
    requires x.Valid() && IsName(w) && x.CodeWordAt(w, f)
    ensures f < |x.text| && WordCut(x.CodeText(), f) && x.OpenersEnd(f) == f
  {
    CodeWordBytes(x);
    assert x.SpellsAt(f + 0, w[0]);
    assert WordByteAt(x.CodeText(), f - 1) == x.CodeWordByteAt(f - 1);
  }

  lemma ExplainByParts(t: Text, after: Text)
    requires FirstKeyword(t) == Ascii("EXPLAIN") && after == TrimStart(t[7..])
    ensures ClassifyExplain(t) == Select <==> SplitReads(after)
  {
  }

  /** An EXPLAIN is classified as a read exactly when it only plans or runs what reads. */
  lemma ExplainAnswer(x: Lexed, k: nat, t: Text)
    requires x.Valid() && k <= |x.text| && t == x.CodeText()[k..] && FirstKeyword(t) == Ascii("EXPLAIN")
    ensures k + 7 <= |x.text| && (ClassifyExplain(t) == Select <==> ExplainReads(x, k))
  {
    var u := x.CodeText();
    ReadKeywords();
    KeywordAtSource(x, Ascii("EXPLAIN"), k);
    assert t[7..] == u[k + 7..];
    TrimRest(x, k + 7);
    var a := x.GapEnd(k + 7);
    AfterKeywordCut(x, k + 7);
    ExplainByParts(t, u[a..]);
    if x.CodeByteAt(a, OPEN_PAREN) {
      ListAnswer(x, a, u[a..]);
    } else {
      BareAnswer(x, a, u[a..]);
    }
  }

  /** What follows the keyword and its gaps starts at a cut through no word that starts with a letter. */
  lemma AfterKeywordCut(x: Lexed, b: nat)
    requires x.Valid() && b <= |x.text| && !x.CodeLetterAt(b)
    ensures NameCut(x.CodeText(), x.GapEnd(b))
  {
    var a := x.GapEnd(b);
    CodeWordBytes(x);
    assert a > b ==> x.IsGap(a - 1);
    assert WordByteAt(x.CodeText(), a - 1) == x.CodeWordByteAt(a - 1);
  }

  // ---------- The guards ----------

  lemma CreateIsDdl()
    ensures KeywordOf(Ascii("CREATE")) == KwDdl
    ensures KeywordOf([]) == KwOther
  {
    assert Ascii("CREATE")[0] == 67 && Ascii("SELECT")[0] == 83 && Ascii("VALUES")[0] == 86 && Ascii("PRAGMA")[0] == 80;
    assert Ascii("INSERT")[0] == 73 && Ascii("UPDATE")[0] == 85 && Ascii("DELETE")[0] == 68;
    assert Ascii("CREATE") in DDL;
  }

  lemma CreateNeverReads(trimmed: Text)
    requires FirstKeyword(Upper(trimmed)) == Ascii("CREATE")
    ensures ClassifyByKeyword(Upper(Peel(trimmed))) == Ddl
  {
    assert Upper(trimmed)[0] == Ascii("CREATE")[0] == 67 by {
      assert FirstKeyword(Upper(trimmed))[0] == Ascii("CREATE")[0];
    }
    assert Peel(trimmed) == trimmed;
    CreateIsDdl();
  }

  lemma EmptyNeverReads()
    ensures ClassifyByKeyword(Upper(Peel([]))) == Unknown
  {
    CreateIsDdl();
    assert FirstKeyword(Upper(Peel([]))) == [];
  }

  lemma CompoundStartsWithCreate(upper: Text)
    requires IsCreateCompoundRoutine(upper)
    ensures FirstKeyword(upper) == Ascii("CREATE")
  {
  }

  /** The guards around the keyword chain only ever take reads away. */
  lemma SelectNeedsNoCreate(stripped: Text, marked: Text)
    ensures ClassifyStripped(stripped, marked) == Select <==>
            && !HasTrailing(stripped) && !QuotedCall(marked)
            && ClassifyByKeyword(Upper(Peel(TrimStart(stripped)))) == Select
  {
    var trimmed := TrimStart(stripped);
    if trimmed == [] {
      EmptyNeverReads();
    } else if IsCreateCompoundRoutine(Upper(trimmed)) {
      CompoundStartsWithCreate(Upper(trimmed));
      CreateNeverReads(trimmed);
    }
  }

  // ---------- The certificate ----------

  /** The statement whose keyword starts at `k` reads. */
  ghost predicate StatementReads(x: Lexed, k: nat)
    requires x.Valid()
  {
    ReadsAt(x, k) || (x.KeywordAt(Ascii("EXPLAIN"), k) && ExplainReads(x, k))
  }

  /** Everything a "select" answer of one profile stands for: the code is one statement, no quoted identifier is
      called, and the statement, after opening parentheses, reads. */
  ghost predicate Certified(p: LexProfile, s: Text) {
    var x := Lex(p, s);
    && x.SingleStatement()
    && (forall i: nat, j: nat | i < j < |s| :: !x.IdentifierCallAt(i, j))
    && StatementReads(x, x.OpenersEnd(0))
  }

  lemma TopByKeyword(t: Text, kw: Keyword)
    requires kw == KeywordOf(FirstKeyword(t))
    ensures kw == KwExplain ==> FirstKeyword(t) == Ascii("EXPLAIN")
    ensures kw == KwExplain ==> (ClassifyByKeyword(t) == Select <==> ClassifyExplain(t) == Select)
    ensures kw == KwTable ==> ClassifyByKeyword(t) != Select
    ensures kw !in {KwExplain, KwTable} ==> (ClassifyByKeyword(t) == Select <==> ReadKind(t))
  {
    KeywordOfReads(FirstKeyword(t));
  }

  lemma TopByCode(x: Lexed, k: nat, kw: Keyword)
    requires x.Valid() && k <= |x.text| && kw == KeywordOf(FirstKeyword(x.CodeText()[k..]))
    ensures kw == KwExplain ==> (StatementReads(x, k) <==> k + 7 <= |x.text| && ExplainReads(x, k))
    ensures kw == KwTable ==> !StatementReads(x, k)
    ensures kw !in {KwExplain, KwTable} ==> (StatementReads(x, k) <==> WrappedReads(x, k))
  {
    ReadsByKeyword(x, k);
  }

  lemma StatementAnswer(x: Lexed, k: nat, t: Text)
    requires x.Valid() && k <= |x.text| && WordCut(x.CodeText(), k) && t == x.CodeText()[k..]
    ensures ClassifyByKeyword(t) == Select <==> StatementReads(x, k)
  {
    var kw := KeywordOf(FirstKeyword(t));
    TopByKeyword(t, kw);
    TopByCode(x, k, kw);
    if kw == KwExplain {
      ExplainAnswer(x, k, t);
    } else if kw != KwTable {
      ReadKindAnswer(x, k, t);
    }
  }

  /** The classifier starts where the code starts, after gaps and opening parentheses. */
  lemma StatementText(p: LexProfile, s: Text)
    ensures var x := Lex(p, s);
            Upper(Peel(TrimStart(Strip(p, false, s)))) == x.CodeText()[x.OpenersEnd(0)..]
  {
    var x, stripped := Lex(p, s), Strip(p, false, s);
    StripIsCodeText(p, s);
    var u := x.CodeText();
    var t := TrimStart(stripped);
    PeelRest(x, x.GapEnd(0));
    TrimRest(x, 0);
    UpperKeepsShape(stripped);
    UpperKeepsShape(t);
    assert u[0..] == u;
  }

  /** Upper-casing moves no whitespace and no parenthesis. */
  lemma UpperKeepsShape(t: Text)
    ensures Upper(TrimStart(t)) == TrimStart(Upper(t))
    ensures Upper(Peel(t)) == Peel(Upper(t))
  {
    var u := Upper(t);
    assert SkipWhite(t, 0) == SkipWhite(u, 0);
    assert PeelStart(t, 0) == PeelStart(u, 0);
    assert Upper(TrimStart(t)) == u[SkipWhite(u, 0)..];
    assert Upper(Peel(t)) == u[PeelStart(u, 0)..];
  }

  /** One profile answers "select" for exactly the statements that are certified. */
  lemma SelectIffCertified(p: LexProfile, s: Text)
    ensures ClassifyWithProfile(s, p) == Select <==> Certified(p, s)
  {
    var stripped, x := Strip(p, false, s), Lex(p, s);
    SelectNeedsNoCreate(stripped, Strip(p, true, s));
    TrailingInSource(p, s);
    IdentifierCallInSource(p, s);
    StatementText(p, s);
    OpenersCut(x, 0);
    var k := x.OpenersEnd(0);
    StatementAnswer(x, k, x.CodeText()[k..]);
  }
}
