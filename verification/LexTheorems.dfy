/** What blanking a statement guarantees, whatever the statement and the profile. */
module LexTheorems {
  import opened Wrappers
  import opened Bytes
  import opened LexProfiles
  import opened Tokenizer

  /** Blanking the rest of a statement is blanking its first token and then the rest after it. */
  lemma StripStep(p: LexProfile, mark: bool, s: Text, i: nat)
    requires i < |s|
    ensures var t := TokenAt(p, s, i);
            StripFrom(p, mark, s, i) == Blank(t.kind, s[i..t.end], mark) + StripFrom(p, mark, s, t.end)
  {
    var t := TokenAt(p, s, i);
    assert Tokenize(p, s, i)[1..] == Tokenize(p, s, t.end);
  }

  /** Where the token that covers position `k` starts, scanning from the token boundary `i`. */
  function TokenStart(p: LexProfile, s: Text, i: nat, k: nat): (start: nat)
    requires i <= k < |s|
    ensures i <= start <= k < TokenAt(p, s, start).end
    decreases |s| - i
  {
    if k < TokenAt(p, s, i).end then i else TokenStart(p, s, TokenAt(p, s, i).end, k)
  }

  function CoveringKind(p: LexProfile, s: Text, k: nat): TokenKind
    requires k < |s|
  {
    KindAt(p, s, TokenStart(p, s, 0, k))
  }

  lemma {:induction false} StripFromByte(p: LexProfile, mark: bool, s: Text, i: nat, k: nat)
    requires i <= k < |s|
    ensures var kind := KindAt(p, s, TokenStart(p, s, i, k));
            StripFrom(p, mark, s, i)[k - i] == if kind.Code? then s[k] else Fill(kind, mark)
    decreases |s| - i
  {
    var t := TokenAt(p, s, i);
    StripStep(p, mark, s, i);
    if k >= t.end {
      StripFromByte(p, mark, s, t.end, k);
    }
  }

  /** Offsets are kept: each byte is the source byte if a code token covers it, else its token's fill byte. */
  lemma StripByte(p: LexProfile, mark: bool, s: Text, k: nat)
    requires k < |s|
    ensures Strip(p, mark, s)[k] ==
            if CoveringKind(p, s, k).Code? then s[k] else Fill(CoveringKind(p, s, k), mark)
  {
    StripFromByte(p, mark, s, 0, k);
  }

  /** A byte that is no fill byte was copied from a code token that starts right there. */
  lemma SurvivorIsCode(p: LexProfile, mark: bool, s: Text, k: nat)
    requires k < |s|
    requires Strip(p, mark, s)[k] != SPACE && Strip(p, mark, s)[k] != IDENT_MARK
    ensures KindAt(p, s, k) == Code && Strip(p, mark, s)[k] == s[k]
  {
    StripByte(p, mark, s, k);
    var start := TokenStart(p, s, 0, k);
    assert TokenAt(p, s, start).end == start + 1;
  }

  predicate IsQuoteByte(b: Byte) { b == QUOTE || b == DOUBLE_QUOTE || b == BACKTICK }

  /** Nothing in `t` opens a literal, a comment or a quoted identifier, dollar quotes aside. */
  predicate LexicallyClean(p: LexProfile, t: Text) {
    && (forall k | 0 <= k < |t| :: !IsQuoteByte(t[k]))
    && (forall k | 0 <= k < |t| :: !PairAt(t, k, SLASH, STAR))
    && (!p.dashCommentNeedsSpace ==> forall k | 0 <= k < |t| :: !PairAt(t, k, DASH, DASH))
    && (p.hashComments ==> HASH !in t)
    && (p.bracketIdentifiers ==> OPEN_BRACKET !in t)
  }

  lemma PairSurvives(p: LexProfile, mark: bool, s: Text, k: nat, a: Byte, b: Byte)
    requires PairAt(Strip(p, mark, s), k, a, b)
    requires a != SPACE && a != IDENT_MARK && b != SPACE && b != IDENT_MARK
    ensures PairAt(s, k, a, b) && KindAt(p, s, k) == Code
  {
    SurvivorIsCode(p, mark, s, k);
    SurvivorIsCode(p, mark, s, k + 1);
  }

  lemma StrippedIsClean(p: LexProfile, mark: bool, s: Text)
    ensures LexicallyClean(p, Strip(p, mark, s))
  {
    var t := Strip(p, mark, s);
    forall k | 0 <= k < |t|
      ensures !IsQuoteByte(t[k])
      ensures p.hashComments ==> t[k] != HASH
      ensures p.bracketIdentifiers ==> t[k] != OPEN_BRACKET
      ensures !PairAt(t, k, SLASH, STAR)
      ensures !p.dashCommentNeedsSpace ==> !PairAt(t, k, DASH, DASH)
    {
      if t[k] != SPACE && t[k] != IDENT_MARK {
        SurvivorIsCode(p, mark, s, k);
      }
      if PairAt(t, k, SLASH, STAR) {
        PairSurvives(p, mark, s, k, SLASH, STAR);
      }
      if PairAt(t, k, DASH, DASH) {
        PairSurvives(p, mark, s, k, DASH, DASH);
      }
    }
  }

  lemma {:induction false} CleanIsAllCode(p: LexProfile, mark: bool, t: Text, i: nat)
    requires LexicallyClean(p, t) && !p.dollarQuotes && !p.dashCommentNeedsSpace
    requires i <= |t|
    ensures StripFrom(p, mark, t, i) == t[i..]
    decreases |t| - i
  {
    if i < |t| {
      assert KindAt(p, t, i) == Code;
      StripStep(p, mark, t, i);
      CleanIsAllCode(p, mark, t, i + 1);
      assert t[i..] == t[i..i + 1] + t[i + 1..];
    }
  }

  lemma StripIdempotent(p: LexProfile, mark: bool, s: Text)
    requires !p.dollarQuotes && !p.dashCommentNeedsSpace
    ensures Strip(p, mark, Strip(p, mark, s)) == Strip(p, mark, s)
  {
    StrippedIsClean(p, mark, s);
    CleanIsAllCode(p, mark, Strip(p, mark, s), 0);
  }

  lemma {:induction false} CodeRun(p: LexProfile, s: Text, i: nat, k: nat)
    requires i <= k < |s| && forall j | i <= j < k :: KindAt(p, s, j) == Code
    ensures TokenStart(p, s, i, k) == k
    decreases k - i
  {
    if i < k {
      CodeRun(p, s, i + 1, k);
    }
  }

  /** Six dollars: an empty dollar string, then two code bytes that open one once it is blanked. */
  lemma SixDollarsFirstPass(p: LexProfile, s: Text)
    requires p.dollarQuotes && s == Repeat(DOLLAR, 6)
    ensures Strip(p, false, s) == [SPACE, SPACE, SPACE, SPACE, DOLLAR, DOLLAR]
  {
    assert DollarTagEnd(s, 0) == Some(2);
    assert TokenAt(p, s, 0) == Token(DollarString, 4);
    assert KindAt(p, s, 4) == Code && KindAt(p, s, 5) == Code;
    CodeRun(p, s, 4, 4);
    CodeRun(p, s, 4, 5);
    forall k | 0 <= k < 6
      ensures Strip(p, false, s)[k] == if k < 4 then SPACE else DOLLAR
    {
      StripByte(p, false, s, k);
    }
  }

  lemma SixDollarsSecondPass(p: LexProfile, t: Text)
    requires p.dollarQuotes && t == [SPACE, SPACE, SPACE, SPACE, DOLLAR, DOLLAR]
    ensures |Strip(p, false, t)| == 6 && Strip(p, false, t)[4] == SPACE
  {
    assert DollarTagEnd(t, 4) == Some(6);
    assert TokenAt(p, t, 4).kind == DollarString;
    assert forall j | 0 <= j < 4 :: KindAt(p, t, j) == Code;
    CodeRun(p, t, 0, 4);
    StripByte(p, false, t, 4);
  }

  lemma DollarsAreNotIdempotent(p: LexProfile)
    requires p.dollarQuotes
    ensures var s := Repeat(DOLLAR, 6);
            Strip(p, false, Strip(p, false, s)) != Strip(p, false, s)
  {
    var s := Repeat(DOLLAR, 6);
    SixDollarsFirstPass(p, s);
    SixDollarsSecondPass(p, Strip(p, false, s));
  }

  /** Two dashes before a string: no comment until the string is blanked. */
  lemma DashesAreNotIdempotent(p: LexProfile)
    requires p.dashCommentNeedsSpace
    ensures var s := [DASH, DASH, QUOTE];
            Strip(p, false, Strip(p, false, s)) != Strip(p, false, s)
  {
    var s := [DASH, DASH, QUOTE];
    CodeRun(p, s, 0, 1);
    CodeRun(p, s, 0, 2);
    assert TokenAt(p, s, 0).kind == Code;
    StripByte(p, false, s, 0);
    StripByte(p, false, s, 1);
    StripByte(p, false, s, 2);
    var t := Strip(p, false, s);
    assert t == [DASH, DASH, SPACE];
    StripByte(p, false, t, 0);
  }

  /** Stripping twice is stripping once in exactly the profiles without dollar quotes and MySQL's dash rule. */
  lemma IdempotentExactly(p: LexProfile)
    ensures (forall s: Text :: Strip(p, false, Strip(p, false, s)) == Strip(p, false, s)) <==>
            !p.dollarQuotes && !p.dashCommentNeedsSpace
  {
    if p.dollarQuotes {
      DollarsAreNotIdempotent(p);
    } else if p.dashCommentNeedsSpace {
      DashesAreNotIdempotent(p);
    } else {
      forall s: Text
        ensures Strip(p, false, Strip(p, false, s)) == Strip(p, false, s)
      {
        StripIdempotent(p, false, s);
      }
    }
  }

  // ---------- Profiles that agree ----------

  /** `p` and `q` differ at most in what a backslash does. */
  predicate SameButBackslash(p: LexProfile, q: LexProfile) {
    q == p.(backslashInSingle := q.backslashInSingle,
            backslashInDouble := q.backslashInDouble,
            backslashInBacktick := q.backslashInBacktick)
  }

  /** `p` and `q` differ at most in what a backslash, a carriage return or a block comment does. */
  predicate SameButBackslashAndComments(p: LexProfile, q: LexProfile) {
    SameButBackslash(p.(lineCommentEndsAtCr := q.lineCommentEndsAtCr,
                        nestedBlockComments := q.nestedBlockComments,
                        executableComments := q.executableComments), q)
  }

  predicate NoBlockComment(s: Text) { forall i | 0 <= i < |s| :: !PairAt(s, i, SLASH, STAR) }

  /** `s` has none of the bytes that `p` and `q` read differently. */
  predicate Agree(p: LexProfile, q: LexProfile, s: Text) {
    && BACKSLASH !in s
    && (SameButBackslash(p, q) || (SameButBackslashAndComments(p, q) && CR !in s && NoBlockComment(s)))
  }

  lemma {:induction false} SameDelimitedEnd(close: Byte, a: bool, b: bool, s: Text, i: nat)
    requires i <= |s| && BACKSLASH !in s
    ensures DelimitedEnd(close, a, s, i) == DelimitedEnd(close, b, s, i)
    decreases |s| - i
  {
    if i < |s| {
      SameDelimitedEnd(close, a, b, s, i + 1);
      if i + 1 < |s| {
        SameDelimitedEnd(close, a, b, s, i + 2);
      }
    }
  }

  lemma {:induction false} SameTripleBodyEnd(quote: Byte, a: bool, b: bool, s: Text, i: nat)
    requires i <= |s| && BACKSLASH !in s
    ensures TripleBodyEnd(quote, a, s, i) == TripleBodyEnd(quote, b, s, i)
    decreases |s| - i
  {
    if i < |s| {
      SameTripleBodyEnd(quote, a, b, s, i + 1);
    }
  }

  lemma {:induction false} SameLineCommentEnd(p: LexProfile, q: LexProfile, s: Text, i: nat)
    requires i <= |s| && (CR !in s || p.lineCommentEndsAtCr == q.lineCommentEndsAtCr)
    ensures LineCommentEnd(p, s, i) == LineCommentEnd(q, s, i)
    decreases |s| - i
  {
    if i < |s| {
      SameLineCommentEnd(p, q, s, i + 1);
    }
  }

  lemma SameKindAt(p: LexProfile, q: LexProfile, s: Text, i: nat)
    requires i < |s| && Agree(p, q, s)
    ensures KindAt(p, s, i) == KindAt(q, s, i)
  {
    assert OpensDashComment(p, s, i) == OpensDashComment(q, s, i);
    if PairAt(s, i, SLASH, STAR) {
      assert SameButBackslash(p, q);
    } else {
      SameKindAtNoComment(p, q, s, i);
    }
  }

  lemma SameKindAtNoComment(p: LexProfile, q: LexProfile, s: Text, i: nat)
    requires i < |s| && SameButBackslashAndComments(p, q)
    requires !PairAt(s, i, SLASH, STAR) && OpensDashComment(p, s, i) == OpensDashComment(q, s, i)
    ensures KindAt(p, s, i) == KindAt(q, s, i)
  {
  }

  lemma SameTokenAt(p: LexProfile, q: LexProfile, s: Text, i: nat)
    requires i < |s| && Agree(p, q, s)
    ensures TokenAt(p, s, i) == TokenAt(q, s, i)
  {
    SameKindAt(p, q, s, i);
    match KindAt(p, s, i)
    case SingleQuoted | DoubleQuoted | BacktickQuoted =>
      SameDelimitedEnd(s[i], BackslashIn(p, s[i]), BackslashIn(q, s[i]), s, i + 1);
    case TripleString =>
      SameTripleBodyEnd(s[i], BackslashIn(p, s[i]), BackslashIn(q, s[i]), s, i + 3);
    case LineComment =>
      SameLineCommentEnd(p, q, s, i);
    case _ =>
  }

  lemma {:induction false} SameTokenization(p: LexProfile, q: LexProfile, s: Text, i: nat)
    requires i <= |s| && Agree(p, q, s)
    ensures Tokenize(p, s, i) == Tokenize(q, s, i)
    decreases |s| - i
  {
    if i < |s| {
      SameTokenAt(p, q, s, i);
      SameTokenization(p, q, s, TokenAt(p, s, i).end);
    }
  }

  /** Text without backslashes strips alike in all MySQL modes, and in the two Postgres and two legacy ones. */
  lemma BackslashFreeFamiliesCollapse(s: Text, mark: bool)
    requires BACKSLASH !in s
    ensures Strip(MYSQL, mark, s) == Strip(MYSQL_ANSI_QUOTES, mark, s) == Strip(MYSQL_NO_BACKSLASH, mark, s)
    ensures Strip(POSTGRES, mark, s) == Strip(POSTGRES_BACKSLASH, mark, s)
    ensures Strip(LEGACY_STANDARD, mark, s) == Strip(LEGACY_BACKSLASH, mark, s)
  {
    SameTokenization(MYSQL, MYSQL_ANSI_QUOTES, s, 0);
    SameTokenization(MYSQL, MYSQL_NO_BACKSLASH, s, 0);
    SameTokenization(POSTGRES, POSTGRES_BACKSLASH, s, 0);
    SameTokenization(LEGACY_STANDARD, LEGACY_BACKSLASH, s, 0);
  }

  /** With no carriage return and no block comment either, the whole Postgres set strips alike. */
  lemma PostgresSetCollapses(s: Text, mark: bool)
    requires BACKSLASH !in s && CR !in s && NoBlockComment(s)
    ensures forall p <- POSTGRES_PROFILES :: Strip(p, mark, s) == Strip(POSTGRES, mark, s)
  {
    forall p | p in POSTGRES_PROFILES
      ensures Strip(p, mark, s) == Strip(POSTGRES, mark, s)
    {
      SameTokenization(p, POSTGRES, s, 0);
    }
  }
}
