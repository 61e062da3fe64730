/** Where each token ends, said of the bytes of the statement alone: every construct stops at the first place it can. */
module TokenLaws {
  import opened Wrappers
  import opened Bytes
  import opened LexProfiles
  import opened Tokenizer
  import opened LexTheorems

  // ---------- Line comments ----------

  /** A line ends at `k`: at a line feed, and at a carriage return where that counts. */
  predicate LineEndAt(s: Text, cr: bool, k: nat)
    requires k < |s|
  {
    s[k] == LF || (cr && s[k] == CR)
  }

  lemma {:induction false} LineCommentStops(p: LexProfile, s: Text, i: nat)
    requires i <= |s|
    ensures forall k | i <= k < LineCommentEnd(p, s, i) :: !LineEndAt(s, p.lineCommentEndsAtCr, k)
    ensures LineCommentEnd(p, s, i) < |s| ==> LineEndAt(s, p.lineCommentEndsAtCr, LineCommentEnd(p, s, i))
    decreases |s| - i
  {
    if i < |s| && !EndsLine(p, s[i]) {
      LineCommentStops(p, s, i + 1);
    }
  }

  /** A line comment ends before the first line end, or with the statement if there is none. */
  lemma LineCommentExactly(p: LexProfile, s: Text, i: nat, e: nat)
    requires i < |s| && KindAt(p, s, i) == LineComment
    ensures TokenAt(p, s, i).end == e <==>
            && i <= e <= |s|
            && (forall k | i <= k < e :: !LineEndAt(s, p.lineCommentEndsAtCr, k))
            && (e < |s| ==> LineEndAt(s, p.lineCommentEndsAtCr, e))
  {
    LineCommentStops(p, s, i);
  }

  lemma StripHidden(p: LexProfile, mark: bool, s: Text, i: nat, e: nat)
    requires i < |s| && TokenAt(p, s, i) == Token(LineComment, e)
    ensures StripFrom(p, mark, s, i) == Repeat(SPACE, e - i) + StripFrom(p, mark, s, e)
  {
    StripStep(p, mark, s, i);
  }

  lemma StripCode(p: LexProfile, mark: bool, s: Text, i: nat)
    requires i < |s| && KindAt(p, s, i) == Code
    ensures StripFrom(p, mark, s, i) == [s[i]] + StripFrom(p, mark, s, i + 1)
  {
    StripStep(p, mark, s, i);
    assert s[i..i + 1] == [s[i]];
  }

  lemma LineEndIsCode(p: LexProfile, s: Text, i: nat, e: nat)
    requires i < e < |s| && KindAt(p, s, i) == LineComment && LineEndAt(s, p.lineCommentEndsAtCr, e)
    requires forall k | i <= k < e :: !LineEndAt(s, p.lineCommentEndsAtCr, k)
    ensures TokenAt(p, s, i) == Token(LineComment, e) && KindAt(p, s, e) == Code
  {
    LineCommentExactly(p, s, i, e);
  }

  /** The line end after a comment is code; what follows it is tokenized from there. */
  lemma LineEndSurvives(p: LexProfile, mark: bool, s: Text, i: nat, e: nat)
    requires i < e < |s| && KindAt(p, s, i) == LineComment && LineEndAt(s, p.lineCommentEndsAtCr, e)
    requires forall k | i <= k < e :: !LineEndAt(s, p.lineCommentEndsAtCr, k)
    ensures StripFrom(p, mark, s, i) == Repeat(SPACE, e - i) + ([s[e]] + StripFrom(p, mark, s, e + 1))
  {
    LineEndIsCode(p, s, i, e);
    StripHidden(p, mark, s, i, e);
    StripCode(p, mark, s, e);
  }

  // ---------- Block comments ----------

  /** From `a` on, a comment mark (an opener where comments nest, or a closer) starts at `k`; marks do not overlap. */
  predicate CommentMarkAt(nested: bool, s: Text, a: nat, k: nat) {
    && a <= k && ((nested && PairAt(s, k, SLASH, STAR)) || PairAt(s, k, STAR, SLASH))
    && !(k > a && CommentMarkAt(nested, s, a, k - 1))
  }

  /** How many comments are open at `j`, when one is at `a`: marks between the two count. */
  function CommentDepth(nested: bool, s: Text, a: nat, j: nat): int
    decreases j
  {
    if j < a + 2 then 1
    else
      CommentDepth(nested, s, a, j - 1) +
      if !CommentMarkAt(nested, s, a, j - 2) then 0 else if s[j - 2] == SLASH then 1 else -1
  }

  /** The comment that is open at `a` closes at `e`: there its depth is first zero. */
  predicate CommentClosesAt(nested: bool, s: Text, a: nat, e: nat) {
    a <= e <= |s| && CommentDepth(nested, s, a, e) == 0 && forall j | a <= j < e :: CommentDepth(nested, s, a, j) >= 1
  }

  /** The depth never drops to zero. */
  predicate NeverCloses(nested: bool, s: Text, a: nat) {
    forall j | a <= j <= |s| :: CommentDepth(nested, s, a, j) >= 1
  }

  /** No mark runs into `i`. */
  predicate NoMarkInto(nested: bool, s: Text, a: nat, i: nat) {
    i == a || (a < i && !CommentMarkAt(nested, s, a, i - 1))
  }

  lemma {:induction false} BlockCommentDepth(nested: bool, depth: nat, s: Text, a: nat, i: nat)
    requires a <= i <= |s| && depth >= 1 && NoMarkInto(nested, s, a, i)
    requires CommentDepth(nested, s, a, i) == depth
    requires forall j | a <= j <= i :: CommentDepth(nested, s, a, j) >= 1
    ensures var e := BlockCommentEnd(nested, depth, s, i);
            CommentClosesAt(nested, s, a, e) || (e == |s| && NeverCloses(nested, s, a))
    decreases |s| - i
  {
    if i < |s| {
      DepthSteps(nested, s, a, i);
      if nested && PairAt(s, i, SLASH, STAR) {
        BlockCommentDepth(nested, depth + 1, s, a, i + 2);
      } else if PairAt(s, i, STAR, SLASH) {
        if depth > 1 {
          BlockCommentDepth(nested, depth - 1, s, a, i + 2);
        }
      } else {
        BlockCommentDepth(nested, depth, s, a, i + 1);
      }
    }
  }

  lemma DepthSteps(nested: bool, s: Text, a: nat, i: nat)
    requires a <= i < |s| && NoMarkInto(nested, s, a, i)
    ensures CommentDepth(nested, s, a, i + 1) == CommentDepth(nested, s, a, i)
    ensures CommentMarkAt(nested, s, a, i) <==> (nested && PairAt(s, i, SLASH, STAR)) || PairAt(s, i, STAR, SLASH)
    ensures CommentMarkAt(nested, s, a, i) ==> !CommentMarkAt(nested, s, a, i + 1)
    ensures CommentMarkAt(nested, s, a, i) ==>
              CommentDepth(nested, s, a, i + 2) ==
              CommentDepth(nested, s, a, i) + if PairAt(s, i, SLASH, STAR) then 1 else -1
  {
  }

  /** A block comment ends where its depth is first zero, or with the statement if it never is. */
  lemma BlockCommentExactly(p: LexProfile, s: Text, i: nat)
    requires i < |s| && KindAt(p, s, i) == BlockComment
    ensures var e := TokenAt(p, s, i).end;
            || CommentClosesAt(p.nestedBlockComments, s, i + 2, e)
            || (e == |s| && NeverCloses(p.nestedBlockComments, s, i + 2))
  {
    BlockCommentDepth(p.nestedBlockComments, 1, s, i + 2, i + 2);
  }

  lemma {:induction false} FlatDepth(s: Text, a: nat, j: nat)
    requires a <= j <= |s| && forall k | a <= k && k + 2 <= j :: !PairAt(s, k, STAR, SLASH)
    ensures CommentDepth(false, s, a, j) == 1
    decreases j
  {
    if j >= a + 2 {
      FlatDepth(s, a, j - 1);
      assert !PairAt(s, j - 2, STAR, SLASH);
    }
  }

  /** Where comments do not nest, the first closer ends one. */
  lemma FlatCommentEndsFirst(p: LexProfile, s: Text, i: nat, k: nat)
    requires i < |s| && KindAt(p, s, i) == BlockComment && !p.nestedBlockComments
    requires i + 2 <= k && PairAt(s, k, STAR, SLASH) && forall j | i + 2 <= j < k :: !PairAt(s, j, STAR, SLASH)
    ensures TokenAt(p, s, i).end == k + 2
  {
    BlockCommentExactly(p, s, i);
    var a, e := i + 2, TokenAt(p, s, i).end;
    forall j | a <= j <= k + 1
      ensures CommentDepth(false, s, a, j) == 1
    {
      FlatDepth(s, a, j);
    }
    assert !(k > a && CommentMarkAt(false, s, a, k - 1)) && CommentMarkAt(false, s, a, k);
    assert CommentDepth(false, s, a, k + 2) == 0;
    assert CommentClosesAt(false, s, a, e) ==> e == k + 2;
    assert !NeverCloses(false, s, a);
  }

  // ---------- Dollar strings ----------

  predicate FirstAt(s: Text, i: nat, t: Text, k: nat) {
    i <= k && TextAt(s, k, t) && forall j | i <= j < k :: !TextAt(s, j, t)
  }

  lemma {:induction false} DollarBodyFirst(delim: Text, s: Text, i: nat)
    requires i <= |s| && delim != []
    ensures var e := DollarBodyEnd(delim, s, i);
            || (e >= i + |delim| && FirstAt(s, i, delim, e - |delim|))
            || (e == |s| && forall j | i <= j :: !TextAt(s, j, delim))
    decreases |s| - i
  {
    if i < |s| && !TextAt(s, i, delim) {
      DollarBodyFirst(delim, s, i + 1);
    }
  }

  /** A dollar string ends after the first repetition of its tag, or with the statement if there is none. */
  lemma DollarStringExactly(p: LexProfile, s: Text, i: nat)
    requires i < |s| && KindAt(p, s, i) == DollarString
    ensures DollarTagEnd(s, i).Some?
    ensures var b, e := DollarTagEnd(s, i).value, TokenAt(p, s, i).end;
            || (e >= b + (b - i) && FirstAt(s, b, s[i..b], e - (b - i)))
            || (e == |s| && forall j | b <= j :: !TextAt(s, j, s[i..b]))
  {
    var b := DollarTagEnd(s, i).value;
    DollarBodyFirst(s[i..b], s, b);
  }

  /** `s[i..e]` is two dollars with nothing or a tag between them, which starts with a letter, an underscore or a
      byte beyond ASCII and goes on with these or digits. */
  predicate IsDollarTag(s: Text, i: nat, e: nat) {
    && i + 2 <= e <= |s| && s[i] == DOLLAR && s[e - 1] == DOLLAR
    && (e > i + 2 ==> !IsDigit(s[i + 1]))
    && forall k | i < k < e - 1 :: IsAlpha(s[k]) || IsDigit(s[k]) || s[k] == UNDERSCORE || s[k] >= 128
  }

  lemma DollarTagExactly(s: Text, i: nat, e: nat)
    requires ByteAt(s, i, DOLLAR)
    ensures DollarTagEnd(s, i) == Some(e) <==> IsDollarTag(s, i, e)
  {
    var j := if i + 1 < |s| && IsTagStart(s[i + 1]) then TagRunEnd(s, i + 2) else i + 1;
    if IsDollarTag(s, i, e) {
      if e > i + 2 {
        assert IsTagStart(s[i + 1]);
        assert forall k | i < k < e - 1 :: IsTagContinue(s[k]);
        assert j == e - 1;
      }
    }
  }

  /** The opener of an executable comment: slash, star, maybe an M, a bang, and all digits that follow. */
  predicate IsExecutableOpener(s: Text, i: nat, e: nat) {
    var d := if ByteAt(s, i + 2, UPPER_M) then i + 4 else i + 3;
    && d <= e <= |s| && s[i] == SLASH && s[i + 1] == STAR && s[d - 1] == BANG
    && (forall k | d <= k < e :: IsDigit(s[k]))
    && (e < |s| ==> !IsDigit(s[e]))
  }

  lemma ExecutableOpenerExactly(s: Text, i: nat, e: nat)
    ensures ExecutableOpenerEnd(s, i) == Some(e) <==> IsExecutableOpener(s, i, e)
  {
  }

  // ---------- Quoted runs ----------

  /** What the scan of a quoted run takes two bytes at a time: a backslash escape, or a doubled closing byte. */
  predicate PairedAt(close: Byte, backslash: bool, s: Text, k: nat) {
    (backslash && ByteAt(s, k, BACKSLASH) && k + 1 < |s|) || PairAt(s, k, close, close)
  }

  /** From `a` on, byte `k` is not the second of a pair. */
  predicate LeadsAt(close: Byte, backslash: bool, s: Text, a: nat, k: nat) {
    a <= k && (k > a && LeadsAt(close, backslash, s, a, k - 1) ==> !PairedAt(close, backslash, s, k - 1))
  }

  /** A closing byte that is neither escaped nor doubled. */
  predicate ClosesRunAt(close: Byte, backslash: bool, s: Text, a: nat, k: nat) {
    ByteAt(s, k, close) && LeadsAt(close, backslash, s, a, k) && !PairedAt(close, backslash, s, k)
  }

  lemma {:induction false} DelimitedFirst(close: Byte, backslash: bool, s: Text, a: nat, i: nat)
    requires a <= i <= |s| && LeadsAt(close, backslash, s, a, i)
    requires forall k | a <= k < i :: !ClosesRunAt(close, backslash, s, a, k)
    ensures var e := DelimitedEnd(close, backslash, s, i);
            || (e > a && ClosesRunAt(close, backslash, s, a, e - 1) &&
                forall k | a <= k < e - 1 :: !ClosesRunAt(close, backslash, s, a, k))
            || (e == |s| && forall k | a <= k :: !ClosesRunAt(close, backslash, s, a, k))
    decreases |s| - i
  {
    if i < |s| {
      if PairedAt(close, backslash, s, i) {
        assert !LeadsAt(close, backslash, s, a, i + 1) && LeadsAt(close, backslash, s, a, i + 2);
        DelimitedFirst(close, backslash, s, a, i + 2);
      } else if s[i] != close {
        DelimitedFirst(close, backslash, s, a, i + 1);
      }
    }
  }

  /** Where the body of a quoted token starts, the byte that closes it, and whether backslashes escape in it. */
  function RunStart(kind: TokenKind, i: nat): nat { if kind.EscapeString? then i + 2 else i + 1 }

  function RunClose(kind: TokenKind): Byte {
    match kind
    case DoubleQuoted => DOUBLE_QUOTE
    case BacktickQuoted => BACKTICK
    case Bracketed => CLOSE_BRACKET
    case _ => QUOTE
  }

  predicate RunEscapes(p: LexProfile, kind: TokenKind) {
    match kind
    case EscapeString => true
    case SingleQuoted => p.backslashInSingle
    case DoubleQuoted => p.backslashInDouble
    case BacktickQuoted => p.backslashInBacktick
    case _ => false
  }

  predicate IsRun(kind: TokenKind) {
    kind in {EscapeString, SingleQuoted, DoubleQuoted, BacktickQuoted, Bracketed}
  }

  /** A quoted token ends with the first closing byte that is neither escaped nor doubled, or with the statement. */
  lemma QuotedRunExactly(p: LexProfile, s: Text, i: nat)
    requires i < |s| && IsRun(KindAt(p, s, i))
    ensures var kind, e := KindAt(p, s, i), TokenAt(p, s, i).end;
            var close, backslash, a := RunClose(kind), RunEscapes(p, kind), RunStart(kind, i);
            || (e > a && ClosesRunAt(close, backslash, s, a, e - 1) &&
                forall k | a <= k < e - 1 :: !ClosesRunAt(close, backslash, s, a, k))
            || (e == |s| && forall k | a <= k :: !ClosesRunAt(close, backslash, s, a, k))
  {
    var kind := KindAt(p, s, i);
    var a := RunStart(kind, i);
    DelimitedFirst(RunClose(kind), RunEscapes(p, kind), s, a, a);
  }

  // ---------- Triple-quoted strings ----------

  /** From `a` on, byte `k` is not escaped by a backslash. */
  predicate UnescapedAt(backslash: bool, s: Text, a: nat, k: nat) {
    a <= k && (backslash && k > a && UnescapedAt(backslash, s, a, k - 1) ==> !ByteAt(s, k - 1, BACKSLASH))
  }

  predicate TripleClosesAt(quote: Byte, backslash: bool, s: Text, a: nat, k: nat) {
    TripleAt(s, k, quote) && UnescapedAt(backslash, s, a, k)
  }

  lemma {:induction false} TripleBodyFirst(quote: Byte, backslash: bool, s: Text, a: nat, i: nat)
    requires a <= i <= |s| && quote != BACKSLASH && UnescapedAt(backslash, s, a, i)
    requires forall k | a <= k < i :: !TripleClosesAt(quote, backslash, s, a, k)
    ensures var e := TripleBodyEnd(quote, backslash, s, i);
            || (e >= a + 3 && TripleClosesAt(quote, backslash, s, a, e - 3) &&
                forall k | a <= k < e - 3 :: !TripleClosesAt(quote, backslash, s, a, k))
            || (e == |s| && forall k | a <= k :: !TripleClosesAt(quote, backslash, s, a, k))
    decreases |s| - i
  {
    if i < |s| {
      if backslash && s[i] == BACKSLASH && i + 1 < |s| {
        assert !UnescapedAt(backslash, s, a, i + 1) && UnescapedAt(backslash, s, a, i + 2);
        TripleBodyFirst(quote, backslash, s, a, i + 2);
      } else if !TripleAt(s, i, quote) {
        if i + 1 < |s| {
          TripleBodyFirst(quote, backslash, s, a, i + 1);
        }
      }
    }
  }

  /** No three quotes close the string in between. */
  predicate NoTripleIn(quote: Byte, backslash: bool, s: Text, a: nat, b: nat) {
    forall k | a <= k < b :: !TripleClosesAt(quote, backslash, s, a, k)
  }

  /** A triple-quoted string ends after the first unescaped three quotes, or with the statement if there are none. */
  lemma TripleStringExactly(p: LexProfile, s: Text, i: nat)
    requires i < |s| && KindAt(p, s, i) == TripleString
    ensures var q, e := s[i], TokenAt(p, s, i).end;
            var backslash := if q == QUOTE then p.backslashInSingle else p.backslashInDouble;
            && (q == QUOTE || q == DOUBLE_QUOTE)
            && (|| (e >= i + 6 && TripleClosesAt(q, backslash, s, i + 3, e - 3) &&
                    NoTripleIn(q, backslash, s, i + 3, e - 3))
                || (e == |s| && NoTripleIn(q, backslash, s, i + 3, |s|)))
  {
    TripleBodyFirst(s[i], BackslashIn(p, s[i]), s, i + 3, i + 3);
  }
}
