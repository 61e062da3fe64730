/** A statement byte by byte: which bytes are code, and what the code spells. */
module SourceText {
  import opened Bytes
  import opened LexProfiles
  import opened Tokenizer
  import opened LexTheorems
  import opened WordSearch
  import opened Classifier

  // ---------- Positions of the source text ----------

  /** A statement and, byte by byte, the kind of the token that covers it. */
  datatype Lexed = Lexed(text: Text, kinds: seq<TokenKind>) {
    predicate Valid() { |kinds| == |text| }

    /** Byte `k` is code. */
    predicate IsCode(k: int)
      requires Valid()
    {
      0 <= k < |text| && kinds[k].Code?
    }

    predicate CodeByteAt(k: int, b: Byte)
      requires Valid()
    {
      IsCode(k) && text[k] == b
    }

    predicate CodeLetterAt(k: int)
      requires Valid()
    {
      IsCode(k) && IsAlpha(text[k])
    }

    predicate CodeWordByteAt(k: int)
      requires Valid()
    {
      IsCode(k) && IsWordByte(text[k])
    }

    /** Byte `k` is code and spells the upper-case byte `b`. */
    predicate SpellsAt(k: nat, b: Byte)
      requires Valid()
    {
      IsCode(k) && ToUpperByte(text[k]) == b
    }

    /** `w` is spelled out, in any letter case, by the code bytes from `i` on, and no code word byte flanks it. */
    predicate CodeWordAt(w: Text, i: nat)
      requires Valid()
    {
      && i + |w| <= |text|
      && (forall k | 0 <= k < |w| :: SpellsAt(i + k, w[k]))
      && !CodeWordByteAt(i - 1)
      && !CodeWordByteAt(i + |w|)
    }

    /** `w` is the whole run of code letters that starts at `i`, in any letter case. */
    predicate KeywordAt(w: Text, i: nat)
      requires Valid()
    {
      && i + |w| <= |text|
      && (forall k | 0 <= k < |w| :: SpellsAt(i + k, w[k]))
      && !CodeLetterAt(i + |w|)
    }

    predicate NoWordByteIn(a: nat, b: nat)
      requires Valid()
    {
      forall k | a <= k < b :: !CodeWordByteAt(k)
    }

    /** The words of `ws` stand one after the other from `i` on, and no other word between them. */
    ghost predicate CodeRowAt(ws: seq<Text>, i: nat)
      requires Valid() && ws != []
      decreases |ws|
    {
      && CodeWordAt(ws[0], i)
      && (|ws| > 1 ==> exists j: nat :: i + |ws[0]| <= j && NoWordByteIn(i + |ws[0]|, j) && CodeRowAt(ws[1..], j))
    }

    /** Byte `k` separates nothing: it is not code, or it is whitespace. */
    predicate IsGap(k: nat)
      requires Valid() && k < |text|
    {
      IsCode(k) ==> IsWhite(text[k])
    }

    /** The first position from `i` on that is no gap. */
    function GapEnd(i: nat): (e: nat)
      requires Valid() && i <= |text|
      ensures i <= e <= |text|
      ensures forall k | i <= k < e :: IsGap(k)
      ensures e < |text| ==> !IsGap(e)
      decreases |text| - i
    {
      if i < |text| && IsGap(i) then GapEnd(i + 1) else i
    }

    /** The first position from `i` on that is neither a gap nor an opening parenthesis. */
    function OpenersEnd(i: nat): (e: nat)
      requires Valid() && i <= |text|
      ensures i <= e <= |text|
      ensures forall k | i <= k < e :: IsGap(k) || CodeByteAt(k, OPEN_PAREN)
      ensures e < |text| ==> !IsGap(e) && !CodeByteAt(e, OPEN_PAREN)
      decreases |text| - i
    {
      if i < |text| && (IsGap(i) || CodeByteAt(i, OPEN_PAREN)) then OpenersEnd(i + 1) else i
    }

    /** How many more parentheses open than close among the code bytes from `i` to before `j`. */
    function Depth(i: nat, j: nat): int
      requires Valid()
      decreases j - i
    {
      if i >= j then 0
      else (if CodeByteAt(i, OPEN_PAREN) then 1 else if CodeByteAt(i, CLOSE_PAREN) then -1 else 0) + Depth(i + 1, j)
    }

    /** The parenthesis that opens at `i` is closed at `c`. */
    predicate ClosesAt(i: nat, c: nat)
      requires Valid()
    {
      i < c < |text| && Depth(i, c + 1) == 0 && forall j | i < j <= c :: Depth(i, j) >= 1
    }

    predicate CodeParenAfter(i: nat, j: nat)
      requires Valid()
    {
      i <= j && IsCode(j) && text[j] == OPEN_PAREN && forall k: nat | i <= k < j :: IsGap(k)
    }

    /** `name` is called at `i`: nothing but gaps stands between it and an opening parenthesis. */
    predicate CodeCallAt(name: Text, i: nat)
      requires Valid()
    {
      var end := i + |name|;
      CodeWordAt(name, i) && exists j | 0 <= j < |text| :: CodeParenAfter(end, j)
    }

    /** No code semicolon is followed by a code byte other than whitespace. */
    predicate SingleStatement()
      requires Valid()
    {
      forall i: nat, j: nat | i < j < |text| && IsCode(i) && text[i] == SEMICOLON :: IsGap(j)
    }

    /** A quoted identifier (or a stray mark byte of the source) covers byte `i`. */
    predicate IsMarked(i: nat)
      requires Valid() && i < |text|
    {
      kinds[i].DoubleQuoted? || kinds[i].BacktickQuoted? || (kinds[i].Code? && text[i] == IDENT_MARK)
    }

    predicate IdentifierCallAt(i: nat, j: nat)
      requires Valid() && i < j < |text|
    {
      && IsMarked(i) && IsCode(j) && text[j] == OPEN_PAREN
      && forall k: nat | i < k < j :: !IsMarked(k) && (IsCode(k) ==> IsAsciiWhitespace(text[k]))
    }

    /** The code in upper case, a space in place of every other byte. */
    function CodeText(): (u: Text)
      requires Valid()
      ensures |u| == |text|
      ensures forall k | 0 <= k < |u| :: u[k] == if IsCode(k) then ToUpperByte(text[k]) else SPACE
    {
      seq(|text|, k requires 0 <= k < |text| => if kinds[k].Code? then ToUpperByte(text[k]) else SPACE)
    }
  }

  function Lex(p: LexProfile, s: Text): (x: Lexed)
    ensures x.Valid() && x.text == s
    ensures forall k | 0 <= k < |s| :: x.kinds[k] == CoveringKind(p, s, k)
  {
    Lexed(s, seq(|s|, k requires 0 <= k < |s| => CoveringKind(p, s, k)))
  }

  // ---------- Stripped text and source text ----------

  lemma StripIsCodeText(p: LexProfile, s: Text)
    ensures Upper(Strip(p, false, s)) == Lex(p, s).CodeText()
  {
    var u, v := Upper(Strip(p, false, s)), Lex(p, s).CodeText();
    forall k | 0 <= k < |s|
      ensures u[k] == v[k]
    {
      StripByte(p, false, s, k);
    }
  }

  lemma CodeWordBytes(x: Lexed)
    requires x.Valid()
    ensures forall k: int :: WordByteAt(x.CodeText(), k) == x.CodeWordByteAt(k)
    ensures forall k: nat | k < |x.text| :: IsWhite(x.CodeText()[k]) == x.IsGap(k)
  {
  }

  lemma WordAtSource(x: Lexed, w: Text, i: nat)
    requires x.Valid() && IsWord(w)
    ensures WordAt(x.CodeText(), w, i) <==> x.CodeWordAt(w, i)
  {
    var u := x.CodeText();
    CodeWordBytes(x);
    if WordAt(u, w, i) {
      OccurrenceIsRun(u, w, i);
      forall k | 0 <= k < |w|
        ensures x.SpellsAt(i + k, w[k])
      {
        assert u[i + k] == w[k];
        assert WordByteAt(u, i + k);
      }
    }
    if x.CodeWordAt(w, i) {
      forall k | 0 <= k < |w|
        ensures u[i + k] == w[k]
      {
        assert x.SpellsAt(i + k, w[k]);
      }
    }
  }

  lemma WordInSource(x: Lexed, w: Text)
    requires x.Valid() && IsWord(w)
    ensures HasWord(x.CodeText(), w) <==> exists i: nat :: x.CodeWordAt(w, i)
  {
    HasWordExactly(x.CodeText(), w);
    forall i: nat
      ensures WordAt(x.CodeText(), w, i) <==> x.CodeWordAt(w, i)
    {
      WordAtSource(x, w, i);
    }
  }

  lemma CallAtSource(x: Lexed, name: Text, i: nat)
    requires x.Valid() && IsWord(name)
    ensures CallAt(x.CodeText(), name, i) <==> x.CodeCallAt(name, i)
  {
    var u := x.CodeText();
    WordAtSource(x, name, i);
    CodeWordBytes(x);
    if WordAt(u, name, i) {
      var end := i + |name|;
      var e := SkipWhite(u, end);
      if ByteAt(u, e, OPEN_PAREN) {
        assert x.IsCode(e);
        assert x.CodeParenAfter(end, e);
      }
      if j :| 0 <= j < |x.text| && x.CodeParenAfter(end, j) {
        assert u[j] == OPEN_PAREN && !IsWhite(u[j]);
      }
    }
  }

  lemma CallInSource(x: Lexed, name: Text)
    requires x.Valid() && IsWord(name)
    ensures HasCall(x.CodeText(), name) <==> exists i: nat :: x.CodeCallAt(name, i)
  {
    forall i: nat
      ensures CallAt(x.CodeText(), name, i) <==> x.CodeCallAt(name, i)
    {
      CallAtSource(x, name, i);
    }
    if i: nat :| x.CodeCallAt(name, i) {
      assert i <= |x.CodeText()|;
    }
  }

  lemma TrailingInSource(p: LexProfile, s: Text)
    ensures HasTrailing(Strip(p, false, s)) <==> !Lex(p, s).SingleStatement()
  {
    var t, x := Strip(p, false, s), Lex(p, s);
    forall k: nat | k < |s|
      ensures t[k] == SEMICOLON <==> x.IsCode(k) && s[k] == SEMICOLON
      ensures IsWhite(t[k]) <==> x.IsGap(k)
    {
      StripByte(p, false, s, k);
    }
  }

  lemma IdentifierCallInSource(p: LexProfile, s: Text)
    ensures QuotedCall(Strip(p, true, s)) <==>
            exists i: nat, j: nat | i < j < |s| :: Lex(p, s).IdentifierCallAt(i, j)
  {
    var m, x := Strip(p, true, s), Lex(p, s);
    forall k: nat | k < |s|
      ensures m[k] == IDENT_MARK <==> x.IsMarked(k)
      ensures m[k] == OPEN_PAREN <==> x.IsCode(k) && s[k] == OPEN_PAREN
      ensures IsAsciiWhitespace(m[k]) <==> !x.IsMarked(k) && (x.IsCode(k) ==> IsAsciiWhitespace(s[k]))
    {
      StripByte(p, true, s, k);
    }
    forall i: nat, j: nat | i < j < |s|
      ensures QuotedCallAt(m, i, j) <==> x.IdentifierCallAt(i, j)
    {
    }
  }

  // ---------- The mark byte ----------

  /** A mark byte stands for a quoted identifier everywhere if and only if the source has none among its code. */
  lemma MarksAreIdentifiersExactly(p: LexProfile, s: Text)
    ensures (forall k | 0 <= k < |s| && Strip(p, true, s)[k] == IDENT_MARK ::
               Lex(p, s).kinds[k].DoubleQuoted? || Lex(p, s).kinds[k].BacktickQuoted?) <==>
            forall k | 0 <= k < |s| :: !Lex(p, s).CodeByteAt(k, IDENT_MARK)
  {
    var m, x := Strip(p, true, s), Lex(p, s);
    forall k | 0 <= k < |s|
      ensures m[k] == IDENT_MARK <==>
              x.kinds[k].DoubleQuoted? || x.kinds[k].BacktickQuoted? || x.CodeByteAt(k, IDENT_MARK)
    {
      StripByte(p, true, s, k);
    }
  }

  /** Every profile takes a bare mark byte before a parenthesis for a call of a quoted name. */
  lemma StrayMarkIsACall(p: LexProfile)
    ensures var s := [IDENT_MARK, OPEN_PAREN];
            && Lex(p, s).CodeByteAt(0, IDENT_MARK)
            && QuotedCall(Strip(p, true, s))
  {
    var s := [IDENT_MARK, OPEN_PAREN];
    var m := Strip(p, true, s);
    assert KindAt(p, s, 0) == Code && KindAt(p, s, 1) == Code;
    StripByte(p, true, s, 0);
    StripByte(p, true, s, 1);
    assert QuotedCallAt(m, 0, 1);
  }
}
