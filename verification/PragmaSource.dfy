/** What makes a PRAGMA a read, in terms of the code bytes of the source. */
module PragmaSource {
  import opened Bytes
  import opened WordSearch
  import opened Classifier
  import opened SourceText

  // ---------- Trimming slices ----------

  predicate WhiteIn(u: Text, a: nat, c: nat)
    requires c <= |u|
  {
    forall k | a <= k < c :: IsWhite(u[k])
  }

  /** `[n, e)` is what is left of `[a, c)` without the whitespace around it. */
  predicate TrimsTo(u: Text, a: nat, c: nat, n: nat, e: nat) {
    && a <= n <= e <= c <= |u| && WhiteIn(u, a, n) && WhiteIn(u, e, c)
    && (n < e ==> !IsWhite(u[n]) && !IsWhite(u[e - 1]))
  }

  lemma TrimEndSlice(u: Text, a: nat, c: nat) returns (e: nat)
    requires a <= c <= |u|
    ensures a <= e <= c && TrimEnd(u[a..c]) == u[a..e] && WhiteIn(u, e, c) && (a < e ==> !IsWhite(u[e - 1]))
  {
    var r := u[a..c];
    e := a + |TrimEnd(r)|;
    forall k | e <= k < c
      ensures IsWhite(u[k])
    {
      assert u[k] == r[k - a];
    }
    assert TrimEnd(r) == r[..e - a];
    assert a < e ==> u[e - 1] == TrimEnd(r)[e - a - 1];
  }

  lemma TrimStartSlice(u: Text, a: nat, c: nat) returns (n: nat)
    requires a <= c <= |u|
    ensures a <= n <= c && TrimStart(u[a..c]) == u[n..c] && WhiteIn(u, a, n) && (n < c ==> !IsWhite(u[n]))
  {
    var r := u[a..c];
    var i := SkipWhite(r, 0);
    n := a + i;
    forall k | a <= k < n
      ensures IsWhite(u[k])
    {
      assert u[k] == r[k - a];
    }
    assert i < |r| ==> u[n] == r[i];
  }

  lemma TrimSlice(u: Text, a: nat, c: nat) returns (n: nat, e: nat)
    requires a <= c <= |u|
    ensures TrimsTo(u, a, c, n, e) && Trim(u[a..c]) == u[n..e]
  {
    n := TrimStartSlice(u, a, c);
    e := TrimEndSlice(u, n, c);
  }

  lemma TrimSemicolonsSlice(u: Text, a: nat, c: nat) returns (g: nat)
    requires a <= c <= |u|
    ensures a <= g <= c && TrimSemicolons(u[a..c]) == u[a..g]
    ensures (forall k | g <= k < c :: u[k] == SEMICOLON) && (a < g ==> u[g - 1] != SEMICOLON)
  {
    var r := u[a..c];
    g := a + |TrimSemicolons(r)|;
    forall k | g <= k < c
      ensures u[k] == SEMICOLON
    {
      assert u[k] == r[k - a];
    }
    assert TrimSemicolons(r) == r[..g - a];
    assert a < g ==> u[g - 1] == TrimSemicolons(r)[g - a - 1];
  }

  lemma {:induction false} AfterLastIs(t: Text, b: Byte) returns (m: nat)
    ensures m <= |t| && AfterLast(t, b) == t[m..]
    ensures m > 0 ==> t[m - 1] == b
  {
    var i := IndexOf(t, b);
    if i == |t| {
      m := 0;
    } else {
      var n := AfterLastIs(t[i + 1..], b);
      m := i + 1 + n;
      assert t[i + 1..][n..] == t[m..];
      assert n > 0 ==> t[i + 1..][n - 1] == t[m - 1];
    }
  }

  lemma AfterLastSlice(u: Text, a: nat, c: nat) returns (l: nat)
    requires a <= c <= |u|
    ensures a <= l <= c && AfterLast(u[a..c], DOT) == u[l..c]
    ensures (l > a ==> u[l - 1] == DOT) && forall k | l <= k < c :: u[k] != DOT
  {
    var r := u[a..c];
    var m := AfterLastIs(r, DOT);
    l := a + m;
    assert m > 0 ==> u[l - 1] == r[m - 1];
    forall k | l <= k < c
      ensures u[k] != DOT
    {
      assert u[k] == AfterLast(r, DOT)[k - l];
    }
  }

  // ---------- The body and the name ----------

  /** The body of a PRAGMA from `b` on is `[s, e)`: whitespace, the body, whitespace, semicolons, whitespace. */
  predicate BodyIs(u: Text, b: nat, s: nat, e: nat, g: nat, h: nat) {
    && b <= s <= e <= g <= h <= |u|
    && WhiteIn(u, b, s) && WhiteIn(u, e, g) && WhiteIn(u, h, |u|)
    && (forall k | g <= k < h :: u[k] == SEMICOLON)
    && (s < |u| ==> !IsWhite(u[s]))
    && (s < e ==> !IsWhite(u[e - 1])) && (s < g ==> u[g - 1] != SEMICOLON) && (s < h ==> !IsWhite(u[h - 1]))
  }

  lemma BodySlice(u: Text, b: nat) returns (s: nat, e: nat, g: nat, h: nat)
    requires b <= |u|
    ensures BodyIs(u, b, s, e, g, h) && TrimEnd(TrimSemicolons(Trim(u[b..]))) == u[s..e]
  {
    assert u[b..] == u[b..|u|];
    s, h := TrimSlice(u, b, |u|);
    if s == h {
      assert Trim(u[b..]) == [];
      s, h := |u|, |u|;
      assert u[s..h] == [];
    }
    g := TrimSemicolonsSlice(u, s, h);
    e := TrimEndSlice(u, s, g);
  }

  /** The name before `p` is `[n, e)`: it follows the last dot after `s`, if any, and whitespace. */
  predicate NameIs(u: Text, s: nat, p: nat, l: nat, n: nat, e: nat) {
    && s <= l && TrimsTo(u, l, p, n, e)
    && (l > s ==> u[l - 1] == DOT) && forall k | l <= k < p :: u[k] != DOT
  }

  lemma NameSlice(u: Text, s: nat, p: nat) returns (l: nat, n: nat, e: nat)
    requires s <= p <= |u|
    ensures NameIs(u, s, p, l, n, e) && Trim(AfterLast(Trim(u[s..p]), DOT)) == u[n..e]
  {
    var a, c := TrimSlice(u, s, p);
    var m := AfterLastSlice(u, a, c);
    n, e := TrimSlice(u, m, c);
    if m == a {
      l := s;
      if a == c {
        WhiteHasNoDot(u, s, p);
      }
    } else {
      l := m;
    }
  }

  lemma WhiteHasNoDot(u: Text, a: nat, c: nat)
    requires a <= c <= |u| && WhiteIn(u, a, c)
    ensures forall k | a <= k < c :: u[k] != DOT
  {
  }

  // ---------- The certificate of a PRAGMA ----------

  ghost predicate GapsIn(x: Lexed, a: nat, c: nat)
    requires x.Valid() && c <= |x.text|
  {
    forall k: nat | a <= k < c :: x.IsGap(k)
  }

  ghost predicate NoCodeIn(x: Lexed, a: nat, c: nat, b: Byte)
    requires x.Valid()
  {
    forall k: nat | a <= k < c :: !x.CodeByteAt(k, b)
  }

  /** Nothing stands between `b` and the name at `n` but gaps, or a qualifier without parentheses and its dot. */
  ghost predicate NameMayStartAt(x: Lexed, b: nat, n: nat)
    requires x.Valid() && n <= |x.text|
  {
    || GapsIn(x, b, n)
    || exists d: nat | b <= d < n :: x.CodeByteAt(d, DOT) && NoCodeIn(x, b, d, OPEN_PAREN) && GapsIn(x, d + 1, n)
  }

  /** The name that ends at `e` is followed by an argument, or by nothing but gaps and one run of semicolons. */
  ghost predicate NameMayEndAt(x: Lexed, e: nat)
    requires x.Valid() && e <= |x.text|
  {
    || (exists p: nat | p < |x.text| :: x.CodeParenAfter(e, p))
    || exists g: nat, h: nat | e <= g <= h <= |x.text| ::
         GapsIn(x, e, g) && (forall k: nat | g <= k < h :: x.CodeByteAt(k, SEMICOLON)) && GapsIn(x, h, |x.text|)
  }

  /** The code word from `n` to before `e` is the name of the pragma whose text starts at `b`. */
  ghost predicate PragmaNameAt(x: Lexed, b: nat, n: nat, e: nat)
    requires x.Valid()
  {
    && b <= n < e <= |x.text| && (forall k: nat | n <= k < e :: x.CodeWordByteAt(k))
    && NameMayStartAt(x, b, n) && NameMayEndAt(x, e)
  }

  /** The code from `n` to before `e` spells one of `words`. */
  ghost predicate SpellsOneOf(x: Lexed, words: seq<Text>, n: nat, e: nat)
    requires x.Valid()
  {
    exists m | 0 <= m < |words| ::
      n + |words[m]| == e && forall k | 0 <= k < |words[m]| :: x.SpellsAt(n + k, words[m][k])
  }

  /** The PRAGMA whose keyword starts at `k` assigns nothing, has a name, is no action, and takes an argument only
      if it just reports. */
  ghost predicate PragmaReads(x: Lexed, k: nat)
    requires x.Valid()
  {
    var b := k + 6;
    && NoCodeIn(x, b, |x.text|, EQUALS)
    && exists n: nat, e: nat :: PragmaNameAt(x, b, n, e) && !SpellsOneOf(x, ACTION_PRAGMAS, n, e) &&
         (!NoCodeIn(x, b, |x.text|, OPEN_PAREN) ==> SpellsOneOf(x, INTROSPECTION_PRAGMAS, n, e))
  }

  // ---------- The classifier answers by it ----------

  lemma CodeBytes(x: Lexed)
    requires x.Valid()
    ensures forall k: nat | k < |x.text| :: IsWhite(x.CodeText()[k]) == x.IsGap(k)
    ensures forall k: nat | k < |x.text| :: IsWordByte(x.CodeText()[k]) == x.CodeWordByteAt(k)
    ensures forall k: nat | k < |x.text| :: x.CodeText()[k] == OPEN_PAREN <==> x.CodeByteAt(k, OPEN_PAREN)
    ensures forall k: nat | k < |x.text| :: x.CodeText()[k] == EQUALS <==> x.CodeByteAt(k, EQUALS)
    ensures forall k: nat | k < |x.text| :: x.CodeText()[k] == DOT <==> x.CodeByteAt(k, DOT)
    ensures forall k: nat | k < |x.text| :: x.CodeText()[k] == SEMICOLON <==> x.CodeByteAt(k, SEMICOLON)
  {
  }

  /** What the classifier takes for the name is one, if it is a word. */
  lemma FoundNameIsName(x: Lexed, b: nat, s: nat, e: nat, g: nat, h: nat, p: nat, l: nat, n: nat, f: nat)
    requires x.Valid() && BodyIs(x.CodeText(), b, s, e, g, h) && s <= p <= e
    requires (forall k | s <= k < p :: x.CodeText()[k] != OPEN_PAREN) && (p < e ==> x.CodeText()[p] == OPEN_PAREN)
    requires NameIs(x.CodeText(), s, p, l, n, f) && n < f && forall k | n <= k < f :: IsWordByte(x.CodeText()[k])
    ensures PragmaNameAt(x, b, n, f)
  {
    var u := x.CodeText();
    CodeBytes(x);
    if l == s {
      assert GapsIn(x, b, n);
    } else {
      assert x.CodeByteAt(l - 1, DOT) && GapsIn(x, l - 1 + 1, n);
      assert NoCodeIn(x, b, l - 1, OPEN_PAREN) by {
        assert forall k: nat | b <= k < l - 1 :: u[k] != OPEN_PAREN;
      }
    }
    if p < e {
      assert x.CodeParenAfter(f, p);
    } else {
      assert GapsIn(x, f, g) && GapsIn(x, h, |x.text|);
    }
  }

  lemma TrimsToUnique(u: Text, a: nat, c: nat, n: nat, e: nat, n': nat, e': nat)
    requires TrimsTo(u, a, c, n, e) && TrimsTo(u, a, c, n', e') && n < e
    ensures n == n' && e == e'
  {
    assert !IsWhite(u[n]) && !IsWhite(u[e - 1]);
  }

  /** From the end of the name to the first parenthesis of the body, or to its end, there are only gaps. */
  lemma NameEndsBody(x: Lexed, b: nat, s: nat, e: nat, g: nat, h: nat, p: nat, f: nat)
    requires x.Valid() && BodyIs(x.CodeText(), b, s, e, g, h) && s <= p <= e
    requires (forall k | s <= k < p :: x.CodeText()[k] != OPEN_PAREN) && (p < e ==> x.CodeText()[p] == OPEN_PAREN)
    requires b < f <= |x.text| && x.CodeWordByteAt(f - 1) && NoCodeIn(x, b, f, OPEN_PAREN) && NameMayEndAt(x, f)
    ensures f <= p && WhiteIn(x.CodeText(), f, p)
  {
    var u := x.CodeText();
    CodeBytes(x);
    assert IsWordByte(u[f - 1]);
    assert f - 1 < e;
    if j: nat :| j < |x.text| && x.CodeParenAfter(f, j) {
      assert u[j] == OPEN_PAREN && s <= j < e;
      assert p <= j;
      assert x.CodeByteAt(p, OPEN_PAREN);
      assert p == j;
    } else {
      var c: nat, d: nat :| f <= c <= d <= |x.text| && GapsIn(x, f, c) &&
        (forall k: nat | c <= k < d :: x.CodeByteAt(k, SEMICOLON)) && GapsIn(x, d, |x.text|);
      SemicolonsAreCut(u, f, c, d, s, e, g, h) by {
        assert forall k: nat | c <= k < d :: u[k] == SEMICOLON;
      }
    }
  }

  /** What follows the name, if it is gaps and one run of semicolons, is cut off the body. */
  lemma SemicolonsAreCut(u: Text, f: nat, c: nat, d: nat, s: nat, e: nat, g: nat, h: nat)
    requires f <= c <= d <= |u| && WhiteIn(u, f, c) && WhiteIn(u, d, |u|) && forall k | c <= k < d :: u[k] == SEMICOLON
    requires s < f <= e <= g <= h <= |u|
    requires WhiteIn(u, e, g) && WhiteIn(u, h, |u|) && forall k | g <= k < h :: u[k] == SEMICOLON
    requires !IsWhite(u[e - 1]) && u[g - 1] != SEMICOLON && !IsWhite(u[h - 1])
    ensures f == e
  {
  }

  /** The name, wherever it stands, is what the classifier takes for it. */
  lemma NameIsFound(x: Lexed, b: nat, s: nat, e: nat, g: nat, h: nat, p: nat, l: nat, n: nat, f: nat, n': nat, f': nat)
    requires x.Valid() && BodyIs(x.CodeText(), b, s, e, g, h) && s <= p <= e
    requires (forall k | s <= k < p :: x.CodeText()[k] != OPEN_PAREN) && (p < e ==> x.CodeText()[p] == OPEN_PAREN)
    requires NameIs(x.CodeText(), s, p, l, n', f') && PragmaNameAt(x, b, n, f)
    ensures n == n' && f == f'
  {
    var u := x.CodeText();
    CodeBytes(x);
    forall k: nat | b <= k < f
      ensures !x.CodeByteAt(k, OPEN_PAREN)
    {
      if n <= k {
        assert x.CodeWordByteAt(k);
      }
    }
    NameEndsBody(x, b, s, e, g, h, p, f);
    assert x.CodeWordByteAt(n) && x.CodeWordByteAt(f - 1);
    assert s <= n;
    LeadIsCut(x, b, s, p, l, n, f);
    TrimsToUnique(u, l, p, n, f, n', f');
  }

  /** What stands before the name is cut off with the last dot. */
  lemma LeadIsCut(x: Lexed, b: nat, s: nat, p: nat, l: nat, n: nat, f: nat)
    requires x.Valid() && b <= s <= n < f <= p <= |x.text| && WhiteIn(x.CodeText(), b, s)
    requires (forall k: nat | n <= k < f :: x.CodeWordByteAt(k)) && WhiteIn(x.CodeText(), f, p)
    requires NameMayStartAt(x, b, n)
    requires s <= l <= p && (l > s ==> x.CodeText()[l - 1] == DOT) && forall k | l <= k < p :: x.CodeText()[k] != DOT
    ensures TrimsTo(x.CodeText(), l, p, n, f)
  {
    var u := x.CodeText();
    CodeBytes(x);
    forall k: nat | n <= k < p
      ensures u[k] != DOT
    {
      assert k < f ==> x.CodeWordByteAt(k);
    }
    assert IsWordByte(u[n]) && IsWordByte(u[f - 1]);
    if GapsIn(x, b, n) {
      assert l == s;
      assert WhiteIn(u, l, n);
    } else {
      var d: nat :| b <= d < n && x.CodeByteAt(d, DOT) && NoCodeIn(x, b, d, OPEN_PAREN) && GapsIn(x, d + 1, n);
      assert u[d] == DOT && s <= d;
      assert l == d + 1;
      assert WhiteIn(u, l, n);
    }
  }

  /** A byte that is neither whitespace nor a semicolon is in the body just if it is in the rest of the text. */
  lemma ByteInBody(u: Text, b: nat, s: nat, e: nat, g: nat, h: nat, c: Byte)
    requires BodyIs(u, b, s, e, g, h) && !IsWhite(c) && c != SEMICOLON
    ensures c in u[s..e] <==> exists k: nat | b <= k < |u| :: u[k] == c
  {
    if c in u[s..e] {
      var i :| 0 <= i < e - s && u[s..e][i] == c;
      assert u[s + i] == c;
    }
    if k: nat :| b <= k < |u| && u[k] == c {
      assert s <= k < e;
      assert u[s..e][k - s] == c;
    }
  }

  lemma FirstParen(u: Text, s: nat, e: nat) returns (p: nat)
    requires s <= e <= |u|
    ensures s <= p <= e
    ensures (forall k | s <= k < p :: u[k] != OPEN_PAREN) && (p < e ==> u[p] == OPEN_PAREN)
    ensures u[s..e][..IndexOf(u[s..e], OPEN_PAREN)] == u[s..p]
  {
    var r := u[s..e];
    p := s + IndexOf(r, OPEN_PAREN);
    forall k | s <= k < p
      ensures u[k] != OPEN_PAREN
    {
      assert u[k] == r[..p - s][k - s];
    }
    assert p < e ==> u[p] == r[p - s];
  }

  lemma NameInList(x: Lexed, words: seq<Text>, n: nat, f: nat)
    requires x.Valid() && n <= f <= |x.text| && forall m | 0 <= m < |words| :: IsWord(words[m])
    ensures x.CodeText()[n..f] in words <==> SpellsOneOf(x, words, n, f)
  {
    var name := x.CodeText()[n..f];
    forall m | 0 <= m < |words|
      ensures words[m] == name <==>
              n + |words[m]| == f && forall k | 0 <= k < |words[m]| :: x.SpellsAt(n + k, words[m][k])
    {
      NameSpelt(x, words[m], n, f);
    }
  }

  lemma NameSpelt(x: Lexed, w: Text, n: nat, f: nat)
    requires x.Valid() && n <= f <= |x.text| && IsWord(w)
    ensures w == x.CodeText()[n..f] <==> n + |w| == f && forall k | 0 <= k < |w| :: x.SpellsAt(n + k, w[k])
  {
    var u := x.CodeText();
    if n + |w| == f {
      forall k | 0 <= k < |w|
        ensures x.SpellsAt(n + k, w[k]) <==> u[n..f][k] == w[k]
      {
        assert IsWordByte(w[k]);
      }
    }
  }

  lemma WordConstant(s: string)
    requires s != "" && forall i | 0 <= i < |s| :: s[i] == '_' || 'A' <= s[i] <= 'Z'
    ensures IsWord(Ascii(s))
  {
  }

  lemma PragmaNamesAreWords()
    ensures forall m | 0 <= m < |ACTION_PRAGMAS| :: IsWord(ACTION_PRAGMAS[m])
    ensures forall m | 0 <= m < |INTROSPECTION_PRAGMAS| :: IsWord(INTROSPECTION_PRAGMAS[m])
  {
    WordConstant("OPTIMIZE");
    WordConstant("WAL_CHECKPOINT");
    WordConstant("INCREMENTAL_VACUUM");
    WordConstant("SHRINK_MEMORY");
    WordConstant("TABLE_INFO");
    WordConstant("TABLE_XINFO");
    WordConstant("TABLE_LIST");
    WordConstant("INDEX_LIST");
    WordConstant("INDEX_INFO");
    WordConstant("INDEX_XINFO");
    WordConstant("FOREIGN_KEY_LIST");
    WordConstant("FOREIGN_KEY_CHECK");
    WordConstant("INTEGRITY_CHECK");
    WordConstant("QUICK_CHECK");
  }

  /** The name is the word the classifier finds, and only that. */
  lemma NameIsWordExactly(x: Lexed, b: nat, s: nat, e: nat, g: nat, h: nat, p: nat, l: nat, n: nat, f: nat)
    requires x.Valid() && BodyIs(x.CodeText(), b, s, e, g, h) && s <= p <= e
    requires (forall k | s <= k < p :: x.CodeText()[k] != OPEN_PAREN) && (p < e ==> x.CodeText()[p] == OPEN_PAREN)
    requires NameIs(x.CodeText(), s, p, l, n, f)
    ensures IsWord(x.CodeText()[n..f]) <==> PragmaNameAt(x, b, n, f)
    ensures forall n': nat, f': nat | PragmaNameAt(x, b, n', f') :: n' == n && f' == f
  {
    var u := x.CodeText();
    CodeBytes(x);
    if IsWord(u[n..f]) {
      forall k | n <= k < f
        ensures IsWordByte(u[k])
      {
        assert u[k] == u[n..f][k - n];
      }
      FoundNameIsName(x, b, s, e, g, h, p, l, n, f);
    }
    if PragmaNameAt(x, b, n, f) {
      forall k | 0 <= k < f - n
        ensures IsWordByte(u[n..f][k])
      {
        assert x.CodeWordByteAt(n + k);
      }
    }
    forall n': nat, f': nat | PragmaNameAt(x, b, n', f')
      ensures n' == n && f' == f
    {
      NameIsFound(x, b, s, e, g, h, p, l, n', f', n, f);
    }
  }

  lemma PragmaByParts(t: Text, body: Text, name: Text)
    requires FirstKeyword(t) == Ascii("PRAGMA")
    requires body == TrimEnd(TrimSemicolons(Trim(t[6..])))
    requires name == Trim(AfterLast(Trim(body[..IndexOf(body, OPEN_PAREN)]), DOT))
    ensures ClassifyPragma(t) == Select <==>
            && EQUALS !in body && IsWord(name) && name !in ACTION_PRAGMAS
            && (OPEN_PAREN in body ==> name in INTROSPECTION_PRAGMAS)
    ensures ClassifyPragma(t) == Unknown <==> EQUALS !in body && !IsWord(name)
    ensures ClassifyPragma(t) != Ddl
  {
  }

  lemma BodyHasByte(x: Lexed, b: nat, s: nat, e: nat, g: nat, h: nat, c: Byte)
    requires x.Valid() && BodyIs(x.CodeText(), b, s, e, g, h) && (c == EQUALS || c == OPEN_PAREN)
    ensures c in x.CodeText()[s..e] <==> !NoCodeIn(x, b, |x.text|, c)
  {
    ByteInBody(x.CodeText(), b, s, e, g, h, c);
    CodeBytes(x);
  }

  lemma NameOfBody(u: Text, s: nat, e: nat) returns (p: nat, l: nat, n: nat, f: nat)
    requires s <= e <= |u|
    ensures s <= p <= e && NameIs(u, s, p, l, n, f)
    ensures (forall j | s <= j < p :: u[j] != OPEN_PAREN) && (p < e ==> u[p] == OPEN_PAREN)
    ensures Trim(AfterLast(Trim(u[s..e][..IndexOf(u[s..e], OPEN_PAREN)]), DOT)) == u[n..f]
  {
    p := FirstParen(u, s, e);
    l, n, f := NameSlice(u, s, p);
  }

  /** The parts of the PRAGMA at `k`, and its kind by them. */
  lemma PragmaParts(u: Text, k: nat)
    returns (s: nat, e: nat, g: nat, h: nat, p: nat, l: nat, n: nat, f: nat)
    requires k <= |u| && FirstKeyword(u[k..]) == Ascii("PRAGMA")
    ensures BodyIs(u, k + 6, s, e, g, h) && s <= p <= e && NameIs(u, s, p, l, n, f)
    ensures (forall j | s <= j < p :: u[j] != OPEN_PAREN) && (p < e ==> u[p] == OPEN_PAREN)
    ensures ClassifyPragma(u[k..]) == Select <==>
            && EQUALS !in u[s..e] && IsWord(u[n..f]) && u[n..f] !in ACTION_PRAGMAS
            && (OPEN_PAREN in u[s..e] ==> u[n..f] in INTROSPECTION_PRAGMAS)
    ensures ClassifyPragma(u[k..]) == Unknown <==> EQUALS !in u[s..e] && !IsWord(u[n..f])
    ensures ClassifyPragma(u[k..]) != Ddl
  {
    var t := u[k..];
    assert t[6..] == u[k + 6..];
    s, e, g, h := BodySlice(u, k + 6);
    p, l, n, f := NameOfBody(u, s, e);
    PragmaByParts(t, u[s..e], u[n..f]);
  }

  /** Everything a PRAGMA must meet, given its name. */
  ghost predicate NamedPragmaReads(x: Lexed, b: nat, n: nat, f: nat)
    requires x.Valid()
  {
    && NoCodeIn(x, b, |x.text|, EQUALS) && PragmaNameAt(x, b, n, f) && !SpellsOneOf(x, ACTION_PRAGMAS, n, f)
    && (!NoCodeIn(x, b, |x.text|, OPEN_PAREN) ==> SpellsOneOf(x, INTROSPECTION_PRAGMAS, n, f))
  }

  lemma PragmaReadsByName(x: Lexed, k: nat, b: nat, n: nat, f: nat)
    requires x.Valid() && b == k + 6
    requires forall n': nat, f': nat | PragmaNameAt(x, b, n', f') :: n' == n && f' == f
    ensures PragmaReads(x, k) <==> NamedPragmaReads(x, b, n, f)
  {
  }

  lemma FoundPragmaReads(x: Lexed, b: nat, s: nat, e: nat, g: nat, h: nat, p: nat, l: nat, n: nat, f: nat)
    requires x.Valid() && BodyIs(x.CodeText(), b, s, e, g, h) && s <= p <= e
    requires (forall k | s <= k < p :: x.CodeText()[k] != OPEN_PAREN) && (p < e ==> x.CodeText()[p] == OPEN_PAREN)
    requires NameIs(x.CodeText(), s, p, l, n, f)
    ensures forall n': nat, f': nat | PragmaNameAt(x, b, n', f') :: n' == n && f' == f
    ensures var u := x.CodeText();
            NamedPragmaReads(x, b, n, f) <==>
            && EQUALS !in u[s..e] && IsWord(u[n..f]) && u[n..f] !in ACTION_PRAGMAS
            && (OPEN_PAREN in u[s..e] ==> u[n..f] in INTROSPECTION_PRAGMAS)
  {
    BodyHasByte(x, b, s, e, g, h, EQUALS);
    BodyHasByte(x, b, s, e, g, h, OPEN_PAREN);
    NameIsWordExactly(x, b, s, e, g, h, p, l, n, f);
    PragmaNamesAreWords();
    NameInList(x, ACTION_PRAGMAS, n, f);
    NameInList(x, INTROSPECTION_PRAGMAS, n, f);
  }

  /** A PRAGMA is classified as a read exactly when its code bytes make it one. */
  lemma PragmaAnswer(x: Lexed, k: nat)
    requires x.Valid() && k <= |x.text| && FirstKeyword(x.CodeText()[k..]) == Ascii("PRAGMA")
    ensures ClassifyPragma(x.CodeText()[k..]) == Select <==> PragmaReads(x, k)
  {
    var s, e, g, h, p, l, n, f := PragmaParts(x.CodeText(), k);
    FoundPragmaReads(x, k + 6, s, e, g, h, p, l, n, f);
    PragmaReadsByName(x, k, k + 6, n, f);
  }

  ghost predicate HasName(x: Lexed, b: nat)
    requires x.Valid()
  {
    exists n: nat, e: nat :: PragmaNameAt(x, b, n, e)
  }

  /** It is a write if it assigns, and unknown if it neither assigns nor has a name; else, if no read, a write. */
  lemma PragmaKind(x: Lexed, k: nat)
    requires x.Valid() && k <= |x.text| && FirstKeyword(x.CodeText()[k..]) == Ascii("PRAGMA")
    ensures var kind := ClassifyPragma(x.CodeText()[k..]);
            && kind != Ddl
            && (kind == Unknown <==> NoCodeIn(x, k + 6, |x.text|, EQUALS) && !HasName(x, k + 6))
  {
    var s, e, g, h, p, l, n, f := PragmaParts(x.CodeText(), k);
    FoundPragmaReads(x, k + 6, s, e, g, h, p, l, n, f);
    NameIsWordExactly(x, k + 6, s, e, g, h, p, l, n, f);
    BodyHasByte(x, k + 6, s, e, g, h, EQUALS);
  }
}
