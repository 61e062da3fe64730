/** Searching a slice of the stripped statement, in terms of the code bytes of the whole statement. */
module SourceSlices {
  import opened Bytes
  import opened Tokenizer
  import opened WordSearch
  import opened Classifier
  import opened SourceText

  // ---------- Words in a slice ----------

  /** A cut before `k` cuts no word that starts with a letter. */
  predicate NameCut(h: Text, k: nat) { !WordByteAt(h, k - 1) || !(k < |h| && IsAlpha(h[k])) }

  /** A cut before `k` cuts no word at all. */
  predicate WordCut(h: Text, k: nat) { !WordByteAt(h, k - 1) || !WordByteAt(h, k) }

  /** A word the classifier looks for starts with a letter. */
  predicate IsName(w: Text) { IsWord(w) && IsAlpha(w[0]) }

  lemma SliceText(h: Text, w: Text, a: nat, c: nat, i: nat)
    requires a <= c <= |h| && a + i + |w| <= c
    ensures TextAt(h[a..c], i, w) <==> TextAt(h, a + i, w)
  {
    var r := h[a..c];
    assert forall k | 0 <= k < |r| :: r[k] == h[a + k];
  }

  lemma WordInSlice(h: Text, w: Text, a: nat, c: nat, i: nat)
    requires a <= c <= |h| && IsName(w) && NameCut(h, a) && WordCut(h, c)
    requires WordAt(h[a..c], w, i)
    ensures a + i < c && WordAt(h, w, a + i)
  {
    var r := h[a..c];
    OccurrenceIsRun(r, w, i);
    SliceText(h, w, a, c, i);
    assert WordByteAt(r, i + |w| - 1) && WordByteAt(h, a + i + |w| - 1);
    assert i + |w| < |r| ==> WordByteAt(r, i + |w|) == WordByteAt(h, a + i + |w|);
    assert i > 0 ==> WordByteAt(r, i - 1) == WordByteAt(h, a + i - 1);
    assert r[i + 0] == w[0] && h[a + i] == w[0];
  }

  lemma WordIntoSlice(h: Text, w: Text, a: nat, c: nat, i: nat)
    requires a <= c <= |h| && IsName(w) && WordCut(h, c)
    requires a + i < c && WordAt(h, w, a + i)
    ensures WordAt(h[a..c], w, i)
  {
    var r := h[a..c];
    OccurrenceIsRun(h, w, a + i);
    assert a + i < c < a + i + |w| ==> WordByteAt(h, c - 1) && WordByteAt(h, c);
    SliceText(h, w, a, c, i);
    assert i + |w| < |r| ==> WordByteAt(r, i + |w|) == WordByteAt(h, a + i + |w|);
    assert i > 0 ==> WordByteAt(r, i - 1) == WordByteAt(h, a + i - 1);
  }

  lemma SliceWordAt(x: Lexed, w: Text, a: nat, c: nat, i: nat)
    requires x.Valid() && a <= c <= |x.text| && IsName(w)
    requires NameCut(x.CodeText(), a) && WordCut(x.CodeText(), c)
    ensures WordAt(x.CodeText()[a..c], w, i) <==> a + i < c && x.CodeWordAt(w, a + i)
  {
    var u := x.CodeText();
    WordAtSource(x, w, a + i);
    if WordAt(u[a..c], w, i) {
      WordInSlice(u, w, a, c, i);
    }
    if a + i < c && WordAt(u, w, a + i) {
      WordIntoSlice(u, w, a, c, i);
    }
  }

  /** A slice between clean cuts has a word exactly when the source has it in its code there. */
  lemma SliceHasWord(x: Lexed, w: Text, a: nat, c: nat)
    requires x.Valid() && a <= c <= |x.text| && IsName(w)
    requires NameCut(x.CodeText(), a) && WordCut(x.CodeText(), c)
    ensures HasWord(x.CodeText()[a..c], w) <==> exists i: nat | a <= i < c :: x.CodeWordAt(w, i)
  {
    var r := x.CodeText()[a..c];
    HasWordExactly(r, w);
    if HasWord(r, w) {
      var i: nat :| WordAt(r, w, i);
      SliceWordAt(x, w, a, c, i);
    }
    if i: nat :| a <= i < c && x.CodeWordAt(w, i) {
      SliceWordAt(x, w, a, c, i - a);
    }
  }

  lemma RestHasWord(x: Lexed, w: Text, k: nat)
    requires x.Valid() && k <= |x.text| && IsName(w) && NameCut(x.CodeText(), k)
    ensures HasWord(x.CodeText()[k..], w) <==> exists i: nat | i >= k :: x.CodeWordAt(w, i)
  {
    var n := |x.text|;
    assert x.CodeText()[k..] == x.CodeText()[k..n];
    SliceHasWord(x, w, k, n);
    if i: nat :| i >= k && x.CodeWordAt(w, i) {
      assert x.SpellsAt(i + 0, w[0]);
    }
  }

  lemma CallInRest(h: Text, name: Text, k: nat, i: nat)
    requires k <= |h| && IsName(name) && NameCut(h, k)
    ensures CallAt(h[k..], name, i) <==> CallAt(h, name, k + i)
  {
    var n := |h|;
    assert h[k..] == h[k..n];
    if WordAt(h[k..n], name, i) {
      WordInSlice(h, name, k, n, i);
      SliceSkipWhite(h, k, i + |name|);
    }
    if WordAt(h, name, k + i) {
      OccurrenceIsRun(h, name, k + i);
      WordIntoSlice(h, name, k, n, i);
      SliceSkipWhite(h, k, i + |name|);
    }
  }

  lemma RestCallAt(x: Lexed, name: Text, k: nat, i: nat)
    requires x.Valid() && k <= |x.text| && IsName(name) && NameCut(x.CodeText(), k)
    ensures CallAt(x.CodeText()[k..], name, i) <==> x.CodeCallAt(name, k + i)
  {
    CallInRest(x.CodeText(), name, k, i);
    CallAtSource(x, name, k + i);
  }

  lemma RestHasCall(x: Lexed, name: Text, k: nat)
    requires x.Valid() && k <= |x.text| && IsName(name) && NameCut(x.CodeText(), k)
    ensures HasCall(x.CodeText()[k..], name) <==> exists i: nat | i >= k :: x.CodeCallAt(name, i)
  {
    var r := x.CodeText()[k..];
    if HasCall(r, name) {
      var i: nat :| i <= |r| && CallAt(r, name, i);
      RestCallAt(x, name, k, i);
    }
    if i: nat :| i >= k && x.CodeCallAt(name, i) {
      RestCallAt(x, name, k, i - k);
      assert x.SpellsAt(i + 0, name[0]);
    }
  }

  // ---------- Words in a row ----------

  predicate AreWords(ws: seq<Text>) { forall k | 0 <= k < |ws| :: IsWord(ws[k]) }

  lemma RowAtCons(w: Text, ws: seq<Text>, row: seq<Text>, k: nat)
    ensures RowAt([w] + ws, row, k + 1) <==> RowAt(ws, row, k)
    ensures RowAt([w] + ws, row, 0) <==> row <= [w] + ws
  {
    var all := [w] + ws;
    if k + |row| <= |ws| {
      assert all[k + 1..k + 1 + |row|] == ws[k..k + |row|];
    }
  }

  lemma HasRowCons(w: Text, ws: seq<Text>, row: seq<Text>)
    ensures HasRow([w] + ws, row) <==> row <= [w] + ws || HasRow(ws, row)
  {
    var all := [w] + ws;
    RowAtCons(w, ws, row, 0);
    if HasRow(all, row) {
      var k: nat :| k <= |all| && RowAt(all, row, k);
      if k > 0 {
        RowAtCons(w, ws, row, k - 1);
      }
    }
    if HasRow(ws, row) {
      var k: nat :| k <= |ws| && RowAt(ws, row, k);
      RowAtCons(w, ws, row, k);
    }
  }

  /** A row starts somewhere from `i` on. */
  ghost predicate CodeRowFrom(x: Lexed, row: seq<Text>, i: nat)
    requires x.Valid() && row != []
  {
    exists j: nat | j >= i :: x.CodeRowAt(row, j)
  }

  /** The first word from `i` on starts a row. */
  ghost predicate RowFollows(x: Lexed, i: nat, row: seq<Text>)
    requires x.Valid() && row != []
  {
    exists j: nat | i <= j :: x.NoWordByteIn(i, j) && x.CodeRowAt(row, j)
  }

  lemma RowStartsWithWord(x: Lexed, row: seq<Text>, j: nat)
    requires x.Valid() && row != [] && AreWords(row) && x.CodeRowAt(row, j)
    ensures x.CodeWordByteAt(j) && x.CodeWordAt(row[0], j)
  {
    var u := x.CodeText();
    WordAtSource(x, row[0], j);
    OccurrenceIsRun(u, row[0], j);
    CodeWordBytes(x);
    assert WordByteAt(u, j) == x.CodeWordByteAt(j);
  }

  /** The word split from `i` on starts with a row exactly when the code words do. */
  lemma {:induction false} WordsStartWithRow(x: Lexed, i: nat, row: seq<Text>)
    requires x.Valid() && i <= |x.text| && row != [] && AreWords(row) && WordCut(x.CodeText(), i)
    ensures row <= Words(x.CodeText(), i) <==> RowFollows(x, i, row)
    decreases |x.text| - i
  {
    var u := x.CodeText();
    CodeWordBytes(x);
    if i == |u| {
      forall j: nat | i <= j
        ensures !x.CodeRowAt(row, j)
      {
        if x.CodeRowAt(row, j) {
          RowStartsWithWord(x, row, j);
        }
      }
    } else if !IsWordByte(u[i]) {
      WordsStartWithRow(x, i + 1, row);
      RowFollowsNext(x, i, row);
    } else {
      WordStartsRow(x, i, row);
      var e := WordEnd(u, i);
      if |row| > 1 && e <= |u| {
        WordsStartWithRow(x, e, row[1..]);
      }
    }
  }

  lemma RowFollowsNext(x: Lexed, i: nat, row: seq<Text>)
    requires x.Valid() && i < |x.text| && row != [] && AreWords(row) && !x.CodeWordByteAt(i)
    ensures RowFollows(x, i, row) <==> RowFollows(x, i + 1, row)
  {
    if RowFollows(x, i, row) {
      var j: nat :| i <= j && x.NoWordByteIn(i, j) && x.CodeRowAt(row, j);
      RowStartsWithWord(x, row, j);
      assert x.NoWordByteIn(i + 1, j);
    }
    if RowFollows(x, i + 1, row) {
      var j: nat :| i + 1 <= j && x.NoWordByteIn(i + 1, j) && x.CodeRowAt(row, j);
      assert x.NoWordByteIn(i, j);
    }
  }

  /** At the start of a word: the row follows just if the word is its first and the rest follows the word. */
  lemma WordStartsRow(x: Lexed, i: nat, row: seq<Text>)
    requires x.Valid() && i < |x.text| && row != [] && AreWords(row)
    requires x.CodeWordByteAt(i) && WordCut(x.CodeText(), i)
    ensures var u := x.CodeText();
            var e := WordEnd(u, i);
            && Words(u, i) == [u[i..e]] + Words(u, e)
            && WordCut(u, e)
            && (RowFollows(x, i, row) <==> row[0] == u[i..e] && (|row| > 1 ==> RowFollows(x, e, row[1..])))
  {
    var u := x.CodeText();
    CodeWordBytes(x);
    assert WordByteAt(u, i) == x.CodeWordByteAt(i);
    var e := WordEnd(u, i);
    WordIsRun(u, row[0], i);
    WordAtSource(x, row[0], i);
    assert !WordByteAt(u, e);
    assert RowFollows(x, i, row) <==> x.CodeRowAt(row, i) by {
      if RowFollows(x, i, row) {
        var j: nat :| i <= j && x.NoWordByteIn(i, j) && x.CodeRowAt(row, j);
        assert j == i;
      }
      if x.CodeRowAt(row, i) {
        assert x.NoWordByteIn(i, i);
      }
    }
    assert row[0] == u[i..e] ==> i + |row[0]| == e;
  }

  /** The word split from `i` on has a row anywhere exactly when the code words from `i` on do. */
  lemma {:induction false} WordsHaveRow(x: Lexed, i: nat, row: seq<Text>)
    requires x.Valid() && i <= |x.text| && row != [] && AreWords(row) && WordCut(x.CodeText(), i)
    ensures HasRow(Words(x.CodeText(), i), row) <==> CodeRowFrom(x, row, i)
    decreases |x.text| - i
  {
    var u := x.CodeText();
    CodeWordBytes(x);
    if i == |u| {
      forall j: nat | j >= i
        ensures !x.CodeRowAt(row, j)
      {
        if x.CodeRowAt(row, j) {
          RowStartsWithWord(x, row, j);
        }
      }
    } else {
      assert WordByteAt(u, i) == x.CodeWordByteAt(i);
      if !IsWordByte(u[i]) {
        WordsHaveRow(x, i + 1, row);
        if x.CodeRowAt(row, i) {
          RowStartsWithWord(x, row, i);
        }
      } else {
        WordStartsRow(x, i, row);
        WordsStartWithRow(x, i, row);
        var e := WordEnd(u, i);
        HasRowCons(u[i..e], Words(u, e), row);
        WordsHaveRow(x, e, row);
        RowsInWord(x, i, row);
      }
    }
  }

  /** Inside a word only its start can start a row. */
  lemma RowsInWord(x: Lexed, i: nat, row: seq<Text>)
    requires x.Valid() && i < |x.text| && row != [] && AreWords(row)
    requires x.CodeWordByteAt(i) && WordCut(x.CodeText(), i)
    ensures var e := WordEnd(x.CodeText(), i);
            CodeRowFrom(x, row, i) <==> RowFollows(x, i, row) || CodeRowFrom(x, row, e)
  {
    var u := x.CodeText();
    var e := WordEnd(u, i);
    if CodeRowFrom(x, row, i) {
      var j: nat :| j >= i && x.CodeRowAt(row, j);
      RowStartsWithWord(x, row, j);
      WordAtSource(x, row[0], j);
      NotInside(u, row[0], i);
      assert j == i || j >= e;
      assert j == i ==> x.NoWordByteIn(i, j);
    }
  }
}
