/** Whole-word and call search over stripped, upper-cased SQL. */
module WordSearch {
  import opened Wrappers
  import opened Bytes
  import opened Tokenizer

  /** `w` can be a word: it is not empty and has only word bytes. */
  predicate IsWord(w: Text) { w != [] && forall k | 0 <= k < |w| :: IsWordByte(w[k]) }

  /** A word byte stands at `i`. */
  predicate WordByteAt(h: Text, i: int) { 0 <= i < |h| && IsWordByte(h[i]) }

  /** `w` occurs at `i` and no word byte flanks it. */
  predicate WordAt(h: Text, w: Text, i: nat) {
    TextAt(h, i, w) && !WordByteAt(h, i - 1) && !WordByteAt(h, i + |w|)
  }

  /** The first whole-word occurrence of `w` at or after `i`. */
  function WordIndexFrom(h: Text, w: Text, i: nat): (r: Option<nat>)
    requires i <= |h|
    ensures r.Some? ==> i <= r.value <= |h| && WordAt(h, w, r.value) && forall j | i <= j < r.value :: !WordAt(h, w, j)
    ensures r.None? ==> forall j | i <= j <= |h| :: !WordAt(h, w, j)
    decreases |h| - i
  {
    if WordAt(h, w, i) then Some(i)
    else if i == |h| then None
    else WordIndexFrom(h, w, i + 1)
  }

  function WordIndex(h: Text, w: Text): (r: Option<nat>)
    ensures r.Some? ==> r.value + |w| <= |h|
  {
    if w == [] then None else WordIndexFrom(h, w, 0)
  }

  predicate HasWord(h: Text, w: Text) { WordIndex(h, w).Some? }

  lemma HasWordExactly(h: Text, w: Text)
    requires w != []
    ensures HasWord(h, w) <==> exists i: nat :: WordAt(h, w, i)
  {
    if i: nat :| WordAt(h, w, i) {
      assert i <= |h|;
    }
  }

  method KeywordIndex(haystack: Text, needle: Text) returns (r: Option<nat>)
    ensures r == WordIndex(haystack, needle)
  {
    var nlen := |needle|;
    if nlen == 0 || |haystack| < nlen {
      return None;
    }
    for i := 0 to |haystack| - nlen + 1
      invariant WordIndex(haystack, needle) == WordIndexFrom(haystack, needle, i)
    {
      if haystack[i..i + nlen] == needle {
        var prevOk := i == 0 || !IsWordByte(haystack[i - 1]);
        var nextOk := i + nlen == |haystack| || !IsWordByte(haystack[i + nlen]);
        if prevOk && nextOk {
          return Some(i);
        }
      }
    }
    return None;
  }

  function SkipWhite(h: Text, i: nat): (e: nat)
    requires i <= |h|
    ensures i <= e <= |h|
    ensures forall k | i <= k < e :: IsWhite(h[k])
    ensures e < |h| ==> !IsWhite(h[e])
    decreases |h| - i
  {
    if i < |h| && IsWhite(h[i]) then SkipWhite(h, i + 1) else i
  }

  /** `name` at `i` is called: an opening parenthesis follows it, after optional whitespace. */
  predicate CallAt(h: Text, name: Text, i: nat) {
    WordAt(h, name, i) && ByteAt(h, SkipWhite(h, i + |name|), OPEN_PAREN)
  }

  predicate HasCall(h: Text, name: Text) { exists i: nat | i <= |h| :: CallAt(h, name, i) }

  /** An occurrence of a word is a maximal run of word bytes. */
  lemma OccurrenceIsRun(h: Text, w: Text, i: nat)
    requires IsWord(w) && WordAt(h, w, i)
    ensures WordByteAt(h, i) && forall j | i <= j < i + |w| :: WordByteAt(h, j)
    ensures !WordByteAt(h, i - 1) && !WordByteAt(h, i + |w|)
  {
    forall j | i <= j < i + |w|
      ensures WordByteAt(h, j)
    {
      assert h[i + (j - i)] == w[j - i];
    }
  }

  /** Whole-word occurrences of a word never overlap, and never touch. */
  lemma WordsDoNotOverlap(h: Text, w: Text, i: nat, j: nat)
    requires IsWord(w) && WordAt(h, w, i) && WordAt(h, w, j) && i < j
    ensures i + |w| < j
  {
    OccurrenceIsRun(h, w, i);
    OccurrenceIsRun(h, w, j);
  }

  /** After an occurrence, searching the remaining slice and searching the whole text find the same words. */
  lemma SliceKeepsWords(h: Text, w: Text, offset: nat, j: nat)
    requires IsWord(w) && offset <= |h| && (offset == 0 || !WordByteAt(h, offset))
    ensures WordAt(h[offset..], w, j) <==> WordAt(h, w, offset + j)
  {
    var r := h[offset..];
    if offset == 0 {
      assert r == h;
    } else {
      assert TextAt(r, j, w) <==> TextAt(h, offset + j, w);
      assert WordByteAt(r, j + |w|) == WordByteAt(h, offset + j + |w|);
      if j > 0 {
        assert WordByteAt(r, j - 1) == WordByteAt(h, offset + j - 1);
      } else {
        if WordAt(r, w, 0) {
          OccurrenceIsRun(r, w, 0);
        }
        if WordAt(h, w, offset) {
          OccurrenceIsRun(h, w, offset);
        }
      }
    }
  }

  lemma {:induction false} SliceSkipWhite(h: Text, offset: nat, i: nat)
    requires offset + i <= |h|
    ensures SkipWhite(h, offset + i) == offset + SkipWhite(h[offset..], i)
    decreases |h| - offset - i
  {
    if offset + i < |h| {
      SliceSkipWhite(h, offset, i + 1);
    }
  }

  /** What one search of the remaining slice says about the whole text. */
  lemma NextOccurrence(h: Text, name: Text, offset: nat)
    requires IsWord(name) && offset <= |h| && (offset == 0 || !WordByteAt(h, offset))
    ensures var r := WordIndex(h[offset..], name);
            if r.None? then forall i: nat | i >= offset :: !WordAt(h, name, i)
            else WordAt(h, name, offset + r.value) &&
                 forall i: nat | offset <= i < offset + r.value + |name| && i != offset + r.value :: !WordAt(h, name, i)
  {
    var r := WordIndex(h[offset..], name);
    forall i: nat | i >= offset
      ensures WordAt(h, name, i) <==> WordAt(h[offset..], name, i - offset)
    {
      SliceKeepsWords(h, name, offset, i - offset);
    }
    forall i: nat | i >= offset && (r.None? || (i < offset + r.value + |name| && i != offset + r.value))
      ensures !WordAt(h, name, i)
    {
      if r.Some? && offset + r.value < i && WordAt(h, name, i) {
        WordsDoNotOverlap(h, name, offset + r.value, i);
      } else if i <= |h| {
        assert r.None? || i < offset + r.value ==> !WordAt(h[offset..], name, i - offset);
      }
    }
  }

  /** One turn of the call search: it answers, or no call starts before the new offset. */
  lemma CallSearchTurn(h: Text, name: Text, offset: nat)
    requires IsWord(name) && offset <= |h| && (offset == 0 || !WordByteAt(h, offset))
    requires forall i: nat | i < offset :: !CallAt(h, name, i)
    ensures var r := WordIndex(h[offset..], name);
            if r.None? then !HasCall(h, name)
            else
              var end := offset + r.value + |name|;
              && end <= |h| && !WordByteAt(h, end)
              && if ByteAt(h[end..], SkipWhite(h[end..], 0), OPEN_PAREN) then HasCall(h, name)
                 else forall i: nat | i < end :: !CallAt(h, name, i)
  {
    NextOccurrence(h, name, offset);
    var r := WordIndex(h[offset..], name);
    if r.Some? {
      var start := offset + r.value;
      var end := start + |name|;
      SliceSkipWhite(h, end, 0);
      assert ByteAt(h[end..], SkipWhite(h[end..], 0), OPEN_PAREN) <==> CallAt(h, name, start);
    }
  }

  /** Restarting on a slice after each occurrence misses no call and invents none. */
  method CallsFunction(haystack: Text, name: Text) returns (found: bool)
    requires IsWord(name)
    ensures found <==> HasCall(haystack, name)
  {
    var offset := 0;
    while true
      invariant offset <= |haystack| && (offset == 0 || !WordByteAt(haystack, offset))
      invariant forall i: nat | i < offset :: !CallAt(haystack, name, i)
      decreases |haystack| - offset
    {
      CallSearchTurn(haystack, name, offset);
      var r := KeywordIndex(haystack[offset..], name);
      if r.None? {
        return false;
      }
      var after := haystack[offset + r.value + |name|..];
      if ByteAt(after, SkipWhite(after, 0), OPEN_PAREN) {
        return true;
      }
      offset := offset + r.value + |name|;
    }
  }

  // ---------- The word split ----------

  function WordEnd(h: Text, i: nat): (e: nat)
    requires i <= |h|
    ensures i <= e <= |h|
    ensures forall k | i <= k < e :: IsWordByte(h[k])
    ensures !WordByteAt(h, e)
    decreases |h| - i
  {
    if i < |h| && IsWordByte(h[i]) then WordEnd(h, i + 1) else i
  }

  /** The non-empty pieces of `h` from `i` on, split at every byte that is not a word byte. */
  function Words(h: Text, i: nat): (ws: seq<Text>)
    requires i <= |h|
    ensures forall k | 0 <= k < |ws| :: IsWord(ws[k])
    decreases |h| - i
  {
    if i == |h| then []
    else if !IsWordByte(h[i]) then Words(h, i + 1)
    else
      var e := WordEnd(h, i);
      assert forall k | 0 <= k < e - i :: h[i..e][k] == h[i + k];
      [h[i..e]] + Words(h, e)
  }

  /** A word occurrence at the start of a run of word bytes is the whole run. */
  lemma WordIsRun(h: Text, w: Text, i: nat)
    requires i < |h| && IsWordByte(h[i]) && !WordByteAt(h, i - 1) && IsWord(w)
    ensures WordAt(h, w, i) <==> w == h[i..WordEnd(h, i)]
  {
    var e := WordEnd(h, i);
    if WordAt(h, w, i) {
      OccurrenceIsRun(h, w, i);
      assert e == i + |w|;
      assert forall k | 0 <= k < |w| :: h[i + k] == w[k];
      assert w == h[i..e];
    }
  }

  lemma {:induction false} WordsFind(h: Text, w: Text, i: nat)
    requires i <= |h| && IsWord(w) && !WordByteAt(h, i - 1)
    ensures w in Words(h, i) <==> exists j: nat :: i <= j && WordAt(h, w, j)
    decreases |h| - i
  {
    if i < |h| {
      NotInside(h, w, i);
      if !IsWordByte(h[i]) {
        WordsFind(h, w, i + 1);
      } else {
        WordIsRun(h, w, i);
        var e := WordEnd(h, i);
        if e < |h| {
          assert Words(h, e) == Words(h, e + 1);
          WordsFind(h, w, e + 1);
        }
      }
    }
  }

  /** Within a run of word bytes, and right after it, no occurrence starts but the one at its start. */
  lemma NotInside(h: Text, w: Text, i: nat)
    requires i <= |h| && IsWord(w)
    ensures forall j: nat | i < j <= WordEnd(h, i) :: !WordAt(h, w, j)
    ensures !WordByteAt(h, i) ==> !WordAt(h, w, i)
    ensures forall j: nat | j >= |h| :: !WordAt(h, w, j)
  {
    forall j: nat | (i < j <= WordEnd(h, i)) || (j == i && !WordByteAt(h, i))
      ensures !WordAt(h, w, j)
    {
      if WordAt(h, w, j) {
        OccurrenceIsRun(h, w, j);
      }
    }
  }

  /** Whole-word search and the word split agree. */
  lemma HasWordIffInWords(h: Text, w: Text)
    requires IsWord(w)
    ensures HasWord(h, w) <==> w in Words(h, 0)
  {
    HasWordExactly(h, w);
    WordsFind(h, w, 0);
  }
}
