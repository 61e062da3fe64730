/**
 The scanning loops that blank a statement, proved against the tokenization.

 `i` is the read position and `out` the output buffer; a helper that the original passes them to by
 mutable reference returns their new values.
 */
module LexScanner {
  import opened Wrappers
  import opened Bytes
  import opened LexProfiles
  import opened Tokenizer

  /** `out` is `out0` with `n` fill bytes pushed after it. */
  predicate Padded(out: Text, out0: Text, fill: Byte, n: int) {
    && n >= 0
    && |out| == |out0| + n
    && (forall k | 0 <= k < |out0| :: out[k] == out0[k])
    && (forall k | |out0| <= k < |out| :: out[k] == fill)
  }

  lemma PadMore(out: Text, out0: Text, fill: Byte, n: nat, m: nat)
    requires Padded(out, out0, fill, n)
    ensures Padded(out + Repeat(fill, m), out0, fill, n + m)
  {
  }

  lemma PadFirst(out: Text, out0: Text, fill: Byte, n: nat)
    requires n >= 1 && Padded(out, out0 + [fill], fill, n - 1)
    ensures Padded(out, out0, fill, n)
  {
    assert forall k | 0 <= k < |out0| :: out[k] == (out0 + [fill])[k];
    assert out[|out0|] == (out0 + [fill])[|out0|];
  }

  lemma PaddedIsBlank(out: Text, out0: Text, kind: TokenKind, mark: bool, text: Text)
    requires !kind.Code? && Padded(out, out0, Fill(kind, mark), |text|)
    ensures out == out0 + Blank(kind, text, mark)
  {
  }

  method DollarQuoteTagEnd(s: Text, i: nat) returns (e: Option<nat>)
    requires ByteAt(s, i, DOLLAR)
    ensures e == DollarTagEnd(s, i)
  {
    var j := i + 1;
    if j < |s| && IsTagStart(s[j]) {
      j := j + 1;
      while j < |s| && IsTagContinue(s[j])
        invariant i + 2 <= j <= |s|
        invariant TagRunEnd(s, i + 2) == TagRunEnd(s, j)
      {
        j := j + 1;
      }
    }
    if j < |s| && s[j] == DOLLAR {
      return Some(j + 1);
    }
    return None;
  }

  method ExecutableCommentOpenerEnd(s: Text, i: nat) returns (e: Option<nat>)
    ensures e == ExecutableOpenerEnd(s, i)
  {
    var j: nat;
    if PairAt(s, i, SLASH, STAR) && ByteAt(s, i + 2, BANG) {
      j := i + 3;
    } else if PairAt(s, i, SLASH, STAR) && PairAt(s, i + 2, UPPER_M, BANG) {
      j := i + 4;
    } else {
      return None;
    }
    ghost var start := j;
    while j < |s| && IsDigit(s[j])
      invariant start <= j <= |s|
      invariant DigitRunEnd(s, start) == DigitRunEnd(s, j)
    {
      j := j + 1;
    }
    return Some(j);
  }

  /** Blanks the run that opens at `i0` and ends at the next unescaped, undoubled `close`. */
  method ScanDelimitedWith(s: Text, i0: nat, out0: Text, close: Byte, backslash: bool, fill: Byte)
    returns (i: nat, out: Text)
    requires i0 < |s|
    ensures i == DelimitedEnd(close, backslash, s, i0 + 1)
    ensures Padded(out, out0, fill, i - i0)
  {
    i, out := i0 + 1, out0 + [fill];
    while i < |s|
      invariant i0 < i <= |s|
      invariant DelimitedEnd(close, backslash, s, i) == DelimitedEnd(close, backslash, s, i0 + 1)
      invariant Padded(out, out0, fill, i - i0)
    {
      var b := s[i];
      if backslash && b == BACKSLASH && i + 1 < |s| {
        out := out + [fill, fill];
        i := i + 2;
      } else if b == close && i + 1 < |s| && s[i + 1] == close {
        out := out + [fill, fill];
        i := i + 2;
      } else if b == close {
        out := out + [fill];
        i := i + 1;
        return;
      } else {
        out := out + [fill];
        i := i + 1;
      }
    }
  }

  method ScanLineComment(p: LexProfile, s: Text, i0: nat, out0: Text) returns (i: nat, out: Text)
    requires i0 < |s|
    ensures i == LineCommentEnd(p, s, i0)
    ensures Padded(out, out0, SPACE, i - i0)
  {
    i, out := i0, out0;
    while i < |s| && s[i] != LF && !(p.lineCommentEndsAtCr && s[i] == CR)
      invariant i0 <= i <= |s|
      invariant LineCommentEnd(p, s, i) == LineCommentEnd(p, s, i0)
      invariant Padded(out, out0, SPACE, i - i0)
    {
      out := out + [SPACE];
      i := i + 1;
    }
  }

  /** `depth` is a natural number: that it never underflows is part of what is verified here. */
  method ScanBlockComment(nested: bool, s: Text, i0: nat, out0: Text) returns (i: nat, out: Text)
    requires PairAt(s, i0, SLASH, STAR)
    ensures i == BlockCommentEnd(nested, 1, s, i0 + 2)
    ensures Padded(out, out0, SPACE, i - i0)
  {
    i, out := i0, out0;
    var depth: nat := 0;
    ghost var end := BlockCommentEnd(nested, 1, s, i0 + 2);
    while i < |s|
      invariant i0 <= i <= |s|
      invariant depth == 0 <==> i == i0
      invariant depth > 0 ==> BlockCommentEnd(nested, depth, s, i) == end
      invariant Padded(out, out0, SPACE, i - i0)
    {
      if s[i] == SLASH && i + 1 < |s| && s[i + 1] == STAR && (depth == 0 || nested) {
        depth := depth + 1;
        out := out + [SPACE, SPACE];
        i := i + 2;
      } else if s[i] == STAR && i + 1 < |s| && s[i + 1] == SLASH {
        depth := depth - 1;
        out := out + [SPACE, SPACE];
        i := i + 2;
        if depth == 0 {
          break;
        }
      } else {
        out := out + [SPACE];
        i := i + 1;
      }
    }
  }

  method ScanDollarString(s: Text, i0: nat, delim: Text, out0: Text) returns (i: nat, out: Text)
    requires TextAt(s, i0, delim) && delim != []
    ensures i == DollarBodyEnd(delim, s, i0 + |delim|)
    ensures Padded(out, out0, SPACE, i - i0)
  {
    out := out0 + Repeat(SPACE, |delim|);
    i := i0 + |delim|;
    while i < |s|
      invariant i0 + |delim| <= i <= |s|
      invariant DollarBodyEnd(delim, s, i) == DollarBodyEnd(delim, s, i0 + |delim|)
      invariant Padded(out, out0, SPACE, i - i0)
    {
      if TextAt(s, i, delim) {
        PadMore(out, out0, SPACE, i - i0, |delim|);
        out := out + Repeat(SPACE, |delim|);
        i := i + |delim|;
        return;
      }
      out := out + [SPACE];
      i := i + 1;
    }
  }

  method ScanTripleString(s: Text, i0: nat, backslash: bool, out0: Text) returns (i: nat, out: Text)
    requires i0 + 3 <= |s|
    ensures i == TripleBodyEnd(s[i0], backslash, s, i0 + 3)
    ensures Padded(out, out0, SPACE, i - i0)
  {
    var c := s[i0];
    out := out0 + [SPACE, SPACE, SPACE];
    i := i0 + 3;
    while i < |s|
      invariant i0 + 3 <= i <= |s|
      invariant TripleBodyEnd(c, backslash, s, i) == TripleBodyEnd(c, backslash, s, i0 + 3)
      invariant Padded(out, out0, SPACE, i - i0)
    {
      if backslash && s[i] == BACKSLASH && i + 1 < |s| {
        out := out + [SPACE, SPACE];
        i := i + 2;
      } else if TripleAt(s, i, c) {
        out := out + [SPACE, SPACE, SPACE];
        i := i + 3;
        break;
      } else {
        out := out + [SPACE];
        i := i + 1;
      }
    }
  }

  /** Where the scan stands: what was pushed so far, completed by stripping the rest, is the answer. */
  predicate Stands(p: LexProfile, mark: bool, s: Text, i: nat, out: Text)
    requires i <= |s|
  {
    out + StripFrom(p, mark, s, i) == Strip(p, mark, s)
  }

  lemma Advance(p: LexProfile, mark: bool, s: Text, i: nat, out: Text, out': Text)
    requires i < |s| && Stands(p, mark, s, i, out)
    requires var t := TokenAt(p, s, i);
             if t.kind.Code? then out' == out + [s[i]] else Padded(out', out, Fill(t.kind, mark), t.end - i)
    ensures Stands(p, mark, s, TokenAt(p, s, i).end, out')
  {
    var t := TokenAt(p, s, i);
    assert Tokenize(p, s, i)[1..] == Tokenize(p, s, t.end);
    PushBlank(out, out', t.kind, mark, s[i..t.end], StripFrom(p, mark, s, t.end));
  }

  lemma PushBlank(out: Text, out': Text, kind: TokenKind, mark: bool, text: Text, tail: Text)
    requires if kind.Code? then out' == out + text else Padded(out', out, Fill(kind, mark), |text|)
    ensures out + (Blank(kind, text, mark) + tail) == out' + tail
  {
    if !kind.Code? {
      PaddedIsBlank(out', out, kind, mark, text);
    }
  }

  method StripWithProfile(s: Text, p: LexProfile, markIdentifiers: bool) returns (out: Text)
    ensures out == Strip(p, markIdentifiers, s)
  {
    var identFill := if markIdentifiers then IDENT_MARK else SPACE;
    var n := |s|;
    out := [];
    var i := 0;
    while i < n
      invariant 0 <= i <= n
      invariant Stands(p, markIdentifiers, s, i, out)
    {
      ghost var i0, out0 := i, out;
      i, out := ScanToken(s, p, identFill, i, out);
      Advance(p, markIdentifiers, s, i0, out0, out);
    }
  }

  /** What one pass of the main loop does: the token at `i0` is consumed and its blanked text pushed. */
  predicate Scanned(s: Text, p: LexProfile, identFill: Byte, i0: nat, out0: Text, i: nat, out: Text)
    requires i0 < |s|
  {
    var t := TokenAt(p, s, i0);
    && i == t.end
    && if t.kind.Code? then out == out0 + [s[i0]]
       else Padded(out, out0, if t.kind.DoubleQuoted? || t.kind.BacktickQuoted? then identFill else SPACE, i - i0)
  }

  /** The body of the main loop: one pass over its cascade of branches. */
  method ScanToken(s: Text, p: LexProfile, identFill: Byte, i0: nat, out0: Text) returns (i: nat, out: Text)
    requires i0 < |s|
    ensures Scanned(s, p, identFill, i0, out0, i, out)
  {
    i, out := i0, out0;
    var n := |s|;
    var c := s[i];
    var dashComment := c == DASH && i + 1 < n && s[i + 1] == DASH
      && (!p.dashCommentNeedsSpace || i + 2 >= n || IsAsciiWhitespace(s[i + 2]) || IsAsciiControl(s[i + 2]));
    if dashComment || (p.hashComments && c == HASH) {
      assert KindAt(p, s, i) == LineComment;
      i, out := ScanLineComment(p, s, i, out);
      return;
    }
    if c == SLASH && i + 1 < n && s[i + 1] == STAR {
      if p.executableComments {
        var e := ExecutableCommentOpenerEnd(s, i);
        if e.Some? {
          assert KindAt(p, s, i) == ExecutableOpener;
          out := out + Repeat(SPACE, e.value - i);
          i := e.value;
          return;
        }
      }
      assert KindAt(p, s, i) == BlockComment;
      i, out := ScanBlockComment(p.nestedBlockComments, s, i, out);
      return;
    }
    i, out := ScanString(s, p, identFill, i, out);
  }

  /** No comment opens at `i0`. */
  predicate NoCommentAt(s: Text, p: LexProfile, i0: nat) {
    !OpensDashComment(p, s, i0) && !(p.hashComments && ByteAt(s, i0, HASH)) && !PairAt(s, i0, SLASH, STAR)
  }

  method ScanString(s: Text, p: LexProfile, identFill: Byte, i0: nat, out0: Text) returns (i: nat, out: Text)
    requires i0 < |s| && NoCommentAt(s, p, i0)
    ensures Scanned(s, p, identFill, i0, out0, i, out)
  {
    i, out := i0, out0;
    var n := |s|;
    var c := s[i];
    if p.eStrings && (c == UPPER_E || c == LOWER_E) && i + 1 < n && s[i + 1] == QUOTE
       && (i == 0 || !IsIdentContinue(s[i - 1]))
    {
      assert KindAt(p, s, i) == EscapeString;
      i, out := ScanDelimitedWith(s, i + 1, out + [SPACE], QUOTE, true, SPACE);
      PadFirst(out, out0, SPACE, i - i0);
      return;
    }
    if p.dollarQuotes && c == DOLLAR && (i == 0 || !IsIdentContinue(s[i - 1])) {
      var bodyStart := DollarQuoteTagEnd(s, i);
      if bodyStart.Some? {
        assert KindAt(p, s, i) == DollarString;
        i, out := ScanDollarString(s, i, s[i..bodyStart.value], out);
        return;
      }
    }
    i, out := ScanQuoted(s, p, identFill, i, out);
  }

  /** Neither an escape string nor a dollar string opens at `i0`. */
  predicate NoStringAt(s: Text, p: LexProfile, i0: nat) {
    !(p.eStrings && OpensEscapeString(s, i0)) && !(p.dollarQuotes && OpensDollarString(s, i0))
  }

  method ScanQuoted(s: Text, p: LexProfile, identFill: Byte, i0: nat, out0: Text) returns (i: nat, out: Text)
    requires i0 < |s| && NoCommentAt(s, p, i0) && NoStringAt(s, p, i0)
    ensures Scanned(s, p, identFill, i0, out0, i, out)
  {
    i, out := i0, out0;
    var c := s[i];
    if p.tripleQuotes && (c == QUOTE || c == DOUBLE_QUOTE) && i + 2 < |s| && s[i + 1] == c && s[i + 2] == c {
      assert KindAt(p, s, i) == TripleString;
      var backslash := if c == QUOTE then p.backslashInSingle else p.backslashInDouble;
      i, out := ScanTripleString(s, i, backslash, out);
      return;
    }
    assert KindAt(p, s, i) == PlainKind(p, c);
    i, out := ScanPlain(s, p, identFill, i, out);
  }

  /** The kind of a token that only its first byte decides. */
  function PlainKind(p: LexProfile, c: Byte): TokenKind {
    if c == QUOTE then SingleQuoted
    else if c == DOUBLE_QUOTE then DoubleQuoted
    else if c == BACKTICK then BacktickQuoted
    else if p.bracketIdentifiers && c == OPEN_BRACKET then Bracketed
    else Code
  }

  method ScanPlain(s: Text, p: LexProfile, identFill: Byte, i0: nat, out0: Text) returns (i: nat, out: Text)
    requires i0 < |s|
    requires KindAt(p, s, i0) == PlainKind(p, s[i0])
    ensures Scanned(s, p, identFill, i0, out0, i, out)
  {
    var c := s[i0];
    if c == QUOTE {
      i, out := ScanDelimitedWith(s, i0, out0, c, p.backslashInSingle, SPACE);
    } else if c == DOUBLE_QUOTE {
      i, out := ScanDelimitedWith(s, i0, out0, c, p.backslashInDouble, identFill);
    } else if c == BACKTICK {
      i, out := ScanDelimitedWith(s, i0, out0, c, p.backslashInBacktick, identFill);
    } else if c == OPEN_BRACKET && p.bracketIdentifiers {
      i, out := ScanDelimitedWith(s, i0, out0, CLOSE_BRACKET, false, SPACE);
    } else {
      i, out := i0 + 1, out0 + [c];
    }
  }
}
