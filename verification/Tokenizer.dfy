/**
 The tokenization that blanking a SQL statement is defined by.

 Functions whose name ends in `End` take the position just after an opener and return the position just
 after the construct it opened, or the end of the statement when the construct is never closed.
 */
module Tokenizer {
  import opened Wrappers
  import opened Bytes
  import opened LexProfiles

  datatype TokenKind =
    | Code
    | LineComment
    | BlockComment
    | ExecutableOpener
    | EscapeString
    | DollarString
    | TripleString
    | SingleQuoted
    | DoubleQuoted
    | BacktickQuoted
    | Bracketed

  /** A token runs from the position it was found at up to `end`. */
  datatype Token = Token(kind: TokenKind, end: nat)

  predicate ByteAt(s: Text, i: nat, b: Byte) { i < |s| && s[i] == b }

  predicate PairAt(s: Text, i: nat, a: Byte, b: Byte) { i + 1 < |s| && s[i] == a && s[i + 1] == b }

  predicate TextAt(s: Text, i: nat, t: Text) {
    i + |t| <= |s| && forall k | 0 <= k < |t| :: s[i + k] == t[k]
  }

  /** An identifier cannot be running into position `i`. */
  predicate BoundaryAt(s: Text, i: nat)
    requires i <= |s|
  {
    i == 0 || !IsIdentContinue(s[i - 1])
  }

  /** `--`, which MySQL reads as a comment only before whitespace, a control byte or the end. */
  predicate OpensDashComment(p: LexProfile, s: Text, i: nat) {
    && PairAt(s, i, DASH, DASH)
    && (!p.dashCommentNeedsSpace || i + 2 >= |s| || IsAsciiWhitespace(s[i + 2]) || IsAsciiControl(s[i + 2]))
  }

  predicate EndsLine(p: LexProfile, b: Byte) { b == LF || (p.lineCommentEndsAtCr && b == CR) }

  /** The line end that closes a line comment is not part of it. */
  function LineCommentEnd(p: LexProfile, s: Text, i: nat): (e: nat)
    requires i <= |s|
    ensures i <= e <= |s|
    ensures e < |s| ==> EndsLine(p, s[e])
    decreases |s| - i
  {
    if i == |s| || EndsLine(p, s[i]) then i else LineCommentEnd(p, s, i + 1)
  }

  /** Where a block comment that is `depth` levels deep at `i` ends. */
  function BlockCommentEnd(nested: bool, depth: nat, s: Text, i: nat): (e: nat)
    requires i <= |s| && depth >= 1
    ensures i <= e <= |s|
    ensures e < |s| ==> e >= i + 2 && PairAt(s, e - 2, STAR, SLASH)
    decreases |s| - i
  {
    if i == |s| then i
    else if nested && PairAt(s, i, SLASH, STAR) then BlockCommentEnd(nested, depth + 1, s, i + 2)
    else if PairAt(s, i, STAR, SLASH) then
      if depth == 1 then i + 2 else BlockCommentEnd(nested, depth - 1, s, i + 2)
    else BlockCommentEnd(nested, depth, s, i + 1)
  }

  function DigitRunEnd(s: Text, i: nat): (e: nat)
    requires i <= |s|
    ensures i <= e <= |s|
    ensures forall k | i <= k < e :: IsDigit(s[k])
    ensures e < |s| ==> !IsDigit(s[e])
    decreases |s| - i
  {
    if i == |s| || !IsDigit(s[i]) then i else DigitRunEnd(s, i + 1)
  }

  /** The end of an executable comment opener at `i`: slash, star, an optional `M`, a bang, a version number. */
  function ExecutableOpenerEnd(s: Text, i: nat): (e: Option<nat>)
    ensures e.Some? ==> i + 3 <= e.value <= |s| && IsAscii(s[e.value - 1])
  {
    if PairAt(s, i, SLASH, STAR) && ByteAt(s, i + 2, BANG) then Some(DigitRunEnd(s, i + 3))
    else if PairAt(s, i, SLASH, STAR) && PairAt(s, i + 2, UPPER_M, BANG) then Some(DigitRunEnd(s, i + 4))
    else None
  }

  predicate IsTagStart(b: Byte) { IsAlpha(b) || b == UNDERSCORE || b >= 128 }

  predicate IsTagContinue(b: Byte) { IsAlphanumeric(b) || b == UNDERSCORE || b >= 128 }

  function TagRunEnd(s: Text, i: nat): (e: nat)
    requires i <= |s|
    ensures i <= e <= |s|
    ensures forall k | i <= k < e :: IsTagContinue(s[k])
    ensures e < |s| ==> !IsTagContinue(s[e])
    decreases |s| - i
  {
    if i == |s| || !IsTagContinue(s[i]) then i else TagRunEnd(s, i + 1)
  }

  /** The end of the dollar-quote delimiter `$$` or `$tag$` at `i`, if there is one. */
  function DollarTagEnd(s: Text, i: nat): (e: Option<nat>)
    requires ByteAt(s, i, DOLLAR)
    ensures e.Some? ==> i + 2 <= e.value <= |s| && s[e.value - 1] == DOLLAR
  {
    var j := if i + 1 < |s| && IsTagStart(s[i + 1]) then TagRunEnd(s, i + 2) else i + 1;
    if ByteAt(s, j, DOLLAR) then Some(j + 1) else None
  }

  function DollarBodyEnd(delim: Text, s: Text, i: nat): (e: nat)
    requires i <= |s| && delim != []
    ensures i <= e <= |s|
    ensures e < |s| ==> e >= i + |delim| && TextAt(s, e - |delim|, delim)
    decreases |s| - i
  {
    if i == |s| then i
    else if TextAt(s, i, delim) then i + |delim|
    else DollarBodyEnd(delim, s, i + 1)
  }

  predicate TripleAt(s: Text, i: nat, b: Byte) { i + 2 < |s| && s[i] == b && s[i + 1] == b && s[i + 2] == b }

  function TripleBodyEnd(quote: Byte, backslash: bool, s: Text, i: nat): (e: nat)
    requires i <= |s|
    ensures i <= e <= |s|
    ensures e < |s| ==> e >= i + 3 && TripleAt(s, e - 3, quote)
    decreases |s| - i
  {
    if i == |s| then i
    else if backslash && s[i] == BACKSLASH && i + 1 < |s| then TripleBodyEnd(quote, backslash, s, i + 2)
    else if TripleAt(s, i, quote) then i + 3
    else TripleBodyEnd(quote, backslash, s, i + 1)
  }

  /** A doubled closing byte never closes a quoted run; with `backslash`, neither does an escaped one. */
  function DelimitedEnd(close: Byte, backslash: bool, s: Text, i: nat): (e: nat)
    requires i <= |s|
    ensures i <= e <= |s|
    ensures e < |s| ==> e >= i + 1 && s[e - 1] == close && s[e] != close
    decreases |s| - i
  {
    if i == |s| then i
    else if backslash && s[i] == BACKSLASH && i + 1 < |s| then DelimitedEnd(close, backslash, s, i + 2)
    else if PairAt(s, i, close, close) then DelimitedEnd(close, backslash, s, i + 2)
    else if s[i] == close then i + 1
    else DelimitedEnd(close, backslash, s, i + 1)
  }

  predicate OpensEscapeString(s: Text, i: nat) {
    (PairAt(s, i, UPPER_E, QUOTE) || PairAt(s, i, LOWER_E, QUOTE)) && BoundaryAt(s, i)
  }

  predicate OpensDollarString(s: Text, i: nat) {
    ByteAt(s, i, DOLLAR) && BoundaryAt(s, i) && DollarTagEnd(s, i).Some?
  }

  predicate OpensTripleString(s: Text, i: nat) { TripleAt(s, i, QUOTE) || TripleAt(s, i, DOUBLE_QUOTE) }

  /** The kind of the token at `i`; the order of the cases is the lexer's. */
  function KindAt(p: LexProfile, s: Text, i: nat): (kind: TokenKind)
    requires i < |s|
  {
    if OpensDashComment(p, s, i) || (p.hashComments && s[i] == HASH) then LineComment
    else if PairAt(s, i, SLASH, STAR) then
      if p.executableComments && ExecutableOpenerEnd(s, i).Some? then ExecutableOpener else BlockComment
    else if p.eStrings && OpensEscapeString(s, i) then EscapeString
    else if p.dollarQuotes && OpensDollarString(s, i) then DollarString
    else if p.tripleQuotes && OpensTripleString(s, i) then TripleString
    else if s[i] == QUOTE then SingleQuoted
    else if s[i] == DOUBLE_QUOTE then DoubleQuoted
    else if s[i] == BACKTICK then BacktickQuoted
    else if p.bracketIdentifiers && s[i] == OPEN_BRACKET then Bracketed
    else Code
  }

  /** Whether a backslash escapes the next byte in a string that `quote` opens. */
  predicate BackslashIn(p: LexProfile, quote: Byte) {
    if quote == QUOTE then p.backslashInSingle
    else if quote == DOUBLE_QUOTE then p.backslashInDouble
    else p.backslashInBacktick
  }

  function TokenAt(p: LexProfile, s: Text, i: nat): (t: Token)
    requires i < |s|
    ensures i < t.end <= |s|
    ensures t.kind.Code? ==> t.end == i + 1
  {
    var kind := KindAt(p, s, i);
    Token(kind,
          match kind
          case Code => i + 1
          case LineComment => LineCommentEnd(p, s, i)
          case BlockComment => BlockCommentEnd(p.nestedBlockComments, 1, s, i + 2)
          case ExecutableOpener => ExecutableOpenerEnd(s, i).value
          case EscapeString => DelimitedEnd(QUOTE, true, s, i + 2)
          case DollarString =>
            var bodyStart := DollarTagEnd(s, i).value;
            DollarBodyEnd(s[i..bodyStart], s, bodyStart)
          case TripleString => TripleBodyEnd(s[i], BackslashIn(p, s[i]), s, i + 3)
          case SingleQuoted | DoubleQuoted | BacktickQuoted => DelimitedEnd(s[i], BackslashIn(p, s[i]), s, i + 1)
          case Bracketed => DelimitedEnd(CLOSE_BRACKET, false, s, i + 1))
  }

  /** The byte a token is overwritten with: a mark for quoted identifiers when asked for, else a space. */
  function Fill(kind: TokenKind, mark: bool): Byte {
    if mark && (kind.DoubleQuoted? || kind.BacktickQuoted?) then IDENT_MARK else SPACE
  }

  /** What is left of a token's text: code is copied, everything else is overwritten. */
  function Blank(kind: TokenKind, text: Text, mark: bool): (out: Text)
    ensures |out| == |text|
  {
    if kind.Code? then text else Repeat(Fill(kind, mark), |text|)
  }

  datatype Lexeme = Lexeme(kind: TokenKind, text: Text)

  function Concat(lexemes: seq<Lexeme>): Text {
    if lexemes == [] then [] else lexemes[0].text + Concat(lexemes[1..])
  }

  function BlankAll(lexemes: seq<Lexeme>, mark: bool): (out: Text)
    ensures |out| == |Concat(lexemes)|
  {
    if lexemes == [] then [] else Blank(lexemes[0].kind, lexemes[0].text, mark) + BlankAll(lexemes[1..], mark)
  }

  /** The one tokenization of `s` from the token boundary `i` on. */
  function Tokenize(p: LexProfile, s: Text, i: nat): (lexemes: seq<Lexeme>)
    requires i <= |s|
    decreases |s| - i
  {
    if i == |s| then []
    else
      var t := TokenAt(p, s, i);
      [Lexeme(t.kind, s[i..t.end])] + Tokenize(p, s, t.end)
  }

  /** The tokens concatenate back to the text: no byte is lost or read twice. */
  lemma {:induction false} TokensPartition(p: LexProfile, s: Text, i: nat)
    requires i <= |s|
    ensures Concat(Tokenize(p, s, i)) == s[i..]
    decreases |s| - i
  {
    if i < |s| {
      var t := TokenAt(p, s, i);
      TokensPartition(p, s, t.end);
      assert s[i..] == s[i..t.end] + s[t.end..];
    }
  }

  /** `s` from the token boundary `i` on, with every literal, comment and quoted identifier overwritten. */
  function StripFrom(p: LexProfile, mark: bool, s: Text, i: nat): (out: Text)
    requires i <= |s|
    ensures |out| == |s| - i
  {
    TokensPartition(p, s, i);
    BlankAll(Tokenize(p, s, i), mark)
  }

  /** The whole statement, stripped. */
  function Strip(p: LexProfile, mark: bool, s: Text): (out: Text)
    ensures |out| == |s|
  {
    StripFrom(p, mark, s, 0)
  }
}
