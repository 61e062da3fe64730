/** Bytes and the ASCII character classes the SQL lexer and classifier use. */
module Bytes {
  type Byte = b: int | 0 <= b < 256
  type Text = seq<Byte>

  const NUL: Byte := 0
  const IDENT_MARK: Byte := 1
  const TAB: Byte := 9
  const LF: Byte := 10
  const FORM_FEED: Byte := 12
  const CR: Byte := 13
  const SPACE: Byte := 32
  const BANG: Byte := 33
  const DOUBLE_QUOTE: Byte := 34
  const HASH: Byte := 35
  const DOLLAR: Byte := 36
  const QUOTE: Byte := 39
  const OPEN_PAREN: Byte := 40
  const CLOSE_PAREN: Byte := 41
  const STAR: Byte := 42
  const COMMA: Byte := 44
  const DASH: Byte := 45
  const DOT: Byte := 46
  const SLASH: Byte := 47
  const SEMICOLON: Byte := 59
  const EQUALS: Byte := 61
  const UPPER_E: Byte := 69
  const UPPER_M: Byte := 77
  const OPEN_BRACKET: Byte := 91
  const BACKSLASH: Byte := 92
  const CLOSE_BRACKET: Byte := 93
  const UNDERSCORE: Byte := 95
  const BACKTICK: Byte := 96
  const LOWER_E: Byte := 101

  predicate IsDigit(b: Byte) { 48 <= b <= 57 }

  predicate IsAlpha(b: Byte) { 65 <= b <= 90 || 97 <= b <= 122 }

  predicate IsAlphanumeric(b: Byte) { IsDigit(b) || IsAlpha(b) }

  predicate IsAscii(b: Byte) { b < 128 }

  /** The bytes Rust's `u8::is_ascii_whitespace` accepts: vertical tab is not one. */
  predicate IsAsciiWhitespace(b: Byte) { b == SPACE || b == TAB || b == LF || b == FORM_FEED || b == CR }

  predicate IsAsciiControl(b: Byte) { b < 32 || b == 127 }

  /** The ASCII part of Rust's `char::is_whitespace`, vertical tab included. */
  predicate IsWhite(b: Byte) { b == SPACE || TAB <= b <= CR }

  /** A byte that belongs to a keyword-like word. */
  predicate IsWordByte(b: Byte) { IsAlphanumeric(b) || b == UNDERSCORE }

  /** A byte that can continue an unquoted identifier. */
  predicate IsIdentContinue(b: Byte) { IsAlphanumeric(b) || b == UNDERSCORE || b == DOLLAR || b >= 128 }

  function ToUpperByte(b: Byte): Byte { if 97 <= b <= 122 then b - 32 else b }

  function AsciiByte(c: char): Byte { if (c as int) < 128 then c as int else SPACE }

  /** The bytes of an ASCII string constant. */
  function Ascii(s: string): (t: Text)
    ensures |t| == |s|
    ensures forall i | 0 <= i < |s| :: t[i] == AsciiByte(s[i])
  {
    seq(|s|, i requires 0 <= i < |s| => AsciiByte(s[i]))
  }

  /** `n` copies of `b`. */
  function Repeat(b: Byte, n: nat): (t: Text)
    ensures |t| == n
    ensures forall i | 0 <= i < n :: t[i] == b
  {
    seq(n, _ => b)
  }

  /** Which bytes the names above stand for. */
  lemma NamedBytes()
    ensures [BANG, DOUBLE_QUOTE, HASH, DOLLAR, QUOTE, OPEN_PAREN, CLOSE_PAREN, STAR, COMMA, DASH, DOT, SLASH] ==
            Ascii("!\"#$'()*,-./")
    ensures [SEMICOLON, EQUALS, UPPER_E, UPPER_M, LOWER_E] == Ascii(";=EMe")
    ensures [OPEN_BRACKET, BACKSLASH, CLOSE_BRACKET, UNDERSCORE, BACKTICK] == Ascii("[\\]_`")
    ensures [NUL, TAB, LF, CR, SPACE] == Ascii("\0\t\n\r ")
  {
  }

  /** Which bytes each class has. Only the vertical tab is white space for one test and not for the other. */
  lemma CharacterClasses(b: Byte)
    ensures IsDigit(b) <==> '0' <= b as char <= '9'
    ensures IsAlpha(b) <==> 'a' <= b as char <= 'z' || 'A' <= b as char <= 'Z'
    ensures IsAlphanumeric(b) <==> IsDigit(b) || IsAlpha(b)
    ensures IsWordByte(b) <==> IsAlphanumeric(b) || b as char == '_'
    ensures IsIdentContinue(b) <==> IsWordByte(b) || b as char == '$' || b >= 0x80
    ensures IsAsciiWhitespace(b) <==> b in {9, 10, 12, 13, 32}
    ensures IsWhite(b) <==> IsAsciiWhitespace(b) || b == 11
    ensures IsAsciiControl(b) <==> b <= 0x1F || b == 0x7F
    ensures ToUpperByte(b) as char == if 'a' <= b as char <= 'z' then b as char - 32 as char else b as char
  {
  }
}
