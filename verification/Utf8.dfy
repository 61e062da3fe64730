/** UTF-8 well-formedness, section 4 of RFC 3629, and that blanking a statement keeps it. */
module Utf8 {
  import opened Bytes
  import opened LexProfiles
  import opened Tokenizer

  predicate TailAt(t: Text, i: nat) { i < |t| && 0x80 <= t[i] <= 0xBF }

  predicate SecondOfThree(a: Byte, b: Byte) {
    || (a == 0xE0 && 0xA0 <= b <= 0xBF)
    || (0xE1 <= a <= 0xEC && 0x80 <= b <= 0xBF)
    || (a == 0xED && 0x80 <= b <= 0x9F)
    || (0xEE <= a <= 0xEF && 0x80 <= b <= 0xBF)
  }

  predicate SecondOfFour(a: Byte, b: Byte) {
    || (a == 0xF0 && 0x90 <= b <= 0xBF)
    || (0xF1 <= a <= 0xF3 && 0x80 <= b <= 0xBF)
    || (a == 0xF4 && 0x80 <= b <= 0x8F)
  }

  /** Length of the well-formed character `t` starts with; 0 when it starts with none. */
  function CharLen(t: Text): (n: nat)
    requires t != []
    ensures n <= |t|
    ensures n >= 2 ==> forall k | 0 <= k < n :: t[k] >= 0x80
    ensures n == 1 <==> IsAscii(t[0])
  {
    if IsAscii(t[0]) then 1
    else if 0xC2 <= t[0] <= 0xDF && TailAt(t, 1) then 2
    else if |t| >= 3 && SecondOfThree(t[0], t[1]) && TailAt(t, 2) then 3
    else if |t| >= 4 && SecondOfFour(t[0], t[1]) && TailAt(t, 2) && TailAt(t, 3) then 4
    else 0
  }

  predicate ValidUtf8(t: Text) {
    t == [] || (CharLen(t) > 0 && ValidUtf8(t[CharLen(t)..]))
  }

  // ---------- What the valid texts are ----------

  /** A Unicode scalar value, as section 3 of RFC 3629 has it: no code point above 10FFFF, no surrogate. */
  predicate IsScalar(c: int) { 0 <= c <= 0x10FFFF && !(0xD800 <= c <= 0xDFFF) }

  /** The bytes of one scalar value. */
  function Encode(c: int): (t: Text)
    requires IsScalar(c)
    ensures t != []
  {
    if c < 0x80 then [c]
    else if c < 0x800 then [0xC0 + c / 64, 0x80 + c % 64]
    else if c < 0x10000 then [0xE0 + c / 4096, 0x80 + c / 64 % 64, 0x80 + c % 64]
    else [0xF0 + c / 262144, 0x80 + c / 4096 % 64, 0x80 + c / 64 % 64, 0x80 + c % 64]
  }

  function EncodeAll(cs: seq<int>): Text
    requires forall k | 0 <= k < |cs| :: IsScalar(cs[k])
  {
    if cs == [] then [] else Encode(cs[0]) + EncodeAll(cs[1..])
  }

  lemma TwoByteLead(c: int)
    requires 0x80 <= c < 0x800
    ensures 0xC2 <= 0xC0 + c / 64 <= 0xDF && 0x80 <= 0x80 + c % 64 <= 0xBF
  {
  }

  lemma ThreeByteLead(c: int, a: Byte, b: Byte)
    requires 0x800 <= c < 0x10000 && IsScalar(c) && a == 0xE0 + c / 4096 && b == 0x80 + c / 64 % 64
    ensures SecondOfThree(a, b) && 0x80 <= 0x80 + c % 64 <= 0xBF
  {
  }

  lemma FourByteLead(c: int, a: Byte, b: Byte)
    requires 0x10000 <= c <= 0x10FFFF && a == 0xF0 + c / 262144 && b == 0x80 + c / 4096 % 64
    ensures SecondOfFour(a, b) && 0x80 <= 0x80 + c / 64 % 64 <= 0xBF && 0x80 <= 0x80 + c % 64 <= 0xBF
  {
  }

  /** Some text starts with the character `e`. */
  lemma StartsWithChar(e: Text, rest: Text)
    requires e != [] && CharLen(e) == |e|
    ensures CharLen(e + rest) == |e|
  {
    assert forall k | 0 <= k < |e| :: (e + rest)[k] == e[k];
  }

  lemma CharOfEncoded(c: int)
    requires IsScalar(c)
    ensures CharLen(Encode(c)) == |Encode(c)|
  {
    if 0x80 <= c < 0x800 {
      TwoByteLead(c);
    } else if 0x800 <= c < 0x10000 {
      ThreeByteLead(c, 0xE0 + c / 4096, 0x80 + c / 64 % 64);
    } else if c >= 0x10000 {
      FourByteLead(c, 0xF0 + c / 262144, 0x80 + c / 4096 % 64);
    }
  }

  lemma DecodeTwo(a: int, b: int, c: int)
    requires 0xC2 <= a <= 0xDF && 0x80 <= b <= 0xBF && c == (a - 0xC0) * 64 + (b - 0x80)
    ensures 0x80 <= c < 0x800 && a == 0xC0 + c / 64 && b == 0x80 + c % 64
  {
  }

  lemma DecodeThree(a: Byte, b: Byte, d: int, c: int)
    requires SecondOfThree(a, b) && 0x80 <= d <= 0xBF
    requires c == ((a as int - 0xE0) * 64 + (b as int - 0x80)) * 64 + (d - 0x80)
    ensures 0x800 <= c < 0x10000 && IsScalar(c)
    ensures a == 0xE0 + c / 4096 && b == 0x80 + c / 64 % 64 && d == 0x80 + c % 64
  {
    assert c / 64 == (a as int - 0xE0) * 64 + (b as int - 0x80);
    assert c / 4096 == c / 64 / 64;
  }

  lemma DecodeFour(a: Byte, b: Byte, d: int, e: int, c: int)
    requires SecondOfFour(a, b) && 0x80 <= d <= 0xBF && 0x80 <= e <= 0xBF
    requires c == (((a as int - 0xF0) * 64 + (b as int - 0x80)) * 64 + (d - 0x80)) * 64 + (e - 0x80)
    ensures 0x10000 <= c <= 0x10FFFF && a == 0xF0 + c / 262144
    ensures b == 0x80 + c / 4096 % 64 && d == 0x80 + c / 64 % 64 && e == 0x80 + c % 64
  {
    assert c / 64 == ((a as int - 0xF0) * 64 + (b as int - 0x80)) * 64 + (d - 0x80);
    assert c / 4096 == c / 64 / 64 == (a as int - 0xF0) * 64 + (b as int - 0x80);
    assert c / 262144 == c / 4096 / 64;
  }

  /** The scalar value that `t` starts with. */
  lemma DecodeOne(t: Text) returns (c: int)
    requires t != [] && CharLen(t) > 0
    ensures IsScalar(c) && Encode(c) == t[..CharLen(t)]
  {
    var n := CharLen(t);
    var a: int := t[0];
    if n == 1 {
      c := a;
    } else if n == 2 {
      var b: int := t[1];
      c := (a - 0xC0) * 64 + (b - 0x80);
      DecodeTwo(a, b, c);
    } else if n == 3 {
      var b: int, d: int := t[1], t[2];
      c := ((a - 0xE0) * 64 + (b - 0x80)) * 64 + (d - 0x80);
      DecodeThree(t[0], t[1], d, c);
    } else {
      var b: int, d: int, e: int := t[1], t[2], t[3];
      c := (((a - 0xF0) * 64 + (b - 0x80)) * 64 + (d - 0x80)) * 64 + (e - 0x80);
      DecodeFour(t[0], t[1], d, e, c);
    }
  }

  lemma {:induction false} EncodedIsValid(cs: seq<int>)
    requires forall k | 0 <= k < |cs| :: IsScalar(cs[k])
    ensures ValidUtf8(EncodeAll(cs))
  {
    if cs != [] {
      var head, rest := Encode(cs[0]), EncodeAll(cs[1..]);
      EncodedIsValid(cs[1..]);
      CharOfEncoded(cs[0]);
      StartsWithChar(head, rest);
      assert (head + rest)[|head|..] == rest;
    }
  }

  lemma EncodeCons(c: int, rest: seq<int>)
    requires IsScalar(c) && forall k | 0 <= k < |rest| :: IsScalar(rest[k])
    ensures forall k | 0 <= k <= |rest| :: IsScalar(([c] + rest)[k])
    ensures EncodeAll([c] + rest) == Encode(c) + EncodeAll(rest)
  {
    assert ([c] + rest)[1..] == rest;
  }

  lemma {:induction false} ValidIsEncoded(t: Text) returns (cs: seq<int>)
    requires ValidUtf8(t)
    ensures forall k | 0 <= k < |cs| :: IsScalar(cs[k])
    ensures t == EncodeAll(cs)
  {
    cs := [];
    if t != [] {
      var n := CharLen(t);
      var c := DecodeOne(t);
      var rest := ValidIsEncoded(t[n..]);
      cs := [c] + rest;
      EncodeCons(c, rest);
      assert t == t[..n] + t[n..];
    }
  }

  ghost predicate IsEncoding(t: Text) {
    exists cs: seq<int> | forall k | 0 <= k < |cs| :: IsScalar(cs[k]) :: EncodeAll(cs) == t
  }

  /** Valid is exactly what encodes some scalar values. */
  lemma ValidExactly(t: Text)
    ensures ValidUtf8(t) <==> IsEncoding(t)
  {
    if ValidUtf8(t) {
      var cs := ValidIsEncoded(t);
    }
    if IsEncoding(t) {
      var cs: seq<int> :| (forall k | 0 <= k < |cs| :: IsScalar(cs[k])) && EncodeAll(cs) == t;
      EncodedIsValid(cs);
    }
  }

  // ---------- Cutting ----------

  /** An ASCII byte is always a character of its own: valid text can be cut before and after it. */
  lemma {:induction false} Resync(t: Text, k: nat)
    requires ValidUtf8(t) && k < |t| && IsAscii(t[k])
    ensures ValidUtf8(t[k..]) && ValidUtf8(t[k + 1..])
  {
    var n := CharLen(t);
    if k == 0 {
      assert t[0..] == t;
    } else {
      assert k >= n;
      Resync(t[n..], k - n);
      assert t[n..][k - n..] == t[k..];
      assert t[n..][k - n + 1..] == t[k + 1..];
    }
  }

  lemma {:induction false} PrependAscii(fill: Text, t: Text)
    requires (forall k | 0 <= k < |fill| :: IsAscii(fill[k])) && ValidUtf8(t)
    ensures ValidUtf8(fill + t)
  {
    if fill == [] {
      assert fill + t == t;
    } else {
      PrependAscii(fill[1..], t);
      assert (fill + t)[1..] == fill[1..] + t;
    }
  }

  predicate StartsAscii(text: Text) { text != [] && IsAscii(text[0]) }

  predicate EndsAscii(text: Text) { text != [] && IsAscii(text[|text| - 1]) }

  /** A lexeme that is not code starts at an ASCII byte and ends after one, before one, or at the end. */
  predicate CutAtAscii(x: Lexeme, rest: seq<Lexeme>) {
    if x.kind.Code? then |x.text| == 1
    else StartsAscii(x.text) && (EndsAscii(x.text) || rest == [] || StartsAscii(rest[0].text))
  }

  predicate CutsAtAscii(lexemes: seq<Lexeme>) {
    lexemes == [] || (CutAtAscii(lexemes[0], lexemes[1..]) && CutsAtAscii(lexemes[1..]))
  }

  lemma TokenCutsAtAscii(p: LexProfile, s: Text, i: nat)
    requires i < |s| && KindAt(p, s, i) != Code
    ensures var e := TokenAt(p, s, i).end;
            IsAscii(s[i]) && (IsAscii(s[e - 1]) || e == |s| || IsAscii(s[e]))
  {
  }

  lemma {:induction false} TokensCutAtAscii(p: LexProfile, s: Text, i: nat)
    requires i <= |s|
    ensures CutsAtAscii(Tokenize(p, s, i))
    ensures i < |s| ==> Tokenize(p, s, i) != [] && StartsAscii(Tokenize(p, s, i)[0].text) == IsAscii(s[i])
    ensures i == |s| ==> Tokenize(p, s, i) == []
    decreases |s| - i
  {
    if i < |s| {
      var t := TokenAt(p, s, i);
      if t.kind != Code {
        TokenCutsAtAscii(p, s, i);
      }
      TokensCutAtAscii(p, s, t.end);
      assert Tokenize(p, s, i)[1..] == Tokenize(p, s, t.end);
    }
  }

  /** The bytes of a multi-byte character are code lexemes, and so are copied. */
  lemma {:induction false} NonAsciiIsCopied(lexemes: seq<Lexeme>, mark: bool, n: nat)
    requires CutsAtAscii(lexemes)
    requires n <= |Concat(lexemes)| && forall k | 0 <= k < n :: Concat(lexemes)[k] >= 0x80
    ensures n <= |lexemes| && CutsAtAscii(lexemes[n..])
    ensures BlankAll(lexemes, mark) == Concat(lexemes)[..n] + BlankAll(lexemes[n..], mark)
    ensures Concat(lexemes)[n..] == Concat(lexemes[n..])
  {
    if n > 0 {
      var x, rest := lexemes[0], lexemes[1..];
      assert Concat(lexemes)[0] == x.text[0];
      assert x.kind.Code?;
      assert forall k | 0 <= k < n - 1 :: Concat(rest)[k] == Concat(lexemes)[k + 1];
      NonAsciiIsCopied(rest, mark, n - 1);
      assert rest[n - 1..] == lexemes[n..];
      ConsCopied(x.text, Concat(rest), BlankAll(rest, mark), BlankAll(lexemes[n..], mark), n - 1);
    }
  }

  lemma ConsCopied(x: Text, concat: Text, blank: Text, tail: Text, n: nat)
    requires |x| == 1 && n <= |concat| && blank == concat[..n] + tail
    ensures x + blank == (x + concat)[..n + 1] + tail
    ensures (x + concat)[n + 1..] == concat[n..]
  {
  }

  lemma PrependChar(r: Text, n: nat, t: Text)
    requires r != [] && n == CharLen(r) > 0 && ValidUtf8(t)
    ensures ValidUtf8(r[..n] + t)
  {
    var u := r[..n] + t;
    assert forall k | 0 <= k < n :: u[k] == r[k];
    assert CharLen(u) == n;
    assert u[n..] == t;
  }

  /** What follows a lexeme that is not code is valid. */
  lemma RestIsValid(head: Text, tail: Text)
    requires head != [] && ValidUtf8(head + tail)
    requires EndsAscii(head) || tail == [] || StartsAscii(tail)
    ensures ValidUtf8(tail)
  {
    if EndsAscii(head) {
      Resync(head + tail, |head| - 1);
      assert (head + tail)[|head|..] == tail;
    } else if tail != [] {
      Resync(head + tail, |head|);
      assert (head + tail)[|head|..] == tail;
    }
  }

  lemma ConcatStart(lexemes: seq<Lexeme>)
    requires CutsAtAscii(lexemes) && lexemes != []
    ensures Concat(lexemes) != [] && StartsAscii(Concat(lexemes)) == StartsAscii(lexemes[0].text)
  {
  }

  lemma {:induction false} BlankAllKeepsUtf8(lexemes: seq<Lexeme>, mark: bool)
    requires CutsAtAscii(lexemes) && ValidUtf8(Concat(lexemes))
    ensures ValidUtf8(BlankAll(lexemes, mark))
    decreases |lexemes|
  {
    if lexemes != [] {
      var x, rest := lexemes[0], lexemes[1..];
      var whole := Concat(lexemes);
      ConcatStart(lexemes);
      if x.kind.Code? {
        var n := CharLen(whole);
        if n == 1 {
          assert whole[1..] == Concat(rest) && whole[..1] == x.text;
          BlankAllKeepsUtf8(rest, mark);
          PrependChar(whole, 1, BlankAll(rest, mark));
        } else {
          NonAsciiIsCopied(lexemes, mark, n);
          BlankAllKeepsUtf8(lexemes[n..], mark);
          PrependChar(whole, n, BlankAll(lexemes[n..], mark));
        }
      } else {
        if rest != [] {
          ConcatStart(rest);
        }
        RestIsValid(x.text, Concat(rest));
        BlankAllKeepsUtf8(rest, mark);
        PrependAscii(Blank(x.kind, x.text, mark), BlankAll(rest, mark));
      }
    }
  }

  /** The blanked buffer of a valid statement is valid: the fallback on invalid UTF-8 is never taken. */
  lemma StripKeepsUtf8(p: LexProfile, mark: bool, s: Text)
    requires ValidUtf8(s)
    ensures ValidUtf8(Strip(p, mark, s))
  {
    TokensCutAtAscii(p, s, 0);
    TokensPartition(p, s, 0);
    assert s[0..] == s;
    BlankAllKeepsUtf8(Tokenize(p, s, 0), mark);
  }
}
