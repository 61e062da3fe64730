/** Quoting by doubling, and that the lexer reads a quoted name or value back as exactly one token. */
module SqlQuoting {
  import opened Wrappers
  import opened Bytes
  import opened LexProfiles
  import opened Tokenizer

  /** `s` with every occurrence of `pat`, found left to right, replaced by two of them. */
  function Doubled(s: Text, pat: Text): Text {
    if pat == [] || |s| < |pat| then s
    else if pat <= s then pat + pat + Doubled(s[|pat|..], pat)
    else [s[0]] + Doubled(s[1..], pat)
  }

  /** The original takes any quote string; an empty one leaves the name as it is. */
  function QuoteIdentifier(name: Text, quote: Text): Text { quote + Doubled(name, quote) + quote }

  /** A string literal in the standard style: single quotes, embedded ones doubled. */
  function EscapeSqlString(s: Text): Text { QuoteIdentifier(s, [QUOTE]) }

  function TableRef(table: Text, schema: Option<Text>, quote: Text): Text {
    match schema
    case Some(s) => QuoteIdentifier(s, quote) + [DOT] + QuoteIdentifier(table, quote)
    case None => QuoteIdentifier(table, quote)
  }

  /** The inverse of doubling a quote. */
  function Undoubled(t: Text, quote: Text): Text {
    if quote == [] || t == [] then t
    else if quote + quote <= t then quote + Undoubled(t[2 * |quote|..], quote)
    else [t[0]] + Undoubled(t[1..], quote)
  }

  function Unquoted(t: Text, quote: Text): Text
    requires |t| >= 2 * |quote|
  {
    Undoubled(t[|quote|..|t| - |quote|], quote)
  }

  lemma DoubledStep(name: Text, q: Byte)
    requires name != []
    ensures Doubled(name, [q]) == (if name[0] == q then [q, q] else [name[0]]) + Doubled(name[1..], [q])
  {
    assert name[0] == q ==> name == [q] + name[1..];
    assert [q] + [q] == [q, q];
  }

  /** As far as the quote reaches, doubling a name leaves its start alone. */
  lemma {:induction false} DoubledStart(name: Text, quote: Text, n: nat)
    requires n <= |quote| && n <= |name|
    ensures |Doubled(name, quote)| >= |name| && Doubled(name, quote)[..n] == name[..n]
    decreases |name|
  {
    if quote == [] || |name| < |quote| {
    } else if quote <= name {
      DoubledStart(name[|quote|..], quote, 0);
      assert name[..n] == quote[..n];
    } else {
      DoubledStart(name[1..], quote, if n > 0 then n - 1 else 0);
      assert n > 0 ==> name[..n] == [name[0]] + name[1..][..n - 1];
    }
  }

  lemma {:induction false} ShortStays(t: Text, quote: Text)
    requires |t| < 2 * |quote|
    ensures Undoubled(t, quote) == t
  {
    if t != [] {
      ShortStays(t[1..], quote);
    }
  }

  lemma {:induction false} UndoubledDoubled(name: Text, quote: Text)
    ensures Undoubled(Doubled(name, quote), quote) == name
    decreases |name|
  {
    var d := Doubled(name, quote);
    if quote == [] {
    } else if |name| < |quote| {
      ShortStays(name, quote);
    } else if quote <= name {
      UndoubledDoubled(name[|quote|..], quote);
      assert d[2 * |quote|..] == Doubled(name[|quote|..], quote);
      assert d[..2 * |quote|] == quote + quote;
    } else {
      UndoubledDoubled(name[1..], quote);
      DoubledStart(name, quote, |quote|);
      assert d[..|quote|] == name[..|quote|] != quote;
      assert (quote + quote)[..|quote|] == quote;
      assert d[1..] == Doubled(name[1..], quote);
    }
  }

  /** Undoubling what is between the quotes gives the name back, whatever the quote is. */
  lemma UnquoteRoundTrip(name: Text, quote: Text)
    ensures Unquoted(QuoteIdentifier(name, quote), quote) == name
  {
    var t := QuoteIdentifier(name, quote);
    assert t[|quote|..|t| - |quote|] == Doubled(name, quote);
    UndoubledDoubled(name, quote);
  }

  // ---------- Scanning a quoted body ----------

  lemma TextAtSplit(s: Text, i: nat, a: Text, b: Text)
    ensures TextAt(s, i, a + b) <==> TextAt(s, i, a) && TextAt(s, i + |a|, b)
  {
    if TextAt(s, i, a + b) {
      forall k | 0 <= k < |a|
        ensures s[i + k] == a[k]
      {
        assert (a + b)[k] == a[k];
      }
      forall k | 0 <= k < |b|
        ensures s[i + |a| + k] == b[k]
      {
        assert s[i + (|a| + k)] == (a + b)[|a| + k];
      }
    }
    if TextAt(s, i, a) && TextAt(s, i + |a|, b) {
      forall k | 0 <= k < |a + b|
        ensures s[i + k] == (a + b)[k]
      {
        if k >= |a| {
          assert s[i + |a| + (k - |a|)] == b[k - |a|];
        }
      }
    }
  }

  /** Every backslash of `v` escapes a byte of `v` other than the quote. */
  predicate EscapesClosed(v: Text, q: Byte) {
    if v == [] then true
    else if v[0] == BACKSLASH then |v| >= 2 && v[1] != q && EscapesClosed(v[2..], q)
    else EscapesClosed(v[1..], q)
  }

  /** The doubled `v` and its closing quote stand at `i`; no further quote follows. */
  predicate BodyAt(s: Text, i: nat, v: Text, q: Byte) {
    && TextAt(s, i, Doubled(v, [q]) + [q])
    && !ByteAt(s, i + |Doubled(v, [q])| + 1, q)
  }

  /** The first byte's text, and then the rest of the body. */
  lemma BodySplit(s: Text, i: nat, v: Text, q: Byte, head: Text)
    requires BodyAt(s, i, v, q) && v != [] && Doubled(v, [q]) == head + Doubled(v[1..], [q])
    ensures TextAt(s, i, head) && i + |head| < |s| && BodyAt(s, i + |head|, v[1..], q)
  {
    var tail := Doubled(v[1..], [q]) + [q];
    assert Doubled(v, [q]) + [q] == head + tail;
    TextAtSplit(s, i, head, tail);
  }

  lemma EmptyBody(s: Text, i: nat, q: Byte)
    requires BodyAt(s, i, [], q)
    ensures ByteAt(s, i, q) && !ByteAt(s, i + 1, q)
  {
    assert Doubled([], [q]) + [q] == [q];
    assert s[i + 0] == [q][0];
  }

  lemma BodyStep(s: Text, i: nat, v: Text, q: Byte)
    requires BodyAt(s, i, v, q)
    ensures v == [] ==> ByteAt(s, i, q) && !ByteAt(s, i + 1, q)
    ensures v != [] && v[0] == q ==> PairAt(s, i, q, q) && BodyAt(s, i + 2, v[1..], q)
    ensures v != [] && v[0] != q ==> ByteAt(s, i, v[0]) && i + 1 < |s| && BodyAt(s, i + 1, v[1..], q)
    ensures v != [] ==> |Doubled(v, [q])| == |Doubled(v[1..], [q])| + if v[0] == q then 2 else 1
  {
    if v == [] {
      EmptyBody(s, i, q);
    } else {
      DoubledStep(v, q);
      var head := if v[0] == q then [q, q] else [v[0]];
      BodySplit(s, i, v, q, head);
      assert s[i + 0] == head[0];
      assert v[0] == q ==> s[i + 1] == head[1];
    }
  }

  /** Where the closing quote of `v` at `i` should end. */
  function BodyEnd(i: nat, v: Text, q: Byte): nat { i + |Doubled(v, [q])| + 1 }

  /** The doubled body is scanned up to its closing quote and no further. */
  lemma {:induction false} ScanBody(s: Text, i: nat, v: Text, q: Byte, backslash: bool)
    requires BodyAt(s, i, v, q) && q != BACKSLASH
    requires backslash ==> EscapesClosed(v, q)
    ensures DelimitedEnd(q, backslash, s, i) == BodyEnd(i, v, q)
    decreases |v|
  {
    BodyStep(s, i, v, q);
    if v != [] {
      if v[0] == q {
        ScanBody(s, i + 2, v[1..], q, backslash);
      } else if backslash && v[0] == BACKSLASH {
        BodyStep(s, i + 1, v[1..], q);
        assert v[1..][1..] == v[2..];
        ScanBody(s, i + 2, v[2..], q, backslash);
      } else {
        ScanBody(s, i + 1, v[1..], q, backslash);
      }
    }
  }

  /** A quote byte too many before a doubled body: the scan stops early or runs past the closing quote. */
  lemma {:induction false} StrayQuoteMisses(s: Text, i: nat, v: Text, q: Byte)
    requires ByteAt(s, i, q) && BodyAt(s, i + 1, v, q) && q != BACKSLASH
    requires BodyEnd(i + 1, v, q) < |s|
    ensures DelimitedEnd(q, true, s, i) != BodyEnd(i + 1, v, q)
    decreases |v|
  {
    BodyStep(s, i + 1, v, q);
    if v != [] && v[0] == q {
      assert DelimitedEnd(q, true, s, i) == DelimitedEnd(q, true, s, i + 2);
      StrayQuoteMisses(s, i + 2, v[1..], q);
    }
  }

  /** With backslash escapes the body is read whole exactly when its own escapes are closed. */
  lemma {:induction false} ScanBodyExactly(s: Text, i: nat, v: Text, q: Byte)
    requires BodyAt(s, i, v, q) && q != BACKSLASH
    requires BodyEnd(i, v, q) < |s|
    ensures DelimitedEnd(q, true, s, i) == BodyEnd(i, v, q) <==> EscapesClosed(v, q)
    decreases |v|
  {
    BodyStep(s, i, v, q);
    if v != [] {
      if v[0] == q {
        ScanBodyExactly(s, i + 2, v[1..], q);
      } else if v[0] == BACKSLASH {
        BodyStep(s, i + 1, v[1..], q);
        if |v| >= 2 {
          assert v[1..][1..] == v[2..];
          if v[1] == q {
            StrayQuoteMisses(s, i + 2, v[2..], q);
          } else {
            ScanBodyExactly(s, i + 2, v[2..], q);
          }
        }
      } else {
        ScanBodyExactly(s, i + 1, v[1..], q);
      }
    }
  }

  // ---------- Quoted text as a token ----------

  function QuotedKind(q: Byte): TokenKind
    requires q == QUOTE || q == DOUBLE_QUOTE || q == BACKTICK
  {
    if q == QUOTE then SingleQuoted else if q == DOUBLE_QUOTE then DoubleQuoted else BacktickQuoted
  }

  predicate IsQuote(q: Byte) { q == QUOTE || q == DOUBLE_QUOTE || q == BACKTICK }

  /** The quoted `v` stands at `i`; no further quote follows. */
  predicate QuotedAt(s: Text, i: nat, v: Text, q: Byte) {
    TextAt(s, i, QuoteIdentifier(v, [q])) && !ByteAt(s, i + |QuoteIdentifier(v, [q])|, q)
  }

  lemma QuotedOpens(s: Text, i: nat, v: Text, q: Byte)
    requires QuotedAt(s, i, v, q)
    ensures ByteAt(s, i, q) && BodyAt(s, i + 1, v, q)
    ensures BodyEnd(i + 1, v, q) == i + |QuoteIdentifier(v, [q])|
  {
    var body := Doubled(v, [q]) + [q];
    assert QuoteIdentifier(v, [q]) == [q] + body;
    TextAtSplit(s, i, [q], body);
    assert s[i + 0] == [q][0];
  }

  /** The profile reads `v`, doubled in quotes `q`, as the builder means it: the opening quote and the start of
      `v` do not make up three quotes where these open another string, and every backslash that escapes
      anything escapes a byte of `v`. */
  predicate FitsQuoted(p: LexProfile, v: Text, q: Byte) {
    && (p.tripleQuotes && q != BACKTICK && v != [] ==> v[0] != q)
    && (BackslashIn(p, q) ==> EscapesClosed(v, q))
  }

  lemma TripleOpensExactly(s: Text, i: nat, v: Text, q: Byte)
    requires QuotedAt(s, i, v, q)
    ensures TripleAt(s, i, q) <==> v != [] && v[0] == q
  {
    QuotedOpens(s, i, v, q);
    BodyStep(s, i + 1, v, q);
  }

  lemma QuotedKindExactly(p: LexProfile, s: Text, i: nat, v: Text, q: Byte)
    requires IsQuote(q) && QuotedAt(s, i, v, q)
    ensures KindAt(p, s, i) ==
            if p.tripleQuotes && q != BACKTICK && v != [] && v[0] == q then TripleString else QuotedKind(q)
  {
    QuotedOpens(s, i, v, q);
    TripleOpensExactly(s, i, v, q);
  }

  /** A quoted name or value is one token of every profile that it fits. */
  lemma QuotedIsOneToken(p: LexProfile, s: Text, i: nat, v: Text, q: Byte)
    requires IsQuote(q) && QuotedAt(s, i, v, q) && FitsQuoted(p, v, q)
    ensures TokenAt(p, s, i) == Token(QuotedKind(q), i + |QuoteIdentifier(v, [q])|)
  {
    QuotedOpens(s, i, v, q);
    QuotedKindExactly(p, s, i, v, q);
    ScanBody(s, i + 1, v, q, BackslashIn(p, q));
  }

  function IdentifierQuote(dialect: SqlDialect): Byte { if dialect == Mysql then BACKTICK else DOUBLE_QUOTE }

  /** Every profile of a dialect reads a name in the dialect's identifier quotes as one token, MySQL's ANSI mode
      and all backslash modes included. */
  lemma IdentifierIsOneToken(s: Text, i: nat, name: Text, dialect: SqlDialect, k: nat)
    requires dialect in {Postgres, Mysql, Mssql, Sqlite} && k < |LexProfilesFor(Some(dialect))|
    requires QuotedAt(s, i, name, IdentifierQuote(dialect))
    ensures var q := IdentifierQuote(dialect);
            TokenAt(LexProfilesFor(Some(dialect))[k], s, i) == Token(QuotedKind(q), i + |QuoteIdentifier(name, [q])|)
  {
    QuotedIsOneToken(LexProfilesFor(Some(dialect))[k], s, i, name, IdentifierQuote(dialect));
  }

  /** With more text after it, a quoted name or value is one token of exactly the profiles that it fits. */
  lemma QuotedIsOneTokenExactly(p: LexProfile, s: Text, i: nat, v: Text, q: Byte)
    requires IsQuote(q) && QuotedAt(s, i, v, q) && i + |QuoteIdentifier(v, [q])| < |s|
    ensures TokenAt(p, s, i) == Token(QuotedKind(q), i + |QuoteIdentifier(v, [q])|) <==> FitsQuoted(p, v, q)
  {
    QuotedOpens(s, i, v, q);
    QuotedKindExactly(p, s, i, v, q);
    if BackslashIn(p, q) {
      ScanBodyExactly(s, i + 1, v, q);
    } else {
      ScanBody(s, i + 1, v, q, false);
    }
  }

  /** `t` is the doubling of a name. */
  predicate IsDoubling(t: Text, q: Byte) { Doubled(Undoubled(t, [q]), [q]) == t }

  lemma PairExtendsDoubling(s: Text, i: nat, j: nat, q: Byte)
    requires PairAt(s, i, q, q) && i + 2 <= j <= |s| && IsDoubling(s[i + 2..j], q)
    ensures IsDoubling(s[i..j], q)
  {
    var t := s[i + 2..j];
    assert s[i..j][2..] == t;
    assert s[i..j] == [q, q] + t == [q] + [q] + t;
    assert Undoubled(s[i..j], [q]) == [q] + Undoubled(t, [q]);
    DoubledStep([q] + Undoubled(t, [q]), q);
  }

  lemma ByteExtendsDoubling(s: Text, i: nat, j: nat, q: Byte)
    requires i < j <= |s| && s[i] != q && IsDoubling(s[i + 1..j], q)
    ensures IsDoubling(s[i..j], q)
  {
    var t := s[i + 1..j];
    assert s[i..j][1..] == t;
    assert !([q] + [q] <= s[i..j]) by {
      assert ([q] + [q])[0] == q;
    }
    assert Undoubled(s[i..j], [q]) == [s[i]] + Undoubled(t, [q]);
    DoubledStep([s[i]] + Undoubled(t, [q]), q);
    assert s[i..j] == [s[i]] + t;
  }

  /** The converse: the inside of a closed run without backslash escapes is the doubling of one name. */
  lemma {:induction false} ClosedRunIsDoubled(q: Byte, s: Text, i: nat, e: nat)
    requires i <= |s| && e == DelimitedEnd(q, false, s, i) < |s|
    ensures i < e && s[e - 1] == q && IsDoubling(s[i..e - 1], q)
    decreases |s| - i
  {
    if PairAt(s, i, q, q) {
      ClosedRunIsDoubled(q, s, i + 2, e);
      PairExtendsDoubling(s, i, e - 1, q);
    } else if s[i] != q {
      ClosedRunIsDoubled(q, s, i + 1, e);
      ByteExtendsDoubling(s, i, e - 1, q);
    } else {
      assert s[i..i] == [];
    }
  }

  // ---------- Injectivity ----------

  /** Different names are quoted differently, by a quote of any length. */
  lemma QuoteInjective(a: Text, b: Text, quote: Text)
    requires QuoteIdentifier(a, quote) == QuoteIdentifier(b, quote)
    ensures a == b
  {
    UnquoteRoundTrip(a, quote);
    UnquoteRoundTrip(b, quote);
  }

  /** If a doubled name were another one with a single quote after it, the names would start alike. */
  lemma LoneQuoteStart(u: Text, name: Text, quote: Text)
    requires quote != [] && Doubled(u, quote) == Doubled(name, quote) + quote
    ensures |u| >= |quote| && name != []
    ensures quote <= u <==> quote <= name
  {
    DoubledStart(name, quote, 0);
    StartsWithQuote(u, quote);
    StartsWithQuote(name, quote);
    var d := Doubled(u, quote);
    assert quote <= Doubled(name, quote) ==> quote <= d;
    assert |name| >= |quote| && quote <= d ==> quote <= Doubled(name, quote);
    assert name == [] ==> d == quote;
  }

  /** A doubled name starts with the quote just if the name does, and then it is at least two quotes long. */
  lemma StartsWithQuote(name: Text, quote: Text)
    requires quote != []
    ensures quote <= Doubled(name, quote) <==> quote <= name
    ensures quote <= name ==> |Doubled(name, quote)| >= 2 * |quote|
    ensures |name| < |quote| ==> Doubled(name, quote) == name
    ensures |Doubled(name, quote)| >= |name|
  {
    DoubledStart(name, quote, 0);
    if |name| >= |quote| {
      DoubledStart(name, quote, |quote|);
    }
  }

  /** And so it would be for shorter names. */
  lemma LoneQuoteStep(u: Text, name: Text, quote: Text) returns (u': Text, name': Text)
    requires quote != [] && Doubled(u, quote) == Doubled(name, quote) + quote
    ensures |name'| < |name| && Doubled(u', quote) == Doubled(name', quote) + quote
  {
    LoneQuoteStart(u, name, quote);
    var n := |quote|;
    if quote <= name {
      u', name' := u[n..], name[n..];
      DropBoth(quote + quote, Doubled(u', quote), Doubled(name', quote), quote);
    } else {
      u', name' := u[1..], name[1..];
      assert Doubled(name, quote) == [name[0]] + Doubled(name', quote);
      assert Doubled(u, quote)[0] == u[0];
      assert (Doubled(name, quote) + quote)[0] == name[0];
      DropBoth([u[0]], Doubled(u', quote), Doubled(name', quote), quote);
    }
  }

  lemma DropBoth(head: Text, a: Text, b: Text, c: Text)
    requires head + a == head + b + c
    ensures a == b + c
  {
    assert (head + a)[|head|..] == a;
    assert (head + b + c)[|head|..] == b + c;
  }

  /** No doubled name is another doubled name with a single quote after it. */
  lemma {:induction false} NoLoneQuoteAtEnd(u: Text, name: Text, quote: Text)
    requires quote != []
    ensures Doubled(u, quote) != Doubled(name, quote) + quote
    decreases |name|
  {
    if Doubled(u, quote) == Doubled(name, quote) + quote {
      var u', name' := LoneQuoteStep(u, name, quote);
      NoLoneQuoteAtEnd(u', name', quote);
    }
  }
}
