/** When a quoted table reference names one schema and one table: for which identifier quotes, exactly. */
module TableRefs {
  import opened Wrappers
  import opened Bytes
  import opened SqlQuoting

  // ---------- Repeated blocks ----------

  function Times(w: Text, n: nat): Text { if n == 0 then [] else w + Times(w, n - 1) }

  /** `t` is a shorter text twice or more in a row. */
  ghost predicate RepeatsABlock(t: Text) { exists w: Text, n: nat | w != [] && n >= 2 :: t == Times(w, n) }

  lemma {:induction false} TimesPlus(w: Text, m: nat, n: nat)
    ensures Times(w, m) + Times(w, n) == Times(w, m + n)
  {
    if m == 0 {
      assert [] + Times(w, n) == Times(w, n);
    } else {
      TimesPlus(w, m - 1, n);
      assert w + Times(w, m - 1) + Times(w, n) == w + (Times(w, m - 1) + Times(w, n));
    }
  }

  lemma TimesOne(w: Text)
    ensures Times(w, 1) == w
  {
    assert Times(w, 0) == [];
  }

  lemma {:induction false} TimesEmpty(n: nat)
    ensures Times([], n) == []
  {
    if n > 0 {
      TimesEmpty(n - 1);
    }
  }

  lemma CommutePrefix(x: Text, y: Text) returns (rest: Text)
    requires x + y == y + x && |x| <= |y|
    ensures y == x + rest && x + rest == rest + x
  {
    rest := y[|x|..];
    assert x == (x + y)[..|x|] == (y + x)[..|x|] == y[..|x|];
    assert y == x + rest;
    assert x + (x + rest) == x + rest + x;
    DropBoth(x, x + rest, rest, x);
  }

  /** Two texts that commute are powers of one text. */
  lemma {:induction false} Commute(x: Text, y: Text) returns (w: Text, a: nat, b: nat)
    requires x + y == y + x
    ensures x == Times(w, a) && y == Times(w, b)
    decreases |x| + |y|, |x|
  {
    if x == [] {
      TimesOne(y);
      return y, 0, 1;
    } else if |x| <= |y| {
      var rest := CommutePrefix(x, y);
      w, a, b := Commute(x, rest);
      TimesPlus(w, a, b);
      b := a + b;
    } else {
      w, b, a := Commute(y, x);
    }
  }

  predicate RotatesTo(t: Text, d: nat) { 0 < d < |t| && t[d..] + t[..d] == t }

  /** Whether a text repeats a block can be seen from its rotations. */
  lemma RepeatsExactly(t: Text)
    ensures RepeatsABlock(t) <==> exists d: nat :: RotatesTo(t, d)
  {
    if d: nat :| RotatesTo(t, d) {
      RotationRepeats(t, d);
    }
    if RepeatsABlock(t) {
      var w: Text, n: nat :| w != [] && n >= 2 && t == Times(w, n);
      BlockAtBothEnds(w, n);
      assert t[|w|..] == Times(w, n - 1) && t[..|w|] == w;
      assert RotatesTo(t, |w|);
    }
  }

  lemma BlockAtBothEnds(w: Text, n: nat)
    requires n >= 2
    ensures Times(w, n) == w + Times(w, n - 1) == Times(w, n - 1) + w
    ensures |Times(w, n)| >= 2 * |w|
  {
    TimesOne(w);
    TimesPlus(w, n - 1, 1);
  }

  lemma RotationRepeats(t: Text, d: nat)
    requires RotatesTo(t, d)
    ensures RepeatsABlock(t)
  {
    var x, y := t[..d], t[d..];
    assert x + y == t;
    var w, a, b := Commute(x, y);
    assert a > 0 && b > 0;
    if w == [] {
      TimesEmpty(a);
    }
    TimesPlus(w, a, b);
    assert t == Times(w, a + b);
  }

  // ---------- References that differ ----------

  predicate AllDots(quote: Text) { forall i | 0 <= i < |quote| :: quote[i] == DOT }

  lemma DotsRepeat(quote: Text)
    requires quote != [] && AllDots(quote)
    ensures RepeatsABlock(quote + [DOT])
  {
    var v := quote + [DOT];
    assert v[1..] + v[..1] == v;
    RotationRepeats(v, 1);
  }

  /** What stands between schema and table, from the end of the doubled schema on. */
  function Separator(quote: Text): Text { quote + [DOT] + quote }

  lemma PairBytes(quote: Text, t: Text)
    requires quote + quote <= t
    ensures |t| >= 2 * |quote|
    ensures forall i | 0 <= i < |quote| :: t[i] == quote[i] && t[|quote| + i] == quote[i]
  {
    var s := quote + quote;
    forall i | 0 <= i < |quote|
      ensures t[i] == quote[i] && t[|quote| + i] == quote[i]
    {
      assert t[i] == s[i] && t[|quote| + i] == s[|quote| + i];
    }
  }

  lemma SeparatorBytes(quote: Text, e: nat, t: Text)
    requires e <= |t| && Separator(quote) <= t[e..]
    ensures |t| >= e + 2 * |quote| + 1 && t[e + |quote|] == DOT
    ensures forall i | 0 <= i < |quote| :: t[e + i] == quote[i] && t[e + |quote| + 1 + i] == quote[i]
  {
    var n, s := |quote|, Separator(quote);
    assert t[e + n] == t[e..][n] == s[n];
    forall i | 0 <= i < n
      ensures t[e + i] == quote[i] && t[e + n + 1 + i] == quote[i]
    {
      assert t[e + i] == t[e..][i] == s[i];
      assert t[e + n + 1 + i] == t[e..][n + 1 + i] == s[n + 1 + i];
    }
  }

  /** If two quotes in a row also read, from `e` on, as a separator, the quote is all dots. */
  lemma PairAsSeparator(quote: Text, e: nat, t: Text)
    requires e < |quote| && quote + quote <= t && Separator(quote) <= t[e..]
    ensures AllDots(quote)
  {
    PairBytes(quote, t);
    SeparatorBytes(quote, e, t);
    SpreadDots(quote, e, t);
  }

  lemma SpreadDots(quote: Text, e: nat, t: Text)
    requires var n := |quote|; e < n && |t| >= e + 2 * n + 1 && t[e + n] == DOT
    requires forall i | 0 <= i < |quote| :: t[i] == quote[i] && t[|quote| + i] == quote[i]
    requires forall i | 0 <= i < |quote| :: t[e + i] == quote[i] && t[e + |quote| + 1 + i] == quote[i]
    ensures AllDots(quote)
  {
    for i := 0 to |quote|
      invariant forall j | 0 <= j < i :: quote[j] == DOT
    {
      DotAt(quote, e, t, i);
    }
  }

  lemma DotAt(quote: Text, e: nat, t: Text, i: nat)
    requires var n := |quote|; i < n && e < n && |t| >= e + 2 * n + 1 && t[e + n] == DOT
    requires forall j | 0 <= j < |quote| :: t[j] == quote[j] && t[|quote| + j] == quote[j]
    requires forall j | 0 <= j < |quote| :: t[e + j] == quote[j] && t[e + |quote| + 1 + j] == quote[j]
    requires forall j | 0 <= j < i :: quote[j] == DOT
    ensures quote[i] == DOT
  {
    var n := |quote|;
    if i == 0 {
      assert quote[e] == t[n + e] && t[e] == quote[0];
    } else if i < n - e {
      assert quote[i] == t[e + i] == quote[e + i];
      assert quote[e + i] == t[n + (e + i)] == t[e + n + 1 + (i - 1)] == quote[i - 1];
    } else {
      assert quote[i] == t[e + i] == t[n + (i - (n - e))] == quote[i - (n - e)];
    }
  }

  /** `t` starts with the doubled schema and the separator after it. */
  predicate StartsQualified(schema: Text, quote: Text, t: Text) {
    var d := Doubled(schema, quote);
    d <= t && Separator(quote) <= t[|d|..]
  }

  /** A doubled name that starts like another one and its separator, and is longer, needs a quote of dots. */
  lemma {:induction false} LongerNameMeansDots(schema: Text, name: Text, quote: Text, t: Text)
    requires quote != [] && StartsQualified(schema, quote, t) && Doubled(name, quote) <= t
    requires |Doubled(name, quote)| > |Doubled(schema, quote)| + |quote|
    ensures AllDots(quote)
    decreases |schema|
  {
    var n := |quote|;
    if quote <= schema {
      DropPair(schema, name, quote, t);
      LongerNameMeansDots(schema[n..], name[n..], quote, t[2 * n..]);
    } else if quote <= name {
      ShortSchema(schema, name, quote, t);
      PairAsSeparator(quote, |schema|, t);
    } else {
      DropByte(schema, name, quote, t);
      LongerNameMeansDots(schema[1..], name[1..], quote, t[1..]);
    }
  }

  lemma PrefixOfSame(a: Text, b: Text, t: Text)
    requires a <= t && b <= t && |a| <= |b|
    ensures a <= b
  {
    assert a == t[..|a|] && b == t[..|b|];
  }

  lemma CutPrefix(head: Text, tail: Text, t: Text)
    requires head + tail <= t
    ensures |t| >= |head| && head <= t && tail <= t[|head|..]
  {
    assert head == (head + tail)[..|head|] == t[..|head|];
    assert tail == (head + tail)[|head|..] == t[|head|..|head| + |tail|];
  }

  lemma CutQualified(head: Text, d: Text, sep: Text, t: Text)
    requires head + d <= t && sep <= t[|head + d|..]
    ensures |t| >= |head| && d <= t[|head|..] && sep <= t[|head|..][|d|..]
  {
    CutPrefix(head, d, t);
    assert t[|head|..][|d|..] == t[|head + d|..];
  }

  lemma DoubledPair(name: Text, quote: Text)
    requires quote != [] && quote <= name
    ensures Doubled(name, quote) == quote + quote + Doubled(name[|quote|..], quote)
  {
  }

  lemma DoubledByte(name: Text, quote: Text)
    requires quote != [] && name != [] && !(quote <= name)
    ensures Doubled(name, quote) == [name[0]] + Doubled(name[1..], quote)
  {
  }

  /** The name starts with the quote if the text does. */
  lemma NameStartsAlike(name: Text, quote: Text, t: Text)
    requires quote != [] && quote <= t && Doubled(name, quote) <= t && |Doubled(name, quote)| >= |quote|
    ensures quote <= name
  {
    PrefixOfSame(quote, Doubled(name, quote), t);
    StartsWithQuote(name, quote);
  }

  lemma DropPair(schema: Text, name: Text, quote: Text, t: Text)
    requires quote != [] && quote <= schema && StartsQualified(schema, quote, t) && Doubled(name, quote) <= t
    requires |Doubled(name, quote)| > |Doubled(schema, quote)| + |quote|
    ensures quote <= name && |t| >= 2 * |quote|
    ensures Doubled(name[|quote|..], quote) <= t[2 * |quote|..]
    ensures StartsQualified(schema[|quote|..], quote, t[2 * |quote|..])
    ensures |Doubled(name[|quote|..], quote)| > |Doubled(schema[|quote|..], quote)| + |quote|
  {
    var n := |quote|;
    var s := Doubled(schema[n..], quote);
    DoubledPair(schema, quote);
    CutQualified(quote + quote, s, Separator(quote), t);
    CutPrefix(quote + quote, s, t);
    CutPrefix(quote, quote, t);
    NameStartsAlike(name, quote, t);
    DoubledPair(name, quote);
    CutPrefix(quote + quote, Doubled(name[n..], quote), t);
  }

  lemma ShortSchema(schema: Text, name: Text, quote: Text, t: Text)
    requires quote != [] && !(quote <= schema) && StartsQualified(schema, quote, t)
    requires quote <= name && Doubled(name, quote) <= t
    ensures |schema| < |quote| && quote + quote <= t && Separator(quote) <= t[|schema|..]
  {
    var d := Doubled(schema, quote);
    DoubledPair(name, quote);
    CutPrefix(quote + quote, Doubled(name[|quote|..], quote), t);
    CutPrefix(quote, quote, t);
    if |d| >= |quote| {
      NameStartsAlike(schema, quote, t);
    }
    StartsWithQuote(schema, quote);
  }

  lemma DropByte(schema: Text, name: Text, quote: Text, t: Text)
    requires quote != [] && !(quote <= schema) && StartsQualified(schema, quote, t)
    requires !(quote <= name) && Doubled(name, quote) <= t
    requires |Doubled(name, quote)| > |Doubled(schema, quote)| + |quote|
    ensures schema != [] && name != [] && t != []
    ensures Doubled(name[1..], quote) <= t[1..]
    ensures StartsQualified(schema[1..], quote, t[1..])
    ensures |Doubled(name[1..], quote)| > |Doubled(schema[1..], quote)| + |quote|
  {
    if schema == [] {
      EmptySchemaStart(quote, t);
      NameStartsAlike(name, quote, t);
    }
    DoubledByte(schema, quote);
    DoubledByte(name, quote);
    CutQualified([schema[0]], Doubled(schema[1..], quote), Separator(quote), t);
    CutPrefix([name[0]], Doubled(name[1..], quote), t);
  }

  lemma EmptySchemaStart(quote: Text, t: Text)
    requires StartsQualified([], quote, t)
    ensures quote <= t
  {
    assert t[0..] == t;
    CutPrefix(quote, [DOT] + quote, t) by {
      assert Separator(quote) == quote + ([DOT] + quote);
    }
  }

  lemma QualifiedStart(schema: Text, quote: Text, rest: Text, t: Text)
    requires t == Doubled(schema, quote) + (Separator(quote) + rest)
    ensures StartsQualified(schema, quote, t)
  {
    var d := Doubled(schema, quote);
    assert t[|d|..] == Separator(quote) + rest;
  }

  /** The byte of `v` that a rotation by `d` brings to `i`. */
  function Turned(v: Text, d: nat, i: nat): Byte
    requires d <= |v| && i < |v|
  {
    if d + i < |v| then v[d + i] else v[d + i - |v|]
  }

  lemma OverlapByte(quote: Text, d: nat, t: Text, i: nat)
    requires 0 < d <= |quote| && Separator(quote) <= t && d <= |t| && Separator(quote) <= t[d..] && i <= |quote|
    ensures var v := quote + [DOT]; v[i] == Turned(v, d, i)
  {
    var n := |quote|;
    assert t[0..] == t;
    SeparatorBytes(quote, 0, t);
    SeparatorBytes(quote, d, t);
    assert d + i > n ==> t[d + i] == t[0 + n + 1 + (d + i - n - 1)];
    assert d + i <= n ==> t[d + i] == t[0 + (d + i)];
  }

  /** A separator that starts inside another one makes the quote and its dot a rotation of themselves. */
  lemma OverlapRotates(quote: Text, d: nat, t: Text)
    requires 0 < d <= |quote| && Separator(quote) <= t && d <= |t| && Separator(quote) <= t[d..]
    ensures RotatesTo(quote + [DOT], d)
  {
    var v := quote + [DOT];
    assert |v| == |quote| + 1;
    forall i | 0 <= i < |v|
      ensures v[i] == Turned(v, d, i)
    {
      OverlapByte(quote, d, t, i);
    }
    BytesRotate(v, d);
  }

  lemma BytesRotate(v: Text, d: nat)
    requires 0 < d < |v| && forall i | 0 <= i < |v| :: v[i] == Turned(v, d, i)
    ensures RotatesTo(v, d)
  {
    var r := v[d..] + v[..d];
    forall i | 0 <= i < |v|
      ensures v[i] == r[i]
    {
      assert v[i] == Turned(v, d, i);
      if i < |v| - d {
        assert r[i] == v[d..][i] == v[d + i];
      } else {
        assert r[i] == v[..d][i - (|v| - d)] == v[i - (|v| - d)];
      }
    }
    assert |r| == |v|;
    assert v == r;
  }

  /** The schema before a separator is at least as long as any schema the same text could start with. */
  lemma SchemaIsLongest(a: Text, b: Text, quote: Text, t: Text)
    requires quote != [] && !RepeatsABlock(quote + [DOT])
    requires StartsQualified(a, quote, t) && StartsQualified(b, quote, t)
    ensures |Doubled(a, quote)| >= |Doubled(b, quote)|
  {
    var n, m := |Doubled(a, quote)|, |Doubled(b, quote)|;
    if n < m <= n + |quote| {
      assert t[n..][m - n..] == t[m..];
      OverlapRotates(quote, m - n, t[n..]);
      RotationRepeats(quote + [DOT], m - n);
    } else if n + |quote| < m {
      LongerNameMeansDots(a, b, quote, t);
      DotsRepeat(quote);
    }
  }

  /** A table reference names one schema and one table, unless the quote and a dot repeat a block. */
  lemma TableRefInjective(table1: Text, schema1: Option<Text>, table2: Text, schema2: Option<Text>, quote: Text)
    requires quote != [] && !RepeatsABlock(quote + [DOT])
    requires TableRef(table1, schema1, quote) == TableRef(table2, schema2, quote)
    ensures table1 == table2 && schema1 == schema2
  {
    match (schema1, schema2)
    case (None, None) => QuoteInjective(table1, table2, quote);
    case (Some(s1), Some(s2)) => QualifiedInjective(table1, s1, table2, s2, quote);
    case (Some(s1), None) => QualifiedIsLonger(table1, s1, table2, quote);
    case (None, Some(s2)) => QualifiedIsLonger(table2, s2, table1, quote);
  }

  lemma SplitSame(a: Text, b: Text, c: Text, d: Text)
    requires a + c == b + d && |a| == |b|
    ensures a == b && c == d
  {
    assert a == (a + c)[..|a|] && c == (a + c)[|a|..];
    assert b == (b + d)[..|a|] && d == (b + d)[|a|..];
  }

  /** A qualified reference is the opening quote, the doubled schema, the separator and the rest. */
  lemma QualifiedText(table: Text, schema: Text, quote: Text) returns (rest: Text, t: Text)
    ensures rest == Doubled(table, quote) + quote && t == Doubled(schema, quote) + (Separator(quote) + rest)
    ensures TableRef(table, Some(schema), quote) == quote + t
  {
    rest := Doubled(table, quote) + quote;
    t := Doubled(schema, quote) + (Separator(quote) + rest);
  }

  lemma QualifiedIsLonger(table: Text, schema: Text, other: Text, quote: Text)
    requires quote != [] && !RepeatsABlock(quote + [DOT])
    ensures TableRef(table, Some(schema), quote) != TableRef(other, None, quote)
  {
    var rest, t := QualifiedText(table, schema, quote);
    var o := Doubled(other, quote) + quote;
    assert TableRef(other, None, quote) == quote + o;
    if quote + t == quote + o {
      SplitSame(quote, quote, t, o);
      QualifiedStart(schema, quote, rest, t);
      LongerNameMeansDots(schema, other, quote, t);
      DotsRepeat(quote);
    }
  }

  lemma QualifiedInjective(table1: Text, schema1: Text, table2: Text, schema2: Text, quote: Text)
    requires quote != [] && !RepeatsABlock(quote + [DOT])
    requires TableRef(table1, Some(schema1), quote) == TableRef(table2, Some(schema2), quote)
    ensures table1 == table2 && schema1 == schema2
  {
    var sep := Separator(quote);
    var rest1, t1 := QualifiedText(table1, schema1, quote);
    var rest2, t2 := QualifiedText(table2, schema2, quote);
    SplitSame(quote, quote, t1, t2);
    QualifiedStart(schema1, quote, rest1, t1);
    QualifiedStart(schema2, quote, rest2, t1);
    SchemaIsLongest(schema1, schema2, quote, t1);
    SchemaIsLongest(schema2, schema1, quote, t1);
    SplitSame(Doubled(schema1, quote), Doubled(schema2, quote), sep + rest1, sep + rest2);
    SplitSame(sep, sep, rest1, rest2);
    SplitSame(Doubled(table1, quote), Doubled(table2, quote), quote, quote);
    UndoubledDoubled(schema1, quote);
    UndoubledDoubled(schema2, quote);
    UndoubledDoubled(table1, quote);
    UndoubledDoubled(table2, quote);
  }

  // ---------- References that coincide ----------

  /** A byte that the quote does not start with. */
  function OtherByte(quote: Text): (z: Byte)
    ensures quote != [] ==> z != quote[0]
  {
    if quote != [] && quote[0] == DOT then QUOTE else DOT
  }

  lemma PrefixedName(z: Byte, name: Text, quote: Text)
    requires quote != [] && z != quote[0]
    ensures Doubled([z] + name, quote) == [z] + Doubled(name, quote)
  {
    assert ([z] + name)[1..] == name;
    assert !(quote <= [z] + name);
    DoubledByte([z] + name, quote);
  }

  /** If the quote and a dot repeat a block, the block moves over the quote. */
  lemma BlockMoves(quote: Text, block: Text, m: nat) returns (w: Text)
    requires block != [] && m >= 2 && quote + [DOT] == Times(block, m)
    ensures block == w + [DOT] && |block| <= |quote| && block + quote == quote + ([DOT] + w)
    ensures |quote| >= 2 ==> |block| < |quote|
  {
    var v, rest := quote + [DOT], Times(block, m - 1);
    BlockAtBothEnds(block, m);
    assert v[|v| - 1] == (rest + block)[|v| - 1] == block[|block| - 1];
    w := block[..|block| - 1];
    assert block == w + [DOT];
    assert block + v == block + rest + block == v + block;
    assert block + quote == (block + v)[..|block| + |quote|];
    assert quote + ([DOT] + w) == (v + block)[..|block| + |quote|];
  }

  lemma NoQuoteIsAmbiguous(z: Byte)
    ensures TableRef([z], Some([z]), []) == TableRef([z, DOT, z], None, [])
  {
    assert QuoteIdentifier([z], []) == [z];
    assert QuoteIdentifier([z, DOT, z], []) == [z, DOT, z];
    assert [z] + [DOT] + [z] == [z, DOT, z];
  }

  lemma DotIsAmbiguous(z: Byte)
    requires z != DOT
    ensures TableRef([DOT], Some([z]), [DOT]) == TableRef([], Some([z, DOT]), [DOT])
  {
    var z1, z2 := [z], [z, DOT];
    DoubledStep([DOT], DOT);
    DoubledStep(z1, DOT);
    DoubledStep(z2, DOT);
    assert z2[1..] == [DOT] && z1[1..] == [];
    assert QuoteIdentifier([DOT], [DOT]) == [DOT, DOT, DOT, DOT];
    assert QuoteIdentifier([], [DOT]) == [DOT, DOT];
    assert QuoteIdentifier(z1, [DOT]) == [DOT, z, DOT];
    assert QuoteIdentifier(z2, [DOT]) == [DOT, z, DOT, DOT, DOT];
  }

  lemma BlockIsAmbiguous(quote: Text, z: Byte) returns (table: Text, schema: Text)
    requires |quote| >= 2 && z != quote[0] && RepeatsABlock(quote + [DOT])
    ensures table != [] && TableRef(table, Some([z]), quote) == TableRef([], Some(schema), quote) && schema != []
  {
    var block: Text, m: nat :| block != [] && m >= 2 && quote + [DOT] == Times(block, m);
    var w := BlockMoves(quote, block, m);
    table, schema := [DOT] + w, [z] + block;
    PrefixedName(z, [], quote);
    PrefixedName(z, block, quote);
    assert [z] + [] == [z];
    MovedReference(quote, block, w, z);
  }

  /** Two tables share a reference if there is no quote, or if the quote and a dot repeat a block. */
  lemma OtherQuotesAreAmbiguous(quote: Text)
    returns (table1: Text, schema1: Option<Text>, table2: Text, schema2: Option<Text>)
    requires quote == [] || RepeatsABlock(quote + [DOT])
    ensures table1 != table2 && schema1 != Some([]) && schema2 != Some([])
    ensures TableRef(table1, schema1, quote) == TableRef(table2, schema2, quote)
  {
    var z := OtherByte(quote);
    if quote == [] {
      NoQuoteIsAmbiguous(z);
      return [z], Some([z]), [z, DOT, z], None;
    } else if |quote| == 1 {
      LoneDot(quote);
      DotIsAmbiguous(z);
      return [DOT], Some([z]), [], Some([z, DOT]);
    } else {
      var table, schema := BlockIsAmbiguous(quote, z);
      return table, Some([z]), [], Some(schema);
    }
  }

  /** The only one-byte quote that repeats a block with its dot is a dot. */
  lemma LoneDot(quote: Text)
    requires |quote| == 1 && RepeatsABlock(quote + [DOT])
    ensures quote == [DOT]
  {
    RepeatsExactly(quote + [DOT]);
    var d: nat :| RotatesTo(quote + [DOT], d);
    var v := quote + [DOT];
    assert d == 1 && v == v[1..] + v[..1] && v[0] == v[1];
  }

  /** Moving the block over the quote moves the dot between the two names. */
  lemma MovedDot(quote: Text, block: Text, w: Text)
    requires block == w + [DOT] && block + quote == quote + ([DOT] + w)
    ensures Separator(quote) + ([DOT] + w) == block + Separator(quote)
  {
    var y := [DOT] + w;
    calc {
      Separator(quote) + y;
      quote + [DOT] + (quote + y);
      quote + [DOT] + (block + quote);
      quote + ([DOT] + block) + quote;
      { assert [DOT] + block == y + [DOT]; }
      quote + (y + [DOT]) + quote;
      (quote + y) + [DOT] + quote;
      (block + quote) + [DOT] + quote;
      block + Separator(quote);
    }
  }

  lemma Regroup(a: Text, b: Text, c: Text, d: Text, e: Text, q: Text)
    requires b + c == d + e
    ensures a + (b + (c + q)) == a + d + (e + q)
  {
    assert a + (b + (c + q)) == a + (b + c) + q == a + (d + e) + q == a + d + (e + q);
  }

  lemma MovedReference(quote: Text, block: Text, w: Text, z: Byte)
    requires |block| < |quote| && block == w + [DOT] && block + quote == quote + ([DOT] + w)
    requires Doubled([z], quote) == [z] && Doubled([z] + block, quote) == [z] + block
    ensures TableRef([DOT] + w, Some([z]), quote) == TableRef([], Some([z] + block), quote)
  {
    var y, sep := [DOT] + w, Separator(quote);
    MovedDot(quote, block, w);
    var rest1, t1 := QualifiedText(y, [z], quote);
    var rest2, t2 := QualifiedText([], [z] + block, quote);
    ShortNames(quote, y);
    Regroup([z], sep, y, block, sep, quote);
  }

  lemma ShortNames(quote: Text, y: Text)
    requires |y| < |quote|
    ensures Doubled(y, quote) == y && Doubled([], quote) + quote == quote
  {
  }

  // ---------- Both ways ----------

  ghost predicate RefsAreUnique(quote: Text) {
    forall table1, schema1, table2, schema2 :: TableRef(table1, schema1, quote) == TableRef(table2, schema2, quote) ==>
                                                 table1 == table2 && schema1 == schema2
  }

  /** A table reference determines schema and table for exactly the quotes that, a dot appended, repeat no block. */
  lemma TableRefInjectiveExactly(quote: Text)
    ensures RefsAreUnique(quote) <==> quote != [] && !RepeatsABlock(quote + [DOT])
  {
    if quote != [] && !RepeatsABlock(quote + [DOT]) {
      forall table1, schema1, table2, schema2 | TableRef(table1, schema1, quote) == TableRef(table2, schema2, quote)
        ensures table1 == table2 && schema1 == schema2
      {
        TableRefInjective(table1, schema1, table2, schema2, quote);
      }
    } else {
      var table1, schema1, table2, schema2 := OtherQuotesAreAmbiguous(quote);
    }
  }
}
