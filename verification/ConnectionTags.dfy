/** Connection tags: unique names up to ASCII case, and the merge of an imported tag list. */
module ConnectionTags {
  import opened Wrappers

  datatype Tag = Tag(id: string, name: string, color: string)

  type Tags = seq<Tag>

  type Remap = map<string, string>

  const MAX_TAG_NAME_CHARS := 32

  // ---------- Names and colors ----------

  function LowerChar(c: char): char { if 'A' <= c <= 'Z' then c - 'A' + 'a' else c }

  function Lower(s: string): string { seq(|s|, i requires 0 <= i < |s| => LowerChar(s[i])) }

  /** Equal up to the case of ASCII letters. */
  predicate SameName(x: string, y: string) { Lower(x) == Lower(y) }

  predicate IsSpace(c: char) { c == ' ' || '\t' <= c <= '\r' }

  function Trim(s: string): string
    decreases |s|
  {
    if s != [] && IsSpace(s[0]) then Trim(s[1..])
    else if s != [] && IsSpace(s[|s| - 1]) then Trim(s[..|s| - 1])
    else s
  }

  predicate HexDigit(c: char) { '0' <= c <= '9' || 'a' <= c <= 'f' || 'A' <= c <= 'F' }

  predicate ValidHexColor(color: string) {
    && color != [] && color[0] == '#'
    && |color| - 1 in {3, 6, 8}
    && forall c | c in color[1..] :: HexDigit(c)
  }

  predicate ValidTagInput(name: string, color: string) {
    0 < |Trim(name)| <= MAX_TAG_NAME_CHARS && ValidHexColor(color)
  }

  predicate IsBlank(c: char) { c as int in {9, 10, 11, 12, 13, 32} }

  /** `t` stands in `s` at `n`, and is all of it but the white space around it. */
  predicate TrimsTo(s: string, t: string, n: nat) {
    && n + |t| <= |s| && s[n..n + |t|] == t
    && (forall k | 0 <= k < |s| && !(n <= k < n + |t|) :: IsBlank(s[k]))
    && (t != [] ==> !IsBlank(t[0]) && !IsBlank(t[|t| - 1]))
  }

  lemma TrimsRest(s: string, rest: string, t: string, m: nat)
    requires s != [] && IsBlank(s[0]) && rest == s[1..] && TrimsTo(rest, t, m)
    ensures TrimsTo(s, t, m + 1)
  {
    assert s[m + 1..m + 1 + |t|] == rest[m..m + |t|];
    assert forall k | 1 <= k < |s| :: s[k] == rest[k - 1];
  }

  lemma {:induction false} TrimExactly(s: string) returns (n: nat)
    ensures TrimsTo(s, Trim(s), n)
    decreases |s|
  {
    if s != [] && IsSpace(s[0]) {
      var m := TrimExactly(s[1..]);
      n := m + 1;
      TrimsRest(s, s[1..], Trim(s), m);
    } else if s != [] && IsSpace(s[|s| - 1]) {
      n := TrimExactly(s[..|s| - 1]);
      assert s[n..n + |Trim(s)|] == s[..|s| - 1][n..n + |Trim(s)|];
    } else {
      n := 0;
    }
  }

  predicate IsHex(c: char) { c in "0123456789abcdefABCDEF" }

  /** A tag is valid with 1 to 32 characters in its trimmed name, and a hash and 3, 6 or 8 hex digits as its color. */
  lemma ValidTagExactly(name: string, color: string)
    ensures ValidTagInput(name, color) <==>
            && 1 <= |Trim(name)| <= 32 && |color| in {4, 7, 9} && color[0] == '#'
            && forall k | 1 <= k < |color| :: IsHex(color[k])
  {
    if color != [] {
      HexRest(color);
    }
  }

  lemma HexRest(color: string)
    requires color != []
    ensures (forall c | c in color[1..] :: HexDigit(c)) <==> forall k | 1 <= k < |color| :: IsHex(color[k])
  {
    HexDigits();
    assert forall k | 1 <= k < |color| :: color[1..][k - 1] == color[k] && color[k] in color[1..];
  }

  lemma HexDigits()
    ensures forall c :: HexDigit(c) <==> IsHex(c)
  {
    var digits := "0123456789abcdefABCDEF";
    forall c | HexDigit(c)
      ensures IsHex(c)
    {
      var k := if c <= '9' then c as int - 48 else if 'a' <= c then c as int - 87 else c as int - 49;
      assert digits[k] == c;
    }
  }

  /** Names are the same if they differ in nothing but the case of ASCII letters. */
  lemma SameNameExactly(x: string, y: string)
    ensures SameName(x, y) <==>
            |x| == |y| && forall k | 0 <= k < |x| ::
              || x[k] == y[k]
              || ('a' <= x[k] <= 'z' && y[k] as int == x[k] as int - 32)
              || ('A' <= x[k] <= 'Z' && y[k] as int == x[k] as int + 32)
  {
    if |x| == |y| {
      forall k | 0 <= k < |x|
        ensures Lower(x)[k] == LowerChar(x[k]) && Lower(y)[k] == LowerChar(y[k])
      {
      }
    }
  }

  // ---------- The list and its invariant ----------

  predicate UniqueIds(tags: Tags) { forall i, j | 0 <= i < j < |tags| :: tags[i].id != tags[j].id }

  predicate UniqueNames(tags: Tags) { forall i, j | 0 <= i < j < |tags| :: !SameName(tags[i].name, tags[j].name) }

  predicate HasId(tags: Tags, id: string) { exists i | 0 <= i < |tags| :: tags[i].id == id }

  /** Another tag already has the name. */
  predicate Clashes(tags: Tags, id: string, name: string) {
    exists i | 0 <= i < |tags| :: tags[i].id != id && SameName(tags[i].name, name)
  }

  /** The first tag with another id and the name. */
  function FirstClash(tags: Tags, id: string, name: string): (r: Option<nat>)
    ensures r.Some? ==> r.value < |tags| && tags[r.value].id != id && SameName(tags[r.value].name, name)
    ensures r.None? <==> !Clashes(tags, id, name)
    ensures r.Some? ==> forall j | 0 <= j < r.value :: tags[j].id == id || !SameName(tags[j].name, name)
  {
    if tags == [] then
      None
    else if tags[0].id != id && SameName(tags[0].name, name) then
      Some(0)
    else
      var rest := FirstClash(tags[1..], id, name);
      assert Clashes(tags, id, name) <==> Clashes(tags[1..], id, name) by { ClashesTail(tags, id, name); }
      if rest.Some? then Some(rest.value + 1) else None
  }

  lemma ClashesTail(tags: Tags, id: string, name: string)
    requires tags != [] && !(tags[0].id != id && SameName(tags[0].name, name))
    ensures Clashes(tags, id, name) <==> Clashes(tags[1..], id, name)
  {
    if Clashes(tags, id, name) {
      var i :| 0 <= i < |tags| && tags[i].id != id && SameName(tags[i].name, name);
      assert tags[1..][i - 1] == tags[i];
    }
  }

  /** The tags without the one called `id`, in the same order. */
  function Without(tags: Tags, id: string): Tags {
    if tags == [] then []
    else if tags[0].id == id then Without(tags[1..], id)
    else [tags[0]] + Without(tags[1..], id)
  }

  lemma {:induction false} WithoutHolds(tags: Tags, id: string)
    ensures forall t :: t in Without(tags, id) <==> t in tags && t.id != id
  {
    if tags != [] {
      WithoutHolds(tags[1..], id);
      assert tags == [tags[0]] + tags[1..];
    }
  }

  lemma UniqueTail(tags: Tags)
    requires tags != [] && UniqueIds(tags) && UniqueNames(tags)
    ensures UniqueIds(tags[1..]) && UniqueNames(tags[1..])
    ensures forall t | t in tags[1..] :: t.id != tags[0].id && !SameName(tags[0].name, t.name)
  {
    assert forall k | 0 <= k < |tags| - 1 :: tags[1..][k] == tags[k + 1];
  }

  lemma UniqueCons(tag: Tag, rest: Tags)
    requires UniqueIds(rest) && UniqueNames(rest)
    requires forall t | t in rest :: t.id != tag.id && !SameName(tag.name, t.name)
    ensures UniqueIds([tag] + rest) && UniqueNames([tag] + rest)
  {
    var tags := [tag] + rest;
    assert forall k | 1 <= k < |tags| :: tags[k] == rest[k - 1] && rest[k - 1] in rest;
  }

  lemma {:induction false} WithoutKeepsUnique(tags: Tags, id: string)
    requires UniqueIds(tags) && UniqueNames(tags)
    ensures UniqueIds(Without(tags, id)) && UniqueNames(Without(tags, id))
  {
    if tags != [] {
      UniqueTail(tags);
      WithoutKeepsUnique(tags[1..], id);
      WithoutHolds(tags[1..], id);
      if tags[0].id != id {
        UniqueCons(tags[0], Without(tags[1..], id));
      }
    }
  }

  /** The list with the tag of the same id replaced. */
  function Replaced(tags: Tags, tag: Tag): (r: Tags)
    ensures |r| == |tags|
    ensures forall i | 0 <= i < |tags| :: r[i].id == tags[i].id
    ensures UniqueIds(tags) ==> forall i | 0 <= i < |tags| :: r[i] == if tags[i].id == tag.id then tag else tags[i]
  {
    if tags == [] then []
    else if tags[0].id == tag.id then [tag] + tags[1..]
    else [tags[0]] + Replaced(tags[1..], tag)
  }

  // ---------- One imported tag ----------

  /** The list after one imported tag: dropped onto a name holder, replaced in place, or appended. */
  function MergedOne(tags: Tags, tag: Tag): Tags {
    if FirstClash(tags, tag.id, tag.name).Some? then Without(tags, tag.id)
    else if HasId(tags, tag.id) then Replaced(tags, tag)
    else tags + [tag]
  }

  function RemapOne(tags: Tags, remap: Remap, tag: Tag): Remap {
    var clash := FirstClash(tags, tag.id, tag.name);
    if clash.Some? then remap[tag.id := tags[clash.value].id] else remap
  }

  datatype Merge = Merge(tags: Tags, remap: Remap)

  /** The import of a whole list, one tag after the other. */
  function Merged(tags: Tags, imported: Tags): Merge {
    if imported == [] then
      Merge(tags, map[])
    else
      var last := |imported| - 1;
      var before := Merged(tags, imported[..last]);
      Merge(MergedOne(before.tags, imported[last]), RemapOne(before.tags, before.remap, imported[last]))
  }

  /** No matter what is imported, ids stay unique and names stay unique up to ASCII case. */
  lemma MergedOneKeepsUnique(tags: Tags, tag: Tag)
    requires UniqueIds(tags) && UniqueNames(tags)
    ensures UniqueIds(MergedOne(tags, tag)) && UniqueNames(MergedOne(tags, tag))
  {
    if FirstClash(tags, tag.id, tag.name).Some? {
      WithoutKeepsUnique(tags, tag.id);
    } else {
      assert forall i | 0 <= i < |tags| :: tags[i].id != tag.id ==> !SameName(tags[i].name, tag.name);
    }
  }

  lemma {:induction false} MergeKeepsUnique(tags: Tags, imported: Tags)
    requires UniqueIds(tags) && UniqueNames(tags)
    ensures UniqueIds(Merged(tags, imported).tags) && UniqueNames(Merged(tags, imported).tags)
  {
    if imported != [] {
      var last := |imported| - 1;
      MergeKeepsUnique(tags, imported[..last]);
      MergedOneKeepsUnique(Merged(tags, imported[..last]).tags, imported[last]);
    }
  }

  // ---------- Following the remap ----------

  /** Following the remap from `id` meets a tag of the list within `n` hops. */
  predicate Resolves(tags: Tags, remap: Remap, id: string, n: nat)
    decreases n
  {
    HasId(tags, id) || (n > 0 && id in remap && Resolves(tags, remap, remap[id], n - 1))
  }

  lemma MergedOneIds(tags: Tags, tag: Tag, id: string)
    ensures FirstClash(tags, tag.id, tag.name).Some? ==>
              (HasId(MergedOne(tags, tag), id) <==> HasId(tags, id) && id != tag.id)
    ensures FirstClash(tags, tag.id, tag.name).None? ==>
              (HasId(MergedOne(tags, tag), id) <==> HasId(tags, id) || id == tag.id)
  {
    var next := MergedOne(tags, tag);
    if FirstClash(tags, tag.id, tag.name).Some? {
      WithoutHolds(tags, tag.id);
      if HasId(next, id) {
        var i :| 0 <= i < |next| && next[i].id == id;
        assert next[i] in tags;
      }
      if HasId(tags, id) && id != tag.id {
        var i :| 0 <= i < |tags| && tags[i].id == id;
        assert tags[i] in next;
      }
    } else if HasId(tags, tag.id) {
      if HasId(next, id) {
        var i :| 0 <= i < |next| && next[i].id == id;
        assert tags[i].id == id;
      }
      if HasId(tags, id) {
        var i :| 0 <= i < |tags| && tags[i].id == id;
        assert next[i].id == id;
      }
    } else {
      assert next[|tags|].id == tag.id;
      if HasId(tags, id) {
        var i :| 0 <= i < |tags| && tags[i].id == id;
        assert next[i].id == id;
      }
    }
  }

  /** Importing one more tag costs every id at most one more hop. */
  lemma {:induction false} MergedOneResolves(tags: Tags, remap: Remap, tag: Tag, id: string, n: nat)
    requires Resolves(tags, remap, id, n)
    ensures Resolves(MergedOne(tags, tag), RemapOne(tags, remap, tag), id, n + 1)
    decreases n
  {
    var next, clash := MergedOne(tags, tag), FirstClash(tags, tag.id, tag.name);
    MergedOneIds(tags, tag, id);
    if clash.Some? && id == tag.id {
      MergedOneIds(tags, tag, tags[clash.value].id);
      assert HasId(tags, tags[clash.value].id);
    } else if !HasId(tags, id) {
      MergedOneResolves(tags, remap, tag, remap[id], n - 1);
    }
  }

  /** Every remapped id, and what it is remapped to, leads to a tag that is still there. */
  lemma {:induction false} RemapResolves(tags: Tags, imported: Tags, id: string)
    requires id in Merged(tags, imported).remap
    ensures var m := Merged(tags, imported);
            Resolves(m.tags, m.remap, id, |imported|) && Resolves(m.tags, m.remap, m.remap[id], |imported|)
  {
    var last := |imported| - 1;
    var before, tag := Merged(tags, imported[..last]), imported[last];
    var clash := FirstClash(before.tags, tag.id, tag.name);
    if clash.Some? && id == tag.id {
      var target := before.tags[clash.value].id;
      assert HasId(before.tags, target);
      MergedOneIds(before.tags, tag, target);
      assert Resolves(MergedOne(before.tags, tag), RemapOne(before.tags, before.remap, tag), target, |imported| - 1);
    } else {
      RemapResolves(tags, imported[..last], id);
      MergedOneResolves(before.tags, before.remap, tag, id, last);
      MergedOneResolves(before.tags, before.remap, tag, before.remap[id], last);
    }
  }

  /** No imported tag is ever lost: its id is in the list or leads to one that is. */
  lemma {:induction false} ImportedResolves(tags: Tags, imported: Tags, k: nat)
    requires k < |imported|
    ensures var m := Merged(tags, imported); Resolves(m.tags, m.remap, imported[k].id, |imported|)
  {
    var last := |imported| - 1;
    var before, tag := Merged(tags, imported[..last]), imported[last];
    if k == last {
      MergedOneIds(before.tags, tag, tag.id);
      var m := Merged(tags, imported);
      if tag.id in m.remap {
        RemapResolves(tags, imported, tag.id);
      }
    } else {
      ImportedResolves(tags, imported[..last], k);
      MergedOneResolves(before.tags, before.remap, tag, imported[k].id, last);
    }
  }

  /** Nor is any tag that was there before. */
  lemma {:induction false} ExistingResolves(tags: Tags, imported: Tags, id: string)
    requires HasId(tags, id)
    ensures var m := Merged(tags, imported); Resolves(m.tags, m.remap, id, |imported|)
  {
    if imported != [] {
      var last := |imported| - 1;
      var before := Merged(tags, imported[..last]);
      ExistingResolves(tags, imported[..last], id);
      MergedOneResolves(before.tags, before.remap, imported[last], id, last);
    }
  }

  // ---------- When one hop is enough ----------

  lemma {:induction false} WithoutAbsent(tags: Tags, id: string)
    requires !HasId(tags, id)
    ensures Without(tags, id) == tags
  {
    if tags != [] {
      assert forall i | 0 <= i < |tags[1..]| :: tags[1..][i] == tags[i + 1];
      assert tags[0].id != id;
      WithoutAbsent(tags[1..], id);
    }
  }

  const PROD := Tag("1", "Prod", "#fff")
  const DEV := Tag("2", "Dev", "#fff")

  /** A second tag named "prod" is dropped onto the first. */
  lemma SecondProd()
    ensures Merged([PROD, DEV], [Tag("3", "prod", "#fff")]) == Merge([PROD, DEV], map["3" := "1"])
  {
    var tags, x := [PROD, DEV], Tag("3", "prod", "#fff");
    assert Lower("Prod") == "prod" == Lower("prod");
    assert FirstClash(tags, "3", "prod") == Some(0);
    WithoutAbsent(tags, "3");
    assert [x][..0] == [];
    assert Merged(tags, []) == Merge(tags, map[]);
  }

  /** Renaming the first to "dev" then drops it, too. */
  lemma ProdBecomesDev()
    ensures FirstClash([PROD, DEV], "1", "dev") == Some(1)
  {
    assert Lower("Dev") == "dev" == Lower("dev");
    assert [PROD, DEV][1..] == [DEV];
    assert FirstClash([DEV], "1", "dev") == Some(0);
  }

  /** One hop, as the import applies the remap to connections, can end at a tag that is gone. */
  lemma OneHopIsNotEnough()
    ensures var m := Merged([PROD, DEV], [Tag("3", "prod", "#fff"), Tag("1", "dev", "#fff")]);
            && UniqueIds([PROD, DEV]) && UniqueNames([PROD, DEV])
            && "3" in m.remap && m.remap["3"] == "1" && !HasId(m.tags, "1")
  {
    var tags, x, y := [PROD, DEV], Tag("3", "prod", "#fff"), Tag("1", "dev", "#fff");
    assert |Lower("Prod")| != |Lower("Dev")|;
    SecondProd();
    ProdBecomesDev();
    assert [x, y][..1] == [x];
    MergedOneIds(tags, y, "1");
  }

  /** The last of the first `n` imported tags with this id. */
  function LastImport(imported: Tags, id: string, n: nat): (r: Option<nat>)
    requires n <= |imported|
    ensures r.Some? ==> r.value < n && imported[r.value].id == id
    ensures forall i | (if r.Some? then r.value + 1 else 0) <= i < n :: imported[i].id != id
  {
    if n == 0 then None
    else if imported[n - 1].id == id then Some(n - 1)
    else LastImport(imported, id, n - 1)
  }

  /** The merge after the first `n` imported tags. */
  function MergedUpTo(tags: Tags, imported: Tags, n: nat): Merge
    requires n <= |imported|
  {
    Merged(tags, imported[..n])
  }

  lemma MergedStep(tags: Tags, imported: Tags, n: nat)
    requires n < |imported|
    ensures var before := MergedUpTo(tags, imported, n);
            MergedUpTo(tags, imported, n + 1) ==
            Merge(MergedOne(before.tags, imported[n]), RemapOne(before.tags, before.remap, imported[n]))
  {
    assert imported[..n + 1][..n] == imported[..n];
  }

  /** Where the list holds the name of imported tag `j` under another id when that tag's turn comes. */
  function ClashOf(tags: Tags, imported: Tags, j: nat): (r: Option<nat>)
    requires j < |imported|
    ensures r.Some? ==> r.value < |MergedUpTo(tags, imported, j).tags|
  {
    FirstClash(MergedUpTo(tags, imported, j).tags, imported[j].id, imported[j].name)
  }

  /** Import `k` decides if it is one of `id`; else nothing changes. */
  predicate Decides(imported: Tags, id: string, state: nat -> bool, decision: nat -> bool, k: nat)
    requires k < |imported|
  {
    state(k + 1) == if imported[k].id == id then decision(k) else state(k)
  }

  /** Then the last import of `id` decides. */
  lemma {:induction false} LastDecides(imported: Tags, id: string, state: nat -> bool, decision: nat -> bool, n: nat)
    requires n <= |imported| && forall k: nat | k < n :: Decides(imported, id, state, decision, k)
    ensures state(n) == match LastImport(imported, id, n) case None => state(0) case Some(j) => decision(j)
  {
    if n > 0 {
      LastDecides(imported, id, state, decision, n - 1);
      assert Decides(imported, id, state, decision, n - 1);
    }
  }

  lemma PresentNext(tags: Tags, imported: Tags, id: string, n: nat)
    requires n < |imported|
    ensures HasId(MergedUpTo(tags, imported, n + 1).tags, id) <==>
            if imported[n].id == id then ClashOf(tags, imported, n).None?
            else HasId(MergedUpTo(tags, imported, n).tags, id)
  {
    MergedStep(tags, imported, n);
    MergedOneIds(MergedUpTo(tags, imported, n).tags, imported[n], id);
  }

  /** Which ids are in the list after `n` imports: those imported whose last import found its name free, and
      those of the old list that were not imported at all. */
  lemma PresentExactly(tags: Tags, imported: Tags, id: string, n: nat)
    requires n <= |imported|
    ensures HasId(MergedUpTo(tags, imported, n).tags, id) <==>
            match LastImport(imported, id, n)
            case None => HasId(tags, id)
            case Some(j) => ClashOf(tags, imported, j).None?
  {
    var state := (k: nat) => k <= |imported| && HasId(MergedUpTo(tags, imported, k).tags, id);
    var free := (k: nat) => k < |imported| && ClashOf(tags, imported, k).None?;
    forall k: nat | k < n
      ensures Decides(imported, id, state, free, k)
    {
      PresentNext(tags, imported, id, k);
    }
    LastDecides(imported, id, state, free, n);
    assert imported[..0] == [];
  }

  // ---------- What the list holds ----------

  /** With unique ids, a tag is in the list after one more import if it is the imported one and its name is free, or
      if it was there and the imported one has another id. */
  lemma MergedOneHolds(tags: Tags, tag: Tag, t: Tag)
    requires UniqueIds(tags)
    ensures t in MergedOne(tags, tag) <==>
            if t.id == tag.id then t == tag && FirstClash(tags, tag.id, tag.name).None? else t in tags
  {
    var next := MergedOne(tags, tag);
    WithoutHolds(tags, tag.id);
    if FirstClash(tags, tag.id, tag.name).None? {
      if HasId(tags, tag.id) {
        forall i | 0 <= i < |tags|
          ensures next[i] == if tags[i].id == tag.id then tag else tags[i]
        {
        }
        if t in tags && t.id != tag.id {
          var i :| 0 <= i < |tags| && tags[i] == t;
          assert next[i] == t;
        }
        var i :| 0 <= i < |tags| && tags[i].id == tag.id;
        assert next[i] == tag;
      } else {
        assert next[|tags|] == tag;
        assert forall i | 0 <= i < |tags| :: tags[i].id != tag.id;
      }
    }
  }

  /** The list holds the tag after `n` imports. */
  predicate Holds(tags: Tags, imported: Tags, t: Tag, n: nat) {
    n <= |imported| && t in MergedUpTo(tags, imported, n).tags
  }

  /** Import `j` puts just this tag into the list, or leaves it there. */
  predicate Wins(tags: Tags, imported: Tags, t: Tag, j: nat) {
    j < |imported| && ClashOf(tags, imported, j).None? && t == imported[j]
  }

  lemma HoldsNext(tags: Tags, imported: Tags, t: Tag, n: nat)
    requires n < |imported| && UniqueIds(tags) && UniqueNames(tags)
    ensures Holds(tags, imported, t, n + 1) ==
            if imported[n].id == t.id then Wins(tags, imported, t, n) else Holds(tags, imported, t, n)
  {
    MergedStep(tags, imported, n);
    MergeKeepsUnique(tags, imported[..n]);
    MergedOneHolds(MergedUpTo(tags, imported, n).tags, imported[n], t);
  }

  lemma HeldAtFirst(tags: Tags, imported: Tags, t: Tag)
    ensures Holds(tags, imported, t, 0) <==> t in tags
  {
    assert imported[..0] == [];
  }

  lemma {:induction false} HoldsByLast(tags: Tags, imported: Tags, t: Tag, n: nat)
    requires n <= |imported| && UniqueIds(tags) && UniqueNames(tags)
    ensures Holds(tags, imported, t, n) ==
            match LastImport(imported, t.id, n)
            case None => Holds(tags, imported, t, 0)
            case Some(j) => Wins(tags, imported, t, j)
  {
    if n > 0 {
      HoldsByLast(tags, imported, t, n - 1);
      HoldsNext(tags, imported, t, n - 1);
    }
  }

  /** After any import the list holds exactly the tags whose last import found their name free, as they were
      imported, and the old ones that were not imported, as they were. */
  lemma MergedExactly(tags: Tags, imported: Tags, t: Tag, n: nat)
    requires n <= |imported| && UniqueIds(tags) && UniqueNames(tags)
    ensures t in MergedUpTo(tags, imported, n).tags <==>
            match LastImport(imported, t.id, n)
            case None => t in tags
            case Some(j) => ClashOf(tags, imported, j).None? && t == imported[j]
  {
    HoldsByLast(tags, imported, t, n);
    HeldAtFirst(tags, imported, t);
  }

  /** When the tag called `id` came into the list: its place in the old one, or that of the import that added it. */
  function Arrival(tags: Tags, imported: Tags, id: string, n: nat): int
    requires n <= |imported|
  {
    if n == 0 then PlaceOf(tags, id)
    else if imported[n - 1].id == id && !HasId(MergedUpTo(tags, imported, n - 1).tags, id) then |tags| + n - 1
    else Arrival(tags, imported, id, n - 1)
  }

  /** Where the tag called `id` stands. */
  function PlaceOf(tags: Tags, id: string): (k: nat)
    ensures k <= |tags|
    ensures k < |tags| ==> tags[k].id == id
    ensures forall j | 0 <= j < k :: tags[j].id != id
  {
    if tags == [] || tags[0].id == id then 0 else 1 + PlaceOf(tags[1..], id)
  }

  /** Some tags, in the order in which they came into the list. */
  predicate InOrder(some: Tags, tags: Tags, imported: Tags, n: nat)
    requires n <= |imported|
  {
    forall i, j | 0 <= i < j < |some| ::
      Arrival(tags, imported, some[i].id, n) < Arrival(tags, imported, some[j].id, n)
  }

  /** Where a tag that is left stood before. */
  lemma {:induction false} WithoutAt(some: Tags, id: string, j: nat) returns (b: nat)
    requires j < |Without(some, id)|
    ensures b < |some| && some[b] == Without(some, id)[j]
  {
    if some[0].id == id {
      b := WithoutAt(some[1..], id, j);
      b := b + 1;
    } else if j == 0 {
      b := 0;
    } else {
      b := WithoutAt(some[1..], id, j - 1);
      b := b + 1;
    }
  }

  lemma {:induction false} WithoutKeepsPairs(some: Tags, id: string, i: nat, j: nat) returns (a: nat, b: nat)
    requires i < j < |Without(some, id)|
    ensures a < b < |some| && some[a] == Without(some, id)[i] && some[b] == Without(some, id)[j]
  {
    if some[0].id == id {
      a, b := WithoutKeepsPairs(some[1..], id, i, j);
      a, b := a + 1, b + 1;
    } else if i == 0 {
      b := WithoutAt(some[1..], id, j - 1);
      a, b := 0, b + 1;
    } else {
      a, b := WithoutKeepsPairs(some[1..], id, i - 1, j - 1);
      a, b := a + 1, b + 1;
    }
  }

  lemma WithoutInOrder(some: Tags, id: string, tags: Tags, imported: Tags, n: nat, left: Tags)
    requires n <= |imported| && InOrder(some, tags, imported, n) && left == Without(some, id)
    ensures InOrder(left, tags, imported, n)
  {
    forall i, j | 0 <= i < j < |left|
      ensures Arrival(tags, imported, left[i].id, n) < Arrival(tags, imported, left[j].id, n)
    {
      var a, b := WithoutKeepsPairs(some, id, i, j);
      assert left[i] == some[a] && left[j] == some[b];
    }
  }

  /** What was in the list before an import arrived before it, and keeps its place. */
  lemma ArrivalStays(tags: Tags, imported: Tags, id: string, n: nat)
    requires n < |imported| && HasId(MergedUpTo(tags, imported, n).tags, id)
    ensures Arrival(tags, imported, id, n + 1) == Arrival(tags, imported, id, n)
  {
  }

  lemma {:induction false} ArrivesBefore(tags: Tags, imported: Tags, id: string, n: nat)
    requires n <= |imported| && HasId(MergedUpTo(tags, imported, n).tags, id)
    ensures Arrival(tags, imported, id, n) < |tags| + n
  {
    if n == 0 {
      assert imported[..0] == [];
      var i :| 0 <= i < |tags| && tags[i].id == id;
    } else {
      MergedStep(tags, imported, n - 1);
      MergedOneIds(MergedUpTo(tags, imported, n - 1).tags, imported[n - 1], id);
      if HasId(MergedUpTo(tags, imported, n - 1).tags, id) {
        ArrivesBefore(tags, imported, id, n - 1);
      }
    }
  }

  lemma OldInOrder(tags: Tags, imported: Tags)
    requires UniqueIds(tags)
    ensures InOrder(tags, tags, imported, 0)
  {
    forall i | 0 <= i < |tags|
      ensures PlaceOf(tags, tags[i].id) == i
    {
    }
  }

  /** The import that found the list in order leaves it in order. */
  lemma OneMoreInOrder(tags: Tags, imported: Tags, n: nat, before: Tags, next: Tags)
    requires n < |imported| && before == MergedUpTo(tags, imported, n).tags && next == MergedOne(before, imported[n])
    requires InOrder(before, tags, imported, n)
    ensures InOrder(next, tags, imported, n + 1)
  {
    var tag := imported[n];
    forall k | 0 <= k < |before|
      ensures Arrival(tags, imported, before[k].id, n + 1) == Arrival(tags, imported, before[k].id, n) < |tags| + n
    {
      ArrivalStays(tags, imported, before[k].id, n);
      ArrivesBefore(tags, imported, before[k].id, n);
    }
    assert InOrder(before, tags, imported, n + 1);
    if FirstClash(before, tag.id, tag.name).Some? {
      WithoutInOrder(before, tag.id, tags, imported, n + 1, next);
    }
  }

  /** Tags stay in the order in which they came: the old ones first, the new ones as they were imported. */
  lemma {:induction false} MergedInOrder(tags: Tags, imported: Tags, n: nat)
    requires n <= |imported| && UniqueIds(tags)
    ensures InOrder(MergedUpTo(tags, imported, n).tags, tags, imported, n)
  {
    if n == 0 {
      assert imported[..0] == [];
      OldInOrder(tags, imported);
    } else {
      MergedInOrder(tags, imported, n - 1);
      MergedStep(tags, imported, n - 1);
      OneMoreInOrder(tags, imported, n - 1, MergedUpTo(tags, imported, n - 1).tags, MergedUpTo(tags, imported, n).tags);
    }
  }

  // ---------- Where the remap leads ----------

  /** The last of the first `n` imports of `id` that found its name taken. */
  function LastClash(tags: Tags, imported: Tags, id: string, n: nat): (r: Option<nat>)
    requires n <= |imported|
    ensures r.Some? ==> r.value < n && imported[r.value].id == id && ClashOf(tags, imported, r.value).Some?
  {
    if n == 0 then None
    else if imported[n - 1].id == id && ClashOf(tags, imported, n - 1).Some? then Some(n - 1)
    else LastClash(tags, imported, id, n - 1)
  }

  lemma LastClashStep(tags: Tags, imported: Tags, id: string, n: nat)
    requires 0 < n <= |imported|
    ensures LastClash(tags, imported, id, n) ==
            if imported[n - 1].id == id && ClashOf(tags, imported, n - 1).Some? then Some(n - 1)
            else LastClash(tags, imported, id, n - 1)
  {
  }

  /** The id of the tag that held the name of imported tag `j`. */
  function Holder(tags: Tags, imported: Tags, j: nat): (id: string)
    requires j < |imported| && ClashOf(tags, imported, j).Some?
  {
    MergedUpTo(tags, imported, j).tags[ClashOf(tags, imported, j).value].id
  }

  lemma HolderIsAnother(tags: Tags, imported: Tags, j: nat)
    requires j < |imported| && ClashOf(tags, imported, j).Some?
    ensures HasId(MergedUpTo(tags, imported, j).tags, Holder(tags, imported, j))
    ensures Holder(tags, imported, j) != imported[j].id
  {
  }

  /** One more imported tag remaps its own id, if its name is taken, and leaves the remap of all others alone. */
  lemma RemapStep(tags: Tags, imported: Tags, id: string, n: nat, remap: Remap) returns (next: Remap)
    requires n < |imported| && remap == MergedUpTo(tags, imported, n).remap
    ensures next == MergedUpTo(tags, imported, n + 1).remap
    ensures if imported[n].id == id && ClashOf(tags, imported, n).Some? then
              id in next && next[id] == Holder(tags, imported, n)
            else
              (id in next <==> id in remap) && (id in remap ==> next[id] == remap[id])
  {
    MergedStep(tags, imported, n);
    next := MergedUpTo(tags, imported, n + 1).remap;
  }

  /** The remap sends an id to the holder of the name at the last clash of the id. */
  lemma {:induction false} RemapIsLastHolder(tags: Tags, imported: Tags, id: string, n: nat) returns (remap: Remap)
    requires n <= |imported|
    ensures remap == MergedUpTo(tags, imported, n).remap
    ensures var j := LastClash(tags, imported, id, n);
            && (id in remap <==> j.Some?)
            && (j.Some? ==> remap[id] == Holder(tags, imported, j.value))
  {
    if n == 0 {
      remap := map[];
    } else {
      var before := RemapIsLastHolder(tags, imported, id, n - 1);
      remap := RemapStep(tags, imported, id, n - 1, before);
      LastClashStep(tags, imported, id, n);
    }
  }

  lemma {:induction false} LastImportBefore(imported: Tags, id: string, j: nat, n: nat)
    requires j <= n <= |imported|
    ensures var r := LastImport(imported, id, n);
            r.None? || r.value < j ==> LastImport(imported, id, j) == r
    decreases n
  {
    if j < n {
      LastImportBefore(imported, id, j, n - 1);
    }
  }

  /** The holder of the name at import `j` is in the list after `n` imports, unless it was imported again in between,
      and last under a name that was taken. */
  lemma HolderStays(tags: Tags, imported: Tags, j: nat, n: nat, holder: string)
    requires j < n <= |imported| && ClashOf(tags, imported, j).Some? && holder == Holder(tags, imported, j)
    ensures var again := LastImport(imported, holder, n);
            HasId(MergedUpTo(tags, imported, n).tags, holder) <==>
            !(again.Some? && again.value > j && ClashOf(tags, imported, again.value).Some?)
  {
    HolderIsAnother(tags, imported, j);
    PresentExactly(tags, imported, holder, n);
    PresentExactly(tags, imported, holder, j);
    LastImportBefore(imported, holder, j, n);
  }

  /** For any imported list: one hop from a remapped id ends at a tag of the list, unless the tag that held its
      name was itself imported later, for the last time, under a name that was taken. */
  lemma OneHopEnoughExactly(tags: Tags, imported: Tags, id: string)
    requires LastClash(tags, imported, id, |imported|).Some?
    ensures var m, j := Merged(tags, imported), LastClash(tags, imported, id, |imported|).value;
            var holder := Holder(tags, imported, j);
            var again := LastImport(imported, holder, |imported|);
            && id in m.remap && m.remap[id] == holder
            && (HasId(m.tags, holder) <==>
                !(again.Some? && again.value > j && ClashOf(tags, imported, again.value).Some?))
  {
    var n := |imported|;
    var j := LastClash(tags, imported, id, n).value;
    assert imported[..n] == imported;
    var remap := RemapIsLastHolder(tags, imported, id, n);
    HolderStays(tags, imported, j, n, Holder(tags, imported, j));
  }

  class TagList {
    var tags: Tags

    constructor ()
      ensures tags == []
    {
      tags := [];
    }

    /** `id` is a fresh uuid. */
    method CreateTag(id: string, name: string, color: string) returns (created: bool)
      requires !HasId(tags, id)
      modifies this
      ensures created <==> ValidTagInput(name, color) &&
                           forall i | 0 <= i < |old(tags)| :: !SameName(old(tags)[i].name, Trim(name))
      ensures tags == if created then old(tags) + [Tag(id, Trim(name), color)] else old(tags)
      ensures old(UniqueIds(tags) && UniqueNames(tags)) ==> UniqueIds(tags) && UniqueNames(tags)
    {
      if !ValidTagInput(name, color) || exists i | 0 <= i < |tags| :: SameName(tags[i].name, Trim(name)) {
        return false;
      }
      tags := tags + [Tag(id, Trim(name), color)];
      return true;
    }

    /** A rename to a name that only differs in case from the tag's own is allowed. */
    method UpdateTag(id: string, name: string, color: string) returns (updated: bool)
      modifies this
      ensures updated <==> ValidTagInput(name, color) && !Clashes(old(tags), id, Trim(name)) && HasId(old(tags), id)
      ensures tags == if updated then Replaced(old(tags), Tag(id, Trim(name), color)) else old(tags)
      ensures old(UniqueIds(tags)) ==> UniqueIds(tags)
      ensures old(UniqueIds(tags) && UniqueNames(tags)) ==> UniqueNames(tags)
    {
      if !ValidTagInput(name, color) || Clashes(tags, id, Trim(name)) || !HasId(tags, id) {
        return false;
      }
      tags := Replaced(tags, Tag(id, Trim(name), color));
      return true;
    }

    method MergeImportedTags(imported: Tags) returns (remap: Remap)
      modifies this
      ensures tags == Merged(old(tags), imported).tags
      ensures remap == Merged(old(tags), imported).remap
    {
      remap := map[];
      for i := 0 to |imported|
        invariant Merged(old(tags), imported[..i]) == Merge(tags, remap)
      {
        var tag := imported[i];
        assert imported[..i + 1][..i] == imported[..i];
        var sameName := FirstClash(tags, tag.id, tag.name);
        if sameName.Some? {
          var target := tags[sameName.value].id;
          tags := Without(tags, tag.id);
          remap := remap[tag.id := target];
        } else if HasId(tags, tag.id) {
          tags := Replaced(tags, tag);
        } else {
          tags := tags + [tag];
        }
      }
      assert imported[..|imported|] == imported;
    }
  }
}
