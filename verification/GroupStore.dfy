/** The stored list of groups, and the operations that edit it in place. */
module GroupStore {
  import opened Wrappers
  import opened GroupForest

  // ---------- Merging an imported list ----------

  /** The first position of `id`, or the length of the list. */
  function IndexOfId(groups: seq<Group>, id: Id): (k: nat)
    ensures k <= |groups|
    ensures k < |groups| ==> groups[k].id == id
    ensures forall j | 0 <= j < k :: groups[j].id != id
  {
    if groups == [] || groups[0].id == id then 0 else 1 + IndexOfId(groups[1..], id)
  }

  /** The incoming record replaces the first one of its id, or is appended. */
  function MergeOne(groups: seq<Group>, g: Group): seq<Group> {
    var k := IndexOfId(groups, g.id);
    if k < |groups| then groups[k := g] else groups + [g]
  }

  function MergeAll(groups: seq<Group>, incoming: seq<Group>): seq<Group>
    decreases |incoming|
  {
    if incoming == [] then groups else MergeAll(MergeOne(groups, incoming[0]), incoming[1..])
  }

  function RepairOne(g: Group, known: set<Id>): Group {
    if g.parent.Some? && g.parent.value !in known then g.(parent := None) else g
  }

  /** Parents that name no group are dropped. */
  function Repair(groups: seq<Group>, known: set<Id>): (r: seq<Group>)
    ensures |r| == |groups|
  {
    seq(|groups|, k requires 0 <= k < |groups| => RepairOne(groups[k], known))
  }

  function Merged(groups: seq<Group>, incoming: seq<Group>): seq<Group> {
    var all := MergeAll(groups, incoming);
    Repair(all, Ids(all))
  }

  function IdList(groups: seq<Group>): seq<Id> { seq(|groups|, k requires 0 <= k < |groups| => groups[k].id) }

  /** The incoming ids that are new, in the order they are first seen. */
  function NewIds(known: seq<Id>, incoming: seq<Group>): seq<Id>
    decreases |incoming|
  {
    if incoming == [] then []
    else if incoming[0].id in known then NewIds(known, incoming[1..])
    else [incoming[0].id] + NewIds(known + [incoming[0].id], incoming[1..])
  }

  predicate IsLastOf(incoming: seq<Group>, id: Id, k: nat) {
    k < |incoming| && incoming[k].id == id && forall j | k < j < |incoming| :: incoming[j].id != id
  }

  /** The last incoming record of `id`. */
  function LastIncoming(incoming: seq<Group>, id: Id): (r: Option<Group>)
    ensures r.Some? ==> exists k: nat :: IsLastOf(incoming, id, k) && incoming[k] == r.value
    ensures r.None? ==> forall k | 0 <= k < |incoming| :: incoming[k].id != id
  {
    if incoming == [] then None
    else
      var last := incoming[|incoming| - 1];
      assert last.id == id ==> IsLastOf(incoming, id, |incoming| - 1);
      var rest := LastIncoming(incoming[..|incoming| - 1], id);
      assert forall k: nat | IsLastOf(incoming[..|incoming| - 1], id, k) && last.id != id :: IsLastOf(incoming, id, k);
      if last.id == id then Some(last) else rest
  }

  lemma {:induction false} MergeAllSnoc(groups: seq<Group>, incoming: seq<Group>, g: Group)
    ensures MergeAll(groups, incoming + [g]) == MergeOne(MergeAll(groups, incoming), g)
    decreases |incoming|
  {
    if incoming == [] {
      assert ([] + [g])[1..] == [];
    } else {
      assert (incoming + [g])[1..] == incoming[1..] + [g];
      MergeAllSnoc(MergeOne(groups, incoming[0]), incoming[1..], g);
    }
  }

  lemma IdListOfMergeOne(groups: seq<Group>, g: Group)
    ensures IdList(MergeOne(groups, g)) == if g.id in IdList(groups) then IdList(groups) else IdList(groups) + [g.id]
  {
    var k := IndexOfId(groups, g.id);
    if k < |groups| {
      assert IdList(groups)[k] == g.id;
      assert IdList(groups[k := g]) == IdList(groups);
    } else {
      assert forall j | 0 <= j < |groups| :: IdList(groups)[j] != g.id;
      assert IdList(groups + [g]) == IdList(groups) + [g.id];
    }
  }

  /** Existing groups keep their positions; new ids follow in first-seen order. */
  lemma {:induction false} MergeKeepsOrder(groups: seq<Group>, incoming: seq<Group>)
    ensures IdList(MergeAll(groups, incoming)) == IdList(groups) + NewIds(IdList(groups), incoming)
    ensures IdList(Merged(groups, incoming)) == IdList(groups) + NewIds(IdList(groups), incoming)
    decreases |incoming|
  {
    if incoming == [] {
      assert IdList(Merged(groups, [])) == IdList(groups);
    } else {
      var next := MergeOne(groups, incoming[0]);
      IdListOfMergeOne(groups, incoming[0]);
      MergeKeepsOrder(next, incoming[1..]);
      var all := MergeAll(groups, incoming);
      assert IdList(Repair(all, Ids(all))) == IdList(all);
    }
  }

  /** What a record of the merged list is: the last incoming record of its id, or the existing record. */
  ghost predicate IsMergeOf(all: seq<Group>, groups: seq<Group>, incoming: seq<Group>) {
    && |groups| <= |all|
    && (forall k | 0 <= k < |all| && IndexOfId(all, all[k].id) == k ::
          var last := LastIncoming(incoming, all[k].id);
          if last.Some? then all[k] == last.value else k < |groups| && all[k] == groups[k])
    && (forall k | 0 <= k < |all| && IndexOfId(all, all[k].id) != k :: k < |groups| && all[k] == groups[k])
    && (forall k | 0 <= k < |incoming| :: incoming[k].id in IdList(all))
  }

  lemma IndexAfterMergeOne(groups: seq<Group>, g: Group, id: Id)
    ensures IndexOfId(MergeOne(groups, g), id) ==
            if id == g.id && IndexOfId(groups, id) == |groups| then |groups|
            else if IndexOfId(groups, id) == |groups| then |MergeOne(groups, g)| else IndexOfId(groups, id)
  {
    var merged := MergeOne(groups, g);
    var j := IndexOfId(merged, id);
    assert forall m | 0 <= m < |groups| :: merged[m].id == groups[m].id;
    if |merged| > |groups| {
      assert merged[|groups|] == g;
    }
  }

  lemma {:induction false} MergeIsMerge(groups: seq<Group>, incoming: seq<Group>)
    ensures IsMergeOf(MergeAll(groups, incoming), groups, incoming)
    decreases |incoming|
  {
    if incoming != [] {
      var n := |incoming| - 1;
      var g := incoming[n];
      var before := MergeAll(groups, incoming[..n]);
      assert incoming == incoming[..n] + [g];
      MergeAllSnoc(groups, incoming[..n], g);
      MergeIsMerge(groups, incoming[..n]);
      MergeOneMore(before, groups, incoming[..n], g);
    }
  }

  lemma MergeOneMore(before: seq<Group>, groups: seq<Group>, incoming: seq<Group>, g: Group)
    requires IsMergeOf(before, groups, incoming)
    ensures IsMergeOf(MergeOne(before, g), groups, incoming + [g])
  {
    var all := MergeOne(before, g);
    IdListOfMergeOne(before, g);
    assert (incoming + [g])[..|incoming|] == incoming;
    forall k | 0 <= k < |all|
      ensures IndexOfId(all, all[k].id) == k ==>
                var last := LastIncoming(incoming + [g], all[k].id);
                if last.Some? then all[k] == last.value else k < |groups| && all[k] == groups[k]
      ensures IndexOfId(all, all[k].id) != k ==> k < |groups| && all[k] == groups[k]
    {
      IndexAfterMergeOne(before, g, all[k].id);
    }
  }

  lemma IdListRepair(groups: seq<Group>, known: set<Id>)
    ensures IdList(Repair(groups, known)) == IdList(groups)
  {
  }

  /** The ids of a list are its id list's elements. */
  lemma IdsOfIdList(a: seq<Group>, b: seq<Group>)
    requires IdList(a) == IdList(b)
    ensures Ids(a) == Ids(b) && forall id :: IndexOfId(a, id) == IndexOfId(b, id)
  {
    assert |IdList(a)| == |a| && |IdList(b)| == |b|;
    assert forall k | 0 <= k < |a| :: IdList(a)[k] == a[k].id && IdList(b)[k] == b[k].id;
    forall id
      ensures id in Ids(a) <==> id in Ids(b)
      ensures IndexOfId(a, id) == IndexOfId(b, id)
    {
      var i, j := IndexOfId(a, id), IndexOfId(b, id);
      assert i < |a| ==> b[i].id == id;
      assert j < |b| ==> a[j].id == id;
      if id in Ids(a) {
        var k :| 0 <= k < |a| && a[k].id == id;
        assert b[k].id == id;
      }
      if id in Ids(b) {
        var k :| 0 <= k < |b| && b[k].id == id;
        assert a[k].id == id;
      }
    }
  }

  lemma RepairKeepsIds(groups: seq<Group>, known: set<Id>)
    ensures Ids(Repair(groups, known)) == Ids(groups)
    ensures forall id :: IndexOfId(Repair(groups, known), id) == IndexOfId(groups, id)
  {
    IdListRepair(groups, known);
    IdsOfIdList(Repair(groups, known), groups);
  }

  /** `r` is `chosen`, with its parent if that is one of the known groups, and at the top only otherwise. */
  predicate IsRepaired(r: Group, chosen: Group, known: set<Id>) {
    && r == chosen.(parent := r.parent)
    && (chosen.parent.Some? && chosen.parent.value in known ==> r.parent == chosen.parent)
    && (chosen.parent.None? || chosen.parent.value !in known ==> r.parent == None)
  }

  lemma RepairOneRepairs(g: Group, known: set<Id>)
    ensures IsRepaired(RepairOne(g, known), g, known)
  {
  }

  /** In the merged list the last incoming record of an id wins, and a record that none replaces stays as it
      was; either way all but the parent, and the parent too if it names a group of the merged list. */
  lemma LastIncomingWins(groups: seq<Group>, incoming: seq<Group>, k: nat)
    requires k < |Merged(groups, incoming)|
    ensures var r := Merged(groups, incoming);
            var last := LastIncoming(incoming, r[k].id);
            && (IndexOfId(r, r[k].id) == k && last.Some? ==> IsRepaired(r[k], last.value, Ids(r)))
            && (IndexOfId(r, r[k].id) != k || last.None? ==> k < |groups| && IsRepaired(r[k], groups[k], Ids(r)))
  {
    var all := MergeAll(groups, incoming);
    MergeIsMerge(groups, incoming);
    RepairKeepsIds(all, Ids(all));
    RepairOneRepairs(all[k], Ids(all));
  }

  /** Every parent of the merged list names a group of the merged list. */
  lemma MergedParentsResolve(groups: seq<Group>, incoming: seq<Group>)
    ensures var r := Merged(groups, incoming);
            forall k | 0 <= k < |r| && r[k].parent.Some? :: r[k].parent.value in Ids(r)
  {
    var all := MergeAll(groups, incoming);
    RepairKeepsIds(all, Ids(all));
  }

  lemma {:induction false} MergeOfKnownKeepsLength(groups: seq<Group>, incoming: seq<Group>)
    requires forall k | 0 <= k < |incoming| :: incoming[k].id in IdList(groups)
    ensures |MergeAll(groups, incoming)| == |groups|
    decreases |incoming|
  {
    if incoming != [] {
      IdListOfMergeOne(groups, incoming[0]);
      assert |IdList(MergeOne(groups, incoming[0]))| == |MergeOne(groups, incoming[0])|;
      MergeOfKnownKeepsLength(MergeOne(groups, incoming[0]), incoming[1..]);
    }
  }

  /** Merging the same list again changes nothing. */
  lemma MergeIdempotent(groups: seq<Group>, incoming: seq<Group>)
    ensures Merged(Merged(groups, incoming), incoming) == Merged(groups, incoming)
  {
    var all := MergeAll(groups, incoming);
    var r := Merged(groups, incoming);
    var again := MergeAll(r, incoming);
    MergeIsMerge(groups, incoming);
    IdListRepair(all, Ids(all));
    MergeOfKnownKeepsLength(r, incoming);
    MergeKeepsOrder(r, incoming);
    assert |IdList(again)| == |again| && |IdList(r)| == |r|;
    assert IdList(again) == IdList(r);
    IdsOfIdList(again, r);
    IdsOfIdList(all, r);
    MergeIsMerge(r, incoming);
    forall k | 0 <= k < |r|
      ensures RepairOne(again[k], Ids(again)) == r[k]
    {
      RepeatedRecord(groups, incoming, k);
    }
  }

  lemma RepeatedRecord(groups: seq<Group>, incoming: seq<Group>, k: nat)
    requires k < |Merged(groups, incoming)| == |MergeAll(Merged(groups, incoming), incoming)|
    requires IdList(MergeAll(Merged(groups, incoming), incoming)) == IdList(Merged(groups, incoming))
    ensures var r := Merged(groups, incoming);
            RepairOne(MergeAll(r, incoming)[k], Ids(r)) == r[k]
  {
    var all := MergeAll(groups, incoming);
    var r := Merged(groups, incoming);
    var again := MergeAll(r, incoming);
    IdListRepair(all, Ids(all));
    IdsOfIdList(again, r);
    IdsOfIdList(all, r);
    MergeIsMerge(groups, incoming);
    MergeIsMerge(r, incoming);
    assert IdList(again)[k] == again[k].id && IdList(r)[k] == r[k].id && IdList(all)[k] == all[k].id;
  }

  // ---------- The store ----------

  datatype MoveError = GroupNotFound | ParentNotFound | Cycle(reason: CycleError)

  predicate KnownParent(groups: seq<Group>, parent: Option<Id>) { parent.Some? ==> parent.value in Ids(groups) }

  /** The list with the parent of the first record of `id` replaced. */
  function SetParent(groups: seq<Group>, id: Id, parent: Option<Id>): seq<Group> {
    var k := IndexOfId(groups, id);
    if k < |groups| then groups[k := groups[k].(parent := parent)] else groups
  }

  lemma UpdatesCommute(m: Parents, a: Id, p: Option<Id>, b: Id, q: Option<Id>)
    requires a != b
    ensures m[a := p][b := q] == m[b := q][a := p]
  {
  }

  lemma FirstParentsCons(x: Group, rest: seq<Group>)
    ensures FirstParents([x] + rest) == FirstParents(rest)[x.id := x.parent]
  {
    assert ([x] + rest)[1..] == rest;
  }

  lemma SetParentCons(x: Group, rest: seq<Group>, id: Id, parent: Option<Id>)
    ensures SetParent([x] + rest, id, parent) ==
            if x.id == id then [x.(parent := parent)] + rest else [x] + SetParent(rest, id, parent)
  {
    assert ([x] + rest)[1..] == rest;
  }

  lemma {:induction false} SetParentUpdatesMap(groups: seq<Group>, id: Id, parent: Option<Id>)
    requires IndexOfId(groups, id) < |groups|
    ensures FirstParents(SetParent(groups, id, parent)) == FirstParents(groups)[id := parent]
  {
    var x, rest := groups[0], groups[1..];
    assert groups == [x] + rest;
    SetParentCons(x, rest, id, parent);
    FirstParentsCons(x, rest);
    if x.id == id {
      FirstParentsCons(x.(parent := parent), rest);
    } else {
      SetParentUpdatesMap(rest, id, parent);
      FirstParentsCons(x, SetParent(rest, id, parent));
      UpdatesCommute(FirstParents(rest), id, parent, x.id, x.parent);
    }
  }

  class GroupList {
    var groups: seq<Group>

    constructor ()
      ensures groups == []
    {
      groups := [];
    }

    /** Overwrites or appends record by record, then drops the parents that name no group. */
    method MergeGroups(incoming: seq<Group>)
      modifies this
      ensures groups == Merged(old(groups), incoming)
    {
      for n := 0 to |incoming|
        invariant groups == MergeAll(old(groups), incoming[..n])
      {
        var g := incoming[n];
        MergeAllSnoc(old(groups), incoming[..n], g);
        assert incoming[..n] + [g] == incoming[..n + 1];
        var k := IndexOfId(groups, g.id);
        if k < |groups| {
          groups := groups[k := g];
        } else {
          groups := groups + [g];
        }
      }
      assert incoming[..|incoming|] == incoming;
      var knownIds := Ids(groups);
      ghost var all := groups;
      for n := 0 to |groups|
        invariant |groups| == |all|
        invariant forall k | 0 <= k < n :: groups[k] == RepairOne(all[k], knownIds)
        invariant forall k | n <= k < |groups| :: groups[k] == all[k]
      {
        var g := groups[n];
        if g.parent.Some? && g.parent.value !in knownIds {
          groups := groups[n := g.(parent := None)];
        }
      }
      assert groups == Repair(all, knownIds);
    }

    /** Moves a group under another one, or to the top; a forest stays a forest. */
    method MoveGroup(id: Id, parent: Option<Id>) returns (r: Result<(), MoveError>)
      modifies this
      ensures r.Ok? <==> && id in Ids(old(groups)) && KnownParent(old(groups), parent)
                         && (parent.Some? ==> exists k: nat :: EndsAt(FirstParents(old(groups)), parent.value, id, k))
      ensures r == Err(GroupNotFound) <==> id !in Ids(old(groups))
      ensures r == Err(ParentNotFound) <==> id in Ids(old(groups)) && !KnownParent(old(groups), parent)
      ensures r.Err? && r.error.Cycle? ==> parent.Some? && r.error.reason != TooDeep
      ensures r.Err? && r.error.Cycle? ==>
                (r.error.reason == OwnDescendant <==> Meets(FirstParents(old(groups)), parent.value, id))
      ensures groups == if r.Ok? then SetParent(old(groups), id, parent) else old(groups)
      ensures r.Ok? ==>
                |groups| == |old(groups)| &&
                forall k | 0 <= k < |groups| ::
                  groups[k] == if k == IndexOfId(old(groups), id) then old(groups)[k].(parent := parent)
                               else old(groups)[k]
      ensures Acyclic(FirstParents(old(groups))) ==>
                (r.Ok? <==> && id in Ids(old(groups)) && KnownParent(old(groups), parent)
                            && Acyclic(FirstParents(old(groups))[id := parent]))
      ensures Acyclic(FirstParents(old(groups))) ==> Acyclic(FirstParents(groups))
    {
      if id !in Ids(groups) {
        return Err(GroupNotFound);
      }
      if parent.Some? && parent.value !in Ids(groups) {
        return Err(ParentNotFound);
      }
      var check := RejectIfWouldCreateCycle(groups, id, parent);
      MoveIsExact(groups, id, parent, check);
      if check.Err? {
        ReasonIsExact(FirstParents(groups), parent.value, id, |groups|, check);
        return Err(Cycle(check.error));
      }
      var k := IndexOfId(groups, id);
      groups := groups[k := groups[k].(parent := parent)];
      SetParentUpdatesMap(old(groups), id, parent);
      return Ok(());
    }
  }

  function Without(groups: seq<Group>, ids: set<Id>): seq<Group> {
    if groups == [] then []
    else (if groups[0].id in ids then [] else [groups[0]]) + Without(groups[1..], ids)
  }

  lemma {:induction false} WithoutExactly(groups: seq<Group>, ids: set<Id>)
    ensures forall g :: g in Without(groups, ids) <==> g in groups && g.id !in ids
  {
    if groups != [] {
      WithoutExactly(groups[1..], ids);
      assert groups == [groups[0]] + groups[1..];
    }
  }

  lemma WithoutOne(g: Group, ids: set<Id>)
    ensures Without([g], ids) == if g.id in ids then [] else [g]
  {
    assert [g][1..] == [];
  }

  /** Deletion keeps the order of what it keeps. */
  lemma {:induction false} WithoutConcat(first: seq<Group>, rest: seq<Group>, ids: set<Id>, groups: seq<Group>)
    requires groups == first + rest
    ensures Without(groups, ids) == Without(first, ids) + Without(rest, ids)
    decreases |first|
  {
    if first == [] {
      assert groups == rest;
    } else {
      assert groups[1..] == first[1..] + rest;
      WithoutConcat(first[1..], rest, ids, groups[1..]);
    }
  }

  predicate ParentsResolve(groups: seq<Group>) {
    forall g | g in groups :: g.parent.Some? ==> exists h | h in groups :: h.id == g.parent.value
  }

  /** Deleting a whole subtree leaves no group whose parent is gone. */
  lemma DeletingSubtreeOrphansNothing(groups: seq<Group>, root: Id, subtree: set<Id>)
    requires IsSubtree(groups, root, subtree) && ParentsResolve(groups)
    ensures ParentsResolve(Without(groups, subtree))
  {
    var r := Without(groups, subtree);
    WithoutExactly(groups, subtree);
    forall g | g in r && g.parent.Some?
      ensures exists h | h in r :: h.id == g.parent.value
    {
      var h :| h in groups && h.id == g.parent.value;
      var k :| 0 <= k < |groups| && groups[k] == g;
      assert h in r;
    }
  }

  /** For a group that exists the check accepts just what ends well; in a forest, just what keeps it a forest. */
  lemma MoveIsExact(groups: seq<Group>, id: Id, parent: Option<Id>, check: Result<(), CycleError>)
    requires id in Ids(groups)
    requires parent.None? ==> check.Ok?
    requires parent.Some? ==> Verdict(FirstParents(groups), parent.value, id, |groups|, check)
    ensures parent.Some? ==> (check.Ok? <==> exists k: nat :: EndsAt(FirstParents(groups), parent.value, id, k))
    ensures check != Err(TooDeep)
    ensures Acyclic(FirstParents(groups)) ==> (check.Ok? <==> Acyclic(FirstParents(groups)[id := parent]))
  {
    var parents := FirstParents(groups);
    if parent.None? {
      if Acyclic(parents) {
        RootKeepsForest(parents, id);
      }
    } else {
      VerdictIsExact(parents, parent.value, id, |groups|, check);
      BoundNeverDecides(groups, id, parent.value);
      if k: nat :| EndsAt(parents, parent.value, id, k) {
        EndsWithinBound(groups, id, parent.value, k);
      }
      if Acyclic(parents) {
        MoveKeepsForestExactly(parents, id, parent.value);
      }
    }
  }

  lemma RootKeepsForest(parents: Parents, id: Id)
    requires Acyclic(parents)
    ensures Acyclic(parents[id := None])
  {
    var moved := parents[id := None];
    forall x: Id
      ensures Ends(moved, x)
    {
      assert Ends(parents, x);
      var k: nat :| Walk(parents, x, k) == None;
      var m := FirstMeeting(parents, x, id, k);
      SameWalk(parents, id, None, x, m);
      assert m < k ==> Walk(moved, x, m + 1) == None;
    }
  }
}
