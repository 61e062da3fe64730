/** Connection groups: a list of records whose parent pointers should form a forest, but need not. */
module GroupForest {
  import opened Wrappers

  type Id = string

  datatype Group = Group(id: Id, name: string, collapsed: bool, sortOrder: int, parent: Option<Id>)

  type Parents = map<Id, Option<Id>>

  function Ids(groups: seq<Group>): set<Id> { set k | 0 <= k < |groups| :: groups[k].id }

  predicate UniqueIds(groups: seq<Group>) { forall i, j | 0 <= i < j < |groups| :: groups[i].id != groups[j].id }

  /** The parent map a search for the first record of an id uses. */
  function FirstParents(groups: seq<Group>): (m: Parents)
    ensures m.Keys == Ids(groups)
  {
    if groups == [] then map[]
    else
      var m := FirstParents(groups[1..]);
      assert Ids(groups) == Ids(groups[1..]) + {groups[0].id};
      m[groups[0].id := groups[0].parent]
  }

  /** The parent map collected from all records: the last record of an id wins. */
  function LastParents(groups: seq<Group>): (m: Parents)
    ensures m.Keys == Ids(groups)
  {
    if groups == [] then map[]
    else
      var n := |groups| - 1;
      var m := LastParents(groups[..n]);
      assert Ids(groups) == Ids(groups[..n]) + {groups[n].id};
      m[groups[n].id := groups[n].parent]
  }

  /** The first record of an id decides. */
  lemma {:induction false} FirstParentIsFirst(groups: seq<Group>, k: nat)
    requires k < |groups| && forall j | 0 <= j < k :: groups[j].id != groups[k].id
    ensures FirstParents(groups)[groups[k].id] == groups[k].parent
  {
    if k > 0 {
      assert groups[1..][k - 1] == groups[k];
      assert forall j | 0 <= j < k - 1 :: groups[1..][j] == groups[j + 1];
      FirstParentIsFirst(groups[1..], k - 1);
    }
  }

  /** The last record of an id decides. */
  lemma {:induction false} LastParentIsLast(groups: seq<Group>, k: nat)
    requires k < |groups| && forall j | k < j < |groups| :: groups[j].id != groups[k].id
    ensures LastParents(groups)[groups[k].id] == groups[k].parent
  {
    var n := |groups| - 1;
    if k < n {
      LastParentIsLast(groups[..n], k);
    }
  }

  lemma ParentsOfUnique(groups: seq<Group>, k: nat)
    requires UniqueIds(groups) && k < |groups|
    ensures FirstParents(groups)[groups[k].id] == groups[k].parent == LastParents(groups)[groups[k].id]
  {
    FirstParentIsFirst(groups, k);
    LastParentIsLast(groups, k);
  }

  lemma ParentMapsAgree(groups: seq<Group>)
    requires UniqueIds(groups)
    ensures FirstParents(groups) == LastParents(groups)
  {
    forall id | id in Ids(groups)
      ensures FirstParents(groups)[id] == LastParents(groups)[id]
    {
      var k :| 0 <= k < |groups| && groups[k].id == id;
      ParentsOfUnique(groups, k);
    }
  }

  /** `k` steps up from `id`; nothing is left once a root or an unknown id has been stepped off. */
  function Walk(parents: Parents, id: Id, k: nat): Option<Id> {
    if k == 0 then Some(id)
    else
      match Walk(parents, id, k - 1)
      case None => None
      case Some(x) => if x in parents then parents[x] else None
  }

  lemma {:induction false} WalkAdd(parents: Parents, id: Id, a: nat, x: Id, b: nat)
    requires Walk(parents, id, a) == Some(x)
    ensures Walk(parents, id, a + b) == Walk(parents, x, b)
    decreases b
  {
    if b > 0 {
      WalkAdd(parents, id, a, x, b - 1);
    }
  }

  lemma {:induction false} WalkStaysEnded(parents: Parents, id: Id, a: nat, b: nat)
    requires Walk(parents, id, a) == None && a <= b
    ensures Walk(parents, id, b) == None
    decreases b
  {
    if a < b {
      WalkStaysEnded(parents, id, a, b - 1);
    }
  }

  // ---------- Subtrees ----------

  predicate ClosedUnderChildren(groups: seq<Group>, s: set<Id>) {
    forall k | 0 <= k < |groups| :: groups[k].parent.Some? && groups[k].parent.value in s ==> groups[k].id in s
  }

  /** `s` is the least set that contains `root` and the children of its members. */
  ghost predicate IsSubtree(groups: seq<Group>, root: Id, s: set<Id>) {
    && root in s
    && ClosedUnderChildren(groups, s)
    && forall t: set<Id> | root in t && ClosedUnderChildren(groups, t) :: s <= t
  }

  /** Ends on any data, cycles included. */
  method CollectGroupSubtree(groups: seq<Group>, root: Id) returns (toDelete: set<Id>)
    ensures IsSubtree(groups, root, toDelete)
  {
    toDelete := {root};
    ghost var all := Ids(groups) + {root};
    var changed := true;
    while changed
      invariant root in toDelete && toDelete <= all
      invariant forall t: set<Id> | root in t && ClosedUnderChildren(groups, t) :: toDelete <= t
      invariant !changed ==> ClosedUnderChildren(groups, toDelete)
      decreases all - toDelete, changed
    {
      ghost var before := toDelete;
      changed := false;
      for i := 0 to |groups|
        invariant before <= toDelete <= all
        invariant !changed ==> toDelete == before
        invariant changed ==> before < toDelete
        invariant forall t: set<Id> | root in t && ClosedUnderChildren(groups, t) :: toDelete <= t
        invariant !changed ==> forall k | 0 <= k < i ::
                    groups[k].parent.Some? && groups[k].parent.value in toDelete ==> groups[k].id in toDelete
      {
        var g := groups[i];
        if g.parent.Some? && g.parent.value in toDelete && g.id !in toDelete {
          toDelete := toDelete + {g.id};
          changed := true;
        }
      }
    }
  }

  /** A walk of at least one step goes through the parent. */
  lemma FirstStep(parents: Parents, id: Id, k: nat, x: Id) returns (up: Id)
    requires k > 0 && Walk(parents, id, k) == Some(x)
    ensures id in parents && parents[id] == Some(up) && Walk(parents, up, k - 1) == Some(x)
  {
    if Walk(parents, id, 1).None? {
      WalkStaysEnded(parents, id, 1, k);
    }
    assert Walk(parents, id, 0) == Some(id);
    up := Walk(parents, id, 1).value;
    WalkAdd(parents, id, 1, up, k - 1);
  }

  lemma ChildInClosed(groups: seq<Group>, s: set<Id>, id: Id, up: Id)
    requires UniqueIds(groups) && ClosedUnderChildren(groups, s)
    requires id in Ids(groups) && LastParents(groups)[id] == Some(up) && up in s
    ensures id in s
  {
    var j :| 0 <= j < |groups| && groups[j].id == id;
    ParentsOfUnique(groups, j);
  }

  /** What walks up to the root is in every closed set around it. */
  lemma {:induction false} DescendantInClosed(groups: seq<Group>, parents: Parents, root: Id, s: set<Id>,
                                             id: Id, k: nat)
    requires UniqueIds(groups) && parents == LastParents(groups)
    requires root in s && ClosedUnderChildren(groups, s) && Walk(parents, id, k) == Some(root)
    ensures id in s
    decreases k
  {
    if k > 0 {
      var up := FirstStep(parents, id, k, root);
      DescendantInClosed(groups, parents, root, s, up, k - 1);
      ChildInClosed(groups, s, id, up);
    }
  }

  ghost function Descendants(groups: seq<Group>, parents: Parents, root: Id): set<Id> {
    set id | id in Ids(groups) + {root} && exists k: nat :: Walk(parents, id, k) == Some(root)
  }

  lemma ParentWalks(parents: Parents, id: Id, up: Id, root: Id, k: nat)
    requires id in parents && parents[id] == Some(up) && Walk(parents, up, k) == Some(root)
    ensures Walk(parents, id, 1 + k) == Some(root)
  {
    assert Walk(parents, id, 0) == Some(id);
    assert Walk(parents, id, 1) == Some(up);
    WalkAdd(parents, id, 1, up, k);
  }

  lemma DescendantsClosed(groups: seq<Group>, parents: Parents, root: Id)
    requires UniqueIds(groups) && parents == LastParents(groups)
    ensures root in Descendants(groups, parents, root)
    ensures ClosedUnderChildren(groups, Descendants(groups, parents, root))
  {
    assert Walk(parents, root, 0) == Some(root);
    var d := Descendants(groups, parents, root);
    forall j | 0 <= j < |groups| && groups[j].parent.Some? && groups[j].parent.value in d
      ensures groups[j].id in d
    {
      var k: nat :| Walk(parents, groups[j].parent.value, k) == Some(root);
      LastParentIsLast(groups, j);
      ParentWalks(parents, groups[j].id, groups[j].parent.value, root, k);
    }
  }

  /** With unique ids, the subtree of `root` is what walks up to `root`. */
  lemma SubtreeIsDescendants(groups: seq<Group>, root: Id, s: set<Id>)
    requires UniqueIds(groups) && IsSubtree(groups, root, s)
    ensures s == Descendants(groups, LastParents(groups), root)
  {
    var parents := LastParents(groups);
    var d := Descendants(groups, parents, root);
    DescendantsClosed(groups, parents, root);
    forall id | id in d
      ensures id in s
    {
      var k: nat :| Walk(parents, id, k) == Some(root);
      DescendantInClosed(groups, parents, root, s, id, k);
    }
  }

  // ---------- Ancestors ----------

  /** `x` is known and some number of steps up from `leaf`. */
  ghost predicate OnChain(parents: Parents, leaf: Id, x: Id) {
    x in parents && exists k: nat :: Walk(parents, leaf, k) == Some(x)
  }

  /** `kept` is exactly the union of the known parts of the leaves' chains. */
  ghost predicate IsAncestorSet(groups: seq<Group>, leaves: seq<Id>, kept: set<Id>) {
    forall x :: x in kept <==> exists i | 0 <= i < |leaves| :: OnChain(LastParents(groups), leaves[i], x)
  }

  /** Every known parent of a kept id is kept, the one about to be looked at aside. */
  predicate ClosedUpTo(parents: Parents, kept: set<Id>, current: Option<Id>) {
    forall x | x in kept ::
      x in parents && (parents[x].Some? && parents[x].value in parents ==>
                         parents[x].value in kept || current == parents[x])
  }

  lemma {:induction false} ChainStaysKept(parents: Parents, kept: set<Id>, leaf: Id, k: nat)
    requires ClosedUpTo(parents, kept, None)
    requires leaf in parents ==> leaf in kept
    ensures Walk(parents, leaf, k).Some? && Walk(parents, leaf, k).value in parents ==>
              Walk(parents, leaf, k).value in kept
    decreases k
  {
    if k > 0 {
      ChainStaysKept(parents, kept, leaf, k - 1);
    }
  }

  /** Everything kept is on the chain of one of the first `n` leaves. */
  ghost predicate OnSomeChain(parents: Parents, leaves: seq<Id>, n: nat, kept: set<Id>)
    requires n <= |leaves|
  {
    forall x | x in kept :: exists i | 0 <= i < n :: OnChain(parents, leaves[i], x)
  }

  predicate LeavesKept(parents: Parents, leaves: seq<Id>, n: nat, kept: set<Id>)
    requires n <= |leaves|
  {
    forall i | 0 <= i < n :: leaves[i] in parents ==> leaves[i] in kept
  }

  lemma KeptIsAncestorSet(groups: seq<Group>, leaves: seq<Id>, kept: set<Id>)
    requires ClosedUpTo(LastParents(groups), kept, None)
    requires LeavesKept(LastParents(groups), leaves, |leaves|, kept)
    requires OnSomeChain(LastParents(groups), leaves, |leaves|, kept)
    ensures IsAncestorSet(groups, leaves, kept)
  {
    var parents := LastParents(groups);
    forall x
      ensures x in kept <==> exists i | 0 <= i < |leaves| :: OnChain(parents, leaves[i], x)
    {
      if i :| 0 <= i < |leaves| && OnChain(parents, leaves[i], x) {
        var k: nat :| Walk(parents, leaves[i], k) == Some(x);
        ChainStaysKept(parents, kept, leaves[i], k);
      }
    }
  }

  /** One more node of the chain of leaf `n` may be kept. */
  lemma KeepOneMore(parents: Parents, leaves: seq<Id>, n: nat, kept: set<Id>, steps: nat, id: Id)
    requires n < |leaves| && OnSomeChain(parents, leaves, n + 1, kept)
    requires id in parents && Walk(parents, leaves[n], steps) == Some(id) && ClosedUpTo(parents, kept, Some(id))
    ensures OnSomeChain(parents, leaves, n + 1, kept + {id})
    ensures ClosedUpTo(parents, kept + {id}, parents[id])
    ensures Walk(parents, leaves[n], steps + 1) == parents[id]
  {
    assert OnChain(parents, leaves[n], id);
  }

  /** The walk of a leaf stops at an id that is already kept: its chain is kept too. */
  method CollectGroupAncestors(groups: seq<Group>, leaves: seq<Id>) returns (kept: set<Id>)
    ensures IsAncestorSet(groups, leaves, kept)
  {
    var parents := LastParents(groups);
    kept := {};
    for n := 0 to |leaves|
      invariant ClosedUpTo(parents, kept, None)
      invariant LeavesKept(parents, leaves, n, kept)
      invariant OnSomeChain(parents, leaves, n, kept)
    {
      var current := Some(leaves[n]);
      ghost var steps: nat := 0;
      while current.Some?
        invariant ClosedUpTo(parents, kept, current)
        invariant current == Walk(parents, leaves[n], steps)
        invariant LeavesKept(parents, leaves, n, kept)
        invariant steps > 0 ==> leaves[n] in kept
        invariant OnSomeChain(parents, leaves, n + 1, kept)
        decreases parents.Keys - kept, current.Some?
      {
        var id := current.value;
        if id !in parents || id in kept {
          break;
        }
        KeepOneMore(parents, leaves, n, kept, steps, id);
        kept := kept + {id};
        current := parents[id];
        steps := steps + 1;
      }
    }
    KeptIsAncestorSet(groups, leaves, kept);
  }

  /** Keeping the ancestors of `l` keeps `r` exactly when deleting the subtree of `r` deletes `l`. */
  lemma SubtreeAncestorDuality(groups: seq<Group>, r: Id, l: Id, subtree: set<Id>, kept: set<Id>)
    requires UniqueIds(groups) && r in Ids(groups) && l in Ids(groups)
    requires IsSubtree(groups, r, subtree) && IsAncestorSet(groups, [l], kept)
    ensures r in kept <==> l in subtree
  {
    SubtreeIsDescendants(groups, r, subtree);
    assert r in kept <==> OnChain(LastParents(groups), [l][0], r);
  }

  // ---------- Re-parenting ----------

  datatype CycleError = OwnDescendant | ExistingCycle | TooDeep

  /** Step `k` is the first at which nothing is left, and none before it met `groupId`. */
  ghost predicate EndsAt(parents: Parents, target: Id, groupId: Id, k: nat) {
    && Walk(parents, target, k) == None
    && forall j: nat | j < k :: Walk(parents, target, j).Some? && Walk(parents, target, j) != Some(groupId)
  }

  /** The first `k` nodes of the walk are there and all different. */
  ghost predicate DistinctUpTo(parents: Parents, target: Id, k: nat) {
    && (forall j: nat | j < k :: Walk(parents, target, j).Some?)
    && forall i: nat, j: nat | i < j < k :: Walk(parents, target, i) != Walk(parents, target, j)
  }

  /** The walk visits `k` different nodes without meeting `groupId`. */
  ghost predicate Exhausts(parents: Parents, target: Id, groupId: Id, k: nat) {
    DistinctUpTo(parents, target, k) && forall j: nat | j < k :: Walk(parents, target, j) != Some(groupId)
  }

  lemma MeetingNeverEnds(parents: Parents, target: Id, groupId: Id, m: nat, k: nat)
    requires Walk(parents, target, m) == Some(groupId)
    ensures !EndsAt(parents, target, groupId, k)
  {
    if k <= m && EndsAt(parents, target, groupId, k) {
      WalkStaysEnded(parents, target, k, m);
    }
  }

  lemma RepeatNeverEnds(parents: Parents, target: Id, groupId: Id, i: nat, m: nat, k: nat)
    requires i < m && Walk(parents, target, i).Some? && Walk(parents, target, i) == Walk(parents, target, m)
    ensures !EndsAt(parents, target, groupId, k)
  {
    if EndsAt(parents, target, groupId, k) {
      if k <= m {
        WalkStaysEnded(parents, target, k, m);
      } else {
        WalkAdd(parents, target, i, Walk(parents, target, i).value, k - m);
        WalkAdd(parents, target, m, Walk(parents, target, i).value, k - m);
      }
    }
  }

  /** What each answer of the check says about the walk up from the new parent, cut off after `n` steps. */
  ghost predicate Verdict(parents: Parents, target: Id, groupId: Id, n: nat, r: Result<(), CycleError>) {
    match r
    case Ok(_) => exists k: nat | k <= n :: EndsAt(parents, target, groupId, k)
    case Err(OwnDescendant) => exists k: nat | k <= n :: Walk(parents, target, k) == Some(groupId)
    case Err(ExistingCycle) => exists i: nat, j: nat | i < j <= n ::
      Repeats(parents, target, i, j) && forall m: nat | m <= j :: Walk(parents, target, m) != Some(groupId)
    case Err(TooDeep) => Exhausts(parents, target, groupId, n + 1)
  }

  ghost predicate Repeats(parents: Parents, target: Id, i: nat, j: nat) {
    Walk(parents, target, i).Some? && Walk(parents, target, i) == Walk(parents, target, j)
  }

  /** Accepted just if the walk ends within the bound without meeting the group; on the two cycle answers it
      never does, however far it is followed. */
  lemma VerdictIsExact(parents: Parents, target: Id, groupId: Id, n: nat, r: Result<(), CycleError>)
    requires Verdict(parents, target, groupId, n, r)
    ensures r.Ok? <==> exists k: nat | k <= n :: EndsAt(parents, target, groupId, k)
    ensures r.Err? && r.error != TooDeep ==> forall k: nat :: !EndsAt(parents, target, groupId, k)
  {
    if r.Err? {
      match r.error
      case OwnDescendant =>
        var m: nat :| m <= n && Walk(parents, target, m) == Some(groupId);
        forall k: nat
          ensures !EndsAt(parents, target, groupId, k)
        {
          MeetingNeverEnds(parents, target, groupId, m, k);
        }
      case ExistingCycle =>
        var i: nat, j: nat :| i < j <= n && Repeats(parents, target, i, j) &&
                              forall m: nat | m <= j :: Walk(parents, target, m) != Some(groupId);
        forall k: nat
          ensures !EndsAt(parents, target, groupId, k)
        {
          RepeatNeverEnds(parents, target, groupId, i, j, k);
        }
      case TooDeep =>
        forall k: nat | k <= n
          ensures !EndsAt(parents, target, groupId, k)
        {
          assert k < n + 1 ==> Walk(parents, target, k).Some?;
        }
    }
  }

  /** A walk that repeats a node meets nothing that it has not met before. */
  lemma {:induction false} RepeatMeetsNoMore(parents: Parents, target: Id, i: nat, m: nat, groupId: Id, k: nat)
    requires i < m && Repeats(parents, target, i, m)
    requires forall j: nat | j <= m :: Walk(parents, target, j) != Some(groupId)
    ensures Walk(parents, target, k) != Some(groupId)
    decreases k
  {
    if k > m {
      var x := Walk(parents, target, i).value;
      WalkAdd(parents, target, m, x, k - m);
      WalkAdd(parents, target, i, x, k - m);
      RepeatMeetsNoMore(parents, target, i, m, groupId, i + k - m);
    }
  }

  /** The walk up from `target` meets `groupId`. */
  ghost predicate Meets(parents: Parents, target: Id, groupId: Id) {
    exists k: nat :: Walk(parents, target, k) == Some(groupId)
  }

  /** Of a walk that does not end, the check tells whether it meets the group. */
  lemma ReasonIsExact(parents: Parents, target: Id, groupId: Id, n: nat, r: Result<(), CycleError>)
    requires Verdict(parents, target, groupId, n, r) && r.Err? && r.error != TooDeep
    ensures r.error == OwnDescendant <==> Meets(parents, target, groupId)
  {
    if r.error == ExistingCycle {
      var i: nat, j: nat :| i < j <= n && Repeats(parents, target, i, j) &&
                            forall m: nat | m <= j :: Walk(parents, target, m) != Some(groupId);
      forall k: nat
        ensures Walk(parents, target, k) != Some(groupId)
      {
        RepeatMeetsNoMore(parents, target, i, j, groupId, k);
      }
    }
  }

  ghost function Visited(parents: Parents, target: Id, k: nat): set<Id> {
    set j: nat | j < k && Walk(parents, target, j).Some? :: Walk(parents, target, j).value
  }

  /** One more node, not met before and not the group: the walk has visited one node more. */
  lemma VisitOneMore(parents: Parents, target: Id, groupId: Id, k: nat, node: Id)
    requires Exhausts(parents, target, groupId, k)
    requires Walk(parents, target, k) == Some(node) && node != groupId && node !in Visited(parents, target, k)
    ensures Exhausts(parents, target, groupId, k + 1)
    ensures Visited(parents, target, k + 1) == Visited(parents, target, k) + {node}
  {
    forall j: nat | j < k
      ensures Walk(parents, target, j) != Some(node)
    {
      assert Walk(parents, target, j).Some? ==> Walk(parents, target, j).value in Visited(parents, target, k);
    }
  }

  method RejectIfWouldCreateCycle(groups: seq<Group>, groupId: Id, newParent: Option<Id>)
    returns (r: Result<(), CycleError>)
    ensures newParent.None? ==> r.Ok?
    ensures newParent.Some? ==> Verdict(FirstParents(groups), newParent.value, groupId, |groups|, r)
  {
    if newParent.None? {
      return Ok(());
    }
    ghost var parents := FirstParents(groups);
    ghost var target := newParent.value;
    var current := Some(newParent.value);
    var visited: set<Id> := {};
    var maxSteps := |groups| + 1;
    for step := 0 to maxSteps
      invariant current == Walk(parents, target, step)
      invariant Exhausts(parents, target, groupId, step)
      invariant visited == Visited(parents, target, step)
    {
      if current.None? {
        assert EndsAt(parents, target, groupId, step);
        return Ok(());
      }
      var node := current.value;
      if node == groupId {
        return Err(OwnDescendant);
      }
      if node in visited {
        ghost var i: nat :| i < step && Walk(parents, target, i).Some? && Walk(parents, target, i).value == node;
        assert Repeats(parents, target, i, step);
        return Err(ExistingCycle);
      }
      VisitOneMore(parents, target, groupId, step, node);
      visited := visited + {node};
      current := FindParent(groups, node);
    }
    return Err(TooDeep);
  }

  /** The parent of the first record with this id. */
  function FindParent(groups: seq<Group>, id: Id): (r: Option<Id>)
    ensures r == if id in FirstParents(groups) then FirstParents(groups)[id] else None
  {
    if groups == [] then None
    else if groups[0].id == id then groups[0].parent
    else FindParent(groups[1..], id)
  }

  // ---------- The step bound, by counting ----------

  lemma VisitedStep(parents: Parents, target: Id, k: nat)
    requires k >= 1 && DistinctUpTo(parents, target, k)
    ensures var last := Walk(parents, target, k - 1);
            && last.Some? && last.value !in Visited(parents, target, k - 1)
            && Visited(parents, target, k) == Visited(parents, target, k - 1) + {last.value}
  {
    var last := Walk(parents, target, k - 1).value;
    forall x
      ensures x in Visited(parents, target, k) <==> x in Visited(parents, target, k - 1) + {last}
    {
    }
  }

  lemma {:induction false} VisitedCount(parents: Parents, target: Id, k: nat)
    requires DistinctUpTo(parents, target, k)
    ensures |Visited(parents, target, k)| == k
    decreases k
  {
    if k == 0 {
      assert Visited(parents, target, 0) == {};
    } else {
      VisitedCount(parents, target, k - 1);
      VisitedStep(parents, target, k);
    }
  }

  lemma SubsetSize<T>(a: set<T>, b: set<T>)
    requires a <= b
    ensures |a| <= |b|
  {
    assert b == a + (b - a);
  }

  lemma {:induction false} IdsCount(groups: seq<Group>)
    ensures |Ids(groups)| <= |groups|
  {
    if groups != [] {
      IdsCount(groups[1..]);
      assert Ids(groups) == Ids(groups[1..]) + {groups[0].id};
    }
  }

  /** A walk among known ids that avoids one known id visits fewer different nodes than there are groups. */
  lemma WalkIsShort(groups: seq<Group>, target: Id, groupId: Id, k: nat)
    requires groupId in Ids(groups)
    requires Exhausts(FirstParents(groups), target, groupId, k)
    requires forall j: nat | j < k :: Walk(FirstParents(groups), target, j).value in Ids(groups)
    ensures k < |groups|
  {
    var parents := FirstParents(groups);
    VisitedCount(parents, target, k);
    SubsetSize(Visited(parents, target, k), Ids(groups) - {groupId});
    IdsCount(groups);
    assert |Ids(groups) - {groupId}| == |Ids(groups)| - 1;
  }

  lemma StepFromKnown(parents: Parents, target: Id, j: nat)
    requires Walk(parents, target, j + 1).Some?
    ensures Walk(parents, target, j).Some? && Walk(parents, target, j).value in parents
  {
  }

  /** For a group that exists, the step bound is never the reason for rejecting. */
  lemma BoundNeverDecides(groups: seq<Group>, groupId: Id, target: Id)
    requires groupId in Ids(groups)
    ensures !Exhausts(FirstParents(groups), target, groupId, |groups| + 1)
  {
    var parents := FirstParents(groups);
    if Exhausts(parents, target, groupId, |groups| + 1) {
      forall j: nat | j < |groups|
        ensures Walk(parents, target, j).value in Ids(groups)
      {
        assert Walk(parents, target, j + 1).Some?;
        StepFromKnown(parents, target, j);
      }
      assert Exhausts(parents, target, groupId, |groups|);
      WalkIsShort(groups, target, groupId, |groups|);
    }
  }

  /** For a group that exists, a walk that ends without meeting it ends within the bound. */
  lemma EndsWithinBound(groups: seq<Group>, groupId: Id, target: Id, k: nat)
    requires groupId in Ids(groups) && EndsAt(FirstParents(groups), target, groupId, k)
    ensures k <= |groups|
  {
    var parents := FirstParents(groups);
    if k > 1 {
      forall i: nat, j: nat | i < j < k
        ensures Walk(parents, target, i) != Walk(parents, target, j)
      {
        if Walk(parents, target, i) == Walk(parents, target, j) {
          RepeatNeverEnds(parents, target, groupId, i, j, k);
        }
      }
      forall j: nat | j < k - 1
        ensures Walk(parents, target, j).value in Ids(groups)
      {
        assert Walk(parents, target, j + 1).Some?;
        StepFromKnown(parents, target, j);
      }
      WalkIsShort(groups, target, groupId, k - 1);
    }
  }

  /** The groups are one chain from `target` up, whose last parent is no group, and `groupId` is not on it. */
  ghost predicate DanglingChain(groups: seq<Group>, target: Id, groupId: Id) {
    var parents, n := FirstParents(groups), |groups|;
    && groupId !in Ids(groups)
    && DistinctUpTo(parents, target, n) && Visited(parents, target, n) == Ids(groups)
    && Walk(parents, target, n).Some?
    && Walk(parents, target, n).value !in Ids(groups) && Walk(parents, target, n).value != groupId
  }

  lemma SameSize<T>(a: set<T>, b: set<T>)
    requires a <= b && |b| <= |a|
    ensures a == b
  {
    SubsetSize(b - a, {});
    assert b == a + (b - a);
  }

  lemma ExhaustedIsChain(groups: seq<Group>, target: Id, groupId: Id)
    requires Exhausts(FirstParents(groups), target, groupId, |groups| + 1)
    ensures DanglingChain(groups, target, groupId)
  {
    var parents, n := FirstParents(groups), |groups|;
    if groupId in Ids(groups) {
      BoundNeverDecides(groups, groupId, target);
    }
    forall j: nat | j < n
      ensures Walk(parents, target, j).value in Ids(groups)
    {
      assert Walk(parents, target, j + 1).Some?;
      StepFromKnown(parents, target, j);
    }
    VisitedCount(parents, target, n);
    IdsCount(groups);
    assert Visited(parents, target, n) <= Ids(groups);
    SameSize(Visited(parents, target, n), Ids(groups));
    VisitedStep(parents, target, n + 1);
  }

  lemma ChainIsExhausted(groups: seq<Group>, target: Id, groupId: Id)
    requires DanglingChain(groups, target, groupId)
    ensures Exhausts(FirstParents(groups), target, groupId, |groups| + 1)
  {
    var parents, n := FirstParents(groups), |groups|;
    forall j: nat | j < n
      ensures Walk(parents, target, j) != Some(groupId)
    {
      assert Walk(parents, target, j).value in Visited(parents, target, n);
    }
    VisitOneMore(parents, target, groupId, n, Walk(parents, target, n).value);
  }

  /** The bound decides exactly for a dangling chain: it never does for a group that exists, and when it does,
      the move is harmless, because the walk has just ended. */
  lemma BoundDecidesExactly(groups: seq<Group>, target: Id, groupId: Id)
    ensures Exhausts(FirstParents(groups), target, groupId, |groups| + 1) <==> DanglingChain(groups, target, groupId)
    ensures DanglingChain(groups, target, groupId) ==> EndsAt(FirstParents(groups), target, groupId, |groups| + 1)
  {
    if Exhausts(FirstParents(groups), target, groupId, |groups| + 1) {
      ExhaustedIsChain(groups, target, groupId);
    }
    if DanglingChain(groups, target, groupId) {
      ChainIsExhausted(groups, target, groupId);
    }
  }

  /** Such a chain exists: one group whose parent is gone. */
  lemma LoneDanglingGroup()
    ensures DanglingChain([Group("a", "", false, 0, Some("x"))], "a", "z")
  {
    var groups := [Group("a", "", false, 0, Some("x"))];
    var parents := FirstParents(groups);
    assert FirstParents(groups[1..]) == map[];
    assert parents == map["a" := Some("x")];
    assert "x" !in parents && "z" !in parents by {
      assert "a"[0] != "x"[0] && "a"[0] != "z"[0];
    }
    assert "z"[0] != "x"[0];
    assert Walk(parents, "a", 0) == Some("a");
    assert Walk(parents, "a", 1) == Some("x");
    assert Visited(parents, "a", 1) == Visited(parents, "a", 0) + {"a"} == {"a"};
    assert Ids(groups) == {groups[0].id};
  }

  // ---------- Acyclicity ----------

  /** Every walk ends. */
  ghost predicate Acyclic(parents: Parents) { forall id: Id :: Ends(parents, id) }

  ghost predicate Ends(parents: Parents, id: Id) { exists k: nat :: Walk(parents, id, k) == None }

  lemma {:induction false} SameWalk(parents: Parents, groupId: Id, p: Option<Id>, id: Id, k: nat)
    requires forall j: nat | j < k :: Walk(parents, id, j) != Some(groupId)
    ensures Walk(parents[groupId := p], id, k) == Walk(parents, id, k)
    decreases k
  {
    if k > 0 {
      SameWalk(parents, groupId, p, id, k - 1);
    }
  }

  /** A walk either meets `g` a first time within `k` steps, or does not meet it within `k` steps. */
  lemma {:induction false} FirstMeeting(parents: Parents, id: Id, g: Id, k: nat) returns (m: nat)
    ensures m <= k
    ensures forall j: nat | j < m :: Walk(parents, id, j) != Some(g)
    ensures m < k ==> Walk(parents, id, m) == Some(g)
    decreases k
  {
    if k == 0 {
      m := 0;
    } else {
      m := FirstMeeting(parents, id, g, k - 1);
      if m == k - 1 && Walk(parents, id, m) != Some(g) {
        m := k;
      }
    }
  }

  /** After the move, what used to meet the group goes on as the walk from the new parent. */
  lemma MovedWalkEnds(parents: Parents, groupId: Id, target: Id, n: nat, id: Id, k: nat)
    requires EndsAt(parents, target, groupId, n) && Walk(parents, id, k) == None
    ensures Ends(parents[groupId := Some(target)], id)
  {
    var moved := parents[groupId := Some(target)];
    var m := FirstMeeting(parents, id, groupId, k);
    SameWalk(parents, groupId, Some(target), id, m);
    if m < k {
      SameWalk(parents, groupId, Some(target), target, n);
      assert Walk(moved, id, m + 1) == Some(target);
      WalkAdd(moved, id, m + 1, target, n);
    }
  }

  /** A move that the check accepts keeps an acyclic forest acyclic. */
  lemma AcceptedMoveKeepsForest(parents: Parents, groupId: Id, target: Id, n: nat)
    requires Acyclic(parents) && EndsAt(parents, target, groupId, n)
    ensures Acyclic(parents[groupId := Some(target)])
  {
    var moved := parents[groupId := Some(target)];
    forall id: Id
      ensures Ends(moved, id)
    {
      assert Ends(parents, id);
      var k: nat :| Walk(parents, id, k) == None;
      MovedWalkEnds(parents, groupId, target, n, id, k);
    }
  }

  /** A move into the group's own subtree, which the check refuses, would create a cycle. */
  lemma RefusedMoveWouldCycle(parents: Parents, groupId: Id, target: Id, k: nat)
    requires Walk(parents, target, k) == Some(groupId)
    ensures !Acyclic(parents[groupId := Some(target)])
  {
    var moved := parents[groupId := Some(target)];
    var m := FirstMeeting(parents, target, groupId, k + 1);
    assert m <= k && Walk(parents, target, m) == Some(groupId);
    SameWalk(parents, groupId, Some(target), target, m);
    assert Walk(moved, target, m + 1) == Some(target);
    forall n: nat
      ensures Walk(moved, target, n).Some?
    {
      LoopNeverEnds(moved, target, m + 1, n);
    }
    assert !Ends(moved, target);
  }

  /** The first step at which nothing is left. */
  lemma {:induction false} FirstEnd(parents: Parents, id: Id, k: nat) returns (e: nat)
    requires Walk(parents, id, k) == None
    ensures e <= k && Walk(parents, id, e) == None && forall j: nat | j < e :: Walk(parents, id, j).Some?
    decreases k
  {
    e := k;
    if k > 0 && Walk(parents, id, k - 1) == None {
      e := FirstEnd(parents, id, k - 1);
    } else if k > 0 {
      forall j: nat | j < k
        ensures Walk(parents, id, j).Some?
      {
        if Walk(parents, id, j) == None {
          WalkStaysEnded(parents, id, j, k - 1);
        }
      }
    }
  }

  /** In a forest, re-parenting keeps it a forest just if the walk from the new parent ends without the group. */
  lemma MoveKeepsForestExactly(parents: Parents, groupId: Id, target: Id)
    requires Acyclic(parents)
    ensures Acyclic(parents[groupId := Some(target)]) <==> exists k: nat :: EndsAt(parents, target, groupId, k)
  {
    if k: nat :| EndsAt(parents, target, groupId, k) {
      AcceptedMoveKeepsForest(parents, groupId, target, k);
    } else {
      assert Ends(parents, target);
      var k: nat :| Walk(parents, target, k) == None;
      var e := FirstEnd(parents, target, k);
      var m := FirstMeeting(parents, target, groupId, e);
      if m < e {
        RefusedMoveWouldCycle(parents, groupId, target, m);
      } else {
        assert EndsAt(parents, target, groupId, e);
      }
    }
  }

  lemma {:induction false} LoopNeverEnds(parents: Parents, id: Id, period: nat, n: nat)
    requires period > 0 && Walk(parents, id, period) == Some(id)
    ensures Walk(parents, id, n).Some?
    decreases n
  {
    if n >= period {
      WalkAdd(parents, id, period, id, n - period);
      LoopNeverEnds(parents, id, period, n - period);
    } else if Walk(parents, id, n).None? {
      WalkStaysEnded(parents, id, n, period);
    }
  }

  lemma ForestNeverRepeats(parents: Parents, id: Id, i: nat, j: nat)
    requires Acyclic(parents) && i < j
    ensures !Repeats(parents, id, i, j)
  {
    if Repeats(parents, id, i, j) {
      var x := Walk(parents, id, i).value;
      WalkCut(parents, id, i, x, j);
      assert Ends(parents, x);
      var k: nat :| Walk(parents, x, k) == None;
      LoopNeverEnds(parents, x, j - i, k);
    }
  }

  lemma WalkCut(parents: Parents, id: Id, i: nat, x: Id, j: nat)
    requires i <= j && Walk(parents, id, i) == Some(x)
    ensures Walk(parents, x, j - i) == Walk(parents, id, j)
  {
    WalkAdd(parents, id, i, x, j - i);
  }

  ghost predicate WalksTo(parents: Parents, id: Id, x: Id) { exists m: nat :: Walk(parents, id, m) == Some(x) }

  lemma InSubtreeExactly(groups: seq<Group>, root: Id, id: Id, subtree: set<Id>)
    requires UniqueIds(groups) && IsSubtree(groups, root, subtree) && id in Ids(groups)
    ensures id in subtree <==> WalksTo(FirstParents(groups), id, root)
  {
    ParentMapsAgree(groups);
    SubtreeIsDescendants(groups, root, subtree);
  }

  /** In a forest the check answers by whether the new parent is below the group. */
  lemma ForestVerdict(parents: Parents, target: Id, groupId: Id, n: nat, r: Result<(), CycleError>)
    requires Acyclic(parents) && Verdict(parents, target, groupId, n, r) && r != Err(TooDeep)
    ensures r == if WalksTo(parents, target, groupId) then Err(OwnDescendant) else Ok(())
  {
    match r
    case Ok(_) =>
      var k: nat :| EndsAt(parents, target, groupId, k);
      if WalksTo(parents, target, groupId) {
        var m: nat :| Walk(parents, target, m) == Some(groupId);
        MeetingNeverEnds(parents, target, groupId, m, k);
      }
      assert r.value == ();
    case Err(OwnDescendant) =>
    case Err(ExistingCycle) =>
      var i: nat, j: nat :| i < j <= n && Repeats(parents, target, i, j);
      ForestNeverRepeats(parents, target, i, j);
    case Err(TooDeep) =>
  }

  /** The check refuses a move exactly into the subtree that deleting the group would delete. */
  lemma RefusedExactlyIntoSubtree(groups: seq<Group>, groupId: Id, target: Id, subtree: set<Id>,
                                  r: Result<(), CycleError>)
    requires UniqueIds(groups) && groupId in Ids(groups) && target in Ids(groups)
    requires Acyclic(FirstParents(groups)) && IsSubtree(groups, groupId, subtree)
    requires Verdict(FirstParents(groups), target, groupId, |groups|, r)
    ensures r == if target in subtree then Err(OwnDescendant) else Ok(())
  {
    BoundNeverDecides(groups, groupId, target);
    ForestVerdict(FirstParents(groups), target, groupId, |groups|, r);
    InSubtreeExactly(groups, groupId, target, subtree);
  }
}
