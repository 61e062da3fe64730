/** The approval directory: one pending and at most one decision file per request, and how they change. */
module ApprovalQueue {
  import opened Wrappers

  type Id = string

  /** `createdAt` stands for the timestamp text, which sorts by time. */
  datatype Request = Request(id: Id, createdAt: nat, query: string)

  datatype Decision = Decision(approvalId: Id, approve: bool, reason: Option<string>, editedQuery: Option<string>)

  datatype Stamped<T> = Stamped(modified: nat, content: T)

  datatype Directory = Directory(pending: map<Id, Stamped<Request>>, decisions: map<Id, Stamped<Decision>>) {
    function PutPending(now: nat, r: Request): Directory { this.(pending := pending[r.id := Stamped(now, r)]) }

    function PutDecision(now: nat, d: Decision): Directory {
      this.(decisions := decisions[d.approvalId := Stamped(now, d)])
    }

    function DropPending(id: Id): Directory { this.(pending := pending - {id}) }

    function DropDecision(id: Id): Directory { this.(decisions := decisions - {id}) }

    /** What the host shows: a request without a decision file. */
    predicate Listed(id: Id) { id in pending && id !in decisions }
  }

  predicate Expired<T>(file: Stamped<T>, now: nat, maxAge: nat) { now > file.modified + maxAge }

  function Fresh<T>(files: map<Id, Stamped<T>>, now: nat, maxAge: nat): map<Id, Stamped<T>> {
    map id | id in files && !Expired(files[id], now, maxAge) :: files[id]
  }

  predicate SortedByCreation(requests: seq<Request>) {
    |requests| <= 1 || (requests[0].createdAt <= requests[1].createdAt && SortedByCreation(requests[1..]))
  }

  /** `r` placed before the first younger request. */
  function InsertByCreation(requests: seq<Request>, r: Request): (more: seq<Request>)
    ensures more != []
  {
    if requests == [] || r.createdAt < requests[0].createdAt then [r] + requests
    else [requests[0]] + InsertByCreation(requests[1..], r)
  }

  lemma {:induction false} SortedExactly(requests: seq<Request>)
    ensures SortedByCreation(requests) <==>
            forall i, j | 0 <= i < j < |requests| :: requests[i].createdAt <= requests[j].createdAt
  {
    if |requests| > 1 {
      var rest := requests[1..];
      SortedExactly(rest);
      assert forall k | 1 <= k < |requests| :: requests[k] == rest[k - 1];
    }
  }

  lemma {:induction false} InsertKeepsSorted(requests: seq<Request>, r: Request)
    requires SortedByCreation(requests)
    ensures var more := InsertByCreation(requests, r);
            && SortedByCreation(more)
            && (more[0] == r || (requests != [] && more[0] == requests[0]))
  {
    var more := InsertByCreation(requests, r);
    if requests == [] || r.createdAt < requests[0].createdAt {
      assert more[1..] == requests;
    } else {
      InsertKeepsSorted(requests[1..], r);
      assert more[1..] == InsertByCreation(requests[1..], r);
    }
  }

  lemma {:induction false} InsertAddsOne(requests: seq<Request>, r: Request)
    ensures multiset(InsertByCreation(requests, r)) == multiset(requests) + multiset{r}
  {
    if requests == [] || r.createdAt < requests[0].createdAt {
    } else {
      InsertAddsOne(requests[1..], r);
      assert requests == [requests[0]] + requests[1..];
    }
  }

  /** Removes the expired files of one kind and counts them. */
  method RemoveExpired<T>(files: map<Id, Stamped<T>>, now: nat, maxAge: nat)
    returns (kept: map<Id, Stamped<T>>, deleted: nat)
    ensures kept == Fresh(files, now, maxAge)
    ensures deleted == |files| - |kept|
  {
    var rest := files.Keys;
    kept, deleted := files, 0;
    while rest != {}
      invariant rest <= files.Keys
      invariant forall id | id in files :: id in kept <==> id in rest || !Expired(files[id], now, maxAge)
      invariant forall id | id in kept :: id in files && kept[id] == files[id]
      invariant deleted == |files| - |kept|
      decreases |rest|
    {
      var id :| id in rest;
      rest := rest - {id};
      if Expired(files[id], now, maxAge) {
        assert kept.Keys == (kept - {id}).Keys + {id};
        kept := kept - {id};
        deleted := deleted + 1;
      }
    }
  }

  class ApprovalDirectory {
    var dir: Directory

    /** Files are named after the id of what they hold. */
    predicate Valid()
      reads this
    {
      && (forall id | id in dir.pending :: dir.pending[id].content.id == id)
      && (forall id | id in dir.decisions :: dir.decisions[id].content.approvalId == id)
    }

    constructor ()
      ensures Valid() && dir == Directory(map[], map[])
    {
      dir := Directory(map[], map[]);
    }

    /** Every undecided request once, the oldest first. */
    method ListPending() returns (requests: seq<Request>)
      requires Valid()
      ensures SortedByCreation(requests)
      ensures forall r: Request :: multiset(requests)[r] ==
                if dir.Listed(r.id) && dir.pending[r.id].content == r then 1 else 0
    {
      requests := [];
      var rest := dir.pending.Keys;
      while rest != {}
        invariant rest <= dir.pending.Keys && SortedByCreation(requests)
        invariant forall r: Request :: multiset(requests)[r] ==
                    if dir.Listed(r.id) && r.id !in rest && dir.pending[r.id].content == r then 1 else 0
        decreases |rest|
      {
        var id :| id in rest;
        rest := rest - {id};
        if id !in dir.decisions {
          InsertKeepsSorted(requests, dir.pending[id].content);
          InsertAddsOne(requests, dir.pending[id].content);
          requests := InsertByCreation(requests, dir.pending[id].content);
        }
      }
    }

    method CleanupExpired(now: nat, maxAge: nat) returns (deleted: nat)
      modifies this
      ensures dir.pending == map id | id in old(dir).pending && now <= old(dir).pending[id].modified + maxAge ::
                               old(dir).pending[id]
      ensures dir.decisions == map id | id in old(dir).decisions && now <= old(dir).decisions[id].modified + maxAge ::
                                 old(dir).decisions[id]
      ensures old(Valid()) ==> Valid()
      ensures deleted == |old(dir).pending| + |old(dir).decisions| - |dir.pending| - |dir.decisions|
    {
      var pending, pendingDeleted := RemoveExpired(dir.pending, now, maxAge);
      var decisions, decisionsDeleted := RemoveExpired(dir.decisions, now, maxAge);
      dir := Directory(pending, decisions);
      return pendingDeleted + decisionsDeleted;
    }
  }
}
