/**
 * The approval protocol over the shared directory: pollers, the host, and cleanup take turns in any
 * order. One step is one access to a file, the heartbeat, or the clock.
 */
module ApprovalProtocol {
  import opened Wrappers
  import opened ApprovalQueue

  datatype Outcome = Decided(decision: Decision) | TimedOut | HostUnavailable

  /** Where a poller is in its loop. */
  datatype Phase =
    | Looking
    | CheckingHost
    | CheckingDeadline
    | Found(decision: Decision)
    | DecisionCleared(decision: Decision)
    | GivingUp(reason: Outcome)
    | Returned(outcome: Outcome)

  datatype Poller = Poller(submitted: nat, deadline: nat, phase: Phase)

  datatype State = State(dir: Directory, pollers: map<Id, Poller>, hostAlive: bool, now: nat) {
    predicate At(id: Id, phase: Phase) { id in pollers && pollers[id].phase == phase }

    predicate HasReturned(id: Id) { id in pollers && pollers[id].phase.Returned? }

    function Move(id: Id, phase: Phase): State
      requires id in pollers
    {
      this.(pollers := pollers[id := pollers[id].(phase := phase)])
    }
  }

  datatype Action =
    | Submit(request: Request, timeout: nat)
    | Look(id: Id)
    | CheckHost(id: Id)
    | CheckDeadline(id: Id)
    | ClearDecision(id: Id)
    | ClearPending(id: Id)
    | HostDecides(decision: Decision)
    | HostDies
    | HostReturns
    | Tick
    | CleanPending(id: Id)
    | CleanDecision(id: Id)

  /** Ids are fresh; the host may decide anything while it lives; only expired files are cleaned up. */
  predicate Enabled(s: State, a: Action, maxAge: nat) {
    match a
    case Submit(request, _) => request.id !in s.pollers
    case Look(id) => s.At(id, Looking)
    case CheckHost(id) => s.At(id, CheckingHost)
    case CheckDeadline(id) => s.At(id, CheckingDeadline)
    case ClearDecision(id) => id in s.pollers && s.pollers[id].phase.Found?
    case ClearPending(id) => id in s.pollers && (s.pollers[id].phase.DecisionCleared? || s.pollers[id].phase.GivingUp?)
    case HostDecides(_) => s.hostAlive
    case HostDies => s.hostAlive
    case HostReturns => !s.hostAlive
    case Tick => true
    case CleanPending(id) => id in s.dir.pending && Expired(s.dir.pending[id], s.now, maxAge)
    case CleanDecision(id) => id in s.dir.decisions && Expired(s.dir.decisions[id], s.now, maxAge)
  }

  function Apply(s: State, a: Action, maxAge: nat): State
    requires Enabled(s, a, maxAge)
  {
    match a
    case Submit(request, timeout) =>
      s.(dir := s.dir.PutPending(s.now, request),
         pollers := s.pollers[request.id := Poller(s.now, s.now + timeout, Looking)])
    case Look(id) =>
      s.Move(id, if id in s.dir.decisions then Found(s.dir.decisions[id].content) else CheckingHost)
    case CheckHost(id) => s.Move(id, if s.hostAlive then CheckingDeadline else GivingUp(HostUnavailable))
    case CheckDeadline(id) => s.Move(id, if s.now >= s.pollers[id].deadline then GivingUp(TimedOut) else Looking)
    case ClearDecision(id) => s.Move(id, DecisionCleared(s.pollers[id].phase.decision)).(dir := s.dir.DropDecision(id))
    case ClearPending(id) =>
      var phase := s.pollers[id].phase;
      s.Move(id, Returned(if phase.GivingUp? then phase.reason else Decided(phase.decision)))
       .(dir := s.dir.DropPending(id))
    case HostDecides(decision) => s.(dir := s.dir.PutDecision(s.now, decision))
    case HostDies => s.(hostAlive := false)
    case HostReturns => s.(hostAlive := true)
    case Tick => s.(now := s.now + 1)
    case CleanPending(id) => s.(dir := s.dir.DropPending(id))
    case CleanDecision(id) => s.(dir := s.dir.DropDecision(id))
  }

  predicate Initial(s: State) { s.dir == Directory(map[], map[]) && s.pollers == map[] }

  /** Every interleaving of the steps above. */
  predicate Step(states: seq<State>, actions: seq<Action>, maxAge: nat, i: nat)
    requires i < |actions| && |states| == |actions| + 1
  {
    Enabled(states[i], actions[i], maxAge) && states[i + 1] == Apply(states[i], actions[i], maxAge)
  }

  predicate Run(states: seq<State>, actions: seq<Action>, maxAge: nat) {
    && |states| == |actions| + 1
    && Initial(states[0])
    && forall i | 0 <= i < |actions| :: Step(states, actions, maxAge, i)
  }

  // ---------- What every step keeps ----------

  predicate PollerKept(s: State, id: Id, maxAge: nat)
    requires id in s.pollers
  {
    var p := s.pollers[id];
    && p.submitted <= s.now
    && (p.phase.Returned? ==> id !in s.dir.pending)
    && (!p.phase.Returned? && s.now <= p.submitted + maxAge ==> id in s.dir.pending)
    && (p.phase.GivingUp? ==> !p.phase.reason.Decided?)
    && (p.phase == GivingUp(TimedOut) || p.phase == Returned(TimedOut) ==> s.now >= p.deadline)
    && (p.phase.Found? || p.phase.DecisionCleared? ==> p.phase.decision.approvalId == id)
    && (p.phase.Returned? && p.phase.outcome.Decided? ==> p.phase.outcome.decision.approvalId == id)
  }

  predicate Kept(s: State, maxAge: nat) {
    && (forall id | id in s.dir.pending ::
          && id in s.pollers && s.dir.pending[id].content.id == id
          && s.dir.pending[id].modified == s.pollers[id].submitted)
    && (forall id | id in s.dir.decisions :: s.dir.decisions[id].content.approvalId == id)
    && forall id | id in s.pollers :: PollerKept(s, id, maxAge)
  }

  lemma StepKeeps(s: State, a: Action, maxAge: nat)
    requires Kept(s, maxAge) && Enabled(s, a, maxAge)
    ensures Kept(Apply(s, a, maxAge), maxAge)
  {
    var t := Apply(s, a, maxAge);
    forall id | id in t.pollers
      ensures PollerKept(t, id, maxAge)
    {
      if id in s.pollers {
        assert PollerKept(s, id, maxAge);
      }
    }
  }

  lemma {:induction false} RunKeeps(states: seq<State>, actions: seq<Action>, maxAge: nat, n: nat)
    requires Run(states, actions, maxAge) && n <= |actions|
    ensures Kept(states[n], maxAge)
  {
    if n > 0 {
      RunKeeps(states, actions, maxAge, n - 1);
      assert Step(states, actions, maxAge, n - 1);
      StepKeeps(states[n - 1], actions[n - 1], maxAge);
    }
  }

  // ---------- The clock and the host ----------

  function Ticks(actions: seq<Action>, n: nat): nat
    requires n <= |actions|
  {
    if n == 0 then 0 else Ticks(actions, n - 1) + if actions[n - 1].Tick? then 1 else 0
  }

  /** Step `i` is the last of the first `n` that changes whether the host lives. */
  predicate LastHostChange(actions: seq<Action>, n: nat, i: nat)
    requires n <= |actions|
  {
    && i < n && (actions[i].HostDies? || actions[i].HostReturns?)
    && forall j | i < j < n :: !actions[j].HostDies? && !actions[j].HostReturns?
  }

  /** Time passes with the clock alone, and the host lives unless it died and has not returned. */
  lemma {:induction false} ClockAndHostExactly(states: seq<State>, actions: seq<Action>, maxAge: nat, n: nat)
    requires Run(states, actions, maxAge) && n <= |actions|
    ensures states[n].now == states[0].now + Ticks(actions, n)
    ensures forall i: nat | LastHostChange(actions, n, i) :: states[n].hostAlive <==> actions[i].HostReturns?
    ensures (forall i | 0 <= i < n :: !actions[i].HostDies? && !actions[i].HostReturns?) ==>
              states[n].hostAlive == states[0].hostAlive
  {
    if n > 0 {
      ClockAndHostExactly(states, actions, maxAge, n - 1);
      assert Step(states, actions, maxAge, n - 1);
      forall i: nat | LastHostChange(actions, n, i)
        ensures states[n].hostAlive <==> actions[i].HostReturns?
      {
        assert i < n - 1 ==> LastHostChange(actions, n - 1, i);
      }
    }
  }

  // ---------- Where decisions come from ----------

  predicate HostWrote(actions: seq<Action>, n: nat, d: Decision)
    requires n <= |actions|
  {
    exists i | 0 <= i < n :: actions[i] == HostDecides(d)
  }

  function Held(phase: Phase): Option<Decision> {
    match phase
    case Found(d) => Some(d)
    case DecisionCleared(d) => Some(d)
    case Returned(Decided(d)) => Some(d)
    case _ => None
  }

  /** Every decision in a file or in a poller's hands was written by the host. */
  lemma {:induction false} DecisionsAreHostWrites(states: seq<State>, actions: seq<Action>, maxAge: nat, n: nat)
    requires Run(states, actions, maxAge) && n <= |actions|
    ensures forall id | id in states[n].dir.decisions :: HostWrote(actions, n, states[n].dir.decisions[id].content)
    ensures forall id | id in states[n].pollers && Held(states[n].pollers[id].phase).Some? ::
              HostWrote(actions, n, Held(states[n].pollers[id].phase).value)
  {
    if n > 0 {
      DecisionsAreHostWrites(states, actions, maxAge, n - 1);
      RunKeeps(states, actions, maxAge, n - 1);
      assert Step(states, actions, maxAge, n - 1);
      var s, a, t := states[n - 1], actions[n - 1], states[n];
      assert forall d | HostWrote(actions, n - 1, d) :: HostWrote(actions, n, d);
      if a.HostDecides? {
        assert HostWrote(actions, n, a.decision);
      }
      forall id | id in t.dir.decisions
        ensures HostWrote(actions, n, t.dir.decisions[id].content)
      {
        if id in s.dir.decisions && t.dir.decisions[id] == s.dir.decisions[id] {
          assert HostWrote(actions, n - 1, s.dir.decisions[id].content);
        }
      }
      forall id | id in t.pollers && Held(t.pollers[id].phase).Some?
        ensures HostWrote(actions, n, Held(t.pollers[id].phase).value)
      {
        HeldStep(s, a, maxAge, id);
      }
    }
  }

  lemma HeldStep(s: State, a: Action, maxAge: nat, id: Id)
    requires Kept(s, maxAge) && Enabled(s, a, maxAge)
    requires id in Apply(s, a, maxAge).pollers && Held(Apply(s, a, maxAge).pollers[id].phase).Some?
    ensures var d := Held(Apply(s, a, maxAge).pollers[id].phase);
            || (id in s.pollers && Held(s.pollers[id].phase) == d)
            || (id in s.dir.decisions && Some(s.dir.decisions[id].content) == d)
  {
    if id in s.pollers {
      assert PollerKept(s, id, maxAge);
    }
  }

  /** A poller returns a decision only if the host wrote it, for this poller's request, earlier in the run. */
  lemma DecidedOnlyByHost(states: seq<State>, actions: seq<Action>, maxAge: nat, n: nat, id: Id, d: Decision)
    requires Run(states, actions, maxAge) && n <= |actions|
    requires states[n].At(id, Returned(Decided(d)))
    ensures d.approvalId == id && HostWrote(actions, n, d)
  {
    RunKeeps(states, actions, maxAge, n);
    DecisionsAreHostWrites(states, actions, maxAge, n);
    assert PollerKept(states[n], id, maxAge);
    assert Held(states[n].pollers[id].phase) == Some(d);
  }

  /** The step takes the decision file of `id` away: its poller, or cleanup. */
  predicate DropsDecision(a: Action, id: Id) { a == ClearDecision(id) || a == CleanDecision(id) }

  /** Step `i` is the last of the first `n` in which the host decided about `id`, and no later one takes that away. */
  predicate StandsSince(actions: seq<Action>, i: nat, n: nat, id: Id, d: Decision)
    requires n <= |actions|
  {
    && i < n && actions[i] == HostDecides(d) && d.approvalId == id
    && forall j | i < j < n ::
         !DropsDecision(actions[j], id) && !(actions[j].HostDecides? && actions[j].decision.approvalId == id)
  }

  /** A decision file is there exactly from a decision of the host until the poller or cleanup takes it away, and it
      holds the last decision. */
  lemma {:induction false} DecisionFileExactly(states: seq<State>, actions: seq<Action>, maxAge: nat, n: nat, id: Id)
    requires Run(states, actions, maxAge) && n <= |actions|
    ensures id in states[n].dir.decisions <==> exists i: nat, d: Decision :: StandsSince(actions, i, n, id, d)
    ensures forall i: nat, d: Decision | StandsSince(actions, i, n, id, d) ::
              id in states[n].dir.decisions && states[n].dir.decisions[id] == Stamped(states[i].now, d)
  {
    if n > 0 {
      var m := n - 1;
      DecisionFileExactly(states, actions, maxAge, m, id);
      assert Step(states, actions, maxAge, m);
      var a := actions[m];
      if a.HostDecides? && a.decision.approvalId == id {
        assert StandsSince(actions, m, n, id, a.decision);
      } else if !DropsDecision(a, id) {
        forall i: nat, d: Decision
          ensures StandsSince(actions, i, n, id, d) <==> StandsSince(actions, i, m, id, d)
        {
        }
        if i: nat, d: Decision :| StandsSince(actions, i, m, id, d) {
          assert StandsSince(actions, i, n, id, d);
        }
      }
    }
  }

  // ---------- What an outcome means ----------

  /** An outcome is final, and from then on the request's file is gone: it is never listed again. */
  lemma {:induction false} ReturnedStaysGone(states: seq<State>, actions: seq<Action>, maxAge: nat, i: nat, j: nat,
                                             id: Id, o: Outcome)
    requires Run(states, actions, maxAge) && i <= j <= |actions|
    requires states[i].At(id, Returned(o))
    ensures states[j].At(id, Returned(o))
    ensures id !in states[j].dir.pending && !states[j].dir.Listed(id)
    decreases j
  {
    RunKeeps(states, actions, maxAge, j);
    if i < j {
      ReturnedStaysGone(states, actions, maxAge, i, j - 1, id, o);
      assert Step(states, actions, maxAge, j - 1);
    }
    assert PollerKept(states[j], id, maxAge);
  }

  /** Step `i` is the one in which the poller of `id` returns `o`. */
  predicate ReturnsAt(states: seq<State>, i: nat, id: Id, o: Outcome)
    requires i + 1 < |states|
  {
    !states[i].HasReturned(id) && states[i + 1].At(id, Returned(o))
  }

  lemma ReturnsOnce(states: seq<State>, actions: seq<Action>, maxAge: nat, i: nat, j: nat,
                    id: Id, o: Outcome, p: Outcome)
    requires Run(states, actions, maxAge) && i < j < |actions|
    requires ReturnsAt(states, i, id, o)
    ensures !ReturnsAt(states, j, id, p)
  {
    ReturnedStaysGone(states, actions, maxAge, i + 1, j, id, o);
  }

  /** No decision is returned twice, by one poller or by two. */
  lemma DecisionReturnedOnce(states: seq<State>, actions: seq<Action>, maxAge: nat, i: nat, j: nat,
                             id: Id, other: Id, d: Decision)
    requires Run(states, actions, maxAge) && i < |actions| && j < |actions|
    requires ReturnsAt(states, i, id, Decided(d)) && ReturnsAt(states, j, other, Decided(d))
    ensures i == j && id == other
  {
    DecidedOnlyByHost(states, actions, maxAge, i + 1, id, d);
    DecidedOnlyByHost(states, actions, maxAge, j + 1, other, d);
    if i < j {
      ReturnsOnce(states, actions, maxAge, i, j, id, Decided(d), Decided(d));
    } else if j < i {
      ReturnsOnce(states, actions, maxAge, j, i, id, Decided(d), Decided(d));
    }
  }

  /** Step `i` submitted the request of `id`, whose deadline is its timeout later. */
  predicate SubmittedAt(states: seq<State>, actions: seq<Action>, i: nat, p: Poller, request: Request)
    requires |states| == |actions| + 1
  {
    && i < |actions| && p.submitted == states[i].now && p.deadline >= p.submitted
    && actions[i] == Submit(request, p.deadline - p.submitted)
  }

  /** Every poller waits for a request that was submitted, and a pending file holds that request. */
  lemma {:induction false} PollersWereSubmitted(states: seq<State>, actions: seq<Action>, maxAge: nat, n: nat, id: Id)
    returns (i: nat, request: Request)
    requires Run(states, actions, maxAge) && n <= |actions| && id in states[n].pollers
    ensures i < n && request.id == id && SubmittedAt(states, actions, i, states[n].pollers[id], request)
    ensures id in states[n].dir.pending ==> states[n].dir.pending[id].content == request
  {
    assert Step(states, actions, maxAge, n - 1);
    RunKeeps(states, actions, maxAge, n - 1);
    if id in states[n - 1].pollers {
      i, request := PollersWereSubmitted(states, actions, maxAge, n - 1, id);
    } else {
      i, request := n - 1, actions[n - 1].request;
    }
  }

  /** A poller times out only once the timeout it was submitted with has passed. */
  lemma TimedOutOnlyAfterDeadline(states: seq<State>, actions: seq<Action>, maxAge: nat, n: nat, id: Id)
    returns (i: nat, request: Request, timeout: nat)
    requires Run(states, actions, maxAge) && n <= |actions|
    requires states[n].At(id, Returned(TimedOut))
    ensures states[n].now >= states[n].pollers[id].deadline
    ensures i < n && actions[i] == Submit(request, timeout) && request.id == id
    ensures states[n].now >= states[i].now + timeout
  {
    RunKeeps(states, actions, maxAge, n);
    assert PollerKept(states[n], id, maxAge);
    i, request := PollersWereSubmitted(states, actions, maxAge, n, id);
    timeout := states[n].pollers[id].deadline - states[n].pollers[id].submitted;
  }

  predicate HostWasDead(states: seq<State>, n: nat)
    requires n < |states|
  {
    exists i | 0 <= i <= n :: !states[i].hostAlive
  }

  lemma {:induction false} UnavailableOnlyIfHostDied(states: seq<State>, actions: seq<Action>, maxAge: nat,
                                                    n: nat, id: Id)
    requires Run(states, actions, maxAge) && n <= |actions|
    requires states[n].At(id, Returned(HostUnavailable)) || states[n].At(id, GivingUp(HostUnavailable))
    ensures HostWasDead(states, n)
  {
    if n > 0 {
      assert Step(states, actions, maxAge, n - 1);
      var s := states[n - 1];
      if s.At(id, Returned(HostUnavailable)) || s.At(id, GivingUp(HostUnavailable)) {
        UnavailableOnlyIfHostDied(states, actions, maxAge, n - 1, id);
        var i :| 0 <= i <= n - 1 && !states[i].hostAlive;
        assert HostWasDead(states, n);
      } else {
        assert !s.hostAlive;
      }
    }
  }

  // ---------- What the host is shown ----------

  predicate WasCleaned(actions: seq<Action>, n: nat, id: Id)
    requires n <= |actions|
  {
    exists i | 0 <= i < n :: actions[i] == CleanPending(id)
  }

  /** A request's file is there exactly from its submission to the return of its poller, or to its cleanup. */
  lemma {:induction false} PendingExactly(states: seq<State>, actions: seq<Action>, maxAge: nat, n: nat, id: Id)
    requires Run(states, actions, maxAge) && n <= |actions|
    ensures id in states[n].dir.pending <==>
            id in states[n].pollers && !states[n].HasReturned(id) && !WasCleaned(actions, n, id)
  {
    if n > 0 {
      PendingExactly(states, actions, maxAge, n - 1, id);
      RunKeeps(states, actions, maxAge, n - 1);
      assert Step(states, actions, maxAge, n - 1);
      assert WasCleaned(actions, n, id) <==> WasCleaned(actions, n - 1, id) || actions[n - 1] == CleanPending(id);
      if WasCleaned(actions, n - 1, id) {
        CleanedWasSubmitted(states, actions, maxAge, n - 1, id);
      }
    }
  }

  lemma {:induction false} CleanedWasSubmitted(states: seq<State>, actions: seq<Action>, maxAge: nat, n: nat, id: Id)
    requires Run(states, actions, maxAge) && n <= |actions| && WasCleaned(actions, n, id)
    ensures id in states[n].pollers
  {
    var i :| 0 <= i < n && actions[i] == CleanPending(id);
    assert Step(states, actions, maxAge, n - 1);
    if i == n - 1 {
      RunKeeps(states, actions, maxAge, i);
    } else {
      assert WasCleaned(actions, n - 1, id);
      CleanedWasSubmitted(states, actions, maxAge, n - 1, id);
    }
  }

  /** At every step of every run: the host is shown exactly the requests that were submitted, whose poller has not
      returned, that cleanup has not removed, and for which there is no decision file. */
  lemma ListedExactly(states: seq<State>, actions: seq<Action>, maxAge: nat, n: nat, id: Id)
    requires Run(states, actions, maxAge) && n <= |actions|
    ensures states[n].dir.Listed(id) <==>
            && id in states[n].pollers && !states[n].HasReturned(id) && !WasCleaned(actions, n, id)
            && id !in states[n].dir.decisions
  {
    PendingExactly(states, actions, maxAge, n, id);
  }

  /** Cleanup leaves an open request alone until it has expired. */
  lemma YoungIsNotCleaned(states: seq<State>, actions: seq<Action>, maxAge: nat, n: nat, id: Id)
    requires Run(states, actions, maxAge) && n <= |actions|
    requires id in states[n].pollers && !states[n].HasReturned(id)
    requires states[n].now <= states[n].pollers[id].submitted + maxAge
    ensures !WasCleaned(actions, n, id)
  {
    RunKeeps(states, actions, maxAge, n);
    assert PollerKept(states[n], id, maxAge);
    PendingExactly(states, actions, maxAge, n, id);
  }

  // ---------- Pollers return ----------

  /** The next step of a poller that is in this phase. */
  function OwnAction(phase: Phase, id: Id): Action
    requires !phase.Returned?
  {
    match phase
    case Looking => Look(id)
    case CheckingHost => CheckHost(id)
    case CheckingDeadline => CheckDeadline(id)
    case Found(_) => ClearDecision(id)
    case DecisionCleared(_) | GivingUp(_) => ClearPending(id)
  }

  /** The poller of `id` alone takes up to `n` steps. */
  function Alone(s: State, id: Id, n: nat, maxAge: nat): State
    requires id in s.pollers
    decreases n
  {
    if n == 0 || s.pollers[id].phase.Returned? then s
    else Alone(Apply(s, OwnAction(s.pollers[id].phase, id), maxAge), id, n - 1, maxAge)
  }

  /** What a poller that looks does next, if nothing else happens: it returns the decision there is, or gives up on a
      dead host, or times out at its deadline; else it looks again. When it returns, its files are gone. */
  lemma TurnExactly(s: State, id: Id, maxAge: nat)
    requires s.At(id, Looking)
    ensures var p := s.pollers[id];
            if id in s.dir.decisions then
              Alone(s, id, 3, maxAge) == s.Move(id, Returned(Decided(s.dir.decisions[id].content)))
                                          .(dir := Directory(s.dir.pending - {id}, s.dir.decisions - {id}))
            else if !s.hostAlive then
              Alone(s, id, 3, maxAge) == s.Move(id, Returned(HostUnavailable)).(dir := s.dir.DropPending(id))
            else if s.now >= p.deadline then
              Alone(s, id, 4, maxAge) == s.Move(id, Returned(TimedOut)).(dir := s.dir.DropPending(id))
            else
              Alone(s, id, 3, maxAge) == s
  {
    var s1 := Apply(s, Look(id), maxAge);
    assert Alone(s, id, 3, maxAge) == Alone(s1, id, 2, maxAge);
    if id in s.dir.decisions {
      var s2 := Apply(s1, ClearDecision(id), maxAge);
      assert Alone(s1, id, 2, maxAge) == Alone(s2, id, 1, maxAge);
    } else {
      var s2 := Apply(s1, CheckHost(id), maxAge);
      assert Alone(s1, id, 2, maxAge) == Alone(s2, id, 1, maxAge);
      if s.hostAlive {
        var s3 := Apply(s2, CheckDeadline(id), maxAge);
        assert Alone(s2, id, 1, maxAge) == s3;
        assert Alone(s, id, 4, maxAge) == Alone(s1, id, 3, maxAge);
        assert Alone(s1, id, 3, maxAge) == Alone(s2, id, 2, maxAge) == Alone(s3, id, 1, maxAge);
      }
    }
  }

  /** How many steps a poller still takes, at most, once its deadline has passed. */
  function StepsLeft(phase: Phase): nat {
    match phase
    case Looking => 4
    case CheckingHost => 3
    case CheckingDeadline | Found(_) => 2
    case DecisionCleared(_) | GivingUp(_) => 1
    case Returned(_) => 0
  }

  predicate IsOwn(a: Action, id: Id) {
    a in {Look(id), CheckHost(id), CheckDeadline(id), ClearDecision(id), ClearPending(id)}
  }

  function OwnSteps(actions: seq<Action>, i: nat, j: nat, id: Id): nat
    requires i <= j <= |actions|
    decreases j
  {
    if i == j then 0 else OwnSteps(actions, i, j - 1, id) + if IsOwn(actions[j - 1], id) then 1 else 0
  }

  /** Whatever else happens, a poller whose deadline has passed returns after at most four steps of its own. */
  lemma {:induction false} ReturnsAfterDeadline(states: seq<State>, actions: seq<Action>, maxAge: nat, i: nat, j: nat,
                                                id: Id)
    requires Run(states, actions, maxAge) && i <= j <= |actions|
    requires id in states[i].pollers && states[i].now >= states[i].pollers[id].deadline
    ensures id in states[j].pollers && states[j].now >= states[j].pollers[id].deadline
    ensures OwnSteps(actions, i, j, id) + StepsLeft(states[j].pollers[id].phase) <=
            StepsLeft(states[i].pollers[id].phase) <= 4
    ensures OwnSteps(actions, i, j, id) == StepsLeft(states[i].pollers[id].phase) ==> states[j].HasReturned(id)
    decreases j
  {
    if i < j {
      ReturnsAfterDeadline(states, actions, maxAge, i, j - 1, id);
      assert Step(states, actions, maxAge, j - 1);
    }
  }

  /** The two removals are not one step: in between, a request that is decided is listed again. */
  lemma DecidedRequestCanBeListed() returns (states: seq<State>, actions: seq<Action>, d: Decision)
    ensures Run(states, actions, 60) && |states| == 5
    ensures states[4].At("a", DecisionCleared(d)) && states[4].dir.Listed("a")
  {
    d := Decision("a", true, None, None);
    actions := [Submit(Request("a", 0, "DELETE"), 120), HostDecides(d), Look("a"), ClearDecision("a")];
    var s0 := State(Directory(map[], map[]), map[], true, 0);
    var s1 := Apply(s0, actions[0], 60);
    var s2 := Apply(s1, actions[1], 60);
    var s3 := Apply(s2, actions[2], 60);
    var s4 := Apply(s3, actions[3], 60);
    states := [s0, s1, s2, s3, s4];
    assert Step(states, actions, 60, 0);
    assert Step(states, actions, 60, 1);
    assert Step(states, actions, 60, 2);
    assert Step(states, actions, 60, 3);
  }
}
