/** Runs of the operations that touch plugin secrets: saves, reads, deletions and imports, in any order. */
module SecretRuns {
  import opened Wrappers
  import opened CredentialCache
  import opened PluginSecrets
  import opened SecretUpdates
  import opened SecretImport

  datatype Event =
    | Save(connection: string, driver: string, changes: Changes, outcome: Outcome)
    | Read(account: Account, answer: Result<Option<string>, ()>)
    | Delete(connection: string, saved: bool, left: set<Account>)
    | Import(payload: seq<Incoming>, saved: bool, failed: set<Account>)

  /** The cache answers what it knows, and remembers what it had to ask for. */
  ghost predicate ReadEvent(w: World, w': World, a: Account, answer: Result<Option<string>, ()>) {
    && w'.entries == w.entries && w'.listings == w.listings
    && (answer.Ok? ==> answer.value == if a in w.cached then Known(w.cached[a]) else Lookup(w.entries, a))
  }

  ghost predicate ImportEvent(w: World, w': World, payload: seq<Incoming>, saved: bool, failed: set<Account>) {
    && (!saved ==> w'.entries == w.entries && w'.listings == w.listings)
    && (saved ==> ImportedBut(w.entries, w.listings, payload, failed, w'.entries, w'.listings))
    && (saved && failed == {} ==> AllImported(w.entries, w.listings, payload, w'.entries, w'.listings))
  }

  ghost predicate Follows(w: World, w': World) { CacheFollows(w.entries, w.cached, w'.entries, w'.cached) }

  /** One event of a run. A save whose rollback failed leaves the cache as it was. */
  ghost predicate Step(w: World, w': World, e: Event) {
    match e
    case Save(connection, driver, changes, outcome) =>
      && UpdateEvent(w, w', connection, driver, changes, outcome)
      && (if outcome == RollbackFailed then w'.cached == w.cached else Follows(w, w'))
    case Read(a, answer) => ReadEvent(w, w', a, answer) && Follows(w, w')
    case Delete(connection, saved, left) => DeleteEvent(w, w', connection, saved, left) && Follows(w, w')
    case Import(payload, saved, failed) => ImportEvent(w, w', payload, saved, failed) && Follows(w, w')
  }

  /** The event did all that it was asked to do. */
  predicate Succeeds(e: Event) {
    match e
    case Save(_, _, _, outcome) => outcome == Updated
    case Read(_, answer) => answer.Ok?
    case Delete(_, saved, left) => saved && left == {}
    case Import(_, saved, failed) => saved && failed == {}
  }

  // ---------- The operations are steps ----------

  /** What a command of the application works on. */
  class Application {
    const keychain: Keychain
    const cache: Cache
    const file: ConnectionsFile

    constructor (keychain: Keychain, cache: Cache, file: ConnectionsFile)
      ensures this.keychain == keychain && this.cache == cache && this.file == file
    {
      this.keychain, this.cache, this.file := keychain, cache, file;
    }

    ghost function World(): World
      reads keychain, cache, file
    {
      Snapshot(keychain, cache, file)
    }

    ghost function CallsFailed(): nat
      reads keychain, cache, file
    {
      Failures(keychain, file)
    }

    method Update(connection: string, driver: string, changes: Changes, credentialsOk: bool) returns (outcome: Outcome)
      modifies keychain, cache, file
      ensures Step(old(World()), World(), Save(connection, driver, changes, outcome))
      ensures connection in old(file.listings) && ValidChanges(changes) && credentialsOk ==>
                CallsFailed() == old(CallsFailed()) ==> Succeeds(Save(connection, driver, changes, outcome))
    {
      outcome := UpdateConnection(keychain, cache, file, connection, driver, changes, credentialsOk);
    }

    method Create(connection: string, driver: string, changes: Changes, credentialsOk: bool) returns (outcome: Outcome)
      requires connection !in file.listings && forall a | a in cache.pluginSecrets :: a.connection != connection
      modifies keychain, file
      ensures Step(old(World()), World(), Save(connection, driver, changes, outcome))
      ensures ValidChanges(changes) && credentialsOk ==>
                CallsFailed() == old(CallsFailed()) ==> Succeeds(Save(connection, driver, changes, outcome))
    {
      outcome := SaveConnection(keychain, cache, file, connection, driver, changes, credentialsOk);
    }

    method ReadSecret(a: Account) returns (answer: Result<Option<string>, ()>)
      modifies cache, keychain`failures
      ensures Step(old(World()), World(), Read(a, answer))
      ensures CallsFailed() == old(CallsFailed()) ==> Succeeds(Read(a, answer))
    {
      answer := cache.GetPluginSecretCached(keychain, a);
    }

    method Remove(connection: string) returns (saved: bool, left: set<Account>)
      modifies keychain, cache, file
      ensures Step(old(World()), World(), Delete(connection, saved, left))
      ensures CallsFailed() == old(CallsFailed()) ==> Succeeds(Delete(connection, saved, left))
    {
      saved, left := DeleteConnection(keychain, cache, file, connection);
    }

    method ImportAll(payload: seq<Incoming>) returns (saved: bool, failed: set<Account>)
      modifies keychain, cache, file
      ensures Step(old(World()), World(), Import(payload, saved, failed))
      ensures CallsFailed() == old(CallsFailed()) ==> Succeeds(Import(payload, saved, failed))
    {
      saved, failed := ImportConnections(keychain, cache, file, payload);
    }
  }

  // ---------- Runs ----------

  ghost predicate Run(worlds: seq<World>, events: seq<Event>) {
    && |worlds| == |events| + 1
    && forall i | 0 <= i < |events| :: Step(worlds[i], worlds[i + 1], events[i])
  }

  /** A keychain call failed that nothing makes up for: a rollback, a deletion, or a write of an import. */
  predicate LosesSecrets(e: Event) {
    match e
    case Save(_, _, _, outcome) => outcome == RollbackFailed
    case Read(_, _) => false
    case Delete(_, saved, left) => saved && left != {}
    case Import(_, saved, failed) => saved && failed != {}
  }

  /** A rollback failed of an update that was to change what the cache knows. */
  ghost predicate MayStaleCache(w: World, e: Event) {
    e.Save? && e.outcome == RollbackFailed && TouchesCached(w, e.connection, e.driver, e.changes)
  }

  lemma StepKeepsExact(w: World, w': World, e: Event)
    requires Step(w, w', e) && Exact(w.entries, w.listings)
    requires !LosesSecrets(e)
    ensures Exact(w'.entries, w'.listings)
  {
    match e
    case Save(connection, driver, changes, outcome) =>
      if outcome == Updated {
        var u := UpdateOf(w.listings, connection, driver, changes);
        var listing :| ListingFor(u, listing) && UpdateStep(w, w', u, listing, Updated);
        UpdateIsExact(w.entries, w.listings, w'.entries, u, listing);
      }
    case Read(_, _) =>
    case Delete(connection, saved, left) =>
      if saved {
        DeleteIsExact(w, w', connection, left);
      }
    case Import(payload, saved, failed) =>
      if saved {
        ImportIsExact(w.entries, w.listings, payload, w'.entries, w'.listings);
      }
  }

  lemma StepKeepsCoherent(w: World, w': World, e: Event)
    requires Step(w, w', e) && Coherent(w.entries, w.cached)
    requires !MayStaleCache(w, e)
    ensures Coherent(w'.entries, w'.cached)
  {
    if e.Save? && e.outcome == RollbackFailed {
      UntouchedStaysCoherent(w, w', e.connection, e.driver, e.changes);
    } else {
      FollowingKeepsCoherent(w.entries, w.cached, w'.entries, w'.cached);
    }
  }

  /**
   * Over every run, whatever calls fail: the keychain holds exactly the listed secrets as long as no event loses
   * secrets, and no cached entry contradicts it as long as no failed rollback was of an update that was to change
   * a cached account.
   */
  lemma {:induction false} RunKeepsSecretsExact(worlds: seq<World>, events: seq<Event>, n: nat)
    requires Run(worlds, events) && n <= |events|
    ensures Exact(worlds[0].entries, worlds[0].listings) && (forall i | 0 <= i < n :: !LosesSecrets(events[i])) ==>
              Exact(worlds[n].entries, worlds[n].listings)
    ensures Coherent(worlds[0].entries, worlds[0].cached) &&
            (forall i | 0 <= i < n :: !MayStaleCache(worlds[i], events[i])) ==>
              Coherent(worlds[n].entries, worlds[n].cached)
  {
    if n > 0 {
      RunKeepsSecretsExact(worlds, events, n - 1);
      var w, w', e := worlds[n - 1], worlds[n], events[n - 1];
      assert Step(w, worlds[n - 1 + 1], e);
      if Exact(w.entries, w.listings) && !LosesSecrets(e) {
        StepKeepsExact(w, w', e);
      }
      if Coherent(w.entries, w.cached) && !MayStaleCache(w, e) {
        StepKeepsCoherent(w, w', e);
      }
    }
  }

  /** So a read that succeeds answers what the keychain holds, and it answers a secret exactly if one is listed. */
  lemma ReadsAreCurrent(worlds: seq<World>, events: seq<Event>, n: nat)
    requires Run(worlds, events) && n < |events| && events[n].Read? && events[n].answer.Ok?
    requires Coherent(worlds[0].entries, worlds[0].cached)
    requires forall i | 0 <= i < n :: !MayStaleCache(worlds[i], events[i])
    ensures events[n].answer.value == Lookup(worlds[n].entries, events[n].account)
    ensures Exact(worlds[0].entries, worlds[0].listings) && (forall i | 0 <= i < n :: !LosesSecrets(events[i])) ==>
              (events[n].answer.value.Some? <==> Lists(worlds[n].listings, events[n].account))
  {
    RunKeepsSecretsExact(worlds, events, n);
    var w, a := worlds[n], events[n].account;
    assert Step(w, worlds[n + 1], events[n]);
    assert a in w.cached ==> Agrees(w.entries, a, w.cached[a]);
    assert a in w.entries <==> Lookup(w.entries, a).Some?;
  }

  /** The event is no save, deletion or import of the connection. */
  predicate LeavesAlone(e: Event, connection: string) {
    match e
    case Save(c, _, _, _) => c != connection
    case Read(_, _) => true
    case Delete(c, _, _) => c != connection
    case Import(payload, _, _) => forall k | 0 <= k < |payload| :: payload[k].id != connection
  }

  lemma {:induction false} ImportLeavesAlone(entries: Entries, listings: Listings, payload: seq<Incoming>,
                                             now: Entries, next: Listings, a: Account)
    requires AllImported(entries, listings, payload, now, next)
    requires forall k | 0 <= k < |payload| :: payload[k].id != a.connection
    ensures Lookup(now, a) == Lookup(entries, a)
    decreases |payload|
  {
    if payload != [] {
      var last := |payload| - 1;
      var e, l :| AllImported(entries, listings, payload[..last], e, l) && OneImport(e, l, payload[last], now, next);
      ImportLeavesAlone(entries, listings, payload[..last], e, l, a);
    }
  }

  lemma StepLeavesAlone(w: World, w': World, e: Event, a: Account)
    requires Step(w, w', e) && LeavesAlone(e, a.connection) && !LosesSecrets(e)
    ensures Lookup(w'.entries, a) == Lookup(w.entries, a)
  {
    match e
    case Save(connection, driver, changes, outcome) =>
      var u := UpdateOf(w.listings, connection, driver, changes);
      var listing :| (outcome == Updated ==> ListingFor(u, listing)) && UpdateStep(w, w', u, listing, outcome);
    case Read(_, _) =>
    case Delete(_, _, _) =>
    case Import(payload, saved, _) =>
      if saved {
        ImportLeavesAlone(w.entries, w.listings, payload, w'.entries, w'.listings, a);
      }
  }

  /** What a save stored is what the keychain holds until the connection is saved, deleted or imported again. */
  lemma {:induction false} SavedStays(worlds: seq<World>, events: seq<Event>, i: nat, j: nat, key: string)
    requires Run(worlds, events) && i < j <= |events| && events[i].Save? && events[i].outcome == Updated
    requires key in events[i].changes
    requires forall k | i < k < j :: LeavesAlone(events[k], events[i].connection) && !LosesSecrets(events[k])
    ensures var e := events[i];
            Lookup(worlds[j].entries, Account(e.connection, e.driver, key)) == e.changes[key]
    decreases j
  {
    var e := events[i];
    var a := Account(e.connection, e.driver, key);
    assert Step(worlds[j - 1], worlds[j - 1 + 1], events[j - 1]);
    if i + 1 == j {
      var u := UpdateOf(worlds[i].listings, e.connection, e.driver, e.changes);
      var listing :| ListingFor(u, listing) && UpdateStep(worlds[i], worlds[j], u, listing, Updated);
      assert u.Changes(a);
    } else {
      SavedStays(worlds, events, i, j - 1, key);
      StepLeavesAlone(worlds[j - 1], worlds[j], events[j - 1], a);
    }
  }

  /** A secret that was saved is what a later read answers, as long as its connection is left alone in between. */
  lemma SavedIsRead(worlds: seq<World>, events: seq<Event>, i: nat, j: nat, key: string)
    requires Run(worlds, events) && i < j < |events| && Coherent(worlds[0].entries, worlds[0].cached)
    requires events[i].Save? && events[i].outcome == Updated && key in events[i].changes
    requires events[j].Read? && events[j].account == Account(events[i].connection, events[i].driver, key)
    requires events[j].answer.Ok?
    requires forall k | i < k < j :: LeavesAlone(events[k], events[i].connection)
    requires forall k | 0 <= k < j :: !LosesSecrets(events[k])
    ensures events[j].answer.value == events[i].changes[key]
  {
    ReadsAreCurrent(worlds, events, j);
    SavedStays(worlds, events, i, j, key);
  }
}
