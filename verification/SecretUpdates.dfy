/** The secrets of a connection as the application saves them: a journal of writes, undone if anything fails. */
module SecretUpdates {
  import opened Wrappers
  import opened CredentialCache
  import opened PluginSecrets

  // ---------- The journal ----------

  /** The account a write changed, and what it held before. */
  datatype Undo = Undo(account: Account, previous: Option<string>)

  /** The entries once the journal is undone, its last write first. */
  function Undone(entries: Entries, journal: seq<Undo>): Entries
    decreases |journal|
  {
    if journal == [] then
      entries
    else
      var last := journal[|journal| - 1];
      Undone(Put(entries, last.account, last.previous), journal[..|journal| - 1])
  }

  lemma UndoneOneMore(entries: Entries, journal: seq<Undo>, a: Account, value: Option<string>)
    ensures Undone(Put(entries, a, value), journal + [Undo(a, Lookup(entries, a))]) == Undone(entries, journal)
  {
    var more := journal + [Undo(a, Lookup(entries, a))];
    assert more[..|journal|] == journal;
    PutBack(entries, a, value);
  }

  lemma PutBack(entries: Entries, a: Account, value: Option<string>)
    ensures Put(Put(entries, a, value), a, Lookup(entries, a)) == entries
  {
    SameLookups(Put(Put(entries, a, value), a, Lookup(entries, a)), entries) by {
      forall b: Account
        ensures Lookup(Put(Put(entries, a, value), a, Lookup(entries, a)), b) == Lookup(entries, b)
      {
        LookupPut(Put(entries, a, value), a, Lookup(entries, a), b);
        LookupPut(entries, a, value, b);
      }
    }
  }

  /** What an account holds once a journal is undone does not depend on what others held. */
  lemma {:induction false} UndoneElsewhere(x: Entries, y: Entries, journal: seq<Undo>, a: Account)
    requires Lookup(x, a) == Lookup(y, a)
    ensures Lookup(Undone(x, journal), a) == Lookup(Undone(y, journal), a)
    decreases |journal|
  {
    if journal != [] {
      var last := journal[|journal| - 1];
      LookupPut(x, last.account, last.previous, a);
      LookupPut(y, last.account, last.previous, a);
      UndoneElsewhere(Put(x, last.account, last.previous), Put(y, last.account, last.previous),
                      journal[..|journal| - 1], a);
    }
  }

  /** A write that is not undone leaves at most its own account. */
  lemma SkipOne(before: Entries, entries: Entries, journal: seq<Undo>, last: Undo, left: set<Account>)
    requires Restored(before, Undone(entries, journal + [last]), left)
    ensures Restored(before, Undone(entries, journal), left + {last.account})
  {
    assert (journal + [last])[..|journal|] == journal;
    forall a: Account | a !in left + {last.account}
      ensures Lookup(Undone(entries, journal), a) == Lookup(before, a)
    {
      LookupPut(entries, last.account, last.previous, a);
      UndoneElsewhere(Put(entries, last.account, last.previous), entries, journal, a);
    }
  }

  class SecretWrites {
    var journal: seq<Undo>

    constructor ()
      ensures journal == []
    {
      journal := [];
    }

    /** One write, journaled only if it succeeds: undoing the journal leads back to the same entries. */
    method Write(keychain: Keychain, a: Account, value: Option<string>) returns (ok: bool)
      modifies this, keychain
      ensures keychain.entries == if ok then Put(old(keychain.entries), a, value) else old(keychain.entries)
      ensures journal == if ok then old(journal) + [Undo(a, Lookup(old(keychain.entries), a))] else old(journal)
      ensures Undone(keychain.entries, journal) == old(Undone(keychain.entries, journal))
      ensures keychain.failures == old(keychain.failures) + if ok then 0 else 1
    {
      var previous := keychain.Get(a);
      if previous.Err? {
        return false;
      }
      match value {
        case Some(v) => ok := keychain.Set(a, v);
        case None => ok := keychain.Delete(a);
      }
      if ok {
        UndoneOneMore(old(keychain.entries), journal, a, value);
        journal := journal + [Undo(a, previous.value)];
      }
    }

    /** Undoes the writes, the last one first, going on past calls that fail: each of these leaves at most one
        account. */
    method Rollback(keychain: Keychain) returns (ok: bool)
      modifies this, keychain
      ensures journal == []
      ensures ok ==> keychain.entries == old(Undone(keychain.entries, journal))
      ensures forall a: Account :: Lookup(keychain.entries, a) == Lookup(old(keychain.entries), a)
                                   || Undo(a, Lookup(keychain.entries, a)) in old(journal)
      ensures ok <==> keychain.failures == old(keychain.failures)
      ensures keychain.failures >= old(keychain.failures)
      ensures RestoredBut(old(Undone(keychain.entries, journal)), keychain.entries,
                          keychain.failures - old(keychain.failures))
    {
      ok := true;
      ghost var undone := Undone(keychain.entries, journal);
      ghost var left: set<Account> := {};
      while journal != []
        invariant Restored(undone, Undone(keychain.entries, journal), left)
        invariant forall u | u in journal :: u in old(journal)
        invariant |left| <= keychain.failures - old(keychain.failures) && (ok <==> left == {})
        invariant ok <==> keychain.failures == old(keychain.failures)
        invariant forall a: Account :: Lookup(keychain.entries, a) == Lookup(old(keychain.entries), a)
                                       || Undo(a, Lookup(keychain.entries, a)) in old(journal)
        decreases |journal|
      {
        var last := journal[|journal| - 1];
        ghost var before := keychain.entries;
        journal := journal[..|journal| - 1];
        var done: bool;
        match last.previous {
          case Some(v) => done := keychain.Set(last.account, v);
          case None => done := keychain.Delete(last.account);
        }
        ok := ok && done;
        assert keychain.entries == if done then Put(before, last.account, last.previous) else before;
        if !done {
          SkipOne(undone, before, journal, last, left);
          left := left + {last.account};
        }
      }
      if ok {
        SameLookups(keychain.entries, undone);
      }
    }
  }

  // ---------- Saving a connection ----------

  /** What the save of a connection may do to keychain and file. */
  ghost predicate UpdateEvent(w: World, w': World, connection: string, driver: string, changes: Changes,
                              outcome: Outcome)
  {
    var u := UpdateOf(w.listings, connection, driver, changes);
    exists listing :: (outcome == Updated ==> ListingFor(u, listing)) && UpdateStep(w, w', u, listing, outcome)
  }

  /** Every journaled value is what the account held before the update, or what it should hold after. */
  ghost predicate JournalBetween(before: Entries, u: Update, journal: seq<Undo>) {
    forall e | e in journal ::
      e.previous == Lookup(before, e.account) || e.previous == u.Wanted(before, e.account)
  }

  /** Deletes the secrets of the driver the connection moves away from; the first failing call stops. */
  method DropOldSecrets(keychain: Keychain, writes: SecretWrites, u: Update)
    returns (ok: bool, ghost done: set<Account>)
    requires writes.journal == []
    modifies keychain, writes
    ensures Undone(keychain.entries, writes.journal) == old(keychain.entries)
    ensures JournalBetween(old(keychain.entries), u, writes.journal)
    ensures Partly(old(keychain.entries), keychain.entries, u, done)
    ensures ok ==> forall a: Account | u.Drops(a) :: a in done
    ensures keychain.failures == old(keychain.failures) + if ok then 0 else 1
  {
    ghost var before := keychain.entries;
    ok, done := true, {};
    if u.SameDriver() {
      return;
    }
    for i := 0 to |u.oldKeys|
      invariant Undone(keychain.entries, writes.journal) == before
      invariant JournalBetween(before, u, writes.journal)
      invariant Partly(before, keychain.entries, u, done)
      invariant forall j | 0 <= j < i :: u.OldAccount(u.oldKeys[j]) in done
      invariant ok && keychain.failures == old(keychain.failures)
    {
      var a := u.OldAccount(u.oldKeys[i]);
      PutWanted(before, keychain.entries, u, done, a);
      ok := writes.Write(keychain, a, None);
      if !ok {
        return;
      }
      done := done + {a};
    }
    forall a: Account | u.Drops(a)
      ensures a in done
    {
      var j :| 0 <= j < |u.oldKeys| && u.oldKeys[j] == a.key;
      assert a == u.OldAccount(u.oldKeys[j]);
    }
  }

  /** Old secrets out, changes in, every write journaled; the keys to list are worked out first. */
  method PersistPluginSecrets(keychain: Keychain, writes: SecretWrites, u: Update) returns (r: Result<seq<string>, ()>)
    requires writes.journal == []
    modifies keychain, writes
    ensures Undone(keychain.entries, writes.journal) == old(keychain.entries)
    ensures JournalBetween(old(keychain.entries), u, writes.journal)
    ensures Between(old(keychain.entries), keychain.entries, u)
    ensures !ValidChanges(u.changes) ==> r.Err? && keychain.entries == old(keychain.entries)
    ensures r.Ok? ==> Done(old(keychain.entries), keychain.entries, u)
    ensures r.Ok? ==> ValidChanges(u.changes) && ListingFor(u, Listing(u.newDriver, r.value)) && Sorted(r.value)
    ensures keychain.failures == old(keychain.failures) + if r.Ok? || !ValidChanges(u.changes) then 0 else 1
  {
    ghost var before := keychain.entries;
    var keys := NextSecretKeys(u.oldKeys, u.SameDriver(), u.changes);
    if keys.Err? {
      return Err(());
    }
    var ok: bool;
    ghost var done: set<Account>;
    ok, done := DropOldSecrets(keychain, writes, u);
    PartlyIsBetween(before, keychain.entries, u, done);
    if !ok {
      return Err(());
    }
    var rest := u.changes.Keys;
    while rest != {}
      invariant rest <= u.changes.Keys
      invariant Undone(keychain.entries, writes.journal) == before
      invariant JournalBetween(before, u, writes.journal)
      invariant Partly(before, keychain.entries, u, done) && Between(before, keychain.entries, u)
      invariant forall a: Account | u.Drops(a) :: a in done
      invariant forall a: Account | u.Changes(a) && a.key !in rest :: a in done
      invariant keychain.failures == old(keychain.failures)
      decreases |rest|
    {
      var key :| key in rest;
      var a := u.NewAccount(key);
      PutWanted(before, keychain.entries, u, done, a);
      ok := writes.Write(keychain, a, u.changes[key]);
      if !ok {
        return Err(());
      }
      done := done + {a};
      rest := rest - {key};
      PartlyIsBetween(before, keychain.entries, u, done);
    }
    PartlyIsBetween(before, keychain.entries, u, done);
    return keys;
  }

  /** How the outcome of a save answers for the calls that failed. It succeeds exactly if nothing fails, and a rollback
      fails only if a call fails after the failure it answers. */
  predicate AnswersFailures(outcome: Outcome, possible: bool, credentialsOk: bool, failed: int) {
    match outcome
    case Updated => possible && credentialsOk && failed == 0
    case Refused => !possible && failed == 0
    case RolledBack => possible && (credentialsOk ==> failed == 1) && 0 <= failed <= 1
    case RollbackFailed => possible && failed >= if credentialsOk then 2 else 1
  }

  /** Every call that failed but the one that the rollback answers leaves at most one account. */
  ghost predicate MostRestored(before: Entries, now: Entries, credentialsOk: bool, failed: int) {
    RestoredBut(before, now, if credentialsOk then failed - 1 else failed)
  }

  /** Writes the secrets, saves the file, and undoes the writes if anything fails. Database and SSH credentials,
      which are written in between, can fail as well; they are other accounts. */
  method SaveWithSecrets(keychain: Keychain, file: ConnectionsFile, u: Update, credentialsOk: bool)
    returns (outcome: Outcome)
    modifies keychain, file
    ensures AnswersFailures(outcome, ValidChanges(u.changes), credentialsOk,
                            Failures(keychain, file) - old(Failures(keychain, file)))
    ensures outcome == RollbackFailed ==>
              MostRestored(old(keychain.entries), keychain.entries, credentialsOk,
                           Failures(keychain, file) - old(Failures(keychain, file)))
    ensures match outcome
            case Updated => Done(old(keychain.entries), keychain.entries, u) &&
                            exists listing :: ListingFor(u, listing) && Sorted(listing.keys) &&
                                              file.listings == old(file.listings)[u.connection := listing]
            case Refused | RolledBack => keychain.entries == old(keychain.entries) &&
                                         file.listings == old(file.listings)
            case RollbackFailed => Between(old(keychain.entries), keychain.entries, u) &&
                                   file.listings == old(file.listings)
  {
    if !ValidChanges(u.changes) {
      return Refused;
    }
    ghost var before := keychain.entries;
    var writes := new SecretWrites();
    var keys := PersistPluginSecrets(keychain, writes, u);
    var ok := keys.Ok?;
    if ok {
      ok := credentialsOk;
    }
    if ok {
      var listing := Listing(u.newDriver, keys.value);
      ok := file.Save(file.listings[u.connection := listing]);
    }
    if ok {
      return Updated;
    }
    ghost var journal := writes.journal;
    ghost var changed := keychain.entries;
    var restored := writes.Rollback(keychain);
    forall a: Account
      ensures Lookup(keychain.entries, a) == Lookup(before, a) || Lookup(keychain.entries, a) == u.Wanted(before, a)
    {
      assert Lookup(changed, a) == Lookup(before, a) || Lookup(changed, a) == u.Wanted(before, a);
      if Lookup(keychain.entries, a) != Lookup(changed, a) {
        assert Undo(a, Lookup(keychain.entries, a)) in journal;
      }
    }
    return if restored then RolledBack else RollbackFailed;
  }

  /** Saves an edited connection; only then is what the cache knows about it dropped. */
  method UpdateConnection(keychain: Keychain, cache: Cache, file: ConnectionsFile,
                          connection: string, driver: string, changes: Changes, credentialsOk: bool)
    returns (outcome: Outcome)
    modifies keychain, cache, file
    ensures AnswersFailures(outcome, connection in old(file.listings) && ValidChanges(changes), credentialsOk,
                            Failures(keychain, file) - old(Failures(keychain, file)))
    ensures outcome == RollbackFailed ==>
              MostRestored(old(keychain.entries), keychain.entries, credentialsOk,
                           Failures(keychain, file) - old(Failures(keychain, file)))
    ensures UpdateEvent(old(Snapshot(keychain, cache, file)), Snapshot(keychain, cache, file),
                        connection, driver, changes, outcome)
    ensures outcome != RollbackFailed ==>
              CacheFollows(old(keychain.entries), old(cache.pluginSecrets), keychain.entries, cache.pluginSecrets)
    ensures cache.pluginSecrets ==
            map a | a in old(cache.pluginSecrets) && (outcome == Updated ==> a.connection != connection) ::
              old(cache.pluginSecrets)[a]
  {
    if connection !in file.listings {
      assert UpdateStep(old(Snapshot(keychain, cache, file)), Snapshot(keychain, cache, file),
                        UpdateOf(file.listings, connection, driver, changes), Listing(driver, []), Refused);
      return Refused;
    }
    var u := UpdateOf(file.listings, connection, driver, changes);
    outcome := SaveWithSecrets(keychain, file, u, credentialsOk);
    if outcome == Updated {
      cache.InvalidateAllForConnection(connection);
    } else {
      assert UpdateStep(old(Snapshot(keychain, cache, file)), Snapshot(keychain, cache, file),
                        u, Listing(driver, []), outcome);
    }
  }

  /** Saves a new connection under a fresh id, about which the cache knows nothing. */
  method SaveConnection(keychain: Keychain, cache: Cache, file: ConnectionsFile,
                        connection: string, driver: string, changes: Changes, credentialsOk: bool)
    returns (outcome: Outcome)
    requires connection !in file.listings && forall a | a in cache.pluginSecrets :: a.connection != connection
    modifies keychain, file
    ensures AnswersFailures(outcome, ValidChanges(changes), credentialsOk,
                            Failures(keychain, file) - old(Failures(keychain, file)))
    ensures outcome == RollbackFailed ==>
              MostRestored(old(keychain.entries), keychain.entries, credentialsOk,
                           Failures(keychain, file) - old(Failures(keychain, file)))
    ensures UpdateEvent(old(Snapshot(keychain, cache, file)), Snapshot(keychain, cache, file),
                        connection, driver, changes, outcome)
    ensures CacheFollows(old(keychain.entries), old(cache.pluginSecrets), keychain.entries, cache.pluginSecrets)
  {
    var u := UpdateOf(file.listings, connection, driver, changes);
    outcome := SaveWithSecrets(keychain, file, u, credentialsOk);
    if outcome != Updated {
      assert UpdateStep(old(Snapshot(keychain, cache, file)), Snapshot(keychain, cache, file),
                        u, Listing(driver, []), outcome);
    }
  }

  // ---------- Deleting a connection ----------

  /** `a` is a listed secret of the connection. */
  predicate BelongsTo(listings: Listings, connection: string, a: Account) {
    a.connection == connection && Lists(listings, a)
  }

  /** What the deletion of a connection may do: nothing if the file is not saved; else the listing goes, and with it
      every listed secret but those in `left`, whose deletes all failed. */
  ghost predicate DeleteEvent(w: World, w': World, connection: string, saved: bool, left: set<Account>) {
    && (!saved ==> w' == w)
    && (saved ==>
          && w'.listings == w.listings - {connection}
          && (forall a | a in left :: BelongsTo(w.listings, connection, a))
          && (forall a: Account :: Lookup(w'.entries, a) ==
                if BelongsTo(w.listings, connection, a) && a !in left then None else Lookup(w.entries, a)))
  }

  /** Removes the connection from the file, and only then what it leaves in the keychain and the cache. */
  method DeleteConnection(keychain: Keychain, cache: Cache, file: ConnectionsFile, connection: string)
    returns (saved: bool, left: set<Account>)
    modifies keychain, cache, file
    ensures DeleteEvent(old(Snapshot(keychain, cache, file)), Snapshot(keychain, cache, file), connection, saved, left)
    ensures saved <==> file.failures == old(file.failures)
    ensures file.failures >= old(file.failures) && keychain.failures >= old(keychain.failures)
    ensures |left| <= keychain.failures - old(keychain.failures)
    ensures cache.pluginSecrets ==
            map a | a in old(cache.pluginSecrets) && (saved ==> a.connection != connection) ::
              old(cache.pluginSecrets)[a]
    ensures CacheFollows(old(keychain.entries), old(cache.pluginSecrets), keychain.entries, cache.pluginSecrets)
  {
    var listings := file.listings;
    left := {};
    saved := file.Save(listings - {connection});
    if !saved {
      return;
    }
    if connection in listings {
      left := DeletePluginSecrets(keychain, connection, listings[connection]);
    }
    cache.InvalidateAllForConnection(connection);
  }

  /** The first `n` secrets of a listing. */
  function SecretsOf(connection: string, listing: Listing, n: nat): set<Account>
    requires n <= |listing.keys|
  {
    set j | 0 <= j < n :: Account(connection, listing.driver, listing.keys[j])
  }

  /** What holds once these accounts are deleted. */
  ghost predicate DeletedFrom(before: Entries, now: Entries, deleted: set<Account>) {
    forall a: Account :: Lookup(now, a) == if a in deleted then None else Lookup(before, a)
  }

  lemma DeleteOneMore(before: Entries, now: Entries, deleted: set<Account>, a: Account)
    requires DeletedFrom(before, now, deleted)
    ensures DeletedFrom(before, now - {a}, deleted + {a})
  {
  }

  lemma SecretsOneMore(connection: string, listing: Listing, n: nat)
    requires n < |listing.keys|
    ensures SecretsOf(connection, listing, n + 1) ==
            SecretsOf(connection, listing, n) + {Account(connection, listing.driver, listing.keys[n])}
  {
  }

  /** One more account of a listing, deleted or left. */
  lemma OneMoreAccount(deleted: set<Account>, left: set<Account>, all: set<Account>, a: Account)
    requires deleted !! left && deleted + left == all
    ensures deleted + {a} !! left - {a} && deleted + {a} + (left - {a}) == all + {a}
    ensures a in deleted ==> deleted + left == all + {a}
    ensures a !in deleted ==> deleted !! left + {a} && deleted + (left + {a}) == all + {a}
    ensures |left - {a}| <= |left| && |left + {a}| <= |left| + 1
  {
    assert a in left ==> left == left - {a} + {a};
    assert a !in left ==> left - {a} == left;
    assert a in left ==> left + {a} == left;
  }

  lemma SecretsExactly(connection: string, listing: Listing, a: Account)
    ensures a in SecretsOf(connection, listing, |listing.keys|) <==> IsSecretOf(connection, listing, a)
  {
    if IsSecretOf(connection, listing, a) {
      var j :| 0 <= j < |listing.keys| && listing.keys[j] == a.key;
      assert a == Account(connection, listing.driver, listing.keys[j]);
    }
  }

  /** Deletes every listed secret, going on past calls that fail. */
  method DeletePluginSecrets(keychain: Keychain, connection: string, listing: Listing) returns (left: set<Account>)
    modifies keychain
    ensures forall a | a in left :: IsSecretOf(connection, listing, a)
    ensures |left| <= keychain.failures - old(keychain.failures)
    ensures forall a: Account :: Lookup(keychain.entries, a) ==
              if IsSecretOf(connection, listing, a) && a !in left then None else Lookup(old(keychain.entries), a)
  {
    ghost var before := keychain.entries;
    var deleted: set<Account> := {};
    left := {};
    for i := 0 to |listing.keys|
      invariant deleted + left == SecretsOf(connection, listing, i) && deleted !! left
      invariant |left| <= keychain.failures - old(keychain.failures)
      invariant DeletedFrom(before, keychain.entries, deleted)
    {
      var a := Account(connection, listing.driver, listing.keys[i]);
      DeleteOneMore(before, keychain.entries, deleted, a);
      SecretsOneMore(connection, listing, i);
      OneMoreAccount(deleted, left, SecretsOf(connection, listing, i), a);
      var ok := keychain.Delete(a);
      if ok {
        deleted, left := deleted + {a}, left - {a};
      } else if a !in deleted {
        left := left + {a};
      }
    }
    forall a: Account
      ensures a in deleted + left <==> IsSecretOf(connection, listing, a)
    {
      SecretsExactly(connection, listing, a);
    }
  }

  predicate IsSecretOf(connection: string, listing: Listing, a: Account) {
    a.connection == connection && a.driver == listing.driver && a.key in listing.keys
  }

  /** A deletion leaves stored exactly what is listed if and only if none of its deletes failed for good. */
  lemma DeleteIsExact(w: World, w': World, connection: string, left: set<Account>)
    requires Exact(w.entries, w.listings) && DeleteEvent(w, w', connection, true, left)
    ensures Exact(w'.entries, w'.listings) <==> left == {}
  {
    forall a: Account
      ensures a in w'.entries <==> a in left || Lists(w'.listings, a)
      ensures a in left ==> !Lists(w'.listings, a)
      ensures Lists(w'.listings, a) ==> ValidKey(a.key)
    {
      assert a in w'.entries <==> Lookup(w'.entries, a).Some?;
      assert a in w.entries <==> Lists(w.listings, a);
    }
    if left != {} {
      var a :| a in left;
      assert a in w'.entries && !Lists(w'.listings, a);
    }
  }

  // ---------- Failed rollbacks ----------

  /** A failed rollback leaves the cache as it was, so it stays up to date exactly if every cached account was
      restored. */
  lemma CoherentAfterFailedRollback(w: World, w': World)
    requires Coherent(w.entries, w.cached) && w'.cached == w.cached
    ensures Coherent(w'.entries, w'.cached) <==>
            forall a: Account | a in w.cached :: Lookup(w'.entries, a) == Lookup(w.entries, a)
  {
    if Coherent(w'.entries, w'.cached) {
      forall a: Account | a in w.cached
        ensures Lookup(w'.entries, a) == Lookup(w.entries, a)
      {
        assert Agrees(w.entries, a, w.cached[a]) && Agrees(w'.entries, a, w'.cached[a]);
      }
    } else {
      var a :| a in w'.cached && !Agrees(w'.entries, a, w'.cached[a]);
      assert Agrees(w.entries, a, w.cached[a]);
    }
  }

  /** The update is to change an account that the cache knows. */
  ghost predicate TouchesCached(w: World, connection: string, driver: string, changes: Changes) {
    var u := UpdateOf(w.listings, connection, driver, changes);
    exists a: Account | a in w.cached :: u.Wanted(w.entries, a) != Lookup(w.entries, a)
  }

  lemma UntouchedStaysCoherent(w: World, w': World, connection: string, driver: string, changes: Changes)
    requires Coherent(w.entries, w.cached) && w'.cached == w.cached
    requires UpdateEvent(w, w', connection, driver, changes, RollbackFailed)
    requires !TouchesCached(w, connection, driver, changes)
    ensures Coherent(w'.entries, w'.cached)
  {
    var u := UpdateOf(w.listings, connection, driver, changes);
    assert Between(w.entries, w'.entries, u);
    forall a: Account | a in w.cached
      ensures Lookup(w'.entries, a) == Lookup(w.entries, a)
    {
      assert u.Wanted(w.entries, a) == Lookup(w.entries, a);
    }
    CoherentAfterFailedRollback(w, w');
  }

  /** The failed rollback that leaves only `a` changed. */
  lemma OneAccountLeft(w: World, connection: string, driver: string, changes: Changes, a: Account) returns (w': World)
    requires Coherent(w.entries, w.cached) && ValidChanges(changes) && a in w.cached
    requires UpdateOf(w.listings, connection, driver, changes).Wanted(w.entries, a) != Lookup(w.entries, a)
    ensures UpdateEvent(w, w', connection, driver, changes, RollbackFailed) && w'.cached == w.cached
    ensures !Coherent(w'.entries, w'.cached)
  {
    var u := UpdateOf(w.listings, connection, driver, changes);
    w' := w.(entries := Put(w.entries, a, u.Wanted(w.entries, a)));
    forall b: Account
      ensures Lookup(w'.entries, b) == if a == b then u.Wanted(w.entries, a) else Lookup(w.entries, b)
    {
      LookupPut(w.entries, a, u.Wanted(w.entries, a), b);
    }
    assert UpdateStep(w, w', u, Listing(driver, []), RollbackFailed);
    CoherentAfterFailedRollback(w, w');
  }

  /** However its rollback fails, an update leaves the cache up to date if and only if it changes no cached account. */
  lemma CacheSurvivesFailedRollbackExactly(w: World, connection: string, driver: string, changes: Changes)
    requires Coherent(w.entries, w.cached) && ValidChanges(changes)
    ensures (forall w' | UpdateEvent(w, w', connection, driver, changes, RollbackFailed) && w'.cached == w.cached ::
               Coherent(w'.entries, w'.cached)) <==>
            forall a: Account | a in w.cached ::
              UpdateOf(w.listings, connection, driver, changes).Wanted(w.entries, a) == Lookup(w.entries, a)
  {
    if TouchesCached(w, connection, driver, changes) {
      var u := UpdateOf(w.listings, connection, driver, changes);
      var a :| a in w.cached && u.Wanted(w.entries, a) != Lookup(w.entries, a);
      var w' := OneAccountLeft(w, connection, driver, changes, a);
    } else {
      forall w' | UpdateEvent(w, w', connection, driver, changes, RollbackFailed) && w'.cached == w.cached
        ensures Coherent(w'.entries, w'.cached)
      {
        UntouchedStaysCoherent(w, w', connection, driver, changes);
      }
    }
  }

  /** It need not be: a secret is overwritten, the save fails, and so does the write that should restore it. */
  lemma FailedRollbackCanStaleTheCache() returns (w: World, w': World)
    ensures Coherent(w.entries, w.cached) && Exact(w.entries, w.listings)
    ensures UpdateEvent(w, w', "c", "d", map["k" := Some("new")], RollbackFailed) && w'.cached == w.cached
    ensures !Coherent(w'.entries, w'.cached)
  {
    var a, changes := Account("c", "d", "k"), map["k" := Some("new")];
    w := World(map[a := "old"], map[a := Present("old")], map["c" := Listing("d", ["k"])]);
    w' := w.(entries := map[a := "new"]);
    assert Lists(w.listings, a) && KeyChar("k"[0]);
    assert ["k"] == [a.key];
    assert forall b: Account :: Lists(w.listings, b) ==> b == a;
    var u := UpdateOf(w.listings, "c", "d", changes);
    assert u.SameDriver() && u.Changes(a);
    assert ValidChange("k", Some("new"));
    assert UpdateStep(w, w', u, Listing("d", []), RollbackFailed);
    assert |"old"| == 3 && "old"[0] != "new"[0];
    assert !Agrees(w'.entries, a, w'.cached[a]);
  }
}
