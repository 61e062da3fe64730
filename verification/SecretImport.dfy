/** Importing plugin secrets: the keychain writes are planned first and made only once the file is saved. */
module SecretImport {
  import opened Wrappers
  import opened CredentialCache
  import opened PluginSecrets

  /** A keychain write that waits for the save: a value to store, or None to delete. */
  datatype SecretWrite = SecretWrite(account: Account, value: Option<string>)

  /** The imported connection, as far as its secrets go. */
  datatype Incoming = Incoming(id: string, driver: string, extra: map<string, string>,
                               declared: seq<string>, imported: map<string, string>)
  {
    /** The imported keys that are stored; the others are skipped. */
    predicate Accepts(key: string) { key in imported && ValidChange(key, Some(imported[key])) }

    predicate KeepsDriver(previous: Option<Listing>) { previous.Some? && previous.value.driver == driver }

    /** What the connection lists after the import. */
    predicate ListsNext(previous: Option<Listing>, key: string) {
      Accepts(key) || (KeepsDriver(previous) && key in previous.value.keys && ValidKey(key))
    }

    predicate Deletes(previous: Option<Listing>, a: Account) {
      && previous.Some? && previous.value.driver != driver
      && a.connection == id && a.driver == previous.value.driver
      && a.key in previous.value.keys && ValidKey(a.key)
    }

    predicate Sets(a: Account) { a.connection == id && a.driver == driver && Accepts(a.key) }

    /** The write planned for `a`, if any. */
    function WriteFor(previous: Option<Listing>, a: Account): Option<SecretWrite> {
      if Sets(a) then Some(SecretWrite(a, Some(imported[a.key])))
      else if Deletes(previous, a) then Some(SecretWrite(a, None))
      else None
    }
  }

  ghost predicate PlansExactly(c: Incoming, previous: Option<Listing>, writes: seq<SecretWrite>) {
    && (forall w | w in writes :: c.WriteFor(previous, w.account) == Some(w))
    && (forall a: Account :: c.WriteFor(previous, a).Some? ==> c.WriteFor(previous, a).value in writes)
  }

  /** The valid ones of the listed keys, in their order. */
  function ValidOf(keys: seq<string>): seq<string> {
    if keys == [] then []
    else ValidOf(keys[..|keys| - 1]) + if ValidKey(keys[|keys| - 1]) then [keys[|keys| - 1]] else []
  }

  lemma {:induction false} ValidOfExactly(keys: seq<string>, k: string)
    ensures k in ValidOf(keys) <==> k in keys && ValidKey(k)
  {
    if keys != [] {
      ValidOfExactly(keys[..|keys| - 1], k);
      assert keys == keys[..|keys| - 1] + [keys[|keys| - 1]];
    }
  }

  method ValidKeys(keys: seq<string>) returns (valid: seq<string>)
    ensures valid == ValidOf(keys)
  {
    valid := [];
    for i := 0 to |keys|
      invariant valid == ValidOf(keys[..i])
    {
      assert keys[..i + 1][..i] == keys[..i];
      if ValidKey(keys[i]) {
        valid := valid + [keys[i]];
      }
    }
    assert keys[..|keys|] == keys;
  }

  /** The deletes come first, in the order of the old list; the values follow in the order of their keys. */
  ghost predicate PlannedInOrder(c: Incoming, previous: Option<Listing>, writes: seq<SecretWrite>) {
    exists accepted: seq<string> ::
      && Sorted(accepted) && (forall k: string :: k in accepted <==> c.Accepts(k))
      && writes == DeleteWrites(c, previous) + SetWrites(c, accepted)
  }

  function DeleteWrites(c: Incoming, previous: Option<Listing>): seq<SecretWrite> {
    if previous.None? || previous.value.driver == c.driver then []
    else
      var dropped := ValidOf(previous.value.keys);
      seq(|dropped|, i requires 0 <= i < |dropped| =>
        SecretWrite(Account(c.id, previous.value.driver, dropped[i]), None))
  }

  function SetWrites(c: Incoming, accepted: seq<string>): seq<SecretWrite>
    requires forall k | k in accepted :: c.Accepts(k)
  {
    seq(|accepted|, i requires 0 <= i < |accepted| =>
      assert c.Accepts(accepted[i]);
      SecretWrite(Account(c.id, c.driver, accepted[i]), Some(c.imported[accepted[i]])))
  }

  /** The accepted values, as changes; every imported key leaves `extra`. */
  method AcceptImported(c: Incoming, extra0: map<string, string>) returns (extra: map<string, string>, changes: Changes)
    ensures extra == extra0 - c.imported.Keys
    ensures forall k: string :: k in changes <==> c.Accepts(k)
    ensures forall k | k in changes :: k in c.imported && changes[k] == Some(c.imported[k])
  {
    extra, changes := extra0, map[];
    var rest := c.imported.Keys;
    while rest != {}
      invariant rest <= c.imported.Keys
      invariant extra == extra0 - (c.imported.Keys - rest)
      invariant forall k: string :: k in changes <==> c.Accepts(k) && k !in rest
      invariant forall k | k in changes :: k in c.imported && changes[k] == Some(c.imported[k])
      decreases |rest|
    {
      var key :| key in rest;
      rest := rest - {key};
      extra := extra - {key};
      if ValidChange(key, Some(c.imported[key])) {
        changes := changes[key := Some(c.imported[key])];
      }
    }
  }

  method PlanImportedSecrets(c: Incoming, previous: Option<Listing>)
    returns (extra: map<string, string>, keys: seq<string>, writes: seq<SecretWrite>)
    ensures extra == c.extra - (set k | k in c.declared) - c.imported.Keys
    ensures Sorted(keys) && forall k: string :: k in keys <==> c.ListsNext(previous, k)
    ensures PlansExactly(c, previous, writes) && PlannedInOrder(c, previous, writes)
  {
    extra := c.extra - (set k | k in c.declared);
    var changes: Changes;
    extra, changes := AcceptImported(c, extra);
    var kept: seq<string> := [];
    if c.KeepsDriver(previous) {
      kept := ValidKeys(previous.value.keys);
      forall k: string
        ensures k in kept <==> k in previous.value.keys && ValidKey(k)
      {
        ValidOfExactly(previous.value.keys, k);
      }
    }
    var listed := NextSecretKeys(kept, true, changes);
    keys := if listed.Ok? then listed.value else kept;
    writes := PlanWrites(c, previous, changes);
  }

  /** Deletes of the previous driver's secrets, if the driver changed, and then the accepted values. */
  method PlanWrites(c: Incoming, previous: Option<Listing>, changes: Changes) returns (writes: seq<SecretWrite>)
    requires forall k: string :: k in changes <==> c.Accepts(k)
    requires forall k | k in changes :: k in c.imported && changes[k] == Some(c.imported[k])
    ensures PlansExactly(c, previous, writes) && PlannedInOrder(c, previous, writes)
  {
    writes := [];
    if previous.Some? && previous.value.driver != c.driver {
      var dropped := ValidKeys(previous.value.keys);
      for i := 0 to |dropped|
        invariant writes == DeleteWrites(c, previous)[..i]
      {
        writes := writes + [SecretWrite(Account(c.id, previous.value.driver, dropped[i]), None)];
      }
    }
    assert writes == DeleteWrites(c, previous);
    var accepted := KeyList(changes.Keys);
    for i := 0 to |accepted|
      invariant writes == DeleteWrites(c, previous) + SetWrites(c, accepted)[..i]
    {
      writes := writes + [SecretWrite(Account(c.id, c.driver, accepted[i]), changes[accepted[i]])];
    }
    assert writes == DeleteWrites(c, previous) + SetWrites(c, accepted);
    OrderedIsExact(c, previous, accepted);
  }

  /** Written in this order, the plan is complete and has nothing else. */
  lemma OrderedIsExact(c: Incoming, previous: Option<Listing>, accepted: seq<string>)
    requires forall k: string :: k in accepted <==> c.Accepts(k)
    ensures PlansExactly(c, previous, DeleteWrites(c, previous) + SetWrites(c, accepted))
  {
    var deletes, sets := DeleteWrites(c, previous), SetWrites(c, accepted);
    if previous.Some? && previous.value.driver != c.driver {
      var dropped := ValidOf(previous.value.keys);
      forall k: string
        ensures k in dropped <==> k in previous.value.keys && ValidKey(k)
      {
        ValidOfExactly(previous.value.keys, k);
      }
      assert forall i | 0 <= i < |dropped| :: deletes[i].account.key == dropped[i] && dropped[i] in dropped;
      forall a: Account | c.Deletes(previous, a)
        ensures SecretWrite(a, None) in deletes
      {
        var i :| 0 <= i < |dropped| && dropped[i] == a.key;
        assert deletes[i] == SecretWrite(a, None);
      }
    }
    assert forall i | 0 <= i < |accepted| :: sets[i].account.key == accepted[i] && accepted[i] in accepted;
    forall a: Account | c.Sets(a)
      ensures SecretWrite(a, Some(c.imported[a.key])) in sets
    {
      var i :| 0 <= i < |accepted| && accepted[i] == a.key;
      assert sets[i] == SecretWrite(a, Some(c.imported[a.key]));
    }
  }

  // ---------- Making the writes ----------

  /** The entries after the writes, when write `i` succeeded just if `succeeded[i]`. */
  function Applied(entries: Entries, writes: seq<SecretWrite>, succeeded: seq<bool>): Entries
    requires |writes| == |succeeded|
  {
    if writes == [] then
      entries
    else
      var last := |writes| - 1;
      var before := Applied(entries, writes[..last], succeeded[..last]);
      if succeeded[last] then Put(before, writes[last].account, writes[last].value) else before
  }

  lemma AppliedOneMore(entries: Entries, writes: seq<SecretWrite>, succeeded: seq<bool>, w: SecretWrite, ok: bool)
    requires |writes| == |succeeded|
    ensures Applied(entries, writes + [w], succeeded + [ok]) ==
            if ok then Put(Applied(entries, writes, succeeded), w.account, w.value)
            else Applied(entries, writes, succeeded)
  {
    var more, oks := writes + [w], succeeded + [ok];
    assert |more| - 1 == |writes| && more[..|writes|] == writes && oks[..|writes|] == succeeded;
  }

  function CountFailed(succeeded: seq<bool>): nat {
    if succeeded == [] then 0
    else CountFailed(succeeded[..|succeeded| - 1]) + if succeeded[|succeeded| - 1] then 0 else 1
  }

  lemma {:induction false} AllSucceeded(succeeded: seq<bool>)
    ensures CountFailed(succeeded) == 0 <==> forall i | 0 <= i < |succeeded| :: succeeded[i]
  {
    if succeeded != [] {
      AllSucceeded(succeeded[..|succeeded| - 1]);
    }
  }

  /** No more accounts are left than writes failed. */
  lemma {:induction false} FailedCount(writes: seq<SecretWrite>, succeeded: seq<bool>)
    requires |writes| == |succeeded|
    ensures |Failed(writes, succeeded)| <= CountFailed(succeeded)
  {
    if writes == [] {
      assert Failed(writes, succeeded) == {};
    } else {
      var last := |writes| - 1;
      FailedCount(writes[..last], succeeded[..last]);
      FailedOneMore(writes, succeeded);
    }
  }

  lemma FailedOneMore(writes: seq<SecretWrite>, succeeded: seq<bool>)
    requires |writes| == |succeeded| > 0
    ensures var last := |writes| - 1;
            Failed(writes, succeeded) ==
            Failed(writes[..last], succeeded[..last]) + if succeeded[last] then {} else {writes[last].account}
  {
    var last := |writes| - 1;
    var front, oks := writes[..last], succeeded[..last];
    assert forall i | 0 <= i < last :: front[i] == writes[i] && oks[i] == succeeded[i];
    forall a | a in Failed(front, oks)
      ensures a in Failed(writes, succeeded)
    {
      var i :| 0 <= i < last && !oks[i] && front[i].account == a;
      assert !succeeded[i] && writes[i].account == a;
    }
  }

  lemma NoneFailed(writes: seq<SecretWrite>, succeeded: seq<bool>)
    requires |writes| == |succeeded|
    ensures CountFailed(succeeded) == 0 <==> Failed(writes, succeeded) == {}
  {
    AllSucceeded(succeeded);
    if i :| 0 <= i < |succeeded| && !succeeded[i] {
      assert writes[i].account in Failed(writes, succeeded);
    }
  }

  /** Nothing is written unless the save succeeds; after it, every write is tried. */
  method CommitSecretWrites(keychain: Keychain, cache: Cache, writes: seq<SecretWrite>,
                            file: ConnectionsFile, next: Listings)
    returns (saved: bool, succeeded: seq<bool>)
    modifies keychain, cache, file
    ensures CacheFollows(old(keychain.entries), old(cache.pluginSecrets), keychain.entries, cache.pluginSecrets)
    ensures old(Coherent(keychain.entries, cache.pluginSecrets)) ==> Coherent(keychain.entries, cache.pluginSecrets)
    ensures |succeeded| == |writes|
    ensures saved <==> file.failures == old(file.failures)
    ensures file.failures >= old(file.failures)
    ensures keychain.failures == old(keychain.failures) + if saved then CountFailed(succeeded) else 0
    ensures file.listings == if saved then next else old(file.listings)
    ensures keychain.entries ==
            if saved then Applied(old(keychain.entries), writes, succeeded) else old(keychain.entries)
    ensures !saved ==> cache.pluginSecrets == old(cache.pluginSecrets)
  {
    saved := file.Save(next);
    if !saved {
      return false, seq(|writes|, _ => false);
    }
    succeeded := [];
    for i := 0 to |writes|
      invariant |succeeded| == i && file.listings == next && file.failures == old(file.failures)
      invariant keychain.failures == old(keychain.failures) + CountFailed(succeeded)
      invariant CacheFollows(old(keychain.entries), old(cache.pluginSecrets), keychain.entries, cache.pluginSecrets)
      invariant keychain.entries == Applied(old(keychain.entries), writes[..i], succeeded)
    {
      var w := writes[i];
      var ok: bool;
      match w.value {
        case Some(v) =>
          ok := keychain.Set(w.account, v);
          if ok {
            cache.SetPluginSecretCached(w.account, v);
          } else {
            cache.InvalidatePluginSecret(w.account);
          }
        case None =>
          ok := keychain.Delete(w.account);
          cache.InvalidatePluginSecret(w.account);
      }
      AppliedOneMore(old(keychain.entries), writes[..i], succeeded, w, ok);
      assert writes[..i + 1] == writes[..i] + [w];
      succeeded := succeeded + [ok];
    }
    assert writes[..|writes|] == writes;
  }

  // ---------- What an import stores ----------

  function AllOk(n: nat): seq<bool> { seq(n, _ => true) }

  /** The entries when every write succeeds. */
  function Made(entries: Entries, writes: seq<SecretWrite>): Entries {
    Applied(entries, writes, AllOk(|writes|))
  }

  lemma MadeOneMore(entries: Entries, writes: seq<SecretWrite>, w: SecretWrite)
    ensures Made(entries, writes + [w]) == Put(Made(entries, writes), w.account, w.value)
  {
    AppliedOneMore(entries, writes, AllOk(|writes|), w, true);
    assert AllOk(|writes|) + [true] == AllOk(|writes + [w]|);
  }

  lemma {:induction false} MadeConcat(entries: Entries, first: seq<SecretWrite>, second: seq<SecretWrite>)
    ensures Made(entries, first + second) == Made(Made(entries, first), second)
  {
    if second == [] {
      assert first + second == first;
    } else {
      var front, w := second[..|second| - 1], second[|second| - 1];
      MadeConcat(entries, first, front);
      MadeOneMore(entries, first + front, w);
      MadeOneMore(Made(entries, first), front, w);
      assert first + front + [w] == first + second;
      assert front + [w] == second;
    }
  }

  /** When the writes to each account agree, an account holds what was written, or what it held before. */
  lemma {:induction false} MadeLookup(c: Incoming, previous: Option<Listing>, entries: Entries,
                                      writes: seq<SecretWrite>, a: Account)
    requires forall w | w in writes :: c.WriteFor(previous, w.account) == Some(w)
    ensures var w := c.WriteFor(previous, a);
            Lookup(Made(entries, writes), a) ==
            if w.Some? && w.value in writes then w.value.value else Lookup(entries, a)
  {
    if writes != [] {
      var front, last := writes[..|writes| - 1], writes[|writes| - 1];
      assert writes == front + [last];
      MadeLookup(c, previous, entries, front, a);
      MadeOneMore(entries, front, last);
      LookupPut(Made(entries, front), last.account, last.value, a);
    }
  }

  function PreviousListing(listings: Listings, id: string): Option<Listing> {
    if id in listings then Some(listings[id]) else None
  }

  /** One connection imported in full: its listing, and what every account holds afterwards. */
  ghost predicate OneImport(entries: Entries, listings: Listings, c: Incoming, now: Entries, next: Listings) {
    var previous := PreviousListing(listings, c.id);
    && c.id in next && next == listings[c.id := Listing(c.driver, next[c.id].keys)]
    && (forall k: string :: k in next[c.id].keys <==> c.ListsNext(previous, k))
    && (forall a: Account :: Lookup(now, a) ==
          if c.Sets(a) then Some(c.imported[a.key])
          else if c.Deletes(previous, a) then None
          else Lookup(entries, a))
  }

  /** The connections of `payload` imported in full, one after the other. */
  ghost predicate AllImported(entries: Entries, listings: Listings, payload: seq<Incoming>,
                              now: Entries, next: Listings)
  {
    if payload == [] then
      now == entries && next == listings
    else
      var last := |payload| - 1;
      exists e, l :: AllImported(entries, listings, payload[..last], e, l) && OneImport(e, l, payload[last], now, next)
  }

  lemma PlanIsOneImport(entries: Entries, listings: Listings, c: Incoming, keys: seq<string>, writes: seq<SecretWrite>)
    requires forall k: string :: k in keys <==> c.ListsNext(PreviousListing(listings, c.id), k)
    requires PlansExactly(c, PreviousListing(listings, c.id), writes)
    ensures OneImport(entries, listings, c, Made(entries, writes), listings[c.id := Listing(c.driver, keys)])
  {
    var previous := PreviousListing(listings, c.id);
    forall a: Account
      ensures Lookup(Made(entries, writes), a) ==
              if c.Sets(a) then Some(c.imported[a.key])
              else if c.Deletes(previous, a) then None
              else Lookup(entries, a)
    {
      MadeLookup(c, previous, entries, writes, a);
    }
  }

  /** An imported connection's entries are exactly those its new listing names. */
  lemma OneImportIsExact(entries: Entries, listings: Listings, c: Incoming, now: Entries, next: Listings)
    requires Exact(entries, listings) && OneImport(entries, listings, c, now, next)
    ensures Exact(now, next)
  {
    forall a: Account
      ensures a in now <==> Lists(next, a)
      ensures Lists(next, a) ==> ValidKey(a.key)
    {
      assert a in now <==> Lookup(now, a).Some?;
      assert a in entries <==> Lists(listings, a);
      assert a in entries ==> ValidKey(a.key);
    }
  }

  /** An import of any payload, even one that repeats connections, stores exactly what the file lists. */
  lemma {:induction false} ImportIsExact(entries: Entries, listings: Listings, payload: seq<Incoming>,
                                         now: Entries, next: Listings)
    requires Exact(entries, listings) && AllImported(entries, listings, payload, now, next)
    ensures Exact(now, next)
  {
    if payload != [] {
      var last := |payload| - 1;
      var e, l :| AllImported(entries, listings, payload[..last], e, l) && OneImport(e, l, payload[last], now, next);
      ImportIsExact(entries, listings, payload[..last], e, l);
      OneImportIsExact(e, l, payload[last], now, next);
    }
  }

  /** What an import does to one connection: valid imported values are stored and listed; valid keys of the same driver
      stay as they are; those of another driver are deleted; and nothing else changes. */
  lemma OneImportExactly(entries: Entries, listings: Listings, c: Incoming, now: Entries, next: Listings, a: Account)
    requires OneImport(entries, listings, c, now, next)
    ensures var listed := a.connection in listings && a.key in listings[a.connection].keys && ValidKey(a.key);
            var driver := if a.connection in listings then Some(listings[a.connection].driver) else None;
            if a.connection != c.id then
              Lookup(now, a) == Lookup(entries, a) && (Lists(next, a) <==> Lists(listings, a))
            else if a.driver == c.driver && a.key in c.imported && ValidChange(a.key, Some(c.imported[a.key])) then
              Lookup(now, a) == Some(c.imported[a.key]) && Lists(next, a)
            else if a.driver == c.driver then
              Lookup(now, a) == Lookup(entries, a) && (Lists(next, a) <==> listed && driver == Some(c.driver))
            else
              && !Lists(next, a)
              && Lookup(now, a) == if listed && driver == Some(a.driver) then None else Lookup(entries, a)
  {
  }

  lemma OthersStay(entries: Entries, listings: Listings, c: Incoming, now: Entries, next: Listings, a: Account)
    requires OneImport(entries, listings, c, now, next) && a.connection != c.id
    ensures Lookup(now, a) == Lookup(entries, a) && (Lists(next, a) <==> Lists(listings, a))
  {
    OneImportExactly(entries, listings, c, now, next, a);
  }

  /** Every valid secret of a payload is stored and listed, unless its connection is imported again later. */
  lemma {:induction false} ImportedIsStored(entries: Entries, listings: Listings, payload: seq<Incoming>,
                                            now: Entries, next: Listings, k: nat, key: string)
    requires AllImported(entries, listings, payload, now, next)
    requires k < |payload| && forall j | k < j < |payload| :: payload[j].id != payload[k].id
    requires key in payload[k].imported && ValidChange(key, Some(payload[k].imported[key]))
    ensures var a := Account(payload[k].id, payload[k].driver, key);
            Lookup(now, a) == Some(payload[k].imported[key]) && Lists(next, a)
    decreases |payload|
  {
    var a := Account(payload[k].id, payload[k].driver, key);
    var last := |payload| - 1;
    var e, l :| AllImported(entries, listings, payload[..last], e, l) && OneImport(e, l, payload[last], now, next);
    if k == last {
      OneImportExactly(e, l, payload[last], now, next, a);
    } else {
      ImportedIsStored(entries, listings, payload[..last], e, l, k, key);
      OthersStay(e, l, payload[last], now, next, a);
    }
  }

  lemma AllImportedOneMore(entries: Entries, listings: Listings, payload: seq<Incoming>, i: nat,
                           e: Entries, l: Listings, now: Entries, next: Listings)
    requires i < |payload| && AllImported(entries, listings, payload[..i], e, l)
    requires OneImport(e, l, payload[i], now, next)
    ensures AllImported(entries, listings, payload[..i + 1], now, next)
  {
    assert payload[..i + 1][..i] == payload[..i];
  }

  /** The accounts of writes that failed, as the log names them. */
  function Failed(writes: seq<SecretWrite>, succeeded: seq<bool>): set<Account>
    requires |writes| == |succeeded|
  {
    set i | 0 <= i < |writes| && !succeeded[i] :: writes[i].account
  }

  /** An account none of whose writes failed holds what it would if no write had failed. */
  lemma {:induction false} FailuresStayLocal(entries: Entries, writes: seq<SecretWrite>, succeeded: seq<bool>,
                                            a: Account)
    requires |writes| == |succeeded| && a !in Failed(writes, succeeded)
    ensures Lookup(Applied(entries, writes, succeeded), a) == Lookup(Made(entries, writes), a)
    decreases |writes|
  {
    if writes != [] {
      var last := |writes| - 1;
      var front, oks := writes[..last], succeeded[..last];
      var w, ok := writes[last], succeeded[last];
      assert writes == front + [w] && succeeded == oks + [ok];
      LastNotFailed(front, oks, w, ok, a);
      FailuresStayLocal(entries, front, oks, a);
      OneMoreLookup(entries, front, oks, w, ok, a);
    }
  }

  lemma LastNotFailed(front: seq<SecretWrite>, oks: seq<bool>, w: SecretWrite, ok: bool, a: Account)
    requires |front| == |oks| && a !in Failed(front + [w], oks + [ok])
    ensures a !in Failed(front, oks) && (ok || w.account != a)
  {
    var writes, succeeded := front + [w], oks + [ok];
    forall i | 0 <= i < |front| && !oks[i]
      ensures front[i].account != a
    {
      assert !succeeded[i] && writes[i] == front[i];
    }
    assert writes[|front|] == w && succeeded[|front|] == ok;
  }

  lemma OneMoreLookup(entries: Entries, front: seq<SecretWrite>, oks: seq<bool>, w: SecretWrite, ok: bool, a: Account)
    requires |front| == |oks| && (ok || w.account != a)
    requires Lookup(Applied(entries, front, oks), a) == Lookup(Made(entries, front), a)
    ensures Lookup(Applied(entries, front + [w], oks + [ok]), a) == Lookup(Made(entries, front + [w]), a)
  {
    AppliedOneMore(entries, front, oks, w, ok);
    MadeOneMore(entries, front, w);
    LookupPut(Applied(entries, front, oks), w.account, w.value, a);
    LookupPut(Made(entries, front), w.account, w.value, a);
  }

  /** A failed save changes nothing. A save imports every listing in full, and every account but those of which a
      write failed; if none did, every connection is imported in full. */
  method ImportConnections(keychain: Keychain, cache: Cache, file: ConnectionsFile, payload: seq<Incoming>)
    returns (saved: bool, failed: set<Account>)
    modifies keychain, cache, file
    ensures CacheFollows(old(keychain.entries), old(cache.pluginSecrets), keychain.entries, cache.pluginSecrets)
    ensures old(Coherent(keychain.entries, cache.pluginSecrets)) ==> Coherent(keychain.entries, cache.pluginSecrets)
    ensures saved <==> file.failures == old(file.failures)
    ensures file.failures >= old(file.failures) && keychain.failures >= old(keychain.failures)
    ensures saved ==> (failed == {} <==> keychain.failures == old(keychain.failures))
    ensures saved ==> |failed| <= keychain.failures - old(keychain.failures)
    ensures !saved ==> keychain.entries == old(keychain.entries) && file.listings == old(file.listings)
    ensures saved ==> ImportedBut(old(keychain.entries), old(file.listings), payload, failed,
                                  keychain.entries, file.listings)
    ensures saved && failed == {} ==>
              AllImported(old(keychain.entries), old(file.listings), payload, keychain.entries, file.listings)
  {
    var next := file.listings;
    var writes: seq<SecretWrite> := [];
    for i := 0 to |payload|
      invariant keychain.entries == old(keychain.entries) && file.listings == old(file.listings)
      invariant keychain.failures == old(keychain.failures) && file.failures == old(file.failures)
      invariant cache.pluginSecrets == old(cache.pluginSecrets)
      invariant AllImported(old(keychain.entries), old(file.listings), payload[..i],
                            Made(old(keychain.entries), writes), next)
    {
      var c := payload[i];
      var extra, keys, planned := PlanImportedSecrets(c, PreviousListing(next, c.id));
      ghost var now := Made(keychain.entries, writes);
      PlanIsOneImport(now, next, c, keys, planned);
      MadeConcat(keychain.entries, writes, planned);
      AllImportedOneMore(keychain.entries, file.listings, payload, i, now, next,
                         Made(now, planned), next[c.id := Listing(c.driver, keys)]);
      next := next[c.id := Listing(c.driver, keys)];
      writes := writes + planned;
    }
    assert payload[..|payload|] == payload;
    var succeeded: seq<bool>;
    saved, succeeded := CommitSecretWrites(keychain, cache, writes, file, next);
    failed := Failed(writes, succeeded);
    NoneFailed(writes, succeeded);
    FailedCount(writes, succeeded);
    if saved {
      MostImported(old(keychain.entries), writes, succeeded, keychain.entries);
      if failed == {} {
        SameLookups(keychain.entries, Made(old(keychain.entries), writes));
      }
    }
  }

  /** The listings are those of a full import, and so are the entries but for the accounts in `failed`. */
  ghost predicate ImportedBut(entries: Entries, listings: Listings, payload: seq<Incoming>, failed: set<Account>,
                              now: Entries, next: Listings)
  {
    exists full :: AllImported(entries, listings, payload, full, next) &&
                   forall a: Account :: a in failed || Lookup(now, a) == Lookup(full, a)
  }

  lemma MostImported(entries: Entries, writes: seq<SecretWrite>, succeeded: seq<bool>, now: Entries)
    requires |writes| == |succeeded| && now == Applied(entries, writes, succeeded)
    ensures forall a: Account :: a in Failed(writes, succeeded) || Lookup(now, a) == Lookup(Made(entries, writes), a)
  {
    forall a: Account | a !in Failed(writes, succeeded)
      ensures Lookup(now, a) == Lookup(Made(entries, writes), a)
    {
      FailuresStayLocal(entries, writes, succeeded, a);
    }
  }
}
