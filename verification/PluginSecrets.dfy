/** Saving plugin-owned secrets: snapshot, apply, persist, and roll back over a keychain that may fail. */
module PluginSecrets {
  import opened Wrappers
  import opened CredentialCache

  /** A value to store, or None to remove the key. Strings stand for their UTF-8 bytes. */
  type Changes = map<string, Option<string>>

  const MAX_SECRET_KEY_LENGTH := 64
  const MAX_SECRET_VALUE_LENGTH := 1024 * 1024

  predicate KeyChar(c: char) {
    'a' <= c <= 'z' || 'A' <= c <= 'Z' || '0' <= c <= '9' || c in "_-."
  }

  predicate ValidKey(key: string) {
    0 < |key| <= MAX_SECRET_KEY_LENGTH && forall c | c in key :: KeyChar(c)
  }

  predicate ValidChange(key: string, value: Option<string>) {
    ValidKey(key) && (value.Some? ==> |value.value| <= MAX_SECRET_VALUE_LENGTH)
  }

  predicate ValidChanges(changes: Changes) {
    forall key | key in changes :: ValidChange(key, changes[key])
  }

  /** `a` comes before `b` in the order of their bytes. */
  predicate Before(a: string, b: string) {
    b != [] && (a == [] || a[0] < b[0] || (a[0] == b[0] && Before(a[1..], b[1..])))
  }

  /** At the first byte where they differ `a` is smaller, or `a` is a proper prefix of `b`. */
  predicate FirstDifference(a: string, b: string, k: nat) {
    k <= |a| && k < |b| && (forall j | 0 <= j < k :: a[j] == b[j]) && (k == |a| || a[k] < b[k])
  }

  lemma {:induction false} BeforeExactly(a: string, b: string)
    ensures Before(a, b) <==> exists k: nat :: FirstDifference(a, b, k)
  {
    if a == [] || b == [] || a[0] != b[0] {
      assert b != [] && (a == [] || a[0] < b[0]) ==> FirstDifference(a, b, 0);
    } else {
      BeforeExactly(a[1..], b[1..]);
      if k: nat :| FirstDifference(a[1..], b[1..], k) {
        assert forall j | 0 < j < k + 1 :: a[1..][j - 1] == a[j] && b[1..][j - 1] == b[j];
        assert FirstDifference(a, b, k + 1);
      }
      if k: nat :| FirstDifference(a, b, k) {
        assert FirstDifference(a[1..], b[1..], k - 1);
      }
    }
  }

  /** Every key once, in order. */
  predicate Sorted(keys: seq<string>) {
    keys != [] ==> (forall k | k in keys[1..] :: Before(keys[0], k)) && Sorted(keys[1..])
  }

  lemma {:induction false} SortedExactly(keys: seq<string>)
    ensures Sorted(keys) <==> forall i, j | 0 <= i < j < |keys| :: Before(keys[i], keys[j])
  {
    if keys != [] {
      var rest := keys[1..];
      SortedExactly(rest);
      if Sorted(keys) {
        forall i, j | 0 <= i < j < |keys|
          ensures Before(keys[i], keys[j])
        {
          assert rest[j - 1] == keys[j] && rest[j - 1] in rest;
          assert i > 0 ==> rest[i - 1] == keys[i];
        }
      }
      if forall i, j | 0 <= i < j < |keys| :: Before(keys[i], keys[j]) {
        assert forall i | 0 <= i < |rest| :: rest[i] == keys[i + 1];
      }
    }
  }

  /** A change is valid if its key has 1 to 64 letters, digits, underscores, dashes and dots, and its value at most one
      mebibyte. */
  lemma ValidChangeExactly(key: string, value: Option<string>)
    ensures ValidChange(key, value) <==>
            && 1 <= |key| <= 64
            && (forall k | 0 <= k < |key| ::
                  'a' <= key[k] <= 'z' || 'A' <= key[k] <= 'Z' || '0' <= key[k] <= '9' ||
                  key[k] == '_' || key[k] == '-' || key[k] == '.')
            && (value.Some? ==> |value.value| <= 1048576)
  {
    assert forall k | 0 <= k < |key| :: key[k] in key;
  }

  lemma {:induction false} BeforeIsTotal(a: string, b: string)
    ensures a == b || Before(a, b) || Before(b, a)
    ensures !(Before(a, b) && Before(b, a)) && !Before(a, a)
  {
    if a != [] && b != [] {
      BeforeIsTotal(a[1..], b[1..]);
      BeforeIsTotal(a[1..], a[1..]);
      assert a == [a[0]] + a[1..] && b == [b[0]] + b[1..];
    } else if a != [] {
      BeforeIsTotal(a[1..], a[1..]);
    }
  }

  lemma {:induction false} BeforeIsTransitive(a: string, b: string, c: string)
    requires Before(a, b) && Before(b, c)
    ensures Before(a, c)
  {
    if a != [] && a[0] == b[0] && b[0] == c[0] {
      BeforeIsTransitive(a[1..], b[1..], c[1..]);
    }
  }

  /** The listed keys of a connection: what the connections file remembers of its secrets. */
  datatype Listing = Listing(driver: string, keys: seq<string>)

  type Listings = map<string, Listing>

  /** Key `k` is listed after `changes`: it was set, or it was there and was not touched. */
  predicate ListedNext(existing: seq<string>, sameDriver: bool, changes: Changes, k: string) {
    if k in changes then changes[k].Some? else sameDriver && k in existing
  }

  function InsertKey(keys: seq<string>, k: string): seq<string> {
    if keys == [] || Before(k, keys[0]) then [k] + keys
    else [keys[0]] + InsertKey(keys[1..], k)
  }

  lemma {:induction false} InsertKeepsSorted(keys: seq<string>, k: string)
    requires Sorted(keys) && k !in keys
    ensures Sorted(InsertKey(keys, k))
    ensures forall x: string :: x in InsertKey(keys, k) <==> x == k || x in keys
  {
    if keys == [] {
    } else if Before(k, keys[0]) {
      forall x | x in keys
        ensures Before(k, x)
      {
        if x != keys[0] {
          assert x in keys[1..];
          BeforeIsTransitive(k, keys[0], x);
        }
      }
      assert ([k] + keys)[1..] == keys;
    } else {
      BeforeIsTotal(k, keys[0]);
      InsertKeepsSorted(keys[1..], k);
      var rest := InsertKey(keys[1..], k);
      assert ([keys[0]] + rest)[1..] == rest;
    }
  }

  method KeyList(keys: set<string>) returns (list: seq<string>)
    ensures Sorted(list)
    ensures forall k: string :: k in list <==> k in keys
  {
    var rest := keys;
    list := [];
    while rest != {}
      invariant Sorted(list) && rest <= keys
      invariant forall k: string :: k in list <==> k in keys && k !in rest
      decreases |rest|
    {
      var k :| k in rest;
      rest := rest - {k};
      InsertKeepsSorted(list, k);
      list := InsertKey(list, k);
    }
  }

  /** Invalid changes are refused; otherwise the keys that ListedNext names are listed in order. */
  method NextSecretKeys(existing: seq<string>, sameDriver: bool, changes: Changes)
    returns (r: Result<seq<string>, ()>)
    ensures r.Ok? <==> ValidChanges(changes)
    ensures r.Ok? ==> Sorted(r.value)
    ensures r.Ok? ==> forall k: string :: k in r.value <==> ListedNext(existing, sameDriver, changes, k)
  {
    if !ValidChanges(changes) {
      return Err(());
    }
    var keys := if sameDriver then set k | k in existing else {};
    var rest := changes.Keys;
    while rest != {}
      invariant rest <= changes.Keys
      invariant forall k: string :: k in keys <==>
                  (if k in changes && k !in rest then changes[k].Some? else sameDriver && k in existing)
      decreases |rest|
    {
      var k :| k in rest;
      rest := rest - {k};
      keys := if changes[k].Some? then keys + {k} else keys - {k};
    }
    var list := KeyList(keys);
    return Ok(list);
  }

  // ---------- One update ----------

  datatype Update = Update(connection: string, oldDriver: Option<string>, oldKeys: seq<string>,
                           newDriver: string, changes: Changes)
  {
    predicate SameDriver() { oldDriver.None? || oldDriver.value == newDriver }

    /** `a` is a secret of the driver the connection moves away from. */
    predicate Drops(a: Account) {
      !SameDriver() && a.connection == connection && a.driver == oldDriver.value && a.key in oldKeys
    }

    predicate Changes(a: Account) { a.connection == connection && a.driver == newDriver && a.key in changes }

    /** What `a` should hold once the update is done. */
    function Wanted(before: Entries, a: Account): Option<string> {
      if Changes(a) then changes[a.key] else if Drops(a) then None else Lookup(before, a)
    }

    function OldAccount(key: string): Account
      requires !SameDriver()
    {
      Account(connection, oldDriver.value, key)
    }

    function NewAccount(key: string): Account { Account(connection, newDriver, key) }

    function Affected(): (s: set<Account>)
      ensures forall a: Account :: a in s <==> Changes(a) || Drops(a)
    {
      var changed := set key | key in changes :: NewAccount(key);
      assert forall a: Account :: a in changed ==> a == NewAccount(a.key);
      assert forall a: Account :: Changes(a) ==> a == NewAccount(a.key);
      if SameDriver() then
        changed
      else
        var dropped := set key | key in oldKeys :: OldAccount(key);
        assert forall a: Account :: a in dropped ==> a == OldAccount(a.key);
        assert forall a: Account :: Drops(a) ==> a == OldAccount(a.key);
        changed + dropped
    }
  }

  /** The accounts in `done` hold what they should; all others hold what they held before. */
  ghost predicate Partly(before: Entries, now: Entries, u: Update, done: set<Account>) {
    forall a: Account :: Lookup(now, a) == if a in done then u.Wanted(before, a) else Lookup(before, a)
  }

  /** Every account holds what it held before or what it should hold after. */
  ghost predicate Between(before: Entries, now: Entries, u: Update) {
    forall a: Account :: Lookup(now, a) == Lookup(before, a) || Lookup(now, a) == u.Wanted(before, a)
  }

  ghost predicate Done(before: Entries, now: Entries, u: Update) {
    forall a: Account :: Lookup(now, a) == u.Wanted(before, a)
  }

  function Put(entries: Entries, a: Account, value: Option<string>): Entries {
    if value.Some? then entries[a := value.value] else entries - {a}
  }

  lemma LookupPut(entries: Entries, a: Account, value: Option<string>, b: Account)
    ensures Lookup(Put(entries, a, value), b) == if a == b then value else Lookup(entries, b)
  {
  }

  /** One keychain call and, only if it succeeded, the matching cache call. */
  method Store(keychain: Keychain, cache: Cache, a: Account, value: Option<string>) returns (ok: bool)
    requires Coherent(keychain.entries, cache.pluginSecrets)
    modifies keychain, cache
    ensures Coherent(keychain.entries, cache.pluginSecrets)
    ensures keychain.entries == if ok then Put(old(keychain.entries), a, value) else old(keychain.entries)
    ensures keychain.failures == old(keychain.failures) + if ok then 0 else 1
  {
    match value {
      case Some(v) =>
        ok := keychain.Set(a, v);
        if ok {
          cache.SetPluginSecretCached(a, v);
        }
      case None =>
        ok := keychain.Delete(a);
        if ok {
          cache.InvalidatePluginSecret(a);
        }
    }
  }

  method TakeSnapshots(keychain: Keychain, affected: set<Account>) returns (r: Result<map<Account, Option<string>>, ()>)
    modifies keychain`failures
    ensures keychain.failures == old(keychain.failures) + if r.Ok? then 0 else 1
    ensures r.Ok? ==> r.value.Keys == affected
    ensures r.Ok? ==> forall a | a in affected :: r.value[a] == Lookup(keychain.entries, a)
  {
    var rest := affected;
    var snapshots: map<Account, Option<string>> := map[];
    while rest != {}
      invariant rest <= affected && snapshots.Keys == affected - rest
      invariant keychain.failures == old(keychain.failures)
      invariant forall a | a in snapshots :: snapshots[a] == Lookup(keychain.entries, a)
      decreases |rest|
    {
      var a :| a in rest;
      var previous := keychain.Get(a);
      if previous.Err? {
        return Err(());
      }
      snapshots := snapshots[a := previous.value];
      rest := rest - {a};
    }
    return Ok(snapshots);
  }

  lemma PutWanted(before: Entries, now: Entries, u: Update, done: set<Account>, a: Account)
    requires Partly(before, now, u, done)
    ensures Partly(before, Put(now, a, u.Wanted(before, a)), u, done + {a})
  {
    forall b: Account
      ensures Lookup(Put(now, a, u.Wanted(before, a)), b) ==
              if b in done + {a} then u.Wanted(before, b) else Lookup(before, b)
    {
      LookupPut(now, a, u.Wanted(before, a), b);
    }
  }

  lemma PartlyIsBetween(before: Entries, now: Entries, u: Update, done: set<Account>)
    requires Partly(before, now, u, done)
    ensures Between(before, now, u)
    ensures u.Affected() <= done ==> Done(before, now, u)
  {
  }

  /** The old driver's secrets go first, then the changes are made; the first failing call stops. */
  method ApplyChanges(keychain: Keychain, cache: Cache, u: Update) returns (ok: bool)
    requires Coherent(keychain.entries, cache.pluginSecrets)
    modifies keychain, cache
    ensures Coherent(keychain.entries, cache.pluginSecrets)
    ensures Between(old(keychain.entries), keychain.entries, u)
    ensures ok ==> Done(old(keychain.entries), keychain.entries, u)
    ensures keychain.failures == old(keychain.failures) + if ok then 0 else 1
  {
    ghost var before := keychain.entries;
    ghost var done: set<Account> := {};
    ok := true;
    if !u.SameDriver() {
      for i := 0 to |u.oldKeys|
        invariant Coherent(keychain.entries, cache.pluginSecrets) && keychain.failures == old(keychain.failures)
        invariant Partly(before, keychain.entries, u, done)
        invariant forall j | 0 <= j < i :: u.OldAccount(u.oldKeys[j]) in done
      {
        var a := u.OldAccount(u.oldKeys[i]);
        PutWanted(before, keychain.entries, u, done, a);
        ok := Store(keychain, cache, a, None);
        if !ok {
          PartlyIsBetween(before, keychain.entries, u, done);
          return;
        }
        done := done + {a};
      }
    }
    assert forall a: Account | u.Drops(a) :: a in done by {
      forall a: Account | u.Drops(a)
        ensures a in done
      {
        var j :| 0 <= j < |u.oldKeys| && u.oldKeys[j] == a.key;
        assert a == u.OldAccount(u.oldKeys[j]);
      }
    }
    var rest := u.changes.Keys;
    while rest != {}
      invariant rest <= u.changes.Keys && ok && keychain.failures == old(keychain.failures)
      invariant Coherent(keychain.entries, cache.pluginSecrets)
      invariant Partly(before, keychain.entries, u, done)
      invariant forall a: Account | u.Drops(a) :: a in done
      invariant forall a: Account | u.Changes(a) && a.key !in rest :: a in done
      decreases |rest|
    {
      var key :| key in rest;
      var a := u.NewAccount(key);
      PutWanted(before, keychain.entries, u, done, a);
      ok := Store(keychain, cache, a, u.changes[key]);
      if !ok {
        PartlyIsBetween(before, keychain.entries, u, done);
        return;
      }
      done := done + {a};
      rest := rest - {key};
    }
    PartlyIsBetween(before, keychain.entries, u, done);
  }

  /** Account `a` holds its old value again. */
  ghost predicate Restored(before: Entries, now: Entries, rest: set<Account>) {
    forall a: Account :: a !in rest ==> Lookup(now, a) == Lookup(before, a)
  }

  lemma PutOld(before: Entries, now: Entries, u: Update, a: Account, rest: set<Account>)
    requires Between(before, now, u)
    ensures Between(before, Put(now, a, Lookup(before, a)), u)
    ensures Restored(before, now, rest) ==> Restored(before, Put(now, a, Lookup(before, a)), rest - {a})
  {
    var next := Put(now, a, Lookup(before, a));
    forall b: Account
      ensures Lookup(next, b) == if a == b then Lookup(before, a) else Lookup(now, b)
    {
      LookupPut(now, a, Lookup(before, a), b);
    }
  }

  /** All but at most `n` accounts hold their old values again. */
  ghost predicate RestoredBut(before: Entries, now: Entries, n: int) {
    exists left: set<Account> :: |left| <= n && Restored(before, now, left)
  }

  /** Writes every snapshot back, going on past calls that fail: each of these leaves at most one account. */
  method RollBack(keychain: Keychain, cache: Cache, snapshots: map<Account, Option<string>>,
                  ghost before: Entries, ghost u: Update)
    returns (ok: bool)
    requires Coherent(keychain.entries, cache.pluginSecrets)
    requires snapshots.Keys == u.Affected()
    requires forall a | a in snapshots :: snapshots[a] == Lookup(before, a)
    requires Between(before, keychain.entries, u)
    modifies keychain, cache
    ensures Coherent(keychain.entries, cache.pluginSecrets)
    ensures Between(before, keychain.entries, u)
    ensures ok ==> keychain.entries == before
    ensures ok <==> keychain.failures == old(keychain.failures)
    ensures keychain.failures >= old(keychain.failures)
    ensures RestoredBut(before, keychain.entries, keychain.failures - old(keychain.failures))
  {
    ok := true;
    ghost var left: set<Account> := {};
    var rest := snapshots.Keys;
    while rest != {}
      invariant rest <= snapshots.Keys
      invariant Coherent(keychain.entries, cache.pluginSecrets)
      invariant Between(before, keychain.entries, u)
      invariant Restored(before, keychain.entries, rest + left)
      invariant |left| <= keychain.failures - old(keychain.failures) && (ok <==> left == {})
      invariant ok <==> keychain.failures == old(keychain.failures)
      decreases |rest|
    {
      var a :| a in rest;
      PutOld(before, keychain.entries, u, a, rest + left);
      var stored := Store(keychain, cache, a, snapshots[a]);
      ok := ok && stored;
      if !stored {
        left := left + {a};
      }
      rest := rest - {a};
    }
    if ok {
      SameLookups(keychain.entries, before);
    }
  }

  /** The connections file; a save may fail, and then changes nothing but the count of failures. */
  class ConnectionsFile {
    var listings: Listings
    ghost var failures: nat

    constructor ()
      ensures listings == map[] && failures == 0
    {
      listings, failures := map[], 0;
    }

    method Save(next: Listings) returns (ok: bool)
      modifies this
      ensures listings == if ok then next else old(listings)
      ensures failures == old(failures) + if ok then 0 else 1
    {
      ok := *;
      if ok {
        listings := next;
      } else {
        failures := failures + 1;
      }
    }
  }

  ghost function Failures(keychain: Keychain, file: ConnectionsFile): nat
    reads keychain, file
  {
    keychain.failures + file.failures
  }

  datatype Outcome = Updated | Refused | RolledBack | RollbackFailed

  /** Everything an update changes. */
  datatype World = World(entries: Entries, cached: Cached, listings: Listings)

  ghost function Snapshot(keychain: Keychain, cache: Cache, file: ConnectionsFile): World
    reads keychain, cache, file
  {
    World(keychain.entries, cache.pluginSecrets, file.listings)
  }

  /** What an update may do to the world, by outcome. */
  ghost predicate UpdateStep(w: World, w': World, u: Update, listing: Listing, outcome: Outcome) {
    && (outcome != Refused ==> ValidChanges(u.changes))
    && match outcome
       case Updated => Done(w.entries, w'.entries, u) && w'.listings == w.listings[u.connection := listing]
       case Refused => w' == w
       case RolledBack => w'.entries == w.entries && w'.listings == w.listings
       case RollbackFailed => Between(w.entries, w'.entries, u) && w'.listings == w.listings
  }

  method PersistSecretChanges(keychain: Keychain, cache: Cache, file: ConnectionsFile, u: Update, listing: Listing)
    returns (outcome: Outcome)
    requires Coherent(keychain.entries, cache.pluginSecrets)
    modifies keychain, cache, file
    ensures Coherent(keychain.entries, cache.pluginSecrets)
    ensures UpdateStep(old(Snapshot(keychain, cache, file)), Snapshot(keychain, cache, file), u, listing, outcome)
    ensures Failures(keychain, file) >= old(Failures(keychain, file))
    ensures outcome == Updated <==> ValidChanges(u.changes) && Failures(keychain, file) == old(Failures(keychain, file))
    ensures outcome == RolledBack ==> Failures(keychain, file) == old(Failures(keychain, file)) + 1
    ensures outcome == RollbackFailed ==> Failures(keychain, file) >= old(Failures(keychain, file)) + 2
    ensures outcome == RollbackFailed ==>
              RestoredBut(old(keychain.entries), keychain.entries,
                          Failures(keychain, file) - old(Failures(keychain, file)) - 1)
  {
    if !ValidChanges(u.changes) {
      return Refused;
    }
    var snapshots := TakeSnapshots(keychain, u.Affected());
    if snapshots.Err? {
      return Refused;
    }
    ghost var before := keychain.entries;
    var ok := ApplyChanges(keychain, cache, u);
    if ok {
      ok := file.Save(file.listings[u.connection := listing]);
    }
    if ok {
      return Updated;
    }
    var restored := RollBack(keychain, cache, snapshots.value, before, u);
    return if restored then RolledBack else RollbackFailed;
  }

  // ---------- Stored is listed ----------

  predicate Lists(listings: Listings, a: Account) {
    && a.connection in listings
    && listings[a.connection].driver == a.driver
    && a.key in listings[a.connection].keys
  }

  /** A secret is stored exactly when the connections file lists it, and listed keys are valid. */
  ghost predicate Exact(entries: Entries, listings: Listings) {
    && (forall a: Account :: a in entries <==> Lists(listings, a))
    && (forall a: Account :: Lists(listings, a) ==> ValidKey(a.key))
  }

  /** The update that a saved connection form asks for. */
  function UpdateOf(listings: Listings, connection: string, driver: string, changes: Changes): Update {
    if connection in listings then
      Update(connection, Some(listings[connection].driver), listings[connection].keys, driver, changes)
    else
      Update(connection, None, [], driver, changes)
  }

  /** The listing that goes with it. */
  ghost predicate ListingFor(u: Update, listing: Listing) {
    && listing.driver == u.newDriver
    && forall k: string :: k in listing.keys <==> ListedNext(u.oldKeys, u.SameDriver(), u.changes, k)
  }

  /** A successful update leaves stored exactly what it lists. */
  lemma UpdateIsExact(entries: Entries, listings: Listings, now: Entries, u: Update, listing: Listing)
    requires Exact(entries, listings)
    requires u == UpdateOf(listings, u.connection, u.newDriver, u.changes)
    requires ListingFor(u, listing) && ValidChanges(u.changes)
    requires Done(entries, now, u)
    ensures Exact(now, listings[u.connection := listing])
  {
    var next := listings[u.connection := listing];
    forall a: Account
      ensures a in now <==> Lists(next, a)
      ensures Lists(next, a) ==> ValidKey(a.key)
    {
      assert a in now <==> Lookup(now, a).Some?;
      assert Lookup(now, a) == u.Wanted(entries, a);
      assert a in entries <==> Lists(listings, a);
      if a.connection == u.connection && a.driver == u.newDriver {
        assert Lists(next, a) <==> ListedNext(u.oldKeys, u.SameDriver(), u.changes, a.key);
        if a.key in u.changes {
          assert ValidChange(a.key, u.changes[a.key]);
        }
      }
    }
  }
}
