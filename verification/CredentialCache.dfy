/** The OS keychain as the plugin-secret code sees it, and the in-memory cache in front of it. */
module CredentialCache {
  import opened Wrappers

  /** Names one plugin secret of one connection. */
  datatype Account = Account(connection: string, driver: string, key: string)

  type Entries = map<Account, string>

  /** What the cache knows: the keychain's value, or that the keychain has none. */
  datatype CacheEntry = Present(value: string) | Absent

  type Cached = map<Account, CacheEntry>

  function Lookup(entries: Entries, a: Account): Option<string> { if a in entries then Some(entries[a]) else None }

  /** The cached entry says what the keychain holds. */
  predicate Agrees(entries: Entries, a: Account, entry: CacheEntry) {
    match entry
    case Present(v) => Lookup(entries, a) == Some(v)
    case Absent => Lookup(entries, a) == None
  }

  /** No cached entry contradicts the keychain. */
  predicate Coherent(entries: Entries, cached: Cached) {
    forall a | a in cached :: Agrees(entries, a, cached[a])
  }

  /** Every cached entry says what the keychain holds, or is as old as what the keychain holds. */
  predicate CacheFollows(entries: Entries, cached: Cached, entries': Entries, cached': Cached) {
    forall a | a in cached' ::
      || Agrees(entries', a, cached'[a])
      || (a in cached && cached'[a] == cached[a] && Lookup(entries', a) == Lookup(entries, a))
  }

  lemma FollowingKeepsCoherent(entries: Entries, cached: Cached, entries': Entries, cached': Cached)
    requires CacheFollows(entries, cached, entries', cached') && Coherent(entries, cached)
    ensures Coherent(entries', cached')
  {
    forall a | a in cached'
      ensures Agrees(entries', a, cached'[a])
    {
      if a in cached {
        assert Agrees(entries, a, cached[a]);
      }
    }
  }

  /** What a lookup in the cache answers. */
  function Known(entry: CacheEntry): Option<string> { if entry.Present? then Some(entry.value) else None }

  function EntryFor(value: Option<string>): CacheEntry { if value.Some? then Present(value.value) else Absent }

  /** Lookups decide the entries. */
  lemma SameLookups(x: Entries, y: Entries)
    requires forall a: Account :: Lookup(x, a) == Lookup(y, a)
    ensures x == y
  {
    forall a: Account
      ensures a in x <==> a in y
      ensures a in x ==> x[a] == y[a]
    {
      assert Lookup(x, a) == Lookup(y, a);
    }
  }

  /** A store whose every call may fail; a call that fails changes nothing but the count of failures. */
  class Keychain {
    var entries: Entries
    ghost var failures: nat

    constructor ()
      ensures entries == map[] && failures == 0
    {
      entries, failures := map[], 0;
    }

    method Get(a: Account) returns (r: Result<Option<string>, ()>)
      modifies this`failures
      ensures r.Ok? ==> r.value == Lookup(entries, a)
      ensures failures == old(failures) + if r.Ok? then 0 else 1
    {
      var ok: bool := *;
      if !ok {
        failures := failures + 1;
      }
      return if ok then Ok(Lookup(entries, a)) else Err(());
    }

    method Set(a: Account, value: string) returns (ok: bool)
      modifies this
      ensures entries == if ok then old(entries)[a := value] else old(entries)
      ensures failures == old(failures) + if ok then 0 else 1
    {
      ok := *;
      if ok {
        entries := entries[a := value];
      } else {
        failures := failures + 1;
      }
    }

    method Delete(a: Account) returns (ok: bool)
      modifies this
      ensures entries == if ok then old(entries) - {a} else old(entries)
      ensures failures == old(failures) + if ok then 0 else 1
    {
      ok := *;
      if ok {
        entries := entries - {a};
      } else {
        failures := failures + 1;
      }
    }
  }

  class Cache {
    var pluginSecrets: Cached

    constructor ()
      ensures pluginSecrets == map[]
    {
      pluginSecrets := map[];
    }

    /** Read-through: a miss asks the keychain and remembers its answer, but never an error; a hit asks nothing. */
    method GetPluginSecretCached(keychain: Keychain, a: Account) returns (r: Result<Option<string>, ()>)
      modifies this, keychain`failures
      ensures keychain.failures == old(keychain.failures) + if r.Ok? then 0 else 1
      ensures a in old(pluginSecrets) ==> r == Ok(Known(old(pluginSecrets)[a])) && pluginSecrets == old(pluginSecrets)
      ensures a !in old(pluginSecrets) && r.Ok? ==> r.value == Lookup(keychain.entries, a)
      ensures a !in old(pluginSecrets) && r.Ok? ==> pluginSecrets == old(pluginSecrets)[a := EntryFor(r.value)]
      ensures r.Err? ==> pluginSecrets == old(pluginSecrets)
      ensures CacheFollows(keychain.entries, old(pluginSecrets), keychain.entries, pluginSecrets)
      ensures Coherent(keychain.entries, old(pluginSecrets)) ==> Coherent(keychain.entries, pluginSecrets)
      ensures Coherent(keychain.entries, old(pluginSecrets)) && r.Ok? ==> r.value == Lookup(keychain.entries, a)
    {
      assert a in pluginSecrets && Coherent(keychain.entries, pluginSecrets) ==>
               Agrees(keychain.entries, a, pluginSecrets[a]);
      if a in pluginSecrets {
        match pluginSecrets[a] {
          case Present(v) => return Ok(Some(v));
          case Absent => return Ok(None);
        }
      }
      r := keychain.Get(a);
      if r.Ok? {
        pluginSecrets := pluginSecrets[a := match r.value case Some(v) => Present(v) case None => Absent];
      }
    }

    method SetPluginSecretCached(a: Account, value: string)
      modifies this
      ensures pluginSecrets == old(pluginSecrets)[a := Present(value)]
    {
      pluginSecrets := pluginSecrets[a := Present(value)];
    }

    method InvalidatePluginSecret(a: Account)
      modifies this
      ensures pluginSecrets == old(pluginSecrets) - {a}
    {
      pluginSecrets := pluginSecrets - {a};
    }

    method InvalidateAllForConnection(connection: string)
      modifies this
      ensures pluginSecrets == map a | a in old(pluginSecrets) && a.connection != connection :: old(pluginSecrets)[a]
    {
      pluginSecrets := map a | a in pluginSecrets && a.connection != connection :: pluginSecrets[a];
    }
  }

  // ---------- Names ----------

  /** The keychain account name of a plugin secret. */
  function AccountName(a: Account): string { a.connection + ":plugin:" + a.driver + ":" + a.key }

  /** The key of a plugin secret in the cache. */
  function CacheKey(a: Account): string { a.connection + "\0" + a.driver + "\0" + a.key }

  /** Position `n` holds the mark, so it is not inside the mark-free `x`. */
  lemma MarkIsAfterPrefix(x: string, s: string, mark: char, n: nat)
    requires mark !in x && n < |x + [mark] + s| && (x + [mark] + s)[n] == mark
    ensures |x| <= n
  {
    var u := x + [mark] + s;
    assert forall k | 0 <= k < |x| :: u[k] == x[k];
  }

  lemma MarkIsBeforeSuffix(s: string, x: string, mark: char, n: nat)
    requires mark !in x && n < |s + [mark] + x| && (s + [mark] + x)[n] == mark
    ensures n <= |s|
  {
    var u := s + [mark] + x;
    assert forall k | 0 <= k < |x| :: u[|s| + 1 + k] == x[k];
    assert forall k | |s| < k < |u| :: u[k] == x[k - |s| - 1];
  }

  lemma PrefixBeforeMark(x: string, y: string, s: string, t: string, mark: char)
    requires x + [mark] + s == y + [mark] + t && mark !in x && mark !in y
    ensures x == y && s == t
  {
    var u := x + [mark] + s;
    assert u[|x|] == mark && u[|y|] == mark;
    MarkIsAfterPrefix(x, s, mark, |y|);
    MarkIsAfterPrefix(y, t, mark, |x|);
    assert x == u[..|x|] && y == u[..|y|];
    assert s == u[|x| + 1..] && t == u[|y| + 1..];
  }

  lemma SuffixAfterMark(s: string, t: string, x: string, y: string, mark: char)
    requires s + [mark] + x == t + [mark] + y && mark !in x && mark !in y
    ensures x == y && s == t
  {
    var u := s + [mark] + x;
    assert u[|s|] == mark && u[|t|] == mark;
    MarkIsBeforeSuffix(s, x, mark, |t|);
    MarkIsBeforeSuffix(t, y, mark, |s|);
    assert s == u[..|s|] && t == u[..|t|];
    assert x == u[|s| + 1..] && y == u[|t| + 1..];
  }

  /** The first mark ends `x`, if `x` has none. */
  lemma FirstMark(name: string, x: string, rest: string, mark: char, first: nat)
    requires name == x + [mark] + rest && mark !in x
    requires first < |name| && name[first] == mark && mark !in name[..first]
    ensures name[..first] == x && first == |x|
  {
    assert name == name[..first] + [mark] + name[first + 1..];
    PrefixBeforeMark(name[..first], x, name[first + 1..], rest, mark);
  }

  /** The last mark starts `x`, if `x` has none. */
  lemma LastMark(name: string, front: string, x: string, mark: char, last: nat)
    requires name == front + [mark] + x && mark !in x
    requires last < |name| && name[last] == mark && mark !in name[last + 1..]
    ensures name[last + 1..] == x && last == |front|
  {
    assert name == name[..last] + [mark] + name[last + 1..];
    SuffixAfterMark(name[..last], front, name[last + 1..], x, mark);
  }

  /** What an account name says: the connection before the first colon, the key after the last one, and the driver
      in between, after a tag. */
  lemma AccountNameParts(a: Account, name: string, first: nat, last: nat)
    requires ':' !in a.connection && ':' !in a.key && name == AccountName(a)
    requires first < |name| && name[first] == ':' && ':' !in name[..first]
    requires last < |name| && name[last] == ':' && ':' !in name[last + 1..]
    ensures name[..first] == a.connection && name[last + 1..] == a.key
    ensures first < last && name[first..last] == ":plugin:" + a.driver
  {
    var front := a.connection + ":plugin:" + a.driver;
    assert name == a.connection + [':'] + ("plugin:" + a.driver + ":" + a.key);
    FirstMark(name, a.connection, "plugin:" + a.driver + ":" + a.key, ':', first);
    assert name == front + [':'] + a.key;
    LastMark(name, front, a.key, ':', last);
    assert front[first..] == ":plugin:" + a.driver;
  }

  /** A cache key has the same parts between its first and its last NUL. */
  lemma CacheKeyParts(a: Account, name: string, first: nat, last: nat)
    requires '\0' !in a.connection && '\0' !in a.key && name == CacheKey(a)
    requires first < |name| && name[first] == '\0' && '\0' !in name[..first]
    requires last < |name| && name[last] == '\0' && '\0' !in name[last + 1..]
    ensures name[..first] == a.connection && name[last + 1..] == a.key
    ensures first < last && name[first + 1..last] == a.driver
  {
    var front := a.connection + "\0" + a.driver;
    assert name == a.connection + ['\0'] + (a.driver + "\0" + a.key);
    FirstMark(name, a.connection, a.driver + "\0" + a.key, '\0', first);
    assert name == front + ['\0'] + a.key;
    LastMark(name, front, a.key, '\0', last);
    assert front[first + 1..] == a.driver;
  }

  /** Different secrets have different names, as long as ids and keys have no colon; drivers may. */
  lemma AccountNameInjective(a: Account, b: Account)
    requires ':' !in a.connection && ':' !in b.connection && ':' !in a.key && ':' !in b.key
    requires AccountName(a) == AccountName(b)
    ensures a == b
  {
    var restA, restB := "plugin:" + a.driver + ":" + a.key, "plugin:" + b.driver + ":" + b.key;
    assert AccountName(a) == a.connection + [':'] + restA;
    assert AccountName(b) == b.connection + [':'] + restB;
    PrefixBeforeMark(a.connection, b.connection, restA, restB, ':');
    SuffixAfterMark("plugin:" + a.driver, "plugin:" + b.driver, a.key, b.key, ':');
    assert a.driver == ("plugin:" + a.driver)[7..];
    assert b.driver == ("plugin:" + b.driver)[7..];
  }

  /** So do their cache keys, as long as ids and keys have no NUL. */
  lemma CacheKeyInjective(a: Account, b: Account)
    requires '\0' !in a.connection && '\0' !in b.connection && '\0' !in a.key && '\0' !in b.key
    requires CacheKey(a) == CacheKey(b)
    ensures a == b
  {
    var restA, restB := a.driver + "\0" + a.key, b.driver + "\0" + b.key;
    assert CacheKey(a) == a.connection + ['\0'] + restA;
    assert CacheKey(b) == b.connection + ['\0'] + restB;
    PrefixBeforeMark(a.connection, b.connection, restA, restB, '\0');
    SuffixAfterMark(a.driver, b.driver, a.key, b.key, '\0');
  }
}
