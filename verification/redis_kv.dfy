/** The Redis key-value adapter (`sources/redis_kv.py`): keys are stored
    under an optional prefix; the adapter shows them without it. The server
    is a map from stored key to text. */
module RedisKv {
  import opened Wrappers
  import opened Types
  import opened Filters
  import Text

  /** `_prefixed`: the identity for an empty prefix, else prefix + key. */
  function Prefixed(prefix: string, key: string): (r: string)
    ensures prefix == "" ==> r == key
    ensures Text.StartsWith(r, prefix) && r[|prefix|..] == key
  {
    if prefix == "" then key else prefix + key
  }

  /** `_unprefixed`: strips the prefix when the key starts with it. */
  function Unprefixed(prefix: string, key: string): (r: string)
    ensures prefix != "" && Text.StartsWith(key, prefix) ==> prefix + r == key
    ensures prefix == "" || !Text.StartsWith(key, prefix) ==> r == key
  {
    if prefix != "" && Text.StartsWith(key, prefix) then key[|prefix|..] else key
  }

  /** The prefix round trip, both ways: stripping undoes prefixing for every
      key, and prefixing undoes stripping for every stored key under the prefix. */
  lemma PrefixRoundTrip(prefix: string, key: string)
    ensures Unprefixed(prefix, Prefixed(prefix, key)) == key
    ensures Text.StartsWith(key, prefix) ==> Prefixed(prefix, Unprefixed(prefix, key)) == key
  {
    if Text.StartsWith(key, prefix) && prefix != "" {
      assert key == key[..|prefix|] + key[|prefix|..];
    }
  }

  /** The adapter: its URI, its prefix, the server's keys and the staged writes. */
  datatype RedisSource = RedisSource(
    uri: string,
    prefix: string,
    server: map<string, string>,
    staged: map<string, Option<Value>>)
  {
    /** The source id is the URI. */
    function Id(): (id: string)
      ensures id == uri
    {
      uri
    }

    /** `load(filter)`: every server key under the prefix, shown without it,
        narrowed by the filter's key predicate. The `KEYS prefix*` pattern is
        taken literally. */
    function Load(flt: Option<Filter>, search: Matcher): (r: map<string, Value>)
      ensures forall k :: k in r <==> Prefixed(prefix, k) in server && ShouldIncludeKey(k, flt, search)
      ensures forall k :: k in r ==> r[k] == Str(server[Prefixed(prefix, k)])
    {
      var under := set sk | sk in server && Text.StartsWith(sk, prefix);
      forall sk, sk' | sk in under && sk' in under && Unprefixed(prefix, sk) == Unprefixed(prefix, sk')
        ensures sk == sk'
      {
        PrefixRoundTrip(prefix, sk);
        PrefixRoundTrip(prefix, sk');
      }
      var cache := map sk | sk in under :: Unprefixed(prefix, sk) := Str(server[sk]);
      forall k ensures k in cache <==> Prefixed(prefix, k) in server {
        PrefixRoundTrip(prefix, k);
        if Prefixed(prefix, k) in server {
          assert Prefixed(prefix, k) in under;
        }
      }
      forall k | k in cache ensures cache[k] == Str(server[Prefixed(prefix, k)]) {
        var sk :| sk in under && Unprefixed(prefix, sk) == k;
        PrefixRoundTrip(prefix, sk);
      }
      map k | k in cache && ShouldIncludeKey(k, flt, search) :: cache[k]
    }

    /** `get(key)`: read straight from the server under the prefix. */
    function Get(key: string): (r: Option<string>)
      ensures r.Some? <==> Prefixed(prefix, key) in server
      ensures r.Some? ==> r.value == server[Prefixed(prefix, key)]
    {
      var pk := Prefixed(prefix, key);
      if pk in server then Some(server[pk]) else None
    }

    /** `set(key, value)`: stages the value; a Python `None` stages a deletion. */
    function Set(key: string, v: Value): (r: RedisSource)
      ensures r.server == server && r.staged == staged[key := if v == Null then None else Some(v)]
    {
      this.(staged := staged[key := if v == Null then None else Some(v)])
    }

    /** `unset(key)`: stages a deletion. */
    function Unset(key: string): (r: RedisSource)
      ensures r.server == server && r.staged == staged[key := None]
    {
      this.(staged := staged[key := None])
    }

    /** `save()`: in one pipeline, write `str(value)` or delete under the
        prefixed key; clear the stage. */
    function Save(show: Value -> string): (r: RedisSource)
      ensures r.staged == map[] && r.prefix == prefix && r.uri == uri
      ensures forall k :: k in staged ==> (Prefixed(prefix, k) in r.server <==> staged[k].Some?)
      ensures forall k :: k in staged && staged[k].Some? ==> r.server[Prefixed(prefix, k)] == show(staged[k].value)
      ensures forall sk :: (forall k :: k in staged ==> Prefixed(prefix, k) != sk) ==>
                (sk in r.server <==> sk in server) && (sk in server ==> r.server[sk] == server[sk])
    {
      FlushWritesStaged(show);
      FlushKeepsOthers(show);
      this.(server := Kept() + Written(show), staged := map[])
    }

    /** `clear()`: without a prefix, stages a deletion of every key of the
        last load, which is every server key; with a prefix, deletes every
        server key under it at once and stages nothing. */
    function Clear(): (r: RedisSource)
      ensures r.prefix == prefix && r.uri == uri
      ensures prefix == "" ==> r.server == server
      ensures prefix == "" ==> forall k :: k in server ==> k in r.staged && r.staged[k] == None
      ensures prefix == "" ==> forall k :: k !in server ==> (k in r.staged <==> k in staged) && (k in staged ==> r.staged[k] == staged[k])
      ensures prefix != "" ==> r.staged == staged
      ensures prefix != "" ==> forall sk :: sk in r.server <==> sk in server && !Text.StartsWith(sk, prefix)
      ensures prefix != "" ==> forall sk :: sk in r.server ==> r.server[sk] == server[sk]
    {
      if prefix == "" then this.(staged := staged + map k | k in server :: None)
      else this.(server := map sk | sk in server && !Text.StartsWith(sk, prefix) :: server[sk])
    }

    /** The prefixed keys the stage touches. */
    function Touched(): set<string> {
      set k | k in staged :: Prefixed(prefix, k)
    }

    /** The server keys the pipeline leaves alone. */
    function Kept(): map<string, string> {
      map sk | sk in server && sk !in Touched() :: server[sk]
    }

    /** The server keys the pipeline sets. */
    function Written(show: Value -> string): map<string, string> {
      map sk | sk in Touched() && Stored(sk).Some? :: show(Stored(sk).value)
    }

    /** A staged key is on the server after the pipeline exactly when it was
        staged with a value, and then holds that value's text. */
    lemma FlushWritesStaged(show: Value -> string)
      ensures forall k :: k in staged ==> (Prefixed(prefix, k) in Kept() + Written(show) <==> staged[k].Some?)
      ensures forall k :: k in staged && staged[k].Some? ==> (Kept() + Written(show))[Prefixed(prefix, k)] == show(staged[k].value)
    {
      forall k | k in staged ensures Stored(Prefixed(prefix, k)) == staged[k] {
        StoredAt(k);
      }
    }

    /** A server key the stage does not touch is left as it was. */
    lemma FlushKeepsOthers(show: Value -> string)
      ensures forall sk :: (forall k :: k in staged ==> Prefixed(prefix, k) != sk) ==>
                (sk in Kept() + Written(show) <==> sk in server) && (sk in server ==> (Kept() + Written(show))[sk] == server[sk])
    {
    }

    /** Distinct keys have distinct prefixed keys, so a prefixed key names
        its own staged entry. */
    lemma StoredAt(k: string)
      requires k in staged
      ensures Stored(Prefixed(prefix, k)) == staged[k]
    {
      forall j | j in staged && Prefixed(prefix, j) == Prefixed(prefix, k) ensures j == k {
        PrefixRoundTrip(prefix, j);
        PrefixRoundTrip(prefix, k);
      }
    }

    /** The staged entry whose prefixed key is `sk`, if any. */
    function Stored(sk: string): Option<Value>
      requires exists k :: k in staged && Prefixed(prefix, k) == sk
    {
      var k :| k in staged && Prefixed(prefix, k) == sk;
      staged[k]
    }
  }

  /** Staging a value and saving makes a later load show its text under the
      key, whatever the prefix. */
  lemma SetThenSaveLoads(r: RedisSource, key: string, v: Value, show: Value -> string, search: Matcher)
    requires v != Null
    ensures key in r.Set(key, v).Save(show).Load(None, search)
    ensures r.Set(key, v).Save(show).Load(None, search)[key] == Str(show(v))
    ensures key !in r.Unset(key).Save(show).Load(None, search)
  {
    SetSaveWrites(r, key, v, show);
    UnsetSaveDeletes(r, key, show);
  }

  /** After `clear`, nothing is left to load: at once with a prefix, and
      after `save` without one when nothing else was staged. */
  lemma ClearLeavesNothing(r: RedisSource, flt: Option<Filter>, search: Matcher, show: Value -> string)
    ensures r.prefix != "" ==> r.Clear().Load(flt, search) == map[]
    ensures r.prefix == "" && r.staged == map[] ==> r.Clear().Save(show).Load(flt, search) == map[]
  {
  }

  /** A value set and saved is stored under the prefixed key. */
  lemma SetSaveWrites(r: RedisSource, key: string, v: Value, show: Value -> string)
    requires v != Null
    ensures var s := r.Set(key, v).Save(show);
      Prefixed(s.prefix, key) in s.server && s.server[Prefixed(s.prefix, key)] == show(v)
  {
  }

  /** A key unset and saved is gone from the server. */
  lemma UnsetSaveDeletes(r: RedisSource, key: string, show: Value -> string)
    ensures var u := r.Unset(key).Save(show);
      Prefixed(u.prefix, key) !in u.server
  {
  }
}
