/** The source capability (`core/source.py`) and its registration record.
    A source is modelled by its identity, its backing store and its staged
    changes; `set`/`unset` only stage, `save` applies and clears the stage,
    as the reference source of the test suite does. */
module Sources {
  import opened Wrappers
  import opened Types
  import opened Filters

  datatype Source = Source(
    id: string,
    name: string,
    extension: Option<string>,
    store: map<string, Value>,
    staged: map<string, Option<Value>>)
  {
    /** `load(filter, depth)`: a fresh snapshot of the store narrowed by the
        filter's key predicate. */
    function Load(flt: Option<Filter>, depth: Option<int>, search: Matcher): (r: map<string, Value>)
      ensures forall k :: k in r <==> k in store && ShouldIncludeKey(k, flt, search)
      ensures forall k :: k in r ==> r[k] == store[k]
    {
      map k | k in store && ShouldIncludeKey(k, flt, search) :: store[k]
    }

    /** `get(key)`: absent when the key is not stored. */
    function Get(key: string): (r: Option<Value>)
      ensures r.None? <==> key !in store
      ensures r.Some? ==> r.value == store[key]
    {
      if key in store then Some(store[key]) else None
    }

    /** `set(key, value)`: stages the value; a Python `None` staged this way is
        indistinguishable from an `unset`. The store is not touched. */
    function Set(key: string, v: Value): (r: Source)
      ensures r.store == store && r.id == id
      ensures key in r.staged && r.staged[key] == (if v == Null then None else Some(v))
      ensures forall k :: k != key ==> (k in r.staged <==> k in staged) && (k in staged ==> r.staged[k] == staged[k])
    {
      this.(staged := staged[key := if v == Null then None else Some(v)])
    }

    /** `unset(key)`: stages a removal. */
    function Unset(key: string): (r: Source)
      ensures r.store == store && r.id == id
      ensures key in r.staged && r.staged[key] == None
      ensures forall k :: k != key ==> (k in r.staged <==> k in staged) && (k in staged ==> r.staged[k] == staged[k])
    {
      this.(staged := staged[key := None])
    }

    /** `save()`: every staged value is written, every staged removal deleted,
        every other key kept; the stage is emptied. */
    function Save(): (r: Source)
      ensures r.staged == map[] && r.id == id
      ensures forall k :: k in r.store <==> (if k in staged then staged[k].Some? else k in store)
      ensures forall k :: k in r.store ==> r.store[k] == (if k in staged then staged[k].value else store[k])
    {
      var kept := map k | k in store && k !in staged :: store[k];
      var written := map k | k in staged && staged[k].Some? :: staged[k].value;
      this.(store := kept + written, staged := map[])
    }

    /** `reload()`: the store is the backing storage, so there is nothing stale
        to refresh. */
    function Reload(): (r: Source)
      ensures r.store == store && r.staged == staged && r.id == id
    {
      this
    }

    predicate Exists(key: string) {
      key in store
    }

    function Keys(): set<string> {
      store.Keys
    }

    function Values(): map<string, Value> {
      store
    }

    function Size(): nat {
      |store|
    }

    /** `clear()`: stages a removal of every stored key. */
    function Clear(): (r: Source)
      ensures r.store == store
      ensures forall k :: k in store ==> k in r.staged && r.staged[k] == None
      ensures forall k :: k !in store ==> (k in r.staged <==> k in staged) && (k in staged ==> r.staged[k] == staged[k])
    {
      this.(staged := staged + map k | k in store :: None)
    }
  }

  /** Clearing and then saving removes every key that was stored; only values
      staged for keys that were not stored survive. */
  lemma ClearThenSaveEmpties(s: Source)
    ensures forall k :: k in s.Clear().Save().store ==> k !in s.store && k in s.staged && s.staged[k].Some?
    ensures s.staged == map[] ==> s.Clear().Save().store == map[]
  {
    var r := s.Clear().Save();
    assert forall k :: k in r.store ==> k !in s.store;
    assert s.staged == map[] ==> r.store.Keys == {};
  }

  /** Staging a value and saving stores it; staging a removal and saving
      deletes it. */
  lemma SetThenSaveStores(s: Source, key: string, v: Value)
    requires v != Null
    ensures key in s.Set(key, v).Save().store && s.Set(key, v).Save().store[key] == v
    ensures key !in s.Unset(key).Save().store
  {
  }

  /** A source with its registration options; the position in the registered
      list is its merge precedence. */
  datatype RegisteredSource = RegisteredSource(source: Source, filter: Option<Filter>, depth: Option<int>, isWritable: bool)

  /** `RegisteredSource(source=...)`: no filter, no depth, writable. */
  function Register(src: Source): (r: RegisteredSource)
    ensures r.source == src && r.filter.None? && r.depth.None? && r.isWritable
  {
    RegisteredSource(src, None, None, true)
  }
}
