/** Insertion-ordered dictionaries, for the Python dicts whose order the
    program observes (nested YAML documents, an adapter's staged changes).
    Lookup reads the first entry with a key; `Put` overwrites that entry in
    place or appends a new one, as assigning `d[k] = v` does. */
module Dicts {
  import opened Wrappers

  datatype Entry<V> = Entry(key: string, val: V)

  predicate HasKey<V>(es: seq<Entry<V>>, k: string) {
    exists i :: 0 <= i < |es| && es[i].key == k
  }

  /** `d.get(k)`. */
  function Get<V>(es: seq<Entry<V>>, k: string): (r: Option<V>)
    ensures r.Some? <==> HasKey(es, k)
  {
    if |es| == 0 then None
    else if es[0].key == k then Some(es[0].val)
    else
      var r := Get(es[1..], k);
      assert forall i :: 0 <= i < |es| - 1 ==> es[1..][i] == es[i + 1];
      assert HasKey(es[1..], k) <==> HasKey(es, k) by {
        if HasKey(es, k) {
          var i :| 0 <= i < |es| && es[i].key == k;
          assert i > 0 && es[1..][i - 1].key == k;
        }
      }
      r
  }

  /** `d[k] = v`. */
  function Put<V>(es: seq<Entry<V>>, k: string, v: V): (r: seq<Entry<V>>)
    ensures Get(r, k) == Some(v)
    ensures forall j :: j != k ==> Get(r, j) == Get(es, j)
    ensures HasKey(es, k) ==> |r| == |es|
    ensures !HasKey(es, k) ==> r == es + [Entry(k, v)]
  {
    if |es| == 0 then [Entry(k, v)]
    else if es[0].key == k then
      var r := [Entry(k, v)] + es[1..];
      GetCons(Entry(k, v), es[1..]);
      GetCons(es[0], es[1..]);
      assert HasKey(es, k) by {
        assert es[0].key == k;
      }
      r
    else
      var t := Put(es[1..], k, v);
      PutCons(es, k, v, t);
      [es[0]] + t
  }

  /** A key that is present is found at some entry holding its value. */
  lemma {:induction false} GetWitness<V>(es: seq<Entry<V>>, k: string)
    requires HasKey(es, k)
    ensures exists i :: 0 <= i < |es| && es[i].key == k && es[i].val == Get(es, k).value
    decreases |es|
  {
    if es[0].key != k {
      GetWitness(es[1..], k);
      var i :| 0 <= i < |es[1..]| && es[1..][i].key == k && es[1..][i].val == Get(es[1..], k).value;
      assert es[i + 1] == es[1..][i];
    }
  }

  /** Lookup in a mapping with one more entry in front. */
  lemma GetCons<V>(e: Entry<V>, t: seq<Entry<V>>)
    ensures forall j :: Get([e] + t, j) == (if e.key == j then Some(e.val) else Get(t, j))
    ensures forall j :: HasKey([e] + t, j) <==> e.key == j || HasKey(t, j)
  {
    var r := [e] + t;
    assert r[0] == e && r[1..] == t;
    forall j | HasKey(r, j) && e.key != j ensures HasKey(t, j) {
      var i :| 0 <= i < |r| && r[i].key == j;
      assert t[i - 1].key == j;
    }
    forall j | HasKey(t, j) ensures HasKey(r, j) {
      var i :| 0 <= i < |t| && t[i].key == j;
      assert r[i + 1].key == j;
    }
  }

  /** The step of `Put` past a first entry with another key. */
  lemma PutCons<V>(es: seq<Entry<V>>, k: string, v: V, t: seq<Entry<V>>)
    requires |es| > 0 && es[0].key != k
    requires Get(t, k) == Some(v)
    requires forall j :: j != k ==> Get(t, j) == Get(es[1..], j)
    requires HasKey(es[1..], k) ==> |t| == |es[1..]|
    requires !HasKey(es[1..], k) ==> t == es[1..] + [Entry(k, v)]
    ensures Get([es[0]] + t, k) == Some(v)
    ensures forall j :: j != k ==> Get([es[0]] + t, j) == Get(es, j)
    ensures HasKey(es, k) ==> |[es[0]] + t| == |es|
    ensures !HasKey(es, k) ==> [es[0]] + t == es + [Entry(k, v)]
  {
    assert es == [es[0]] + es[1..];
    GetCons(es[0], es[1..]);
    GetCons(es[0], t);
  }

  /** Writing back the value a key already reads changes nothing. */
  lemma {:induction false} PutSame<V>(es: seq<Entry<V>>, k: string, v: V)
    requires Get(es, k) == Some(v)
    ensures Put(es, k, v) == es
    decreases |es|
  {
    if es[0].key != k {
      PutSame(es[1..], k, v);
    }
  }

  /** `d.pop(k, None)`, for a dict whose keys are unique: the result has no entry
      with key `k` and keeps every other entry, in order. */
  function Remove<V>(es: seq<Entry<V>>, k: string): (r: seq<Entry<V>>)
    ensures !HasKey(r, k)
    ensures forall j :: j != k ==> Get(r, j) == Get(es, j)
    ensures |r| <= |es|
  {
    if |es| == 0 then []
    else if es[0].key == k then Remove(es[1..], k)
    else [es[0]] + Remove(es[1..], k)
  }

  /** The keys in order (`list(d.keys())`). */
  function Keys<V>(es: seq<Entry<V>>): (r: seq<string>)
    ensures |r| == |es|
    ensures forall i :: 0 <= i < |es| ==> r[i] == es[i].key
  {
    if |es| == 0 then [] else [es[0].key] + Keys(es[1..])
  }
}
