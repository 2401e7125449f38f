/** The YAML adapter (`sources/yaml_file.py`): loading flattens the document
    (through the mask when the filter has one) and turns structured leaves
    into JSON text; saving writes each staged dotted key into the tree. */
module YamlFile {
  import opened Wrappers
  import opened Dicts
  import opened Types
  import opened Filters
  import Text
  import Seqs

  /** `_read`: a missing file, an empty document or a document that is not a
      mapping all read as the empty mapping. */
  function ReadDoc(doc: Option<Tree>): (es: seq<Entry<Tree>>)
    ensures doc.Some? && doc.value.Node? ==> es == doc.value.entries
    ensures doc.None? || !doc.value.Node? ==> es == []
  {
    if doc.Some? && doc.value.Node? then doc.value.entries else []
  }

  /** Whether `load` goes through `filter_hierarchical`. */
  predicate Structured(flt: Option<Filter>) {
    flt.Some? && (flt.value.spec.Some? || flt.value.depth.Some?)
  }

  /** Whether `load` narrows the flattening by a mask. */
  predicate Masked(flt: Option<Filter>) {
    flt.Some? && flt.value.spec.Some?
  }

  /** The depth the flattening uses: the filter's for a structured filter,
      otherwise the registered one. */
  function DepthUsed(flt: Option<Filter>, depth: Option<int>): Option<int> {
    if Structured(flt) then flt.value.depth else depth
  }

  /** The flattened document before normalisation. */
  function Flattened(data: seq<Entry<Tree>>, flt: Option<Filter>, depth: Option<int>): (r: map<string, Tree>)
    ensures forall k :: k in r ==>
              k in ToMap(Flatten(data, "", DepthUsed(flt, depth))) && r[k] == ToMap(Flatten(data, "", DepthUsed(flt, depth)))[k]
    ensures !Masked(flt) ==> r == ToMap(Flatten(data, "", DepthUsed(flt, depth)))
    ensures Masked(flt) ==> forall k :: k in r <==>
              k in ToMap(Flatten(data, "", flt.value.depth)) && IncludePath(flt.value.spec.value, Text.Split(k, '.'))
  {
    if Structured(flt) then FilterHierarchical(data, flt.value.spec, flt.value.depth)
    else ToMap(Flatten(data, "", depth))
  }

  /** Mappings and lists become compact JSON text; scalars stay as they are. */
  function Normalize(t: Tree, dumps: Tree -> string): (v: Value)
    ensures t.Leaf? ==> v == t.value
    ensures !t.Leaf? ==> v == Str(dumps(t))
  {
    if t.Node? || t.List? then Str(dumps(t)) else t.value
  }

  /** `load(filter, depth)`: the normalised flattening becomes the cache; the
      answer is the cache narrowed by the filter's key predicate. */
  function Load(doc: Option<Tree>, flt: Option<Filter>, depth: Option<int>, search: Matcher, dumps: Tree -> string): (r: (map<string, Value>, map<string, Value>))
    ensures var flat := Flattened(ReadDoc(doc), flt, depth);
      && (forall k :: k in r.0 <==> k in flat)
      && (forall k :: k in r.0 ==> r.0[k] == Normalize(flat[k], dumps))
      && (forall k :: k in r.1 <==> k in r.0 && ShouldIncludeKey(k, flt, search))
      && (forall k :: k in r.1 ==> r.1[k] == r.0[k])
  {
    var flat := Flattened(ReadDoc(doc), flt, depth);
    var cache := map k | k in flat :: Normalize(flat[k], dumps);
    (cache, map k | k in cache && ShouldIncludeKey(k, flt, search) :: cache[k])
  }

  /** Every loaded key names a value the document really holds at that dotted
      path, within the depth used, and the cache holds that value normalised. */
  lemma LoadSound(doc: Option<Tree>, flt: Option<Filter>, depth: Option<int>, search: Matcher, dumps: Tree -> string, k: string)
    requires k in Load(doc, flt, depth, search, dumps).0
    ensures exists t ::
              Emitted(ReadDoc(doc), "", DepthUsed(flt, depth), k, t) && Load(doc, flt, depth, search, dumps).0[k] == Normalize(t, dumps)
  {
    var data := ReadDoc(doc);
    var d := DepthUsed(flt, depth);
    var ps := Flatten(data, "", d);
    ToMapValueFrom(ps, k);
    var i :| 0 <= i < |ps| && ps[i].0 == k && ps[i].1 == ToMap(ps)[k];
    FlattenSound(data, "", d);
    assert Emitted(data, "", d, k, ps[i].1);
  }

  /** Every value the document holds within the depth used is loaded under
      its dotted key, unless the mask leaves the key out. */
  lemma LoadComplete(doc: Option<Tree>, flt: Option<Filter>, depth: Option<int>, search: Matcher, dumps: Tree -> string, k: string, t: Tree)
    requires Emitted(ReadDoc(doc), "", DepthUsed(flt, depth), k, t)
    requires Masked(flt) ==> IncludePath(flt.value.spec.value, Text.Split(k, '.'))
    ensures k in Load(doc, flt, depth, search, dumps).0
  {
    var ps := Flatten(ReadDoc(doc), "", DepthUsed(flt, depth));
    FlattenComplete(ReadDoc(doc), "", DepthUsed(flt, depth), k, t);
    var i :| 0 <= i < |ps| && ps[i] == (k, t);
    assert k in ToMap(ps);
  }

  // ------------------------------------------------------------- tree surgery

  /** The value at a dotted path, walking only through mappings. */
  function GetPath(es: seq<Entry<Tree>>, path: seq<string>): Option<Tree>
    requires |path| >= 1
    decreases |path|
  {
    var v := Get(es, path[0]);
    if |path| == 1 then v
    else if v.Some? && v.value.Node? then GetPath(v.value.entries, path[1..])
    else None
  }

  /** `set_nested`: every intermediate segment that is missing or not a
      mapping is replaced by an empty mapping, then the leaf is written. */
  function SetNested(es: seq<Entry<Tree>>, path: seq<string>, v: Tree): (r: seq<Entry<Tree>>)
    requires |path| >= 1
    ensures GetPath(r, path) == Some(v)
    ensures forall k :: k != path[0] ==> Get(r, k) == Get(es, k)
    decreases |path|
  {
    if |path| == 1 then Put(es, path[0], v)
    else Put(es, path[0], Node(SetNested(Child(es, path[0]), path[1..], v)))
  }

  /** The entries of the mapping under `k`, or none when `k` is missing or
      holds a scalar. */
  function Child(es: seq<Entry<Tree>>, k: string): seq<Entry<Tree>> {
    var c := Get(es, k);
    if c.Some? && c.value.Node? then c.value.entries else []
  }

  /** Walking a path of two or more segments goes through the mapping under
      the first one. */
  lemma GetPathStep(es: seq<Entry<Tree>>, path: seq<string>, inner: seq<Entry<Tree>>)
    requires |path| >= 2 && Get(es, path[0]) == Some(Node(inner))
    ensures GetPath(es, path) == GetPath(inner, path[1..])
  {
  }

  /** After `set_nested`, every proper prefix of the path leads to a mapping. */
  lemma {:induction false} SetNestedMakesParents(es: seq<Entry<Tree>>, path: seq<string>, v: Tree, i: int)
    requires 1 <= i < |path|
    ensures GetPath(SetNested(es, path, v), path[..i]).Some?
    ensures GetPath(SetNested(es, path, v), path[..i]).value.Node?
    decreases |path|
  {
    var inner := SetNested(Child(es, path[0]), path[1..], v);
    var r := SetNested(es, path, v);
    SetNestedHead(es, path, v);
    var pre := path[..i];
    assert pre[0] == path[0];
    if i > 1 {
      SetNestedMakesParents(Child(es, path[0]), path[1..], v, i - 1);
      Seqs.PrefixTail(path, i);
      GetPathStep(r, pre, inner);
    }
  }

  /** `set_nested` on a longer path puts a mapping under the first segment. */
  lemma SetNestedHead(es: seq<Entry<Tree>>, path: seq<string>, v: Tree)
    requires |path| >= 2
    ensures Get(SetNested(es, path, v), path[0]) == Some(Node(SetNested(Child(es, path[0]), path[1..], v)))
  {
  }

  /** `unset_nested`: walk through mappings; stop silently at a missing or
      non-mapping segment; otherwise drop the final key. */
  function UnsetNested(es: seq<Entry<Tree>>, path: seq<string>): (r: seq<Entry<Tree>>)
    requires |path| >= 1
    ensures GetPath(r, path) == None
    ensures forall k :: k != path[0] ==> Get(r, k) == Get(es, k)
    decreases |path|
  {
    if |path| == 1 then Remove(es, path[0])
    else
      var child := Get(es, path[0]);
      if child.Some? && child.value.Node? then
        Put(es, path[0], Node(UnsetNested(child.value.entries, path[1..])))
      else es
  }

  /** `unset_nested` is a no-op when the parent path does not lead to a mapping. */
  lemma {:induction false} UnsetNestedMissingParent(es: seq<Entry<Tree>>, path: seq<string>)
    requires |path| >= 2
    requires var parent := GetPath(es, path[..|path| - 1]); parent.None? || !parent.value.Node?
    ensures UnsetNested(es, path) == es
    decreases |path|
  {
    var child := Get(es, path[0]);
    assert path[..|path| - 1][0] == path[0];
    if child.Some? && child.value.Node? {
      var ch := child.value.entries;
      assert |path| > 2;
      Seqs.PrefixTail(path, |path| - 1);
      UnsetNestedMissingParent(ch, path[1..]);
      PutSame(es, path[0], Node(ch));
    }
  }

  /** Two paths neither of which walks through the other: they part at
      some segment they both have. */
  predicate Apart(p: seq<string>, q: seq<string>) {
    !(|p| <= |q| && q[..|p|] == p) && !(|q| <= |p| && p[..|q|] == q)
  }

  /** Apart paths with the same first segment both go on, and stay apart. */
  lemma ApartTail(p: seq<string>, q: seq<string>)
    requires |p| >= 1 && |q| >= 1 && p[0] == q[0] && Apart(p, q)
    ensures |p| >= 2 && |q| >= 2 && Apart(p[1..], q[1..])
  {
    assert q[..1] == [q[0]] && p[..1] == [p[0]];
    if |p| <= |q| {
      assert q[..|p|] == [q[0]] + q[1..][..|p| - 1];
    }
    if |q| <= |p| {
      assert p[..|q|] == [p[0]] + p[1..][..|q| - 1];
    }
  }

  /** Walking a path only looks at what its first segment holds. */
  lemma GetPathSameHead(a: seq<Entry<Tree>>, b: seq<Entry<Tree>>, q: seq<string>)
    requires |q| >= 1 && Get(a, q[0]) == Get(b, q[0])
    ensures GetPath(a, q) == GetPath(b, q)
  {
  }

  /** `set_nested` changes nothing at a path apart from its own: siblings of
      every segment keep their values. */
  lemma {:induction false} SetNestedKeeps(es: seq<Entry<Tree>>, path: seq<string>, v: Tree, q: seq<string>)
    requires |path| >= 1 && |q| >= 1 && Apart(path, q)
    ensures GetPath(SetNested(es, path, v), q) == GetPath(es, q)
    decreases |path|
  {
    var r := SetNested(es, path, v);
    if q[0] != path[0] {
      GetPathSameHead(r, es, q);
    } else {
      ApartTail(path, q);
      var inner := SetNested(Child(es, path[0]), path[1..], v);
      SetNestedKeeps(Child(es, path[0]), path[1..], v, q[1..]);
      SetNestedHead(es, path, v);
      GetPathStep(r, q, inner);
      var c := Get(es, path[0]);
      if c.Some? && c.value.Node? {
        GetPathStep(es, q, c.value.entries);
      } else {
        assert GetPath([], q[1..]) == None;
      }
    }
  }

  /** `unset_nested` on a longer path leaves a mapping under the first segment
      with the rest of the path unset inside it. */
  lemma UnsetNestedHead(es: seq<Entry<Tree>>, path: seq<string>)
    requires |path| >= 2 && Get(es, path[0]).Some? && Get(es, path[0]).value.Node?
    ensures Get(UnsetNested(es, path), path[0]) == Some(Node(UnsetNested(Get(es, path[0]).value.entries, path[1..])))
  {
  }

  /** `unset_nested` drops only the final key: every path apart from the
      unset one, siblings included, keeps its value. */
  lemma {:induction false} UnsetNestedKeeps(es: seq<Entry<Tree>>, path: seq<string>, q: seq<string>)
    requires |path| >= 1 && |q| >= 1 && Apart(path, q)
    ensures GetPath(UnsetNested(es, path), q) == GetPath(es, q)
    decreases |path|
  {
    var r := UnsetNested(es, path);
    if q[0] != path[0] {
      GetPathSameHead(r, es, q);
    } else {
      ApartTail(path, q);
      var child := Get(es, path[0]);
      if child.Some? && child.value.Node? {
        var ch := child.value.entries;
        UnsetNestedKeeps(ch, path[1..], q[1..]);
        UnsetNestedHead(es, path);
        GetPathStep(r, q, UnsetNested(ch, path[1..]));
        GetPathStep(es, q, ch);
      }
    }
  }

  /** The top-level key a staged key writes under. */
  function Head(key: string): string {
    Text.Split(key, '.')[0]
  }

  /** The staged entries applied in staged order: each key is split on dots,
      `None` unsets and any other value is set. A top-level key no staged key
      starts with is untouched, and the last entry's path ends up holding its
      value, or nothing after a removal. */
  function ApplyStaged(es: seq<Entry<Tree>>, staged: seq<Entry<Option<Value>>>): (r: seq<Entry<Tree>>)
    ensures forall k :: (forall i :: 0 <= i < |staged| ==> Head(staged[i].key) != k) ==> Get(r, k) == Get(es, k)
    ensures |staged| > 0 ==> var last := staged[|staged| - 1];
      GetPath(r, Text.Split(last.key, '.')) == (if last.val.None? then None else Some(Leaf(last.val.value)))
    decreases |staged|
  {
    if |staged| == 0 then es
    else
      assert forall i :: 0 <= i < |staged| - 1 ==> staged[..|staged| - 1][i] == staged[i];
      var prev := ApplyStaged(es, staged[..|staged| - 1]);
      var last := staged[|staged| - 1];
      var parts := Text.Split(last.key, '.');
      if last.val.None? then UnsetNested(prev, parts) else SetNested(prev, parts, Leaf(last.val.value))
  }

  /** A newly staged entry is applied after the ones before it. */
  lemma ApplyStagedSnoc(es: seq<Entry<Tree>>, staged: seq<Entry<Option<Value>>>, e: Entry<Option<Value>>)
    ensures ApplyStaged(es, staged + [e]) ==
      var prev := ApplyStaged(es, staged);
      if e.val.None? then UnsetNested(prev, Text.Split(e.key, '.')) else SetNested(prev, Text.Split(e.key, '.'), Leaf(e.val.value))
  {
    assert (staged + [e])[..|staged|] == staged;
  }

  /** A path apart from every staged key's path keeps what it held. */
  lemma {:induction false} ApplyStagedKeepsPath(es: seq<Entry<Tree>>, staged: seq<Entry<Option<Value>>>, q: seq<string>)
    requires |q| >= 1
    requires forall i :: 0 <= i < |staged| ==> Apart(Text.Split(staged[i].key, '.'), q)
    ensures GetPath(ApplyStaged(es, staged), q) == GetPath(es, q)
    decreases |staged|
  {
    if |staged| > 0 {
      var n := |staged| - 1;
      forall j | 0 <= j < n
        ensures Apart(Text.Split(staged[..n][j].key, '.'), q)
      {
        assert staged[..n][j] == staged[j];
      }
      ApplyStagedKeepsPath(es, staged[..n], q);
      var prev := ApplyStaged(es, staged[..n]);
      var parts := Text.Split(staged[n].key, '.');
      if staged[n].val.None? {
        assert ApplyStaged(es, staged) == UnsetNested(prev, parts);
        UnsetNestedKeeps(prev, parts, q);
      } else {
        assert ApplyStaged(es, staged) == SetNested(prev, parts, Leaf(staged[n].val.value));
        SetNestedKeeps(prev, parts, Leaf(staged[n].val.value), q);
      }
    }
  }

  /** Any staged entry, not only the last, ends up holding its value at its
      path (or nothing after a removal) when every later entry's path is
      apart from it. */
  lemma {:induction false} ApplyStagedEntryWins(es: seq<Entry<Tree>>, staged: seq<Entry<Option<Value>>>, i: int)
    requires 0 <= i < |staged|
    requires forall j :: i < j < |staged| ==> Apart(Text.Split(staged[j].key, '.'), Text.Split(staged[i].key, '.'))
    ensures GetPath(ApplyStaged(es, staged), Text.Split(staged[i].key, '.')) ==
      (if staged[i].val.None? then None else Some(Leaf(staged[i].val.value)))
    decreases |staged|
  {
    var n := |staged| - 1;
    var own := Text.Split(staged[i].key, '.');
    if i < n {
      var before := staged[..n];
      forall j | i < j < n
        ensures Apart(Text.Split(before[j].key, '.'), Text.Split(before[i].key, '.'))
      {
        assert before[j] == staged[j];
      }
      assert before[i] == staged[i];
      ApplyStagedEntryWins(es, before, i);
      var prev := ApplyStaged(es, before);
      var parts := Text.Split(staged[n].key, '.');
      assert GetPath(prev, own) == (if staged[i].val.None? then None else Some(Leaf(staged[i].val.value)));
      assert Apart(parts, own);
      if staged[n].val.None? {
        assert ApplyStaged(es, staged) == UnsetNested(prev, parts);
        UnsetNestedKeeps(prev, parts, own);
      } else {
        assert ApplyStaged(es, staged) == SetNested(prev, parts, Leaf(staged[n].val.value));
        SetNestedKeeps(prev, parts, Leaf(staged[n].val.value), own);
      }
    } else {
      assert staged[|staged| - 1] == staged[i];
    }
  }

  /** The adapter: the document on disk, the last load and the staged writes
      (an insertion-ordered dict). */
  datatype YamlSource = YamlSource(doc: Option<Tree>, cache: map<string, Value>, staged: seq<Entry<Option<Value>>>)
  {
    /** `set(key, value)`: stages the value; a Python `None` stages a removal. */
    function Set(key: string, v: Value): (r: YamlSource)
      ensures Get(r.staged, key) == Some(if v == Null then None else Some(v)) && r.doc == doc
      ensures !HasKey(staged, key) ==> r.staged == staged + [Entry(key, if v == Null then None else Some(v))]
      ensures forall j :: j != key ==> Get(r.staged, j) == Get(staged, j)
    {
      this.(staged := Put(staged, key, if v == Null then None else Some(v)))
    }

    /** `unset(key)`: stages a removal. */
    function Unset(key: string): (r: YamlSource)
      ensures Get(r.staged, key) == Some(None) && r.doc == doc
      ensures !HasKey(staged, key) ==> r.staged == staged + [Entry(key, None)]
      ensures forall j :: j != key ==> Get(r.staged, j) == Get(staged, j)
    {
      this.(staged := Put(staged, key, None))
    }

    /** `save()`: the staged entries are written over the current document,
      the stage is cleared and the document is loaded again, unfiltered. */
    function Save(dumps: Tree -> string): (r: YamlSource)
      ensures r.staged == []
      ensures r.doc == Some(Node(ApplyStaged(ReadDoc(doc), staged)))
      ensures r.cache == Load(r.doc, None, None, (p: string, k: string) => true, dumps).0
    {
      var d := Some(Node(ApplyStaged(ReadDoc(doc), staged)));
      this.(doc := d, cache := Load(d, None, None, (p: string, k: string) => true, dumps).0, staged := [])
    }
  }

  /** The write round trip: a key newly staged with a value is found at its
      dotted path in the saved document. */
  lemma StageThenSaveWrites(src: YamlSource, key: string, v: Value, dumps: Tree -> string)
    requires !HasKey(src.staged, key) && v != Null
    ensures GetPath(src.Set(key, v).Save(dumps).doc.value.entries, Text.Split(key, '.')) == Some(Leaf(v))
  {
    ApplyStagedSnoc(ReadDoc(src.doc), src.staged, Entry(key, Some(v)));
  }

  /** A key newly staged for removal is not found in the saved document. */
  lemma StageUnsetThenSaveRemoves(src: YamlSource, key: string, dumps: Tree -> string)
    requires !HasKey(src.staged, key)
    ensures GetPath(src.Unset(key).Save(dumps).doc.value.entries, Text.Split(key, '.')) == None
  {
    ApplyStagedSnoc(ReadDoc(src.doc), src.staged, Entry(key, None));
  }
}
