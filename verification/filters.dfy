/** Key filters and hierarchical flattening (`core/filters.py`). */
module Filters {
  import opened Wrappers
  import opened Dicts
  import opened Types
  import Text

  /** `re.search(pattern, key)`: the regular-expression engine is not modelled,
      so every caller receives the search as a parameter. */
  type Matcher = (string, string) -> bool

  /** An inclusion mask: `True` includes a whole subtree, a mapping descends
      one path segment, anything else includes nothing. */
  datatype Spec = Incl | Sub(children: map<string, Spec>) | Other

  /** A frozen filter. The regular expression is kept as its pattern text. */
  datatype Filter = Filter(includeRegex: Option<string>, spec: Option<Spec>, depth: Option<int>)

  /** Reads a mask out of a parsed document: `true` is the inclusion marker,
      a mapping nests, every other value (including `false`) is inert. */
  function SpecOf(t: Tree): Spec
    decreases t, 1
  {
    match t
    case Leaf(v) => if v == Bool(true) then Incl else Other
    case List(_) => Other
    case Node(es) => Sub(SpecEntries(es))
  }

  function SpecEntries(es: seq<Entry<Tree>>): map<string, Spec>
    decreases es, 0
  {
    if |es| == 0 then map[] else SpecEntries(es[1..])[es[0].key := SpecOf(es[0].val)]
  }

  /** A depth read from a document: integers, and booleans as the integers
      Python takes them for; a missing or null depth is absent. */
  function DepthOf(t: Option<Tree>): (r: Option<int>)
    ensures t.Some? && t.value.Leaf? && t.value.value.Int? ==> r == Some(t.value.value.i)
    ensures t.None? || t.value == Leaf(Null) ==> r.None?
  {
    match t
    case Some(Leaf(Int(i))) => Some(i)
    case Some(Leaf(Bool(b))) => Some(if b then 1 else 0)
    case _ => None
  }

  /** `Filter.from_dict`: no filter for a missing or empty mapping; a regex is
      compiled only from a string; the mask and depth are copied. */
  function FromDict(d: Option<seq<Entry<Tree>>>): (r: Option<Filter>)
    ensures d.None? || |d.value| == 0 <==> r.None?
    ensures r.Some? ==> (r.value.includeRegex.Some? <==> exists s :: Get(d.value, "include_regex") == Some(Leaf(Str(s))))
    ensures r.Some? && r.value.includeRegex.Some? ==> Get(d.value, "include_regex") == Some(Leaf(Str(r.value.includeRegex.value)))
    ensures r.Some? ==> (r.value.spec.None? <==> Get(d.value, "hierarchical_spec") in {None, Some(Leaf(Null))})
    ensures r.Some? && r.value.spec.Some? ==> r.value.spec == Some(SpecOf(Get(d.value, "hierarchical_spec").value))
    ensures r.Some? ==> r.value.depth == DepthOf(Get(d.value, "depth"))
  {
    if d.None? || |d.value| == 0 then None
    else
      var m := d.value;
      var rx: Option<Tree> := Get(m, "include_regex");
      var regex: Option<string> := if rx.Some? && rx.value.Leaf? && rx.value.value.Str? then Some(rx.value.value.s) else None;
      var hs: Option<Tree> := Get(m, "hierarchical_spec");
      var spec: Option<Spec> := if hs.None? || hs.value == Leaf(Null) then None else Some(SpecOf(hs.value));
      Some(Filter(regex, spec, DepthOf(Get(m, "depth"))))
  }

  /** `should_include_key`: only a regex can exclude a key, and it excludes the
      key when its search finds no match. The mask is not consulted here. */
  predicate ShouldIncludeKey(key: string, flt: Option<Filter>, search: Matcher) {
    flt.None? || flt.value.includeRegex.None? || search(flt.value.includeRegex.value, key)
  }

  /** `should_include_key` case by case: no filter or no regex admits every key;
      otherwise the regex decides. */
  lemma IncludeKeyCases(key: string, flt: Option<Filter>, search: Matcher)
    ensures flt.None? ==> ShouldIncludeKey(key, flt, search)
    ensures flt.Some? && flt.value.includeRegex.None? ==> ShouldIncludeKey(key, flt, search)
    ensures flt.Some? && flt.value.includeRegex.Some? ==>
      (ShouldIncludeKey(key, flt, search) <==> search(flt.value.includeRegex.value, key))
  {
  }

  // ---------------------------------------------------------------- flatten

  /** The dotted key of a child: the child key itself under an empty parent. */
  function FullKey(parent: string, key: string): (r: string)
    ensures parent == "" ==> r == key
    ensures parent != "" ==> r == parent + "." + key
  {
    if parent == "" then key else parent + "." + key
  }

  function DecDepth(depth: Option<int>): Option<int> {
    if depth.None? then None else Some(depth.value - 1)
  }

  /** `iter_hierarchical(data, parent, depth)`: the pairs it yields, in order.
      A mapping is descended only while the depth is absent or positive; lists
      and every other value are yielded as leaves. */
  function Flatten(es: seq<Entry<Tree>>, parent: string, depth: Option<int>): (r: seq<(string, Tree)>)
    ensures depth.Some? && depth.value < 0 ==> r == []
    decreases es, 1
  {
    if depth.Some? && depth.value < 0 then [] else FlattenEntries(es, parent, depth)
  }

  function FlattenEntries(es: seq<Entry<Tree>>, parent: string, depth: Option<int>): seq<(string, Tree)>
    decreases es, 0
  {
    if |es| == 0 then []
    else
      var full := FullKey(parent, es[0].key);
      var here :=
        if es[0].val.Node? && (depth.None? || depth.value > 0)
        then Flatten(es[0].val.entries, full, DecDepth(depth))
        else [(full, es[0].val)];
      here + FlattenEntries(es[1..], parent, depth)
  }

  /** The dotted key of a path below `parent`. */
  function JoinPath(parent: string, path: seq<string>): string
    decreases |path|
  {
    if |path| == 0 then parent else JoinPath(FullKey(parent, path[0]), path[1..])
  }

  /** `v` sits at `path` in the mapping `es`: every segment names an entry and
      every segment but the last leads into a mapping. */
  ghost predicate Within(es: seq<Entry<Tree>>, path: seq<string>, v: Tree)
    decreases |path|
  {
    |path| >= 1 &&
    exists i :: 0 <= i < |es| && es[i].key == path[0] &&
      (if |path| == 1 then es[i].val == v
       else es[i].val.Node? && Within(es[i].val.entries, path[1..], v))
  }

  /** What flattening promises of a pair: it names a value at some path of the
      data no longer than the depth allows, and a mapping is yielded only
      when the depth ran out exactly there. */
  ghost predicate Emitted(es: seq<Entry<Tree>>, parent: string, depth: Option<int>, k: string, v: Tree) {
    exists path :: Within(es, path, v) && k == JoinPath(parent, path)
      && (depth.Some? ==> |path| <= depth.value + 1)
      && (v.Node? ==> depth.Some? && |path| == depth.value + 1)
  }

  /** Every pair flattening yields is a value of the data at the path its key
      spells, within the depth; with no depth limit no mapping is yielded. */
  lemma {:induction false} FlattenSound(es: seq<Entry<Tree>>, parent: string, depth: Option<int>)
    ensures forall j :: 0 <= j < |Flatten(es, parent, depth)| ==>
      Emitted(es, parent, depth, Flatten(es, parent, depth)[j].0, Flatten(es, parent, depth)[j].1)
    decreases es, 1
  {
    if !(depth.Some? && depth.value < 0) {
      FlattenEntriesSound(es, parent, depth);
    }
  }

  /** Every pair the entry loop yields is a pair of the mapping. */
  lemma {:induction false} FlattenEntriesSound(es: seq<Entry<Tree>>, parent: string, depth: Option<int>)
    requires depth.None? || depth.value >= 0
    ensures forall j :: 0 <= j < |FlattenEntries(es, parent, depth)| ==>
      Emitted(es, parent, depth, FlattenEntries(es, parent, depth)[j].0, FlattenEntries(es, parent, depth)[j].1)
    decreases es, 0
  {
    if |es| > 0 {
      var r := FlattenEntries(es, parent, depth);
      var full := FullKey(parent, es[0].key);
      var descend := es[0].val.Node? && (depth.None? || depth.value > 0);
      var here :=
        if descend then Flatten(es[0].val.entries, full, DecDepth(depth))
        else [(full, es[0].val)];
      var rest := FlattenEntries(es[1..], parent, depth);
      assert r == here + rest;
      if descend {
        FlattenSound(es[0].val.entries, full, DecDepth(depth));
      }
      FlattenEntriesSound(es[1..], parent, depth);
      forall j | 0 <= j < |r| ensures Emitted(es, parent, depth, r[j].0, r[j].1) {
        if j < |here| {
          if descend {
            EmittedDescend(es, parent, depth, here[j].0, here[j].1);
          } else {
            EmittedLeaf(es, parent, depth);
          }
        } else {
          assert r[j] == rest[j - |here|];
          EmittedTail(es, parent, depth, r[j].0, r[j].1);
        }
      }
    }
  }

  /** A pair of a descended first entry is a pair of the whole mapping. */
  lemma EmittedDescend(es: seq<Entry<Tree>>, parent: string, depth: Option<int>, k: string, v: Tree)
    requires |es| > 0 && es[0].val.Node? && (depth.None? || depth.value > 0)
    requires Emitted(es[0].val.entries, FullKey(parent, es[0].key), DecDepth(depth), k, v)
    ensures Emitted(es, parent, depth, k, v)
  {
    var sub := es[0].val.entries;
    var full := FullKey(parent, es[0].key);
    var p :| Within(sub, p, v) && k == JoinPath(full, p)
      && (DecDepth(depth).Some? ==> |p| <= DecDepth(depth).value + 1)
      && (v.Node? ==> DecDepth(depth).Some? && |p| == DecDepth(depth).value + 1);
    var path := [es[0].key] + p;
    assert path[1..] == p;
    assert Within(es, path, v) by {
      assert es[0].key == path[0];
    }
    assert k == JoinPath(parent, path);
    assert |path| == |p| + 1;
    EmittedAt(es, parent, depth, k, v, path);
  }

  /** A path within the depth that spells `k` and leads to `v` witnesses the pair. */
  lemma EmittedAt(es: seq<Entry<Tree>>, parent: string, depth: Option<int>, k: string, v: Tree, path: seq<string>)
    requires Within(es, path, v) && k == JoinPath(parent, path)
    requires depth.Some? ==> |path| <= depth.value + 1
    requires v.Node? ==> depth.Some? && |path| == depth.value + 1
    ensures Emitted(es, parent, depth, k, v)
  {
  }

  /** A first entry yielded as it is, is a pair of the whole mapping. */
  lemma EmittedLeaf(es: seq<Entry<Tree>>, parent: string, depth: Option<int>)
    requires |es| > 0 && (depth.None? || depth.value >= 0)
    requires !(es[0].val.Node? && (depth.None? || depth.value > 0))
    ensures Emitted(es, parent, depth, FullKey(parent, es[0].key), es[0].val)
  {
    var path := [es[0].key];
    assert Within(es, path, es[0].val) by {
      assert es[0].key == path[0];
    }
    assert JoinPath(parent, path) == JoinPath(FullKey(parent, es[0].key), []);
  }

  /** A pair of the later entries is a pair of the whole mapping. */
  lemma EmittedTail(es: seq<Entry<Tree>>, parent: string, depth: Option<int>, k: string, v: Tree)
    requires |es| > 0 && Emitted(es[1..], parent, depth, k, v)
    ensures Emitted(es, parent, depth, k, v)
  {
    var p :| Within(es[1..], p, v) && k == JoinPath(parent, p)
      && (depth.Some? ==> |p| <= depth.value + 1)
      && (v.Node? ==> depth.Some? && |p| == depth.value + 1);
    WithinTail(es, p, v);
  }

  /** A path into the later entries is a path into the whole mapping. */
  lemma WithinTail(es: seq<Entry<Tree>>, path: seq<string>, v: Tree)
    requires |es| > 0 && Within(es[1..], path, v)
    ensures Within(es, path, v)
  {
    var i :| 0 <= i < |es[1..]| && es[1..][i].key == path[0] &&
      (if |path| == 1 then es[1..][i].val == v
       else es[1..][i].val.Node? && Within(es[1..][i].val.entries, path[1..], v));
    assert es[i + 1] == es[1..][i];
  }

  /** Every value of the data within the depth is yielded: a leaf or list at
      any reachable path, and a mapping exactly where the depth runs out. */
  lemma FlattenComplete(es: seq<Entry<Tree>>, parent: string, depth: Option<int>, k: string, v: Tree)
    requires Emitted(es, parent, depth, k, v)
    ensures (k, v) in Flatten(es, parent, depth)
  {
    var path :| Within(es, path, v) && k == JoinPath(parent, path)
      && (depth.Some? ==> |path| <= depth.value + 1)
      && (v.Node? ==> depth.Some? && |path| == depth.value + 1);
    FlattenReaches(es, parent, depth, path, v);
  }

  /** The pair of a path within the depth is among the pairs flattening yields. */
  lemma {:induction false} FlattenReaches(es: seq<Entry<Tree>>, parent: string, depth: Option<int>, path: seq<string>, v: Tree)
    requires Within(es, path, v)
    requires depth.Some? ==> |path| <= depth.value + 1
    requires v.Node? ==> depth.Some? && |path| == depth.value + 1
    ensures (JoinPath(parent, path), v) in Flatten(es, parent, depth)
    decreases es, 1
  {
    FlattenEntriesReaches(es, parent, depth, path, v);
  }

  /** The entry loop yields the pair of every path within the depth. */
  lemma {:induction false} FlattenEntriesReaches(es: seq<Entry<Tree>>, parent: string, depth: Option<int>, path: seq<string>, v: Tree)
    requires Within(es, path, v)
    requires depth.Some? ==> |path| <= depth.value + 1
    requires v.Node? ==> depth.Some? && |path| == depth.value + 1
    ensures (JoinPath(parent, path), v) in FlattenEntries(es, parent, depth)
    decreases es, 0
  {
    var i :| 0 <= i < |es| && es[i].key == path[0] &&
      (if |path| == 1 then es[i].val == v
       else es[i].val.Node? && Within(es[i].val.entries, path[1..], v));
    var full := FullKey(parent, es[0].key);
    var descend := es[0].val.Node? && (depth.None? || depth.value > 0);
    var here :=
      if descend then Flatten(es[0].val.entries, full, DecDepth(depth))
      else [(full, es[0].val)];
    var rest := FlattenEntries(es[1..], parent, depth);
    assert FlattenEntries(es, parent, depth) == here + rest;
    if i == 0 {
      assert JoinPath(parent, path) == JoinPath(full, path[1..]);
      if |path| == 1 {
        assert !descend;
        assert here == [(JoinPath(parent, path), v)];
      } else {
        assert descend;
        FlattenReaches(es[0].val.entries, full, DecDepth(depth), path[1..], v);
      }
    } else {
      assert es[1..][i - 1] == es[i];
      assert Within(es[1..], path, v);
      FlattenEntriesReaches(es[1..], parent, depth, path, v);
    }
  }

  /** With no depth limit, no yielded value is a mapping. */
  lemma UnlimitedYieldsNoMapping(es: seq<Entry<Tree>>, parent: string)
    ensures forall j :: 0 <= j < |Flatten(es, parent, None)| ==> !Flatten(es, parent, None)[j].1.Node?
  {
    FlattenSound(es, parent, None);
  }

  /** `{k: v for k, v in pairs}`: a later pair overwrites an earlier one. */
  function ToMap(ps: seq<(string, Tree)>): (m: map<string, Tree>)
    ensures forall k :: k in m <==> exists i :: 0 <= i < |ps| && ps[i].0 == k
    decreases |ps|
  {
    if |ps| == 0 then map[]
    else
      var init := ToMap(ps[..|ps| - 1]);
      assert forall i :: 0 <= i < |ps| - 1 ==> ps[..|ps| - 1][i] == ps[i];
      init[ps[|ps| - 1].0 := ps[|ps| - 1].1]
  }

  /** The dict keeps the value of the last pair with each key. */
  lemma {:induction false} ToMapLastWins(ps: seq<(string, Tree)>, i: nat)
    requires i < |ps|
    requires forall j :: i < j < |ps| ==> ps[j].0 != ps[i].0
    ensures ps[i].0 in ToMap(ps) && ToMap(ps)[ps[i].0] == ps[i].1
    decreases |ps|
  {
    if i < |ps| - 1 {
      ToMapLastWins(ps[..|ps| - 1], i);
    }
  }

  /** Every value the dict holds is the value of a pair with that key. */
  lemma {:induction false} ToMapValueFrom(ps: seq<(string, Tree)>, k: string)
    requires k in ToMap(ps)
    ensures exists i :: 0 <= i < |ps| && ps[i].0 == k && ps[i].1 == ToMap(ps)[k]
    decreases |ps|
  {
    var n := |ps| - 1;
    if ps[n].0 != k {
      ToMapValueFrom(ps[..n], k);
      var i :| 0 <= i < n && ps[..n][i].0 == k && ps[..n][i].1 == ToMap(ps[..n])[k];
      assert ps[i] == ps[..n][i];
    }
  }

  // ---------------------------------------------------------- mask filtering

  /** `include_path`: walk the segments through the mask; a missing segment or
      a non-mapping node excludes the key, the first `True` includes it. */
  function IncludePath(node: Spec, parts: seq<string>): bool
    decreases |parts|
  {
    if |parts| == 0 then node.Incl?
    else if !node.Sub? || parts[0] !in node.children then false
    else
      var next := node.children[parts[0]];
      if next.Incl? then true else IncludePath(next, parts[1..])
  }

  /** The mask node a path leads to, if every segment is present. */
  function Reach(node: Spec, path: seq<string>): Option<Spec>
    decreases |path|
  {
    if |path| == 0 then Some(node)
    else if node.Sub? && path[0] in node.children then Reach(node.children[path[0]], path[1..])
    else None
  }

  /** A non-empty path is included exactly when one of its non-empty prefixes
      leads to the inclusion marker. */
  lemma {:induction false} IncludePathMeansPrefixMarked(node: Spec, parts: seq<string>)
    requires |parts| >= 1
    ensures IncludePath(node, parts) <==>
      exists i :: 1 <= i <= |parts| && Reach(node, parts[..i]) == Some(Incl)
    decreases |parts|
  {
    if node.Sub? && parts[0] in node.children {
      var next := node.children[parts[0]];
      assert Reach(node, parts[..1]) == Reach(next, []) by {
        assert parts[..1][1..] == [];
      }
      if next.Incl? {
        assert Reach(node, parts[..1]) == Some(Incl);
      } else {
        forall i | 1 <= i <= |parts| ensures Reach(node, parts[..i]) == Reach(next, parts[1..][..i - 1]) {
          assert parts[..i][1..] == parts[1..][..i - 1];
        }
        if |parts| == 1 {
          assert !IncludePath(node, parts);
        } else {
          IncludePathMeansPrefixMarked(next, parts[1..]);
          if IncludePath(node, parts) {
            var i :| 1 <= i <= |parts[1..]| && Reach(next, parts[1..][..i]) == Some(Incl);
            assert Reach(node, parts[..i + 1]) == Some(Incl);
          }
          if exists i :: 1 <= i <= |parts| && Reach(node, parts[..i]) == Some(Incl) {
            var i :| 1 <= i <= |parts| && Reach(node, parts[..i]) == Some(Incl);
            assert i >= 2;
            assert Reach(next, parts[1..][..i - 1]) == Some(Incl);
          }
        }
      }
    } else {
      forall i | 1 <= i <= |parts| ensures Reach(node, parts[..i]) == None {
        assert parts[..i][0] == parts[0];
      }
    }
  }

  /** Everything below an included path is included too. */
  lemma MarkedSubtreeIncluded(node: Spec, parts: seq<string>, more: seq<string>)
    requires |parts| >= 1 && IncludePath(node, parts)
    ensures IncludePath(node, parts + more)
  {
    IncludePathMeansPrefixMarked(node, parts);
    IncludePathMeansPrefixMarked(node, parts + more);
    var i :| 1 <= i <= |parts| && Reach(node, parts[..i]) == Some(Incl);
    assert (parts + more)[..i] == parts[..i];
  }

  /** An empty mask, or a bare `True` at the top, excludes every key. */
  lemma EmptyMaskExcludes(parts: seq<string>)
    requires |parts| >= 1
    ensures !IncludePath(Sub(map[]), parts)
    ensures !IncludePath(Incl, parts)
  {
  }

  /** `filter_hierarchical`: the depth-limited flattening, narrowed by the mask
      when there is one; kept keys keep their values. */
  function FilterHierarchical(data: seq<Entry<Tree>>, spec: Option<Spec>, depth: Option<int>): (r: map<string, Tree>)
    ensures spec.None? ==> r == ToMap(Flatten(data, "", depth))
    ensures spec.Some? ==> forall k :: k in r <==>
      k in ToMap(Flatten(data, "", depth)) && IncludePath(spec.value, Text.Split(k, '.'))
    ensures forall k :: k in r ==> r[k] == ToMap(Flatten(data, "", depth))[k]
  {
    var flat := ToMap(Flatten(data, "", depth));
    if spec.None? then flat
    else map k | k in flat && IncludePath(spec.value, Text.Split(k, '.')) :: flat[k]
  }
}
