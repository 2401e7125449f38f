/** The merge engine (`core/merge.py`): fold the registered sources, in
    registration order, into an effective map and a provenance map. */
module Merge {
  import opened Types
  import opened Filters
  import opened Sources

  datatype Merged = Merged(effective: map<string, Value>, provenance: map<string, ProvenanceRecord>)

  /** What one registered source contributes: its load (with its own filter
      and depth), narrowed once more by the filter's key predicate. */
  function Contribution(rs: RegisteredSource, search: Matcher): (r: map<string, Value>)
    ensures forall k :: k in r <==> k in rs.source.store && ShouldIncludeKey(k, rs.filter, search)
    ensures forall k :: k in r ==> r[k] == rs.source.store[k]
  {
    var payload := rs.source.Load(rs.filter, rs.depth, search);
    map k | k in payload && ShouldIncludeKey(k, rs.filter, search) :: payload[k]
  }

  /** The record the engine writes for a key supplied by a source. */
  function Record(key: string, sourceId: string, now: Timestamp): ProvenanceRecord {
    ProvenanceRecord(key, sourceId, key, now)
  }

  /** `merge_sources`: each source overwrites the entries of the keys it
      contributes, so the last source to supply a key wins. */
  function MergeSources(rss: seq<RegisteredSource>, search: Matcher, now: Timestamp): (m: Merged)
    ensures m.effective.Keys == m.provenance.Keys
    ensures |rss| == 0 ==> m.effective == map[] && m.provenance == map[]
    decreases |rss|
  {
    if |rss| == 0 then Merged(map[], map[])
    else
      var prev := MergeSources(rss[..|rss| - 1], search, now);
      var last := rss[|rss| - 1];
      var c := Contribution(last, search);
      Merged(prev.effective + c, prev.provenance + map k | k in c :: Record(k, last.source.id, now))
  }

  /** Source `i` supplies `k` and no later source does. */
  ghost predicate IsLastSupplier(rss: seq<RegisteredSource>, search: Matcher, k: string, i: int) {
    0 <= i < |rss| && k in Contribution(rss[i], search)
    && forall j :: i < j < |rss| ==> k !in Contribution(rss[j], search)
  }

  /** The precedence law: a key is effective exactly when some source supplies
      it, and then its value and provenance are those of the last source to
      supply it. */
  lemma {:induction false} LastSourceWins(rss: seq<RegisteredSource>, search: Matcher, now: Timestamp, k: string)
    ensures k in MergeSources(rss, search, now).effective <==> exists i :: IsLastSupplier(rss, search, k, i)
    ensures forall i :: IsLastSupplier(rss, search, k, i) ==>
      && MergeSources(rss, search, now).effective[k] == rss[i].source.store[k]
      && MergeSources(rss, search, now).provenance[k] == Record(k, rss[i].source.id, now)
    decreases |rss|
  {
    if |rss| > 0 {
      if k in Contribution(rss[|rss| - 1], search) {
        LastSourceSupplies(rss, search, now, k);
      } else {
        LastSourceWins(rss[..|rss| - 1], search, now, k);
        EarlierSourcesSupply(rss, search, now, k);
      }
    }
  }

  /** A key the last source contributes is merged from that source. */
  lemma LastSourceSupplies(rss: seq<RegisteredSource>, search: Matcher, now: Timestamp, k: string)
    requires |rss| > 0 && k in Contribution(rss[|rss| - 1], search)
    ensures k in MergeSources(rss, search, now).effective && IsLastSupplier(rss, search, k, |rss| - 1)
    ensures forall i :: IsLastSupplier(rss, search, k, i) ==>
      && MergeSources(rss, search, now).effective[k] == rss[i].source.store[k]
      && MergeSources(rss, search, now).provenance[k] == Record(k, rss[i].source.id, now)
  {
    var last := rss[|rss| - 1];
    var m := MergeSources(rss, search, now);
    assert m.effective[k] == last.source.store[k];
    assert m.provenance[k] == Record(k, last.source.id, now);
    forall i | IsLastSupplier(rss, search, k, i) ensures i == |rss| - 1 { }
  }

  /** A key the last source does not contribute is merged as the earlier
      sources merge it. */
  lemma EarlierSourcesSupply(rss: seq<RegisteredSource>, search: Matcher, now: Timestamp, k: string)
    requires |rss| > 0 && k !in Contribution(rss[|rss| - 1], search)
    requires var init := rss[..|rss| - 1];
      && (k in MergeSources(init, search, now).effective <==> exists i :: IsLastSupplier(init, search, k, i))
      && forall i :: IsLastSupplier(init, search, k, i) ==>
           && MergeSources(init, search, now).effective[k] == init[i].source.store[k]
           && MergeSources(init, search, now).provenance[k] == Record(k, init[i].source.id, now)
    ensures k in MergeSources(rss, search, now).effective <==> exists i :: IsLastSupplier(rss, search, k, i)
    ensures forall i :: IsLastSupplier(rss, search, k, i) ==>
      && MergeSources(rss, search, now).effective[k] == rss[i].source.store[k]
      && MergeSources(rss, search, now).provenance[k] == Record(k, rss[i].source.id, now)
  {
    var init := rss[..|rss| - 1];
    var m := MergeSources(rss, search, now);
    var p := MergeSources(init, search, now);
    assert k in m.effective <==> k in p.effective;
    assert k in m.effective ==> m.effective[k] == p.effective[k] && m.provenance[k] == p.provenance[k];
    LastSupplierOfPrefix(rss, search, k);
    forall i | IsLastSupplier(rss, search, k, i) ensures init[i] == rss[i] { }
    if k in m.effective {
      var i :| IsLastSupplier(init, search, k, i);
      assert IsLastSupplier(rss, search, k, i);
    }
  }

  /** When the last source does not supply `k`, the last supplier among all
      sources is the last supplier among the earlier ones. */
  lemma LastSupplierOfPrefix(rss: seq<RegisteredSource>, search: Matcher, k: string)
    requires |rss| > 0 && k !in Contribution(rss[|rss| - 1], search)
    ensures forall i :: IsLastSupplier(rss, search, k, i) <==> IsLastSupplier(rss[..|rss| - 1], search, k, i)
  {
    var init := rss[..|rss| - 1];
    forall i ensures IsLastSupplier(rss, search, k, i) <==> IsLastSupplier(init, search, k, i) {
      if 0 <= i < |init| {
        assert init[i] == rss[i];
        assert forall j :: i < j < |init| ==> init[j] == rss[j];
      }
    }
  }

  /** A source appended after the others overrides every key it contributes,
      and leaves every other key exactly as the earlier sources merged it; in
      particular a key its filter rejects does not overwrite an earlier value. */
  lemma AppendedSourceOverrides(rss: seq<RegisteredSource>, rs: RegisteredSource, search: Matcher, now: Timestamp, k: string)
    ensures k in Contribution(rs, search) ==>
      && k in MergeSources(rss + [rs], search, now).effective
      && MergeSources(rss + [rs], search, now).effective[k] == rs.source.store[k]
      && MergeSources(rss + [rs], search, now).provenance[k] == Record(k, rs.source.id, now)
    ensures k !in Contribution(rs, search) ==>
      && (k in MergeSources(rss + [rs], search, now).effective <==> k in MergeSources(rss, search, now).effective)
      && (k in MergeSources(rss, search, now).effective ==>
            MergeSources(rss + [rs], search, now).effective[k] == MergeSources(rss, search, now).effective[k]
            && MergeSources(rss + [rs], search, now).provenance[k] == MergeSources(rss, search, now).provenance[k])
  {
    assert (rss + [rs])[..|rss|] == rss;
  }

  /** No key is invented: every effective key is stored by some source whose
      filter admits it, and its provenance names that source and the key. */
  lemma NoInventedKeys(rss: seq<RegisteredSource>, search: Matcher, now: Timestamp, k: string)
    requires k in MergeSources(rss, search, now).effective
    ensures exists i :: 0 <= i < |rss| && k in rss[i].source.store && ShouldIncludeKey(k, rss[i].filter, search)
                        && MergeSources(rss, search, now).provenance[k].sourceId == rss[i].source.id
    ensures MergeSources(rss, search, now).provenance[k].key == k
    ensures MergeSources(rss, search, now).provenance[k].sourceKey == k
  {
    LastSourceWins(rss, search, now, k);
    var i :| IsLastSupplier(rss, search, k, i);
  }
}
