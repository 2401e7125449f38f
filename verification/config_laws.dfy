/** Laws of the configuration state machine: what `save` writes where, when it
    refuses, how targets are resolved, and the quirks of the lazy-load guard. */
module ConfigLaws {
  import opened Wrappers
  import opened Types
  import opened Filters
  import opened Sources
  import opened Merge
  import opened Configs
  import opened Seqs

  // ----------------------------------------------------------- list helpers

  /** A change aimed at another source does not join this source's group. */
  lemma GroupSnoc(staged: seq<ConfigChange>, ch: ConfigChange, id: string)
    ensures ch.target == id ==> Group(staged + [ch], id) == Group(staged, id) + [ch]
    ensures ch.target != id ==> Group(staged + [ch], id) == Group(staged, id)
  {
    KeepSnoc(staged, ch, (c: ConfigChange) => c.target == id);
  }

  // ------------------------------------------------- what a group does to a source

  /** The last change in `changes` that concerns `key`. */
  function LastChangeFor(changes: seq<ConfigChange>, key: string): (r: Option<ConfigChange>)
    ensures r.Some? ==> r.value in changes && r.value.key == key
    ensures r.None? <==> forall i :: 0 <= i < |changes| ==> changes[i].key != key
    decreases |changes|
  {
    if |changes| == 0 then None
    else if changes[|changes| - 1].key == key then Some(changes[|changes| - 1])
    else LastChangeFor(changes[..|changes| - 1], key)
  }

  /** What a change leaves staged in a source: `set` of a non-`None` value
      stages that value, anything else stages a removal. */
  function StagedBy(ch: ConfigChange): Option<Value> {
    if ch.op == SetOp && ch.value.Some? && ch.value.value != Null then Some(ch.value.value) else None
  }

  /** Handing a group to a source stages, per key, what the last change for
      that key says; keys the group does not mention keep their stage. */
  lemma {:induction false} ApplyChangesStaged(src: Source, changes: seq<ConfigChange>, key: string)
    ensures var r := ApplyChanges(src, changes); var last := LastChangeFor(changes, key);
      && (last.Some? ==> key in r.staged && r.staged[key] == StagedBy(last.value))
      && (last.None? ==> (key in r.staged <==> key in src.staged) && (key in src.staged ==> r.staged[key] == src.staged[key]))
    decreases |changes|
  {
    if |changes| > 0 {
      ApplyChangesStaged(src, changes[..|changes| - 1], key);
    }
  }

  /** Persisting a group into a source: a key whose last change is a `set`
      of a value is stored with that value, a key whose last change is an
      `unset` is gone, whatever the source had staged itself; a key with no
      change and nothing staged in the source is untouched. */
  lemma PersistEffect(src: Source, changes: seq<ConfigChange>, key: string)
    ensures var r := Persist(src, changes); var last := LastChangeFor(changes, key);
      && r.staged == map[] && r.id == src.id
      && (last.Some? ==> (key in r.store <==> StagedBy(last.value).Some?)
                         && (key in r.store ==> r.store[key] == StagedBy(last.value).value))
      && (last.None? && key !in src.staged ==>
            (key in r.store <==> key in src.store) && (key in src.store ==> r.store[key] == src.store[key]))
  {
    ApplyChangesStaged(src, changes, key);
  }

  // ------------------------------------------------------------- save

  /** A source that stops `save`: it has pending changes and is read-only. */
  predicate Blocks(rs: RegisteredSource, staged: seq<ConfigChange>) {
    |Group(staged, rs.source.id)| > 0 && !rs.isWritable
  }

  /** A source after a successful pass: persisted when it had pending changes. */
  function Committed(rs: RegisteredSource, staged: seq<ConfigChange>): RegisteredSource {
    var g := Group(staged, rs.source.id);
    if |g| == 0 then rs else rs.(source := Persist(rs.source, g))
  }

  /** The position of the first source that stops `save`, or `|rss|`. */
  function FirstBlock(rss: seq<RegisteredSource>, staged: seq<ConfigChange>): (f: nat)
    ensures f <= |rss|
    ensures forall i :: 0 <= i < f ==> !Blocks(rss[i], staged)
    ensures f < |rss| ==> Blocks(rss[f], staged)
    decreases |rss|
  {
    if |rss| == 0 then 0
    else if Blocks(rss[0], staged) then 0
    else
      var f := FirstBlock(rss[1..], staged);
      FirstBlockShift(rss, staged, f);
      1 + f
  }

  /** The first blocking position of the tail, shifted by one. */
  lemma FirstBlockShift(rss: seq<RegisteredSource>, staged: seq<ConfigChange>, f: nat)
    requires |rss| > 0 && !Blocks(rss[0], staged) && f <= |rss| - 1
    requires forall i :: 0 <= i < f ==> !Blocks(rss[1..][i], staged)
    requires f < |rss| - 1 ==> Blocks(rss[1..][f], staged)
    ensures forall i :: 0 <= i < f + 1 ==> !Blocks(rss[i], staged)
    ensures f + 1 < |rss| ==> Blocks(rss[f + 1], staged)
  {
    forall i | 0 < i < f + 1 ensures !Blocks(rss[i], staged) {
      assert rss[i] == rss[1..][i - 1];
    }
    if f + 1 < |rss| {
      assert rss[f + 1] == rss[1..][f];
    }
  }

  /** The pass of `save` stops exactly at the first read-only source with
      pending changes: every source before it is committed, it and every
      later source are left as they were. With no such source every source is
      committed. */
  lemma CommitGroupsSpec(rss: seq<RegisteredSource>, staged: seq<ConfigChange>)
    ensures var r := CommitGroups(rss, staged); var f := FirstBlock(rss, staged);
      && (r.error.None? <==> f == |rss|)
      && (f < |rss| ==> r.error == Some(NotWritable(rss[f].source.id)))
      && (forall i :: 0 <= i < f ==> r.sources[i] == Committed(rss[i], staged))
      && (forall i :: f <= i < |rss| ==> r.sources[i] == rss[i])
  {
    CommitGroupsError(rss, staged);
    CommitGroupsCommitsPrefix(rss, staged);
    CommitGroupsKeepsSuffix(rss, staged);
  }

  /** The error of the pass names the first source that stops it. */
  lemma {:induction false} CommitGroupsError(rss: seq<RegisteredSource>, staged: seq<ConfigChange>)
    ensures var r := CommitGroups(rss, staged); var f := FirstBlock(rss, staged);
      && (r.error.None? <==> f == |rss|)
      && (f < |rss| ==> r.error == Some(NotWritable(rss[f].source.id)))
    decreases |rss|
  {
    if |rss| > 0 && !Blocks(rss[0], staged) {
      var tail := rss[1..];
      CommitGroupsError(tail, staged);
      CommitGroupsStep(rss, staged);
      var f := FirstBlock(rss, staged);
      if f < |rss| {
        assert rss[f] == tail[f - 1];
      }
    }
  }

  /** Every source before the first one that stops the pass is committed. */
  lemma {:induction false} CommitGroupsCommitsPrefix(rss: seq<RegisteredSource>, staged: seq<ConfigChange>)
    ensures var r := CommitGroups(rss, staged);
      forall i :: 0 <= i < FirstBlock(rss, staged) ==> r.sources[i] == Committed(rss[i], staged)
    decreases |rss|
  {
    if |rss| > 0 && !Blocks(rss[0], staged) {
      var tail := rss[1..];
      CommitGroupsCommitsPrefix(tail, staged);
      CommitGroupsStep(rss, staged);
      var r := CommitGroups(rss, staged);
      var t := CommitGroups(tail, staged);
      forall i | 0 <= i < FirstBlock(rss, staged)
        ensures r.sources[i] == Committed(rss[i], staged)
      {
        if i > 0 {
          assert r.sources[i] == t.sources[i - 1] && rss[i] == tail[i - 1];
        }
      }
    }
  }

  /** The source that stops the pass and every later one are left as they were. */
  lemma CommitGroupsKeepsSuffix(rss: seq<RegisteredSource>, staged: seq<ConfigChange>)
    ensures var r := CommitGroups(rss, staged);
      forall i :: FirstBlock(rss, staged) <= i < |rss| ==> r.sources[i] == rss[i]
  {
    var f := FirstBlock(rss, staged);
    var r := CommitGroups(rss, staged);
    CommitGroupsSuffix(rss, staged);
    forall i | f <= i < |rss| ensures r.sources[i] == rss[i] {
      assert r.sources[f..][i - f] == rss[f..][i - f];
    }
  }

  /** The sources from the first unwritten block on are left as they were. */
  lemma {:induction false} CommitGroupsSuffix(rss: seq<RegisteredSource>, staged: seq<ConfigChange>)
    ensures var f := FirstBlock(rss, staged);
      CommitGroups(rss, staged).sources[f..] == rss[f..]
    decreases |rss|
  {
    if |rss| > 0 && !Blocks(rss[0], staged) {
      var tail := rss[1..];
      CommitGroupsSuffix(tail, staged);
      CommitGroupsStep(rss, staged);
      var f := FirstBlock(rss, staged);
      var t := CommitGroups(tail, staged);
      assert CommitGroups(rss, staged).sources[f..] == t.sources[f - 1..];
      assert rss[f..] == tail[f - 1..];
    }
  }

  /** One step of the pass over a source that does not stop it. */
  lemma CommitGroupsStep(rss: seq<RegisteredSource>, staged: seq<ConfigChange>)
    requires |rss| > 0 && !Blocks(rss[0], staged)
    ensures CommitGroups(rss, staged).sources == [Committed(rss[0], staged)] + CommitGroups(rss[1..], staged).sources
    ensures CommitGroups(rss, staged).error == CommitGroups(rss[1..], staged).error
    ensures FirstBlock(rss, staged) == 1 + FirstBlock(rss[1..], staged)
  {
  }

  /** `save` succeeds exactly when no read-only source has pending changes;
      it then commits every source, clears the staged list and rebuilds the
      maps from the committed sources. */
  lemma SaveSucceeds(c: Config, search: Matcher, now: Timestamp)
    ensures var r := Save(c, search, now);
      && (r.error.None? <==> forall i :: 0 <= i < |c.sources| ==> !Blocks(c.sources[i], c.staged))
      && (r.error.None? ==>
            && (forall i :: 0 <= i < |c.sources| ==> r.state.sources[i] == Committed(c.sources[i], c.staged))
            && r.state.staged == []
            && r.state.effective == MergeSources(r.state.sources, search, now).effective
            && r.state.provenance == MergeSources(r.state.sources, search, now).provenance)
  {
    var out := CommitGroups(c.sources, c.staged);
    CommitGroupsError(c.sources, c.staged);
    CommitGroupsCommitsPrefix(c.sources, c.staged);
    FirstBlockNone(c.sources, c.staged);
    if out.error.None? {
      assert Save(c, search, now).state == Materialize(c.(sources := out.sources, staged := []), search, now);
    }
  }

  /** No source stops the pass exactly when the first blocking position is
      past the end. */
  lemma FirstBlockNone(rss: seq<RegisteredSource>, staged: seq<ConfigChange>)
    ensures FirstBlock(rss, staged) == |rss| <==> forall i :: 0 <= i < |rss| ==> !Blocks(rss[i], staged)
  {
  }

  /** A read-only source with pending changes makes `save` raise; that source
      and every later one are untouched, and the staged list and both maps
      are kept. */
  lemma SaveRefusesReadOnly(c: Config, f: int, search: Matcher, now: Timestamp)
    requires 0 <= f < |c.sources| && Blocks(c.sources[f], c.staged)
    ensures var r := Save(c, search, now);
      && r.error.Some? && r.error.value.NotWritable?
      && (forall i :: f <= i < |c.sources| ==> r.state.sources[i] == c.sources[i])
      && r.state.staged == c.staged && r.state.effective == c.effective && r.state.provenance == c.provenance
  {
    CommitGroupsSpec(c.sources, c.staged);
  }

  /** A staged change aimed at an id no registered source has is dropped
      silently: `save` commits and fails exactly as without it. */
  lemma OrphanChangeDropped(c: Config, ch: ConfigChange)
    requires forall i :: 0 <= i < |c.sources| ==> c.sources[i].source.id != ch.target
    ensures CommitGroups(c.sources, c.staged + [ch]) == CommitGroups(c.sources, c.staged)
  {
    forall i | 0 <= i < |c.sources|
      ensures Group(c.staged + [ch], c.sources[i].source.id) == Group(c.staged, c.sources[i].source.id)
    {
      GroupSnoc(c.staged, ch, c.sources[i].source.id);
    }
    CommitGroupsSame(c.sources, c.staged, c.staged + [ch]);
  }

  /** Two staged lists that give every registered source the same group
      commit identically. */
  lemma {:induction false} CommitGroupsSame(rss: seq<RegisteredSource>, a: seq<ConfigChange>, b: seq<ConfigChange>)
    requires forall i :: 0 <= i < |rss| ==> Group(a, rss[i].source.id) == Group(b, rss[i].source.id)
    ensures CommitGroups(rss, a) == CommitGroups(rss, b)
    decreases |rss|
  {
    if |rss| > 0 {
      assert Group(a, rss[0].source.id) == Group(b, rss[0].source.id);
      assert forall i :: 0 <= i < |rss[1..]| ==> rss[1..][i] == rss[i + 1];
      CommitGroupsSame(rss[1..], a, b);
    }
  }

  /** The write path round trip: after a successful `set` and a successful
      `save`, every registered source with the resolved target id stores the
      value under the key, whatever it had staged of its own. */
  lemma SetThenSaveWrites(c: Config, key: string, v: Value, hint: Option<string>, search: Matcher, now: Timestamp, i: int)
    requires v != Null
    requires 0 <= i < |c.sources|
    requires Set(c, key, v, hint, search, now).error.None?
    requires c.sources[i].source.id == ResolveTarget(EnsureLoaded(c, search, now), key, hint).value
    ensures var s := Save(Set(c, key, v, hint, search, now).state, search, now);
      s.error.None? ==> key in s.state.sources[i].source.store && s.state.sources[i].source.store[key] == v
  {
    var a := Set(c, key, v, hint, search, now).state;
    var t := c.sources[i].source.id;
    var ch := SetChange(key, v, t);
    assert a.staged == c.staged + [ch];
    GroupSnoc(c.staged, ch, t);
    var g := Group(a.staged, t);
    assert g[|g| - 1] == ch;
    assert LastChangeFor(g, key) == Some(ch);
    SaveSucceeds(a, search, now);
    PersistEffect(c.sources[i].source, g, key);
  }

  /** The removal round trip: after `unset` of a key with provenance and a
      successful `save`, every source with the provenance id no longer stores
      the key, whatever it had staged of its own. */
  lemma UnsetThenSaveDeletes(c: Config, key: string, search: Matcher, now: Timestamp, i: int)
    requires key in EnsureLoaded(c, search, now).provenance
    requires 0 <= i < |c.sources|
    requires c.sources[i].source.id == EnsureLoaded(c, search, now).provenance[key].sourceId
    ensures var s := Save(Unset(c, key, search, now), search, now);
      s.error.None? ==> key !in s.state.sources[i].source.store
  {
    var u := Unset(c, key, search, now);
    var t := c.sources[i].source.id;
    var ch := UnsetChange(key, t);
    assert u.staged == c.staged + [ch];
    GroupSnoc(c.staged, ch, t);
    var g := Group(u.staged, t);
    assert LastChangeFor(g, key) == Some(ch);
    SaveSucceeds(u, search, now);
    PersistEffect(c.sources[i].source, g, key);
  }

  // -------------------------------------------------- target resolution

  /** Every provenance record names a registered source. */
  ghost predicate Tracked(c: Config) {
    forall k :: k in c.provenance ==>
      exists i :: 0 <= i < |c.sources| && c.sources[i].source.id == c.provenance[k].sourceId
  }

  /** Every provenance record written by materialising names a source of the config. */
  lemma MaterializeTracked(c: Config, search: Matcher, now: Timestamp)
    ensures Tracked(Materialize(c, search, now))
  {
    forall k | k in Materialize(c, search, now).provenance
      ensures exists i :: 0 <= i < |c.sources| && c.sources[i].source.id == Materialize(c, search, now).provenance[k].sourceId
    {
      NoInventedKeys(c.sources, search, now, k);
    }
  }

  /** Reads and local writes keep provenance pointing at registered sources. */
  lemma LocalOperationsKeepTracked(c: Config, key: string, v: Value, hint: Option<string>, search: Matcher, now: Timestamp)
    requires Tracked(c)
    ensures Tracked(NewConfig(c.sources))
    ensures Tracked(EnsureLoaded(c, search, now))
    ensures Tracked(Set(c, key, v, hint, search, now).state)
    ensures Tracked(Unset(c, key, search, now))
  {
    MaterializeTracked(c, search, now);
    assert Tracked(EnsureLoaded(c, search, now));
  }

  /** Removing and reloading sources rebuild the maps, so provenance again
      points at registered sources. */
  lemma RebuildsKeepTracked(c: Config, id: string, search: Matcher, now: Timestamp)
    ensures Tracked(RemoveSource(c, id, search, now))
    ensures Tracked(Reload(c, search, now))
  {
    RemoveKeepsTracked(c, id, search, now);
    ReloadKeepsTracked(c, search, now);
  }

  /** Removing a source keeps every provenance record pointing at a remaining source. */
  lemma RemoveKeepsTracked(c: Config, id: string, search: Matcher, now: Timestamp)
    ensures Tracked(RemoveSource(c, id, search, now))
  {
    var kept := c.(sources := Keep(c.sources, (rs: RegisteredSource) => rs.source.id != id),
                   staged := Keep(c.staged, (ch: ConfigChange) => ch.target != id));
    assert RemoveSource(c, id, search, now) == Materialize(kept, search, now);
    MaterializeTracked(kept, search, now);
  }

  /** Reloading keeps every provenance record pointing at a source of the config. */
  lemma ReloadKeepsTracked(c: Config, search: Matcher, now: Timestamp)
    ensures Tracked(Reload(c, search, now))
  {
    var refreshed := seq(|c.sources|, i requires 0 <= i < |c.sources| => c.sources[i].(source := c.sources[i].source.Reload()));
    assert Reload(c, search, now) == Materialize(c.(sources := refreshed), search, now);
    MaterializeTracked(c.(sources := refreshed), search, now);
  }

  /** `save` keeps provenance pointing at registered sources, whether it
      rebuilds the maps or raises and keeps them (source ids never change). */
  lemma SaveKeepsTracked(c: Config, search: Matcher, now: Timestamp)
    requires Tracked(c)
    ensures Tracked(Save(c, search, now).state)
  {
    var out := CommitGroups(c.sources, c.staged);
    var s := Save(c, search, now);
    if out.error.Some? {
      forall k | k in s.state.provenance
        ensures exists i :: 0 <= i < |s.state.sources| && s.state.sources[i].source.id == s.state.provenance[k].sourceId
      {
        var i :| 0 <= i < |c.sources| && c.sources[i].source.id == c.provenance[k].sourceId;
        assert s.state.sources[i].source.id == c.sources[i].source.id;
      }
    } else {
      MaterializeTracked(c.(sources := out.sources, staged := []), search, now);
    }
  }

  /** In a tracked config, a write without a hint always resolves to a
      registered source. */
  lemma ResolvedTargetRegistered(c: Config, key: string, hint: Option<string>)
    requires Tracked(c) && !HintGiven(hint)
    requires ResolveTarget(c, key, hint).Ok?
    ensures exists i :: 0 <= i < |c.sources| && c.sources[i].source.id == ResolveTarget(c, key, hint).value
  {
    if key !in c.provenance {
      assert c.sources[0].source.id == ResolveTarget(c, key, hint).value;
    }
  }

  /** With no registered sources a write has nowhere to go. */
  lemma NoSourcesWriteFails(key: string, v: Value, search: Matcher, now: Timestamp)
    ensures Set(NewConfig([]), key, v, None, search, now).error == Some(NoSourcesRegistered)
  {
  }

  // ----------------------------------------------------------------- quirks

  /** A key set locally (no provenance) and then unset leaves its `set`
      change staged: the next `save` still writes it. */
  lemma LocalSetThenUnsetKeepsChange(c: Config, key: string, v: Value, hint: Option<string>, search: Matcher, now: Timestamp)
    requires Set(c, key, v, hint, search, now).error.None?
    requires key !in EnsureLoaded(c, search, now).provenance
    ensures var a := Set(c, key, v, hint, search, now).state; var u := Unset(a, key, search, now);
      && key !in u.effective
      && u.staged == c.staged + [SetChange(key, v, ResolveTarget(EnsureLoaded(c, search, now), key, hint).value)]
  {
  }

  /** Unsetting the only effective key empties the map, and the next read
      takes the empty map for "not loaded": it re-merges the sources and the
      key comes back if any source still supplies it. */
  lemma UnsetLastKeyResurrects(c: Config, key: string, v: Value, search: Matcher, now: Timestamp)
    requires c.effective == map[key := v] && key in c.provenance
    ensures Unset(c, key, search, now).effective == map[]
    ensures Get(Unset(c, key, search, now), key, None, search, now).value
      == (if key in MergeSources(c.sources, search, now).effective
          then Some(MergeSources(c.sources, search, now).effective[key]) else None)
  {
    var u := Unset(c, key, search, now);
    assert u.effective.Keys == {};
  }

  /** After a save, unsetting a key no source supplies stages nothing. */
  lemma UnsetUnsuppliedStagesNothing(c: Config, key: string, search: Matcher, now: Timestamp)
    requires Save(c, search, now).error.None?
    requires forall i :: 0 <= i < |c.sources| ==> key !in Contribution(Save(c, search, now).state.sources[i], search)
    ensures Unset(Save(c, search, now).state, key, search, now).staged == []
  {
    var s := Save(c, search, now).state;
    SaveSucceeds(c, search, now);
    LastSourceWins(s.sources, search, now, key);
  }

  // ------------------------------------------------------------ GitHub diff

  /** The remote after the diff: deletions dropped, settings written. */
  function ApplyDiff(remote: map<string, Value>, d: Diff): map<string, Value> {
    (map k | k in remote && k !in d.toDelete :: remote[k]) + d.toSet
  }

  /** Applying the dry-run diff to the remote yields the merged values,
      except that a merged `None` the remote lacks reads as equal and is
      neither set nor present afterwards. */
  lemma DryRunDiffReachesMerged(c: Config, uri: string, token: Option<string>, envToken: Option<string>,
                                remote: map<string, Value>, search: Matcher, now: Timestamp)
    ensures var r := SaveToGitHubDryRun(c, uri, token, envToken, remote, search, now);
      r.value.Ok? ==>
      var after := ApplyDiff(remote, r.value.value); var merged := r.state.effective;
      && (forall k :: k in after ==> k in merged && after[k] == merged[k])
      && (forall k :: k in merged ==> (k in after <==> k in remote || merged[k] != Null))
  {
  }
}
