/** The configuration orchestrator (`core/config.py`): a state machine over
    the registered sources, the effective and provenance maps, and the list of
    staged changes. Every operation returns the next state; an operation that
    raises in Python returns the state it left behind together with the error. */
module Configs {
  import opened Wrappers
  import opened Types
  import opened Filters
  import opened Sources
  import opened Merge
  import opened Seqs
  import GitHubEnv

  datatype Config = Config(
    sources: seq<RegisteredSource>,
    effective: map<string, Value>,
    provenance: map<string, ProvenanceRecord>,
    staged: seq<ConfigChange>)

  /** The state after a read: the (possibly just materialized) config and the answer. */
  datatype Read<T> = Read(state: Config, value: T)

  /** The state after a mutation, and the error it raised, if any. */
  datatype Attempt = Attempt(state: Config, error: Option<Error>)

  /** `Config(registered_sources)`: both maps empty, nothing staged. */
  function NewConfig(rss: seq<RegisteredSource>): (c: Config)
    ensures c.sources == rss && c.effective == map[] && c.provenance == map[] && c.staged == []
  {
    Config(rss, map[], map[], [])
  }

  // ------------------------------------------------------------------ reads

  /** `materialize()`: both maps are rebuilt from the sources; nothing else changes. */
  function Materialize(c: Config, search: Matcher, now: Timestamp): (r: Config)
    ensures r.sources == c.sources && r.staged == c.staged
    ensures r.effective.Keys == r.provenance.Keys
  {
    var m := MergeSources(c.sources, search, now);
    c.(effective := m.effective, provenance := m.provenance)
  }

  /** The lazy-load guard of every read and write: an empty effective map is
      taken to mean "not loaded yet". */
  function EnsureLoaded(c: Config, search: Matcher, now: Timestamp): (r: Config)
    ensures r.sources == c.sources && r.staged == c.staged
    ensures |c.effective| > 0 ==> r == c
  {
    if |c.effective| == 0 then Materialize(c, search, now) else c
  }

  /** `values()`: a copy of the effective map, loading it first if it is empty. */
  function Values(c: Config, search: Matcher, now: Timestamp): (r: Read<map<string, Value>>)
    ensures r.state == EnsureLoaded(c, search, now) && r.value == r.state.effective
    ensures |c.effective| > 0 ==> r.state == c && r.value == c.effective
  {
    var s := EnsureLoaded(c, search, now);
    Read(s, s.effective)
  }

  /** `get(key, default)`: the effective value, or the default for a missing key. */
  function Get(c: Config, key: string, default: Option<Value>, search: Matcher, now: Timestamp): (r: Read<Option<Value>>)
    ensures r.state == EnsureLoaded(c, search, now)
    ensures key in r.state.effective ==> r.value == Some(r.state.effective[key])
    ensures key !in r.state.effective ==> r.value == default
  {
    var s := EnsureLoaded(c, search, now);
    Read(s, if key in s.effective then Some(s.effective[key]) else default)
  }

  /** `provenance(key)`: the record of the source that supplied the key, if any. */
  function ProvenanceOf(c: Config, key: string, search: Matcher, now: Timestamp): (r: Read<Option<ProvenanceRecord>>)
    ensures r.state == EnsureLoaded(c, search, now)
    ensures r.value.Some? <==> key in r.state.provenance
    ensures r.value.Some? ==> r.value.value == r.state.provenance[key]
  {
    var s := EnsureLoaded(c, search, now);
    Read(s, if key in s.provenance then Some(s.provenance[key]) else None)
  }

  // ----------------------------------------------------------------- writes

  /** A hint counts only when it is a non-empty string (Python truthiness). */
  predicate HintGiven(hint: Option<string>) {
    hint.Some? && hint.value != ""
  }

  /** `_resolve_target_source_id`: the hint, else the source the key came from,
      else the first registered source, else `ValueError`. */
  function ResolveTarget(c: Config, key: string, hint: Option<string>): (r: Result<string, Error>)
    ensures HintGiven(hint) ==> r == Ok(hint.value)
    ensures !HintGiven(hint) && key in c.provenance ==> r == Ok(c.provenance[key].sourceId)
    ensures !HintGiven(hint) && key !in c.provenance && |c.sources| > 0 ==> r == Ok(c.sources[0].source.id)
    ensures r.Err? <==> !HintGiven(hint) && key !in c.provenance && |c.sources| == 0
    ensures r.Err? ==> r.error == NoSourcesRegistered
  {
    if HintGiven(hint) then Ok(hint.value)
    else if key in c.provenance then Ok(c.provenance[key].sourceId)
    else if |c.sources| == 0 then Err(NoSourcesRegistered)
    else Ok(c.sources[0].source.id)
  }

  /** `set(key, value, source)`: the target is resolved before anything else
      changes; on success the value is visible at once and exactly one `set`
      change is appended. */
  function Set(c: Config, key: string, v: Value, hint: Option<string>, search: Matcher, now: Timestamp): (r: Attempt)
    ensures var m := EnsureLoaded(c, search, now);
      && r.state.sources == c.sources
      && r.state.provenance == m.provenance
      && (r.error.Some? <==> ResolveTarget(m, key, hint).Err?)
      && (r.error.Some? ==> r.state == m && r.state.staged == c.staged && r.error == Some(NoSourcesRegistered))
      && (r.error.None? ==>
            && key in r.state.effective && r.state.effective[key] == v
            && (forall k :: k != key ==> (k in r.state.effective <==> k in m.effective))
            && (forall k :: k != key && k in m.effective ==> r.state.effective[k] == m.effective[k])
            && r.state.staged == c.staged + [SetChange(key, v, ResolveTarget(m, key, hint).value)])
  {
    Assign(EnsureLoaded(c, search, now), key, v, hint)
  }

  /** The write of `set` on the loaded view. */
  function Assign(m: Config, key: string, v: Value, hint: Option<string>): (r: Attempt)
    ensures r.state.sources == m.sources && r.state.provenance == m.provenance
    ensures r.error.Some? <==> ResolveTarget(m, key, hint).Err?
    ensures r.error.Some? ==> r.state == m && r.error == Some(NoSourcesRegistered)
    ensures r.error.None? ==>
      && key in r.state.effective && r.state.effective[key] == v
      && (forall k :: k != key ==> (k in r.state.effective <==> k in m.effective))
      && (forall k :: k != key && k in m.effective ==> r.state.effective[k] == m.effective[k])
      && r.state.staged == m.staged + [SetChange(key, v, ResolveTarget(m, key, hint).value)]
  {
    match ResolveTarget(m, key, hint)
    case Err(e) => Attempt(m, Some(e))
    case Ok(target) =>
      Attempt(m.(effective := m.effective[key := v], staged := m.staged + [SetChange(key, v, target)]), None)
  }

  /** `unset(key)`: the key leaves the view; a removal is staged against the
      source the key came from, and nothing is staged for a key with no
      provenance. */
  function Unset(c: Config, key: string, search: Matcher, now: Timestamp): (r: Config)
    ensures var m := EnsureLoaded(c, search, now);
      && r.sources == c.sources && r.provenance == m.provenance
      && key !in r.effective
      && (forall k :: k != key ==> (k in r.effective <==> k in m.effective))
      && (forall k :: k != key && k in m.effective ==> r.effective[k] == m.effective[k])
      && (key in m.provenance ==> r.staged == c.staged + [UnsetChange(key, m.provenance[key].sourceId)])
      && (key !in m.provenance ==> r.staged == c.staged)
  {
    var m := EnsureLoaded(c, search, now);
    if key !in m.provenance then m.(effective := m.effective - {key})
    else m.(effective := m.effective - {key}, staged := m.staged + [UnsetChange(key, m.provenance[key].sourceId)])
  }

  /** `remove_source(id)`: every source with that id and every change aimed at
      it is dropped, then the maps are rebuilt. */
  function RemoveSource(c: Config, id: string, search: Matcher, now: Timestamp): (r: Config)
    ensures forall i :: 0 <= i < |r.sources| ==> r.sources[i].source.id != id
    ensures forall rs :: rs in r.sources <==> rs in c.sources && rs.source.id != id
    ensures forall ch :: ch in r.staged <==> ch in c.staged && ch.target != id
    ensures r.staged == Keep(c.staged, (ch: ConfigChange) => ch.target != id)
    ensures r.effective.Keys == r.provenance.Keys
    ensures r == Materialize(r, search, now)
  {
    var kept := c.(sources := Keep(c.sources, (rs: RegisteredSource) => rs.source.id != id),
                   staged := Keep(c.staged, (ch: ConfigChange) => ch.target != id));
    Materialize(kept, search, now)
  }

  /** `reload()`: every source re-reads its backing storage, then the maps are rebuilt. */
  function Reload(c: Config, search: Matcher, now: Timestamp): (r: Config)
    ensures |r.sources| == |c.sources|
    ensures forall i :: 0 <= i < |c.sources| ==> r.sources[i] == c.sources[i].(source := c.sources[i].source.Reload())
    ensures r.staged == c.staged
    ensures r == Materialize(r, search, now)
  {
    var refreshed := seq(|c.sources|, i requires 0 <= i < |c.sources| => c.sources[i].(source := c.sources[i].source.Reload()));
    Materialize(c.(sources := refreshed), search, now)
  }

  // ------------------------------------------------------------------- save

  /** The staged changes aimed at one source id, in staged order. */
  function Group(staged: seq<ConfigChange>, id: string): (g: seq<ConfigChange>)
    ensures forall i :: 0 <= i < |g| ==> g[i].target == id
    ensures forall ch :: ch in g <==> ch in staged && ch.target == id
  {
    Keep(staged, (ch: ConfigChange) => ch.target == id)
  }

  /** Hands one change to a source: `set` or `unset` on it. */
  function ApplyChange(src: Source, ch: ConfigChange): Source {
    if ch.op == SetOp then src.Set(ch.key, ch.value.GetOr(Null)) else src.Unset(ch.key)
  }

  /** Hands a group to a source in order. */
  function ApplyChanges(src: Source, changes: seq<ConfigChange>): (r: Source)
    ensures r.store == src.store && r.id == src.id
    decreases |changes|
  {
    if |changes| == 0 then src
    else ApplyChange(ApplyChanges(src, changes[..|changes| - 1]), changes[|changes| - 1])
  }

  /** What `save` does to one source with a pending group: apply, then persist. */
  function Persist(src: Source, changes: seq<ConfigChange>): (r: Source)
    ensures r.id == src.id && r.staged == map[]
  {
    ApplyChanges(src, changes).Save()
  }

  datatype Commit = Commit(sources: seq<RegisteredSource>, error: Option<Error>)

  /** The pass of `save` over the registered sources, in registration order: a
      source with no pending changes is skipped, a read-only source with
      pending changes stops the pass with `PermissionError`, any other source
      with pending changes is persisted. Sources already persisted stay so. */
  function CommitGroups(rss: seq<RegisteredSource>, staged: seq<ConfigChange>): (r: Commit)
    ensures |r.sources| == |rss|
    ensures forall i :: 0 <= i < |rss| ==> r.sources[i].source.id == rss[i].source.id
    decreases |rss|
  {
    if |rss| == 0 then Commit([], None)
    else
      var g := Group(staged, rss[0].source.id);
      if |g| == 0 then
        var rest := CommitGroups(rss[1..], staged);
        Commit([rss[0]] + rest.sources, rest.error)
      else if !rss[0].isWritable then Commit(rss, Some(NotWritable(rss[0].source.id)))
      else
        var rest := CommitGroups(rss[1..], staged);
        Commit([rss[0].(source := Persist(rss[0].source, g))] + rest.sources, rest.error)
  }

  /** `save()`: commit every group; on success clear the staged list and
      rebuild the maps, on a permission error keep both as they were. */
  function Save(c: Config, search: Matcher, now: Timestamp): (r: Attempt)
    ensures r.error.None? ==> r.state.staged == [] && r.state.effective.Keys == r.state.provenance.Keys
    ensures r.error.Some? ==> r.state.staged == c.staged && r.state.effective == c.effective && r.state.provenance == c.provenance
    ensures |r.state.sources| == |c.sources|
    ensures forall i :: 0 <= i < |c.sources| ==> r.state.sources[i].source.id == c.sources[i].source.id
  {
    var out := CommitGroups(c.sources, c.staged);
    if out.error.Some? then Attempt(c.(sources := out.sources), out.error)
    else Attempt(Materialize(c.(sources := out.sources, staged := []), search, now), None)
  }

  /** A diff for pushing the merged values to a remote variable set. */
  datatype Diff = Diff(toSet: map<string, Value>, toDelete: set<string>)

  /** `gh.get(k)`: a missing remote variable reads as `None`. */
  function RemoteGet(remote: map<string, Value>, k: string): (r: Value)
    ensures k !in remote ==> r == Null
    ensures k in remote ==> r == remote[k]
  {
    if k in remote then remote[k] else Null
  }

  /** The dry run of `save_to_github`: the merged values are read first;
      then the GitHub adapter is built from the URI, the explicit token and
      `envToken` (the `GITHUB_TOKEN` variable), which raises when the URI is
      malformed or no token is available; otherwise set every merged key
      whose remote reading differs and delete every remote key the merge
      lacks. */
  function SaveToGitHubDryRun(c: Config, uri: string, token: Option<string>, envToken: Option<string>,
                              remote: map<string, Value>, search: Matcher, now: Timestamp): (r: Read<Result<Diff, Error>>)
    ensures r.state == EnsureLoaded(c, search, now)
    ensures r.value.Err? <==> GitHubEnv.ParseUri(uri, token, envToken).Err?
    ensures r.value.Err? ==> r.value.error == GitHubEnv.ParseUri(uri, token, envToken).error
    ensures r.value.Ok? ==>
      && (forall k :: k in r.value.value.toSet <==> k in r.state.effective && RemoteGet(remote, k) != r.state.effective[k])
      && (forall k :: k in r.value.value.toSet ==> r.value.value.toSet[k] == r.state.effective[k])
      && (forall k :: k in r.value.value.toDelete <==> k in remote && k !in r.state.effective)
  {
    var merged := Values(c, search, now);
    match GitHubEnv.ParseUri(uri, token, envToken)
    case Err(e) => Read(merged.state, Err(e))
    case Ok(_) =>
      var toSet := map k | k in merged.value && RemoteGet(remote, k) != merged.value[k] :: merged.value[k];
      var toDelete := set k | k in remote && k !in merged.value;
      Read(merged.state, Ok(Diff(toSet, toDelete)))
  }
}
