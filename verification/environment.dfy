/** A named environment (`core/environment.py`): the choice of adapter for a
    path or URI, the registration list whose order is merge precedence, the
    sources read from `confetti.yaml` ahead of the explicit ones, and the
    materialized configuration over the list. Whether a path exists is I/O
    and is passed in; building an adapter is I/O too, so `GetConfig`
    receives the constructor as a parameter. */
module Environments {
  import opened Wrappers
  import opened Types
  import opened Filters
  import opened Sources
  import opened Merge
  import opened Configs
  import opened ConfigLoader
  import opened Text
  import opened Seqs
  import GitHubEnv

  /** The adapters the dispatch chooses between. */
  datatype Kind = RedisKind | EnvFileKind | IniKind | YamlKind | JsonKind | GitHubKind

  /** The suffixes the file rules recognise, after lower-casing. */
  predicate KnownSuffix(lowered: string) {
    lowered == ".ini" || lowered == ".yaml" || lowered == ".yml" || lowered == ".json"
  }

  /** `_create_source`: `redis://` first; then an existing path with suffix
      `.env` or none; then the `.ini`, `.yaml`/`.yml` and `.json` suffixes in
      any case, existing or not; then any existing path; then `github://`,
      whose adapter constructor parses the URI with no explicit token and
      `envToken` (the `GITHUB_TOKEN` variable) and raises when that fails;
      anything else is unsupported. */
  function CreateSource(s: string, onDisk: bool, envToken: Option<string>, suffix: string): (r: Result<Kind, Error>)
    ensures StartsWith(s, "redis://") ==> r == Ok(RedisKind)
    ensures r.Err? <==>
      && !StartsWith(s, "redis://") && !onDisk && !KnownSuffix(Lower(suffix))
      && (StartsWith(s, "github://") ==> GitHubEnv.ParseUri(s, None, envToken).Err?)
    ensures r.Err? && !StartsWith(s, "github://") ==> r.error == UnsupportedSource(s)
    ensures r.Err? && StartsWith(s, "github://") ==> r.error == GitHubEnv.ParseUri(s, None, envToken).error
    ensures r == Ok(GitHubKind) <==>
      && !StartsWith(s, "redis://") && !onDisk && !KnownSuffix(Lower(suffix))
      && GitHubEnv.ParseUri(s, None, envToken).Ok?
    ensures r == Ok(EnvFileKind) ==> onDisk
    ensures !StartsWith(s, "redis://") && KnownSuffix(Lower(suffix)) ==> r.Ok? && r.value in {IniKind, YamlKind, JsonKind, EnvFileKind}
  {
    var low := Lower(suffix);
    if StartsWith(s, "redis://") then Ok(RedisKind)
    else if (suffix == ".env" || suffix == "") && onDisk then Ok(EnvFileKind)
    else if low == ".ini" then Ok(IniKind)
    else if low == ".yaml" || low == ".yml" then Ok(YamlKind)
    else if low == ".json" then Ok(JsonKind)
    else if onDisk then Ok(EnvFileKind)
    else if StartsWith(s, "github://") then
      match GitHubEnv.ParseUri(s, None, envToken)
      case Err(e) => Err(e)
      case Ok(_) => Ok(GitHubKind)
    else Err(UnsupportedSource(s))
  }

  /** The dispatch does not depend on the case of the suffix: the only
      case-sensitive rule (`.env` on an existing path) is backed up by the
      rule for any existing path. */
  lemma DispatchIgnoresSuffixCase(s: string, onDisk: bool, envToken: Option<string>, suffix: string)
    ensures CreateSource(s, onDisk, envToken, suffix) == CreateSource(s, onDisk, envToken, Lower(suffix))
  {
    LowerIdempotent(suffix);
    var low := Lower(suffix);
    if low == ".env" {
      assert low == ".env";
    }
  }

  /** An existing `.ini`, `.yaml`, `.yml` or `.json` file goes to its adapter
      even though it exists, and a known suffix beats a `github://` scheme. */
  lemma SuffixRulesBeatExistenceAndGitHub(s: string, onDisk: bool, envToken: Option<string>, suffix: string)
    requires !StartsWith(s, "redis://")
    ensures Lower(suffix) == ".ini" ==> CreateSource(s, onDisk, envToken, suffix) == Ok(IniKind)
    ensures Lower(suffix) in {".yaml", ".yml"} ==> CreateSource(s, onDisk, envToken, suffix) == Ok(YamlKind)
    ensures Lower(suffix) == ".json" ==> CreateSource(s, onDisk, envToken, suffix) == Ok(JsonKind)
  {
    if suffix == ".env" || suffix == "" {
      assert Lower(suffix) == suffix;
    }
  }

  /** The last path component, as `pathlib` names it: empty and `.`
      components are ignored. */
  function PathName(s: string): (name: string)
    ensures !HasChar(name, '/')
  {
    var parts := Keep(Split(s, '/'), (p: string) => p != "" && p != ".");
    if |parts| == 0 then ""
    else
      assert parts[|parts| - 1] in Split(s, '/');
      parts[|parts| - 1]
  }

  /** `Path(s).suffix`: from the last `.` of the name, unless that dot starts
      or ends the name. */
  function PathSuffix(s: string): (r: string)
    ensures r == "" || (|r| >= 2 && r[0] == '.' && !HasChar(r, '/') && !HasChar(r[1..], '.'))
  {
    var name := PathName(s);
    match LastIndexOf(name, '.')
    case None => ""
    case Some(i) =>
      if 0 < i < |name| - 1 then
        var r := name[i..];
        assert !HasChar(r[1..], '.') by {
          forall j | 0 <= j < |r[1..]| ensures r[1..][j] != '.' { assert r[1..][j] == name[i + 1 + j]; }
        }
        assert !HasChar(r, '/') by {
          forall j | 0 <= j < |r| ensures r[j] != '/' { assert r[j] == name[i + j]; }
        }
        r
      else ""
  }

  /** What a registration builds its source from: an adapter chosen by the
      dispatch, or a ready-made source. */
  datatype Origin = Made(kind: Kind, location: string, name: Option<string>) | Given(source: Source)

  datatype Registration = Registration(origin: Origin, filter: Option<Filter>, depth: Option<int>, isWritable: bool)

  datatype Environment = Environment(name: string, registered: seq<Registration>)

  /** `Environment(name)` in the form without a configuration file. */
  function Bare(name: string): (env: Environment)
    ensures env.name == name && env.registered == []
  {
    Environment(name, [])
  }

  /** `register_source`: a dispatch failure raises and registers nothing;
      otherwise one registration is appended, writable unless told otherwise. */
  function RegisterSource(env: Environment, loc: string, onDisk: bool, envToken: Option<string>, flt: Option<Filter>, depth: Option<int>,
                          name: Option<string>, isWritable: Option<bool>): (r: Result<Environment, Error>)
    ensures r.Err? <==> CreateSource(loc, onDisk, envToken, PathSuffix(loc)).Err?
    ensures r.Err? ==> r.error == CreateSource(loc, onDisk, envToken, PathSuffix(loc)).error
    ensures r.Ok? ==> r.value.name == env.name
    ensures r.Ok? ==>
      var kind := CreateSource(loc, onDisk, envToken, PathSuffix(loc)).value;
      r.value.registered == env.registered + [Registration(Made(kind, loc, name), flt, depth, isWritable != Some(false))]
  {
    match CreateSource(loc, onDisk, envToken, PathSuffix(loc))
    case Err(e) => Err(e)
    case Ok(kind) =>
      var writable := if isWritable.None? then true else isWritable.value;
      Ok(env.(registered := env.registered + [Registration(Made(kind, loc, name), flt, depth, writable)]))
  }

  /** The position of the first failed dispatch, or `|ds|` when none failed. */
  function FirstFailure(ds: seq<Result<Kind, Error>>): (n: nat)
    ensures n <= |ds|
    ensures n < |ds| ==> ds[n].Err?
    ensures forall i :: 0 <= i < n ==> ds[i].Ok?
  {
    if |ds| == 0 then 0
    else if ds[0].Err? then 0
    else 1 + FirstFailure(ds[1..])
  }

  /** The dispatch applied to every location. */
  function DispatchAll(locs: seq<string>, onDisk: string -> bool, envToken: Option<string>): (ds: seq<Result<Kind, Error>>)
    ensures |ds| == |locs|
    ensures forall i :: 0 <= i < |locs| ==> ds[i] == CreateSource(locs[i], onDisk(locs[i]), envToken, PathSuffix(locs[i]))
  {
    seq(|locs|, i requires 0 <= i < |locs| => CreateSource(locs[i], onDisk(locs[i]), envToken, PathSuffix(locs[i])))
  }

  /** The default registration of a location the dispatch accepted. */
  function Plain(kind: Kind, loc: string): Registration {
    Registration(Made(kind, loc, None), None, None, true)
  }

  /** The default registrations of locations the dispatch accepted, in order. */
  function PlainAll(ds: seq<Result<Kind, Error>>, locs: seq<string>): (regs: seq<Registration>)
    requires |ds| == |locs| && forall i :: 0 <= i < |ds| ==> ds[i].Ok?
    ensures |regs| == |ds|
    ensures forall i :: 0 <= i < |ds| ==> regs[i].origin == Made(ds[i].value, locs[i], None)
  {
    seq(|ds|, i requires 0 <= i < |ds| => Plain(ds[i].value, locs[i]))
  }

  /** `register_sources` over the dispatch outcomes: every location before
      the first failure is registered with the defaults, in order, and the
      failure, if any, is reported. */
  function RegisterKinds(env: Environment, locs: seq<string>, ds: seq<Result<Kind, Error>>): (r: (Environment, Option<Error>))
    requires |ds| == |locs|
  {
    var n := FirstFailure(ds);
    (env.(registered := env.registered + PlainAll(ds[..n], locs[..n])), if n < |ds| then Some(ds[n].error) else None)
  }

  /** `register_sources`: one registration per location, in order; the first
      location no adapter accepts raises, and the registrations before it remain. */
  function RegisterSources(env: Environment, locs: seq<string>, onDisk: string -> bool, envToken: Option<string>): (r: (Environment, Option<Error>))
    ensures r.0.name == env.name
    ensures r.1.None? <==> forall i :: 0 <= i < |locs| ==> CreateSource(locs[i], onDisk(locs[i]), envToken, PathSuffix(locs[i])).Ok?
    ensures r.1.Some? ==> exists i :: 0 <= i < |locs| && CreateSource(locs[i], onDisk(locs[i]), envToken, PathSuffix(locs[i])) == Err(r.1.value)
    ensures |env.registered| <= |r.0.registered| <= |env.registered| + |locs|
    ensures r.1.None? ==> |r.0.registered| == |env.registered| + |locs|
    ensures r.0.registered[..|env.registered|] == env.registered
    ensures forall i :: |env.registered| <= i < |r.0.registered| ==>
      r.0.registered[i].origin.Made? && r.0.registered[i].origin.location == locs[i - |env.registered|]
  {
    var ds := DispatchAll(locs, onDisk, envToken);
    RegisterKindsOutcome(env, locs, ds);
    RegisterKindsLayout(env, locs, ds);
    RegisterKinds(env, locs, ds)
  }

  /** What `RegisterKinds` reports: nothing exactly when every dispatch
      succeeded, otherwise the error of a failed dispatch. */
  lemma RegisterKindsOutcome(env: Environment, locs: seq<string>, ds: seq<Result<Kind, Error>>)
    requires |ds| == |locs|
    ensures var r := RegisterKinds(env, locs, ds);
      && (r.1.None? <==> forall i :: 0 <= i < |ds| ==> ds[i].Ok?)
      && (r.1.Some? ==> exists i :: 0 <= i < |ds| && ds[i].Err? && r.1.value == ds[i].error)
  {
    var n := FirstFailure(ds);
    if n < |ds| {
      assert ds[n].Err?;
    }
  }

  /** What `RegisterKinds` registers: the earlier registrations, then one
      per location up to the first failure, each made from its location. */
  lemma RegisterKindsLayout(env: Environment, locs: seq<string>, ds: seq<Result<Kind, Error>>)
    requires |ds| == |locs|
    ensures var r := RegisterKinds(env, locs, ds);
      && r.0.name == env.name
      && |env.registered| <= |r.0.registered| <= |env.registered| + |locs|
      && (r.1.None? ==> |r.0.registered| == |env.registered| + |locs|)
      && r.0.registered[..|env.registered|] == env.registered
      && forall i :: |env.registered| <= i < |r.0.registered| ==>
           r.0.registered[i].origin.Made? && r.0.registered[i].origin.location == locs[i - |env.registered|]
  {
    var n := FirstFailure(ds);
    AppendedOrigins(env.registered, PlainAll(ds[..n], locs[..n]), locs, n);
  }

  /** Registrations made from the first `n` locations, appended after a
      prefix, carry those locations in order. */
  lemma AppendedOrigins(prefix: seq<Registration>, added: seq<Registration>, locs: seq<string>, n: nat)
    requires n <= |locs| && |added| == n
    requires forall i :: 0 <= i < n ==> added[i].origin.Made? && added[i].origin.location == locs[..n][i]
    ensures (prefix + added)[..|prefix|] == prefix
    ensures forall i :: |prefix| <= i < |prefix + added| ==>
      (prefix + added)[i].origin.Made? && (prefix + added)[i].origin.location == locs[i - |prefix|]
  {
    assert (prefix + added)[..|prefix|] == prefix;
    forall i | |prefix| <= i < |prefix + added|
      ensures (prefix + added)[i].origin.Made? && (prefix + added)[i].origin.location == locs[i - |prefix|]
    {
      assert (prefix + added)[i] == added[i - |prefix|];
    }
  }

  /** Registering a run of accepted locations: the first one, then the rest. */
  lemma PlainAllCons(ds: seq<Result<Kind, Error>>, locs: seq<string>, n: nat)
    requires 0 < n <= |ds| == |locs| && forall i :: 0 <= i < n ==> ds[i].Ok?
    ensures PlainAll(ds[..n], locs[..n]) == [Plain(ds[0].value, locs[0])] + PlainAll(ds[1..][..n - 1], locs[1..][..n - 1])
  {
    var l := PlainAll(ds[..n], locs[..n]);
    var r := [Plain(ds[0].value, locs[0])] + PlainAll(ds[1..][..n - 1], locs[1..][..n - 1]);
    forall i | 0 <= i < n ensures l[i] == r[i] {
      if i > 0 {
        assert ds[1..][..n - 1][i - 1] == ds[i] && locs[1..][..n - 1][i - 1] == locs[i];
      }
    }
  }

  /** `register_sources` is `register_source` with the defaults, location by
      location, stopping at the first error. */
  lemma RegisterSourcesStep(env: Environment, locs: seq<string>, onDisk: string -> bool, envToken: Option<string>)
    requires |locs| > 0
    ensures RegisterSources(env, locs, onDisk, envToken) ==
      match RegisterSource(env, locs[0], onDisk(locs[0]), envToken, None, None, None, None)
      case Err(e) => (env, Some(e))
      case Ok(env') => RegisterSources(env', locs[1..], onDisk, envToken)
  {
    var ds := DispatchAll(locs, onDisk, envToken);
    assert DispatchAll(locs[1..], onDisk, envToken) == ds[1..];
    RegisterKindsStep(env, locs, ds);
  }

  /** The `register_sources` loop over dispatch outcomes, one location at a time. */
  lemma RegisterKindsStep(env: Environment, locs: seq<string>, ds: seq<Result<Kind, Error>>)
    requires |ds| == |locs| > 0
    ensures ds[0].Err? ==> RegisterKinds(env, locs, ds) == (env, Some(ds[0].error))
    ensures ds[0].Ok? ==>
      RegisterKinds(env, locs, ds) ==
      RegisterKinds(env.(registered := env.registered + [Plain(ds[0].value, locs[0])]), locs[1..], ds[1..])
  {
    var n := FirstFailure(ds);
    if ds[0].Ok? {
      var m := FirstFailure(ds[1..]);
      assert n == 1 + m;
      var head := [Plain(ds[0].value, locs[0])];
      var tail := PlainAll(ds[1..][..m], locs[1..][..m]);
      PlainAllCons(ds, locs, n);
      assert env.registered + (head + tail) == (env.registered + head) + tail;
      if n < |ds| {
        assert ds[n] == ds[1..][m];
      }
    } else {
      assert n == 0 && ds[..n] == [] && locs[..n] == [];
      assert PlainAll(ds[..n], locs[..n]) == [];
      assert env.registered + [] == env.registered;
    }
  }

  /** A registration's `writable` value from the file: missing or null means
      writable, anything else is read for its truth. */
  predicate WritableFlag(w: Option<Tree>) {
    w.None? || w.value == Leaf(Null) || Truthy(w.value)
  }

  /** What one `confetti.yaml` source entry registers, or why it cannot. */
  function EntryRegistration(entry: Tree, onDisk: string -> bool, envToken: Option<string>): (r: Result<Registration, Error>)
  {
    match ParseSource(entry)
    case Err(e) => Err(e)
    case Ok(se) =>
      var loc := LocationText(se.location);
      match CreateSource(loc, onDisk(loc), envToken, PathSuffix(loc))
      case Err(e) => Err(e)
      case Ok(kind) => Ok(Registration(Made(kind, loc, se.name), se.filter, se.depth, WritableFlag(se.writable)))
  }

  /** One `confetti.yaml` source entry: parsed, then handed to
      `register_source`; it registers what its entry describes, or fails. */
  function RegisterEntry(env: Environment, entry: Tree, onDisk: string -> bool, envToken: Option<string>): (r: Result<Environment, Error>)
    ensures r.Err? <==> EntryRegistration(entry, onDisk, envToken).Err?
    ensures r.Err? ==> r.error == EntryRegistration(entry, onDisk, envToken).error
    ensures r.Ok? ==> r.value == env.(registered := env.registered + [EntryRegistration(entry, onDisk, envToken).value])
  {
    match ParseSource(entry)
    case Err(e) => Err(e)
    case Ok(se) =>
      var loc := LocationText(se.location);
      var w: Option<bool> := if se.writable.None? || se.writable.value == Leaf(Null) then None else Some(Truthy(se.writable.value));
      RegisterSource(env, loc, onDisk(loc), envToken, se.filter, se.depth, se.name, w)
  }

  /** The registrations of the entries that succeed, in order. */
  function Successes(ps: seq<Result<Registration, Error>>): (regs: seq<Registration>)
    ensures |regs| <= |ps|
    decreases |ps|
  {
    if |ps| == 0 then []
    else Successes(ps[..|ps| - 1]) + (if ps[|ps| - 1].Ok? then [ps[|ps| - 1].value] else [])
  }

  /** The successes of two runs of outcomes, one after the other. */
  lemma {:induction false} SuccessesConcat(a: seq<Result<Registration, Error>>, b: seq<Result<Registration, Error>>)
    ensures Successes(a + b) == Successes(a) + Successes(b)
    decreases |b|
  {
    if |b| == 0 {
      assert a + b == a;
    } else {
      assert (a + b)[..|a + b| - 1] == a + b[..|b| - 1];
      assert (a + b)[|a + b| - 1] == b[|b| - 1];
      SuccessesConcat(a, b[..|b| - 1]);
    }
  }

  /** Without failures every outcome contributes its registration. */
  lemma {:induction false} SuccessesAll(ps: seq<Result<Registration, Error>>)
    requires forall i :: 0 <= i < |ps| ==> ps[i].Ok?
    ensures |Successes(ps)| == |ps|
    ensures forall i :: 0 <= i < |ps| ==> Successes(ps)[i] == ps[i].value
    decreases |ps|
  {
    if |ps| > 0 {
      SuccessesAll(ps[..|ps| - 1]);
    }
  }

  /** How one entry would be registered, as a function of the entry. */
  function PlanOf(onDisk: string -> bool, envToken: Option<string>): Tree -> Result<Registration, Error> {
    e => EntryRegistration(e, onDisk, envToken)
  }

  /** How each entry would be registered, in order. */
  function Plans(entries: seq<Tree>, onDisk: string -> bool, envToken: Option<string>): (ps: seq<Result<Registration, Error>>)
    ensures |ps| == |entries|
  {
    Map(entries, PlanOf(onDisk, envToken))
  }

  /** `_load_from_config_file`'s loop: every entry in order, a failing one
      skipped with a warning. */
  function RegisterEntries(env: Environment, entries: seq<Tree>, onDisk: string -> bool, envToken: Option<string>): (r: Environment)
    ensures r.name == env.name
    ensures |env.registered| <= |r.registered| <= |env.registered| + |entries|
    ensures r.registered[..|env.registered|] == env.registered
  {
    var regs := Successes(Plans(entries, onDisk, envToken));
    assert (env.registered + regs)[..|env.registered|] == env.registered;
    env.(registered := env.registered + regs)
  }

  /** The loop as written: the environment so far, then the last entry
      registered or, if it fails, skipped. */
  lemma RegisterEntriesStep(env: Environment, entries: seq<Tree>, onDisk: string -> bool, envToken: Option<string>)
    requires |entries| > 0
    ensures var prev := RegisterEntries(env, entries[..|entries| - 1], onDisk, envToken);
      RegisterEntries(env, entries, onDisk, envToken) ==
        match RegisterEntry(prev, entries[|entries| - 1], onDisk, envToken)
        case Err(_) => prev
        case Ok(next) => next
  {
    var ps := Plans(entries, onDisk, envToken);
    MapPrefix(entries, PlanOf(onDisk, envToken), |entries| - 1);
    var prev := RegisterEntries(env, entries[..|entries| - 1], onDisk, envToken);
    assert prev.registered == env.registered + Successes(ps[..|ps| - 1]);
  }

  /** An entry that cannot be parsed or whose location no adapter accepts. */
  predicate EntryFails(entry: Tree, onDisk: string -> bool, envToken: Option<string>) {
    EntryRegistration(entry, onDisk, envToken).Err?
  }

  /** A failing entry is skipped: the result is what the other entries alone
      register. */
  lemma FailingEntrySkipped(env: Environment, entries: seq<Tree>, i: int, onDisk: string -> bool, envToken: Option<string>)
    requires 0 <= i < |entries| && EntryFails(entries[i], onDisk, envToken)
    ensures RegisterEntries(env, entries, onDisk, envToken) == RegisterEntries(env, entries[..i] + entries[i + 1..], onDisk, envToken)
  {
    var ps := Plans(entries, onDisk, envToken);
    MapDrop(entries, PlanOf(onDisk, envToken), i);
    SuccessesDrop(ps, i);
  }

  /** Dropping a failed plan changes no registration. */
  lemma SuccessesDrop(ps: seq<Result<Registration, Error>>, i: int)
    requires 0 <= i < |ps| && ps[i].Err?
    ensures Successes(ps[..i] + ps[i + 1..]) == Successes(ps)
  {
    var a := ps[..i];
    var b := ps[i + 1..];
    assert ps == (a + [ps[i]]) + b;
    calc {
      Successes(ps);
      { SuccessesConcat(a + [ps[i]], b); }
      Successes(a + [ps[i]]) + Successes(b);
      { SuccessesSnocFailed(a, ps[i]); }
      Successes(a) + Successes(b);
      { SuccessesConcat(a, b); }
      Successes(a + b);
    }
  }

  /** A failed plan at the end adds nothing. */
  lemma SuccessesSnocFailed(a: seq<Result<Registration, Error>>, p: Result<Registration, Error>)
    requires p.Err?
    ensures Successes(a + [p]) == Successes(a)
  {
    assert (a + [p])[..|a|] == a;
  }

  /** When no entry fails, every entry adds exactly the registration it
      describes, in order. */
  lemma AllEntriesRegister(env: Environment, entries: seq<Tree>, onDisk: string -> bool, envToken: Option<string>)
    requires forall i :: 0 <= i < |entries| ==> EntryRegistration(entries[i], onDisk, envToken).Ok?
    ensures var r := RegisterEntries(env, entries, onDisk, envToken);
      && |r.registered| == |env.registered| + |entries|
      && forall i :: 0 <= i < |entries| ==> r.registered[|env.registered| + i] == EntryRegistration(entries[i], onDisk, envToken).value
  {
    var ps := Plans(entries, onDisk, envToken);
    assert forall i :: 0 <= i < |ps| ==> ps[i].Ok?;
    SuccessesAll(ps);
    var r := RegisterEntries(env, entries, onDisk, envToken);
    assert r.registered == env.registered + Successes(ps);
    forall i | 0 <= i < |entries|
      ensures r.registered[|env.registered| + i] == EntryRegistration(entries[i], onDisk, envToken).value
    {
      assert r.registered[|env.registered| + i] == Successes(ps)[i] == ps[i].value;
    }
  }

  /** The source entries the file lists for the environment, or none. */
  function FileEntries(name: string, file: Result<Tree, Error>): seq<Tree> {
    if file.Ok? && SourceEntries(file.value, name).Ok? then SourceEntries(file.value, name).value else []
  }

  /** The environment once the file's entries are registered. */
  function FromFile(name: string, file: Result<Tree, Error>, onDisk: string -> bool, envToken: Option<string>): (env: Environment)
    ensures env.name == name
    ensures |env.registered| <= |FileEntries(name, file)|
    ensures file.Err? ==> env.registered == []
  {
    RegisterEntries(Bare(name), FileEntries(name, file), onDisk, envToken)
  }

  /** When every entry the file lists for the environment registers, the
      environment holds exactly their registrations, in file order. */
  lemma FromFileRegistersEntries(name: string, file: Result<Tree, Error>, onDisk: string -> bool, envToken: Option<string>)
    requires var es := FileEntries(name, file);
      forall i :: 0 <= i < |es| ==> EntryRegistration(es[i], onDisk, envToken).Ok?
    ensures var es := FileEntries(name, file); var env := FromFile(name, file, onDisk, envToken);
      && |env.registered| == |es|
      && forall i :: 0 <= i < |es| ==> env.registered[i] == EntryRegistration(es[i], onDisk, envToken).value
  {
    var es := FileEntries(name, file);
    assert FromFile(name, file, onDisk, envToken) == RegisterEntries(Bare(name), es, onDisk, envToken);
    BareRegistersEntries(name, es, onDisk, envToken);
  }

  /** A fresh environment over entries that all register holds exactly
      their registrations, in order. */
  lemma BareRegistersEntries(name: string, es: seq<Tree>, onDisk: string -> bool, envToken: Option<string>)
    requires forall i :: 0 <= i < |es| ==> EntryRegistration(es[i], onDisk, envToken).Ok?
    ensures var env := RegisterEntries(Bare(name), es, onDisk, envToken);
      && |env.registered| == |es|
      && forall i :: 0 <= i < |es| ==> env.registered[i] == EntryRegistration(es[i], onDisk, envToken).value
  {
    var ps := Plans(es, onDisk, envToken);
    var regs := RegisterEntries(Bare(name), es, onDisk, envToken).registered;
    assert regs == Successes(ps) by {
      assert regs == [] + Successes(ps);
    }
    PlansOk(es, onDisk, envToken);
    SuccessesAll(ps);
    forall i | 0 <= i < |es|
      ensures regs[i] == EntryRegistration(es[i], onDisk, envToken).value
    {
      assert regs[i] == ps[i].value;
    }
  }

  /** Each plan is the entry's registration outcome. */
  lemma PlansOk(es: seq<Tree>, onDisk: string -> bool, envToken: Option<string>)
    requires forall i :: 0 <= i < |es| ==> EntryRegistration(es[i], onDisk, envToken).Ok?
    ensures forall i :: 0 <= i < |es| ==> Plans(es, onDisk, envToken)[i] == EntryRegistration(es[i], onDisk, envToken)
    ensures forall i :: 0 <= i < |es| ==> Plans(es, onDisk, envToken)[i].Ok?
  {
  }

  /** What the configuration file registers for the environment. */
  function FileRegistrations(name: string, file: Result<Tree, Error>, onDisk: string -> bool, envToken: Option<string>): seq<Registration> {
    FromFile(name, file, onDisk, envToken).registered
  }

  /** The explicit sources registered over `base`; a failure fails the
      construction. */
  function WithExplicit(base: Environment, explicit: seq<string>, onDisk: string -> bool, envToken: Option<string>): (r: Result<Environment, Error>)
    ensures r.Ok? ==> r.value.name == base.name
  {
    var (env, err) := RegisterSources(base, explicit, onDisk, envToken);
    if err.Some? then Err(err.value) else Ok(env)
  }

  /** Registering the explicit sources fails exactly when some location is
      one no adapter accepts. */
  lemma WithExplicitFails(base: Environment, explicit: seq<string>, onDisk: string -> bool, envToken: Option<string>)
    ensures WithExplicit(base, explicit, onDisk, envToken).Err? <==>
      exists i :: 0 <= i < |explicit| && CreateSource(explicit[i], onDisk(explicit[i]), envToken, PathSuffix(explicit[i])).Err?
  {
    var res := RegisterSources(base, explicit, onDisk, envToken);
    assert WithExplicit(base, explicit, onDisk, envToken).Err? <==> res.1.Some?;
  }

  /** A successful registration of the explicit sources keeps `base` and
      adds one registration per location, in order. */
  lemma WithExplicitOrder(base: Environment, explicit: seq<string>, onDisk: string -> bool, envToken: Option<string>)
    ensures var r := WithExplicit(base, explicit, onDisk, envToken);
      r.Ok? ==>
      var n := |base.registered|;
      && |r.value.registered| == n + |explicit|
      && r.value.registered[..n] == base.registered
      && forall i :: n <= i < |r.value.registered| ==>
           r.value.registered[i].origin.Made? && r.value.registered[i].origin.location == explicit[i - n]
  {
    var res := RegisterSources(base, explicit, onDisk, envToken);
    if res.1.None? {
      assert WithExplicit(base, explicit, onDisk, envToken) == Ok(res.0);
    }
  }

  /** `Environment(name, sources, config_path)`: the entries the file lists
      for this environment are registered first (a file that cannot be read
      or has the wrong shape contributes none), then the explicit sources,
      whose failure makes the construction fail. */
  function NewEnvironment(name: string, file: Result<Tree, Error>, explicit: seq<string>, onDisk: string -> bool, envToken: Option<string>): (r: Result<Environment, Error>)
    ensures r.Ok? ==> r.value.name == name
    ensures r.Err? <==>
      exists i :: 0 <= i < |explicit| && CreateSource(explicit[i], onDisk(explicit[i]), envToken, PathSuffix(explicit[i])).Err?
  {
    var base := FromFile(name, file, onDisk, envToken);
    WithExplicitFails(base, explicit, onDisk, envToken);
    WithExplicit(base, explicit, onDisk, envToken)
  }

  /** `regs` is `first` followed by one registration per explicit location,
      made from that location, in the given order. */
  predicate Layout(regs: seq<Registration>, first: seq<Registration>, explicit: seq<string>) {
    && |regs| == |first| + |explicit|
    && regs[..|first|] == first
    && forall i :: |first| <= i < |regs| ==> regs[i].origin.Made? && regs[i].origin.location == explicit[i - |first|]
  }

  /** A constructed environment holds the file's registrations first, then
      one registration per explicit location, in the given order. */
  lemma NewEnvironmentLayout(name: string, file: Result<Tree, Error>, explicit: seq<string>, onDisk: string -> bool, envToken: Option<string>)
    ensures var r := NewEnvironment(name, file, explicit, onDisk, envToken);
      r.Ok? ==> Layout(r.value.registered, FileRegistrations(name, file, onDisk, envToken), explicit)
  {
    var base := FromFile(name, file, onDisk, envToken);
    var r := WithExplicit(base, explicit, onDisk, envToken);
    assert NewEnvironment(name, file, explicit, onDisk, envToken) == r;
    assert FileRegistrations(name, file, onDisk, envToken) == base.registered;
    WithExplicitLayout(base, explicit, onDisk, envToken, r);
  }

  /** `WithExplicitOrder` for a result already in hand. */
  lemma WithExplicitLayout(base: Environment, explicit: seq<string>, onDisk: string -> bool, envToken: Option<string>, r: Result<Environment, Error>)
    requires r == WithExplicit(base, explicit, onDisk, envToken)
    ensures r.Ok? ==> Layout(r.value.registered, base.registered, explicit)
  {
    WithExplicitOrder(base, explicit, onDisk, envToken);
  }

  /** `add_source_type`: a ready-made source appended with the default
      registration. */
  function AddSourceType(env: Environment, src: Source): (r: Environment)
    ensures r.name == env.name
    ensures r.registered == env.registered + [Registration(Given(src), None, None, true)]
  {
    env.(registered := env.registered + [Registration(Given(src), None, None, true)])
  }

  /** The source a registration stands for; `build` is the adapter constructor. */
  function Open(reg: Registration, build: (Kind, string, Option<string>) -> Source): (rs: RegisteredSource)
    ensures rs.filter == reg.filter && rs.depth == reg.depth && rs.isWritable == reg.isWritable
  {
    var src := match reg.origin
      case Made(kind, loc, name) => build(kind, loc, name)
      case Given(s) => s;
    RegisteredSource(src, reg.filter, reg.depth, reg.isWritable)
  }

  /** Every registration opened, in order. */
  function OpenAll(regs: seq<Registration>, build: (Kind, string, Option<string>) -> Source): (rss: seq<RegisteredSource>)
    ensures |rss| == |regs|
    ensures forall i :: 0 <= i < |regs| ==> rss[i] == Open(regs[i], build)
  {
    seq(|regs|, i requires 0 <= i < |regs| => Open(regs[i], build))
  }

  /** `get_config`: a configuration over the registered sources, in order,
      already materialized, with nothing staged. */
  function GetConfig(env: Environment, build: (Kind, string, Option<string>) -> Source, search: Matcher, now: Timestamp): (c: Config)
    ensures c.sources == OpenAll(env.registered, build)
    ensures c.staged == []
    ensures c.effective == MergeSources(c.sources, search, now).effective
    ensures c.provenance == MergeSources(c.sources, search, now).provenance
  {
    Materialize(NewConfig(OpenAll(env.registered, build)), search, now)
  }

  /** A key supplied by a registration at position `n` or later is
      materialized from a source at position `n` or later. */
  lemma LaterRegistrationsWin(env: Environment, n: int, j: int, build: (Kind, string, Option<string>) -> Source,
                              search: Matcher, now: Timestamp, k: string)
    requires 0 <= n <= j < |env.registered| && k in Contribution(Open(env.registered[j], build), search)
    ensures var c := GetConfig(env, build, search, now);
      && k in c.effective
      && exists i :: n <= i < |c.sources|
           && k in c.sources[i].source.store
           && c.effective[k] == c.sources[i].source.store[k]
           && c.provenance[k] == Record(k, c.sources[i].source.id, now)
  {
    var c := GetConfig(env, build, search, now);
    var rss := c.sources;
    SupplierHasLast(rss, search, k, j);
    var i :| j <= i < |rss| && IsLastSupplier(rss, search, k, i);
    LastSourceWins(rss, search, now, k);
  }

  /** Explicit sources are registered after the file's, so a key any
      explicit source supplies takes its value and provenance from an
      explicit source. */
  lemma ExplicitSourcesWin(name: string, file: Result<Tree, Error>, explicit: seq<string>, onDisk: string -> bool, envToken: Option<string>, env: Environment,
                           build: (Kind, string, Option<string>) -> Source, search: Matcher, now: Timestamp, j: int, k: string)
    requires NewEnvironment(name, file, explicit, onDisk, envToken) == Ok(env)
    requires |FileRegistrations(name, file, onDisk, envToken)| <= j < |env.registered|
    requires k in Contribution(Open(env.registered[j], build), search)
    ensures var c := GetConfig(env, build, search, now);
      && k in c.effective
      && exists i :: |FileRegistrations(name, file, onDisk, envToken)| <= i < |c.sources|
           && k in c.sources[i].source.store
           && c.effective[k] == c.sources[i].source.store[k]
           && c.provenance[k] == Record(k, c.sources[i].source.id, now)
  {
    LaterRegistrationsWin(env, |FileRegistrations(name, file, onDisk, envToken)|, j, build, search, now, k);
  }

  /** A key some source supplies has a last supplier, at or after that source. */
  lemma {:induction false} SupplierHasLast(rss: seq<RegisteredSource>, search: Matcher, k: string, j: int)
    requires 0 <= j < |rss| && k in Contribution(rss[j], search)
    ensures exists i :: j <= i < |rss| && IsLastSupplier(rss, search, k, i)
    decreases |rss| - j
  {
    if !IsLastSupplier(rss, search, k, j) {
      var m :| j < m < |rss| && k in Contribution(rss[m], search);
      SupplierHasLast(rss, search, k, m);
    }
  }

  /** A source added with `add_source_type` overrides every key it stores. */
  lemma AddedSourceOverrides(env: Environment, src: Source, build: (Kind, string, Option<string>) -> Source,
                             search: Matcher, now: Timestamp, k: string)
    requires k in src.store
    ensures var c := GetConfig(AddSourceType(env, src), build, search, now);
      && k in c.effective && c.effective[k] == src.store[k]
      && c.provenance[k] == Record(k, src.id, now)
  {
    var env' := AddSourceType(env, src);
    var rss := OpenAll(env.registered, build);
    var rs := Open(Registration(Given(src), None, None, true), build);
    assert OpenAll(env'.registered, build) == rss + [rs];
    AppendedSourceOverrides(rss, rs, search, now, k);
  }
}
