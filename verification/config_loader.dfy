/** The `confetti.yaml` reader (`core/config_loader.py`): the cached load of
    the file, the lookup of an environment's source entries, and the parser
    of one source entry and its filter. The file's parsed document is a
    `Tree`; finding and reading the file are I/O, so a load receives the
    outcome of reading it. */
module ConfigLoader {
  import opened Wrappers
  import opened Dicts
  import opened Types
  import opened Filters

  /** What reading and parsing the file produced. */
  datatype ReadOutcome =
    | Parsed(doc: Tree)   // `yaml.safe_load` returned a document (`None` is `Leaf(Null)`)
    | YamlError           // the text is not YAML
    | ReadFailure         // any other failure while reading

  /** The loader: the path found for the file, if any, and the cached document. */
  datatype Loader = Loader(path: Option<string>, cache: Option<Tree>)

  /** The empty mapping `{}`. */
  const EmptyDoc: Tree := Node([])

  /** `load()`: no path gives `{}`; a cached document is returned without
      reading; otherwise a parsed document (a falsy one read as `{}`) is
      cached, a YAML error is raised, and any other failure gives `{}`
      without caching. */
  function Load(ld: Loader, read: ReadOutcome): (r: (Loader, Result<Tree, Error>))
    ensures ld.path.None? ==> r == (ld, Ok(EmptyDoc))
    ensures ld.path.Some? && ld.cache.Some? ==> r == (ld, Ok(ld.cache.value))
    ensures ld.path.Some? && ld.cache.None? ==>
      match read
      case Parsed(doc) =>
        var d := if Truthy(doc) then doc else EmptyDoc;
        r == (ld.(cache := Some(d)), Ok(d))
      case YamlError => r == (ld, Err(InvalidConfigFile))
      case ReadFailure => r == (ld, Ok(EmptyDoc))
  {
    if ld.path.None? then (ld, Ok(EmptyDoc))
    else if ld.cache.Some? then (ld, Ok(ld.cache.value))
    else
      match read
      case Parsed(doc) =>
        var d := if Truthy(doc) then doc else EmptyDoc;
        (ld.(cache := Some(d)), Ok(d))
      case YamlError => (ld, Err(InvalidConfigFile))
      case ReadFailure => (ld, Ok(EmptyDoc))
  }

  /** Once the file has been parsed, every later load returns the same
      document whatever reading it again would give. A read failure, by
      contrast, is not remembered: the next load reads the file again. */
  lemma LoadCaches(ld: Loader, first: ReadOutcome, later: ReadOutcome)
    requires ld.path.Some? && (ld.cache.Some? || first.Parsed?)
    ensures Load(ld, first).1.Ok?
    ensures Load(Load(ld, first).0, later) == (Load(ld, first).0, Load(ld, first).1)
    ensures ld.cache.None? && later == ReadFailure ==> Load(ld, later).0 == ld
  {
  }

  /** `get_environment_config`: the value under `environments` and then the
      environment's name; `None` when either is missing (or null). A document
      or `environments` value that is not a mapping makes the lookup raise. */
  function EnvironmentConfig(doc: Tree, name: string): (r: Result<Option<Tree>, Error>)
    ensures !doc.Node? ==> r == Err(WrongShape)
    ensures doc.Node? && Get(doc.entries, "environments").None? ==> r == Ok(None)
    ensures doc.Node? && Get(doc.entries, "environments").Some? ==>
      var envs := Get(doc.entries, "environments").value;
      && (!envs.Node? ==> r == Err(WrongShape))
      && (envs.Node? ==> r == Ok(if Get(envs.entries, name) == Some(Leaf(Null)) then None else Get(envs.entries, name)))
  {
    if !doc.Node? then Err(WrongShape)
    else
      match Get(doc.entries, "environments")
      case None => Ok(None)
      case Some(envs) =>
        if !envs.Node? then Err(WrongShape)
        else
          var e := Get(envs.entries, name);
          Ok(if e == Some(Leaf(Null)) then None else e)
  }

  /** `get_sources`: the `sources` list of the environment; `[]` for an
      unknown environment or a missing list. A configuration or `sources`
      value of the wrong shape makes the iteration over it fail. */
  function SourceEntries(doc: Tree, name: string): (r: Result<seq<Tree>, Error>)
    ensures EnvironmentConfig(doc, name).Err? ==> r.Err?
    ensures EnvironmentConfig(doc, name) == Ok(None) ==> r == Ok([])
    ensures r.Ok? && |r.value| > 0 ==>
      exists envCfg: Tree :: EnvironmentConfig(doc, name) == Ok(Some(envCfg)) && envCfg.Node?
        && Get(envCfg.entries, "sources") == Some(List(r.value))
  {
    match EnvironmentConfig(doc, name)
    case Err(e) => Err(e)
    case Ok(None) => Ok([])
    case Ok(Some(envCfg)) =>
      if !envCfg.Node? then Err(WrongShape)
      else
        var srcs: Option<Tree> := Get(envCfg.entries, "sources");
        if srcs.None? then Ok([])
        else if srcs.value.List? then Ok(srcs.value.items)
        else Err(WrongShape)
  }

  /** An environment the file does not mention has no source entries. */
  lemma UnknownEnvironmentHasNoSources(doc: Tree, name: string)
    requires doc.Node? && Get(doc.entries, "environments").Some?
    requires Get(doc.entries, "environments").value.Node?
    requires !HasKey(Get(doc.entries, "environments").value.entries, name)
    ensures EnvironmentConfig(doc, name) == Ok(None)
    ensures SourceEntries(doc, name) == Ok([])
  {
  }

  /** Where a source lives: a filesystem path or a URI. */
  datatype Location = FilePath(path: string) | Uri(uri: string)

  function LocationText(l: Location): string {
    match l
    case FilePath(p) => p
    case Uri(u) => u
  }

  /** A parsed source entry; `depth`, `name` and `writable` are absent when the
      entry does not give them, and `writable` keeps the document value. */
  datatype SourceEntry = SourceEntry(
    location: Location,
    filter: Option<Filter>,
    depth: Option<int>,
    name: Option<string>,
    writable: Option<Tree>)

  /** The text of a document value that is a string. */
  function TextOf(t: Option<Tree>): (r: Option<string>)
    ensures r.Some? <==> t.Some? && t.value.Leaf? && t.value.value.Str?
    ensures r.Some? ==> t == Some(Leaf(Str(r.value)))
  {
    if t.Some? && t.value.Leaf? && t.value.value.Str? then Some(t.value.value.s) else None
  }

  /** `_parse_filter`: a regular expression only when `include_regex` is
      present, where a value that is not text cannot be compiled; the mask
      and the depth are copied. */
  function ParseFilter(fes: seq<Entry<Tree>>): (r: Result<Filter, Error>)
    ensures r.Err? <==> HasKey(fes, "include_regex") && !(Get(fes, "include_regex").value.Leaf? && Get(fes, "include_regex").value.value.Str?)
    ensures r.Ok? ==> (r.value.includeRegex.Some? <==> HasKey(fes, "include_regex"))
    ensures r.Ok? && r.value.includeRegex.Some? ==> Get(fes, "include_regex") == Some(Leaf(Str(r.value.includeRegex.value)))
    ensures r.Ok? ==> (r.value.spec.None? <==> Get(fes, "hierarchical_spec") in {None, Some(Leaf(Null))})
    ensures r.Ok? && r.value.spec.Some? ==> r.value.spec == Some(SpecOf(Get(fes, "hierarchical_spec").value))
    ensures r.Ok? ==> r.value.depth == DepthOf(Get(fes, "depth"))
  {
    var rx: Option<Tree> := Get(fes, "include_regex");
    if rx.Some? && TextOf(rx).None? then Err(WrongShape)
    else
      var hs: Option<Tree> := Get(fes, "hierarchical_spec");
      var spec := if hs.None? || hs.value == Leaf(Null) then None else Some(SpecOf(hs.value));
      Ok(Filter(TextOf(rx), spec, DepthOf(Get(fes, "depth"))))
  }

  /** The depth an entry sets: its own `depth` wins over the filter's. */
  function EntryDepth(es: seq<Entry<Tree>>, filterCfg: Option<Tree>): (r: Option<int>)
    ensures HasKey(es, "depth") ==> r == DepthOf(Get(es, "depth"))
    ensures !HasKey(es, "depth") && filterCfg.Some? && filterCfg.value.Node? && Truthy(filterCfg.value) ==>
      r == DepthOf(Get(filterCfg.value.entries, "depth"))
    ensures !HasKey(es, "depth") && (filterCfg.None? || !Truthy(filterCfg.value)) ==> r.None?
  {
    if HasKey(es, "depth") then DepthOf(Get(es, "depth"))
    else if filterCfg.Some? && Truthy(filterCfg.value) && filterCfg.value.Node? then DepthOf(Get(filterCfg.value.entries, "depth"))
    else None
  }

  /** `parse_source`: `path` first, then `uri`, else an error; a filter only
      for a truthy `filter` value; the source's depth before the filter's;
      `name` and `writable` copied when present. */
  function ParseSource(entry: Tree): (r: Result<SourceEntry, Error>)
    ensures !entry.Node? ==> r.Err?
    ensures entry.Node? && !HasKey(entry.entries, "path") && !HasKey(entry.entries, "uri") ==> r == Err(MissingPathOrUri)
    ensures r.Ok? ==> entry.Node? && var es := entry.entries;
      && (HasKey(es, "path") ==> r.value.location.FilePath? && TextOf(Get(es, "path")) == Some(r.value.location.path))
      && (!HasKey(es, "path") ==> r.value.location.Uri? && TextOf(Get(es, "uri")) == Some(r.value.location.uri))
      && (r.value.filter.Some? <==> Get(es, "filter").Some? && Truthy(Get(es, "filter").value))
      && (r.value.filter.Some? ==>
            Get(es, "filter").value.Node? && ParseFilter(Get(es, "filter").value.entries) == Ok(r.value.filter.value))
      && r.value.depth == EntryDepth(es, Get(es, "filter"))
      && r.value.name == TextOf(Get(es, "name"))
      && (r.value.writable.Some? <==> HasKey(es, "writable"))
      && (r.value.writable.Some? ==> Get(es, "writable") == r.value.writable)
  {
    if !entry.Node? then Err(WrongShape)
    else
      var es := entry.entries;
      var loc: Result<Location, Error> :=
        if HasKey(es, "path") then
          (if TextOf(Get(es, "path")).Some? then Ok(FilePath(TextOf(Get(es, "path")).value)) else Err(WrongShape))
        else if HasKey(es, "uri") then
          (if TextOf(Get(es, "uri")).Some? then Ok(Uri(TextOf(Get(es, "uri")).value)) else Err(WrongShape))
        else Err(MissingPathOrUri);
      var filterCfg: Option<Tree> := Get(es, "filter");
      var flt: Result<Option<Filter>, Error> :=
        if filterCfg.None? || !Truthy(filterCfg.value) then Ok(None)
        else if !filterCfg.value.Node? then Err(WrongShape)
        else
          (match ParseFilter(filterCfg.value.entries) case Ok(f) => Ok(Some(f)) case Err(e) => Err(e));
      if loc.Err? then Err(loc.error)
      else if flt.Err? then Err(flt.error)
      else
        Ok(SourceEntry(loc.value, flt.value, EntryDepth(es, filterCfg), TextOf(Get(es, "name")), Get(es, "writable")))
  }

  /** `path` takes precedence over `uri` when an entry has both. */
  lemma PathBeatsUri(es: seq<Entry<Tree>>, p: string)
    requires Get(es, "path") == Some(Leaf(Str(p))) && HasKey(es, "uri")
    requires Get(es, "filter").None?
    ensures ParseSource(Node(es)).Ok?
    ensures ParseSource(Node(es)).value.location == FilePath(p)
  {
  }

  /** An entry's own depth wins over the depth inside its filter. */
  lemma SourceDepthOverridesFilterDepth(es: seq<Entry<Tree>>, d: int, fd: int)
    requires Get(es, "depth") == Some(Leaf(Int(d)))
    requires Get(es, "filter").Some? && Get(es, "filter").value.Node?
    requires Get(Get(es, "filter").value.entries, "depth") == Some(Leaf(Int(fd)))
    ensures ParseSource(Node(es)).Ok? ==> ParseSource(Node(es)).value.depth == Some(d)
  {
  }
}
