/** The GitHub environment-variables adapter (`sources/github_env.py`): the
    `github://owner/repo#environment` URI parser, the identity it derives,
    and the staging of variable writes. The REST calls are a remote map. */
module GitHubEnv {
  import opened Wrappers
  import opened Types
  import opened Filters
  import Text

  const Scheme: string := "github://"

  datatype Context = Context(owner: string, repo: string, environment: string, token: string)

  /** `_parse_uri`: scheme first, then the `#environment` suffix, then the
      `owner/repo` path, each split at its first separator; a truthy explicit
      token wins over `GITHUB_TOKEN`, and neither is an error. */
  function ParseUri(uri: string, token: Option<string>, envToken: Option<string>): (r: Result<Context, Error>)
    ensures !Text.StartsWith(uri, Scheme) ==> r == Err(BadGitHubUri)
    ensures r.Ok? ==>
      && Text.StartsWith(uri, Scheme)
      && uri == Scheme + r.value.owner + "/" + r.value.repo + "#" + r.value.environment
      && !Text.HasChar(r.value.owner, '/') && !Text.HasChar(r.value.owner, '#') && !Text.HasChar(r.value.repo, '#')
      && r.value.token != ""
    ensures r.Ok? && token.Some? && token.value != "" ==> r.value.token == token.value
    ensures Text.StartsWith(uri, Scheme) && !Text.HasChar(uri[|Scheme|..], '#') ==> r == Err(BadGitHubUri)
  {
    if !Text.StartsWith(uri, Scheme) then Err(BadGitHubUri)
    else
      var rest := uri[|Scheme|..];
      assert uri == Scheme + rest;
      if !Text.HasChar(rest, '#') then Err(BadGitHubUri)
      else
        var (path, env) := Text.SplitFirst(rest, '#');
        if !Text.HasChar(path, '/') then Err(BadGitHubUri)
        else
          var (owner, repo) := Text.SplitFirst(path, '/');
          Text.SplitFirstLacks(path, '/', '#');
          UriPieces(uri, rest, path, env, owner, repo);
          var tokenVal := if token.Some? && token.value != "" then token else envToken;
          if tokenVal.None? || tokenVal.value == "" then Err(MissingGitHubToken)
          else Ok(Context(owner, repo, env, tokenVal.value))
  }

  /** Gluing the pieces of the two splits gives the URI back. */
  lemma UriPieces(uri: string, rest: string, path: string, env: string, owner: string, repo: string)
    requires uri == Scheme + rest && rest == path + ['#'] + env && path == owner + ['/'] + repo
    ensures uri == Scheme + owner + "/" + repo + "#" + env
  {
  }

  /** The URI a context is written as. */
  function Render(ctx: Context): string {
    Scheme + ctx.owner + "/" + ctx.repo + "#" + ctx.environment
  }

  /** Parsing a rendered URI gives the context back, for any owner without
      `/` or `#`, any repo without `#` and any environment. */
  lemma ParseRenderRoundTrip(ctx: Context)
    requires !Text.HasChar(ctx.owner, '/') && !Text.HasChar(ctx.owner, '#') && !Text.HasChar(ctx.repo, '#')
    requires ctx.token != ""
    ensures ParseUri(Render(ctx), Some(ctx.token), None) == Ok(ctx)
  {
    var path := ctx.owner + "/" + ctx.repo;
    var rest := path + "#" + ctx.environment;
    assert Render(ctx) == Scheme + rest;
    assert Render(ctx)[|Scheme|..] == rest;
    assert !Text.HasChar(path, '#') by {
      forall i | 0 <= i < |path| ensures path[i] != '#' {
        if i < |ctx.owner| { assert path[i] == ctx.owner[i]; }
        else if i > |ctx.owner| { assert path[i] == ctx.repo[i - |ctx.owner| - 1]; }
      }
    }
    Text.SplitFirstOfJoined(path, ctx.environment, '#');
    assert path + "#" + ctx.environment == path + ['#'] + ctx.environment;
    Text.SplitFirstOfJoined(ctx.owner, ctx.repo, '/');
    assert ctx.owner + "/" + ctx.repo == ctx.owner + ['/'] + ctx.repo;
  }

  /** The source id: `owner/repo#environment`. */
  function Id(ctx: Context): (id: string)
    ensures Render(ctx) == Scheme + id
  {
    ctx.owner + "/" + ctx.repo + "#" + ctx.environment
  }

  /** The display name: the given one when truthy, else `github:` and the id. */
  function Name(name: Option<string>, ctx: Context): (n: string)
    ensures name.Some? && name.value != "" ==> n == name.value
    ensures name.None? || name.value == "" ==> n == "github:" + Id(ctx)
  {
    if name.Some? && name.value != "" then name.value else "github:" + Id(ctx)
  }

  /** The adapter's state: the remote variables, the last listing and the
      staged writes (a string to upsert, or `None` to delete). */
  datatype GitHubSource = GitHubSource(
    ctx: Context,
    remote: map<string, string>,
    cache: map<string, string>,
    staged: map<string, Option<string>>)
  {
    /** `load(filter)`: list the remote into the cache and return it narrowed
        by the filter's key predicate. */
    function Load(flt: Option<Filter>, search: Matcher): (r: (GitHubSource, map<string, Value>))
      ensures r.0 == this.(cache := remote)
      ensures forall k :: k in r.1 <==> k in remote && ShouldIncludeKey(k, flt, search)
      ensures forall k :: k in r.1 ==> r.1[k] == Str(remote[k])
    {
      (this.(cache := remote), map k | k in remote && ShouldIncludeKey(k, flt, search) :: Str(remote[k]))
    }

    /** `set(key, value)`: stages `str(value)`. */
    function Set(key: string, v: Value, show: Value -> string): (r: GitHubSource)
      ensures r.staged == staged[key := Some(show(v))] && r.remote == remote && r.cache == cache
    {
      this.(staged := staged[key := Some(show(v))])
    }

    /** `unset(key)`: stages a deletion. */
    function Unset(key: string): (r: GitHubSource)
      ensures r.staged == staged[key := None] && r.remote == remote && r.cache == cache
    {
      this.(staged := staged[key := None])
    }

    /** `save()`: upsert or delete every staged variable, clear the stage and
        list the remote again. */
    function Save(): (r: GitHubSource)
      ensures r.staged == map[] && r.cache == r.remote
      ensures forall k :: k in r.remote <==> (if k in staged then staged[k].Some? else k in remote)
      ensures forall k :: k in r.remote ==> r.remote[k] == (if k in staged then staged[k].value else remote[k])
    {
      var kept := map k | k in remote && k !in staged :: remote[k];
      var written := map k | k in staged && staged[k].Some? :: staged[k].value;
      var after := kept + written;
      this.(remote := after, cache := after, staged := map[])
    }
  }

  /** Staging a value and saving makes the listing show `str(value)`;
      staging a removal and saving removes the variable. */
  lemma SetThenSaveLists(g: GitHubSource, key: string, v: Value, show: Value -> string)
    ensures key in g.Set(key, v, show).Save().cache && g.Set(key, v, show).Save().cache[key] == show(v)
    ensures key !in g.Unset(key).Save().cache
  {
  }

  /** The push of `save_to_github`: every merged key is upserted as its text,
      nothing is deleted. */
  function Push(g: GitHubSource, merged: map<string, Value>, show: Value -> string): (r: GitHubSource)
    ensures r.staged == map[]
    ensures forall k :: k in merged ==> k in r.remote && r.remote[k] == show(merged[k])
    ensures forall k :: k !in merged && k !in g.staged ==> (k in r.remote <==> k in g.remote)
  {
    g.(staged := g.staged + map k | k in merged :: Some(show(merged[k]))).Save()
  }
}
