# confetti, modelled in Dafny

confetti merges configuration from several ordered sources (env files, YAML,
JSON and INI files, a Redis key space, GitHub environment variables) into one
effective view. It remembers which source supplied each key (provenance). It
stages writes and commits them back to the source each key belongs to.

This project models that core as pure functions over immutable datatypes:

- **Merge** (`merge.dfy`): the last-wins fold. Each source's keys pass through
  its filter, and each supplied key gets a provenance record.
- **Configs** (`config.dfy`, with the laws in `config_laws.dfy`): the `Config`
  state machine over the registered sources, the effective and provenance maps
  and the staged changes. It covers lazy materialisation, `set`/`unset` with
  target resolution, the grouped `save` pass (no rollback), `remove_source`,
  `reload` and the dry-run diff of `save_to_github`.
- **Filters** (`filters.dfy`): `Filter.from_dict`, `should_include_key`,
  depth-bounded dotted flattening and the inclusion mask of
  `filter_hierarchical`.
- **Sources** (`source.dfy`): the abstract source, with a store and a stage of
  pending writes, and its registration record.
- **Adapters**: the pure parts of the Redis (`redis_kv.dfy`), INI
  (`ini_file.dfy`), YAML (`yaml_file.dfy`) and GitHub (`github_env.dfy`)
  adapters.
- **DotEnv** (`dotenv.dfy`): the `.env` line parser with unquoting and
  `$VAR` expansion, the loader, and the `set_key`/`unset_key` line rewriting.
- **ConfigLoader** (`config_loader.dfy`): the `confetti.yaml` reader over an
  already-parsed document. It covers load caching, environment lookup, and the
  `parse_source` and `_parse_filter` entry parsers.
- **Environments** (`environment.dfy`): source-type dispatch, registration
  order, entries from the configuration file registered ahead of explicit ones,
  and `get_config`.

Helper modules: `Wrappers` (`Option`, `Result`), `Seqs` (filtering),
`Text` (the Python `str` methods used), `Dicts` (insertion-ordered dicts as
entry lists).

Effects are parameters:

- regular-expression search is `search: Matcher`;
- the clock is a `now: Timestamp`;
- `str(value)` is `show`;
- `json.dumps` is `dumps`;
- file contents and `Path.exists` are arguments;
- the adapter constructors used by `get_config` are `build`.

Python's `None` written into a stage is the same as an unset, as in the source.
Both copies of the package (`confetti/` and `src/confetti/`) are cited where
they agree. Where they differ, the model follows the `src/` copy for the
environment, the loader and the adapters. It follows `confetti/core/config.py`
for `Config`.

`save` does not roll back: when a read-only source stops the pass, the
sources persisted earlier in the pass stay persisted
(`ConfigLaws.SaveRefusesReadOnly`).

## Model

| member | source | states |
|---|---|---|
| Types.SetChange | confetti/core/types.py:34-48 | a `set` change carries the key, the value and the target, and is well formed |
| Types.UnsetChange | confetti/core/types.py:34-48 | an `unset` change carries no value and is well formed |
| Sources.Source.Load | tests/test_config.py:29-31 | a load is exactly the stored keys that the filter's key predicate admits, with their stored values |
| Sources.Source.Get | confetti/core/source.py:38-47 | absent exactly when the key is not stored |
| Sources.Source.Set | tests/test_config.py:37-39 | stages the value, or a removal for `None`; the store and other staged keys are unchanged |
| Sources.Source.Unset | tests/test_config.py:41-43 | stages a removal and touches nothing else |
| Sources.Source.Save | tests/test_config.py:45-52 | staged values are written, staged removals deleted, unstaged keys kept, and the stage emptied |
| Sources.Source.Reload | tests/test_config.py:54-56 | nothing stored or staged changes |
| Sources.Source.Clear | confetti/core/source.py:101-103 | stages a removal for every stored key and leaves other stage entries alone |
| Sources.ClearThenSaveEmpties | confetti/core/source.py:101-103 | after clear and save, only keys staged but never stored can remain |
| Sources.SetThenSaveStores | confetti/core/source.py:49-68 | set then save stores the value; unset then save deletes the key |
| Sources.Register | confetti/core/source.py:125-128 | the default registration has no filter, no depth and is writable |
| Merge.Contribution | confetti/core/merge.py:33-36 | a source contributes exactly its loaded keys that pass `should_include_key`, with their values |
| Merge.MergeSources | confetti/core/merge.py:29-44 | the effective and provenance maps always have the same keys; no sources give empty maps |
| Merge.LastSourceWins | src/confetti/core/merge.py:17-29 | a key is effective iff some source supplies it; its value and provenance come from the last source that does |
| Merge.AppendedSourceOverrides | confetti/core/merge.py:32-44 | a later source overrides every key it contributes; a key its filter rejects keeps the earlier value and provenance |
| Merge.NoInventedKeys | src/confetti/core/merge.py:18-29 | every effective key is stored by an admitting source named in its provenance, with `source_key == key` |
| Filters.DepthOf | confetti/core/filters.py:41 | an integer depth is kept; a missing or null one is absent |
| Filters.FromDict | confetti/core/filters.py:34-46 | no filter for None or empty; a regex only from a string; the mask is the one read from `hierarchical_spec` (none for a missing or null one) and the depth is copied |
| Filters.IncludeKeyCases | confetti/core/filters.py:59-63 | with no filter or no regex every key is included; otherwise inclusion iff the search matches |
| Filters.FullKey | confetti/core/filters.py:88 | the child key under an empty parent, else `parent.key` |
| Filters.Flatten | confetti/core/filters.py:84-85 | a negative depth yields nothing |
| Filters.FlattenComplete | confetti/core/filters.py:84-93 | every non-mapping value, and every mapping the depth limit stops at, is yielded under its dotted key |
| Filters.FlattenSound | confetti/core/filters.py:84-93 | every yielded pair is the value at the dotted path its key spells; it is a non-mapping, or the depth ran out there |
| Filters.UnlimitedYieldsNoMapping | confetti/core/filters.py:89-93 | with no depth limit no yielded value is a mapping |
| Filters.ToMapLastWins | confetti/core/filters.py:113 | the dict comprehension keeps the last value of a repeated key |
| Filters.ToMapValueFrom | confetti/core/filters.py:113 | every dict value is the value of some pair with that key |
| Filters.IncludePathMeansPrefixMarked | confetti/core/filters.py:115-126 | a path is included iff some non-empty prefix leads through the mask to `True` |
| Filters.MarkedSubtreeIncluded | src/confetti/core/filters.py:64-74 | everything below an included path is included |
| Filters.EmptyMaskExcludes | confetti/core/filters.py:121-122 | an empty mask, or a bare `True` at the top, excludes every key |
| Filters.FilterHierarchical | confetti/core/filters.py:111-129 | no mask gives the flattening; otherwise exactly the flattened keys the mask includes, with values unchanged |
| Configs.NewConfig | confetti/core/config.py:22-25 | a new config has empty maps and nothing staged |
| Configs.Materialize | confetti/core/config.py:27-31 | sources and stage are unchanged; the maps share their keys |
| Configs.EnsureLoaded | confetti/core/config.py:39-40 | a non-empty effective map is left alone |
| Configs.Values | src/confetti/core/config.py:21-24 | answers the effective map, loading first only when it is empty |
| Configs.Get | src/confetti/core/config.py:26-29 | the effective value, or the default for a missing key |
| Configs.ProvenanceOf | src/confetti/core/config.py:31-34 | the record of the key, absent exactly when the key has none |
| Configs.ResolveTarget | confetti/core/config.py:132-140 | a truthy hint, else the provenance source, else the first source; an error iff none of these exists |
| Configs.Set | confetti/core/config.py:79-90 | a resolution error changes neither the effective map nor the stage; otherwise the key alone is updated and one `set` change is appended |
| Configs.Unset | confetti/core/config.py:98-113 | the key is removed; one `unset` for its provenance source is staged, or nothing when it has no provenance |
| Configs.RemoveSource | confetti/core/config.py:148-157 | exactly the sources and staged changes with that id go; the rest keep their order; the maps are rebuilt |
| Configs.Reload | src/confetti/core/config.py:77-80 | every source is reloaded in place; the stage is kept; the maps are rebuilt |
| Configs.Group | confetti/core/config.py:168-171 | the group of an id holds exactly the changes aimed at it, in staged order |
| Configs.ApplyChanges | confetti/core/config.py:180-184 | handing changes to a source only stages |
| Configs.Persist | confetti/core/config.py:180-185 | persisting a group keeps the source's id and leaves nothing staged in it |
| Configs.CommitGroups | confetti/core/config.py:172-185 | the pass keeps every source and its id in place |
| Configs.Save | confetti/core/config.py:165-189 | success clears the stage and rebuilds the maps; a permission error keeps stage and maps |
| Configs.RemoteGet | confetti/core/config.py:215-217 | a missing remote variable reads as `None` |
| Configs.SaveToGitHubDryRun | confetti/core/config.py:211-217 | the values are read first; a malformed URI or a missing token fails with the URI parser's error; otherwise set exactly the merged keys whose remote value differs and delete exactly the remote keys the merge lacks |
| ConfigLaws.GroupSnoc | confetti/core/config.py:168-171 | a new change joins only its own target's group |
| ConfigLaws.LastChangeFor | confetti/core/config.py:180-184 | finds a change for the key iff the group has one |
| ConfigLaws.ApplyChangesStaged | confetti/core/config.py:180-184 | per key, the last change of the group decides what is staged |
| ConfigLaws.PersistEffect | confetti/core/config.py:180-185 | after apply and save, a key holds its last `set` value or is gone after an `unset`, whatever the source had staged itself; a key with no change and nothing staged is untouched |
| ConfigLaws.FirstBlock | confetti/core/config.py:176-179 | the first read-only source with pending changes, if any |
| ConfigLaws.CommitGroupsSpec | confetti/core/config.py:172-185 | sources before the first blocker are committed, the rest untouched; the error names the blocker |
| ConfigLaws.CommitGroupsStep | confetti/core/config.py:172-185 | the pass over a source that does not block is one commit followed by the rest of the pass |
| ConfigLaws.SaveSucceeds | confetti/core/config.py:165-189 | save succeeds iff no source blocks; then every source is committed, the stage cleared and the maps rebuilt |
| ConfigLaws.SaveRefusesReadOnly | confetti/core/config.py:176-179 | a blocking source raises `NotWritable`; it and later sources are untouched; stage and maps are kept |
| ConfigLaws.OrphanChangeDropped | confetti/core/config.py:172-175 | a change aimed at an unknown id makes no difference to the pass |
| ConfigLaws.CommitGroupsSame | confetti/core/config.py:168-185 | the pass depends only on each registered source's group |
| ConfigLaws.SetThenSaveWrites | confetti/core/config.py:79-90 | set then save stores the value in the resolved source, whatever that source had staged itself |
| ConfigLaws.UnsetThenSaveDeletes | confetti/core/config.py:98-113 | unset then save deletes the key from its provenance source, whatever that source had staged itself |
| ConfigLaws.MaterializeTracked | confetti/core/config.py:27-31 | after materialising, every provenance record names a registered source |
| ConfigLaws.LocalOperationsKeepTracked | confetti/core/config.py:79-113 | reads, set and unset keep provenance pointing at registered sources |
| ConfigLaws.RebuildsKeepTracked | confetti/core/config.py:148-163 | remove_source and reload keep provenance pointing at registered sources |
| ConfigLaws.SaveKeepsTracked | confetti/core/config.py:165-189 | save keeps provenance pointing at registered sources |
| ConfigLaws.ResolvedTargetRegistered | confetti/core/config.py:132-140 | without a hint, a resolved target is a registered source |
| ConfigLaws.NoSourcesWriteFails | confetti/core/config.py:138-139 | a write with no sources raises "No sources registered" |
| ConfigLaws.LocalSetThenUnsetKeepsChange | confetti/core/config.py:98-104 | unset of a key only set locally leaves its `set` change staged |
| ConfigLaws.UnsetLastKeyResurrects | confetti/core/config.py:39-40 | emptying the effective map makes the next read re-merge, bringing a supplied key back |
| ConfigLaws.UnsetUnsuppliedStagesNothing | confetti/core/config.py:98-104 | after a save, unsetting a key no source supplies stages nothing |
| ConfigLaws.DryRunDiffReachesMerged | confetti/core/config.py:215-217 | applying the diff to the remote leaves exactly the merged values (a merged `None` not already remote is not created) |
| ConfigLoader.Load | src/confetti/core/config_loader.py:59-85 | no path gives `{}`; a cache is returned; a parse is cached (falsy as `{}`); a YAML error is `InvalidConfigFile`; other read errors give `{}` uncached |
| ConfigLoader.LoadCaches | src/confetti/core/config_loader.py:68-72 | once a document is cached, later loads return it without reading; a read failure caches nothing |
| ConfigLoader.EnvironmentConfig | src/confetti/core/config_loader.py:87-100 | the named environment's mapping, `None` when absent or null, an error on a wrong shape |
| ConfigLoader.SourceEntries | src/confetti/core/config_loader.py:102-114 | the `sources` list of the environment, `[]` when the environment or list is missing |
| ConfigLoader.UnknownEnvironmentHasNoSources | src/confetti/core/config_loader.py:98-114 | an unknown environment has no configuration and no sources |
| ConfigLoader.ParseFilter | src/confetti/core/config_loader.py:155-175 | a regex only from a present `include_regex`, which must be a string; spec and depth copied |
| ConfigLoader.EntryDepth | src/confetti/core/config_loader.py:142-145 | the source's own depth, else the filter's, else none |
| ConfigLoader.ParseSource | src/confetti/core/config_loader.py:116-153 | path over uri, else `ValueError`; a filter only when the entry is truthy; depth, name and writable as given |
| ConfigLoader.PathBeatsUri | src/confetti/core/config_loader.py:128-131 | with both keys present the path is used |
| ConfigLoader.SourceDepthOverridesFilterDepth | src/confetti/core/config_loader.py:142-145 | a source-level depth wins over the filter's depth |
| Environments.CreateSource | src/confetti/core/environment.py:121-152 | `redis://` first; an error iff not redis, not on disk, no known suffix, and either not `github://` (unsupported) or a `github://` URI the GitHub adapter's constructor rejects (no `#`, no `/`, no token), with that error |
| Environments.DispatchIgnoresSuffixCase | src/confetti/core/environment.py:131-142 | the dispatch gives the same answer for a suffix and its lower-case form |
| Environments.SuffixRulesBeatExistenceAndGitHub | confetti/core/environment.py:94-102 | `.ini`, `.yaml`/`.yml` and `.json` pick their adapter in any case, whether the file exists or not |
| Environments.PathSuffix | src/confetti/core/environment.py:126-127 | a suffix is empty, or a dot followed by at least one character with no further dot or slash |
| Environments.RegisterSource | src/confetti/core/environment.py:80-104 | a location the dispatch rejects (unsupported, or a malformed or token-less `github://` URI) registers nothing and fails with the dispatch's error; otherwise one registration is appended, writable unless `False` is given |
| Environments.RegisterKindsStep | src/confetti/core/environment.py:71-78 | the loop over dispatch outcomes: a failure ends it with that error; an accepted location is registered with the defaults before the rest |
| Environments.RegisterKindsOutcome | src/confetti/core/environment.py:71-78 | no error exactly when every dispatch succeeded; otherwise the error of a failed dispatch |
| Environments.RegisterKindsLayout | src/confetti/core/environment.py:71-78 | earlier registrations stay first; one registration per location up to the first failure, all of them when none fails, each made from its location |
| Environments.RegisterSources | src/confetti/core/environment.py:71-78 | succeeds iff the dispatch accepts every location (a `github://` one only with a well-formed URI and a token); a failure carries the error of some rejected location; earlier registrations stay; new ones follow the locations in order |
| Environments.RegisterSourcesStep | src/confetti/core/environment.py:71-78 | `register_sources` is `register_source` on the first location, then the rest |
| Environments.RegisterEntry | src/confetti/core/environment.py:48-56 | a file entry appends exactly the registration it describes, or fails when it does not parse or its location is rejected (a malformed or token-less `github://` URI included) |
| Environments.RegisterEntries | src/confetti/core/environment.py:43-69 | the file's entries only append to the registrations |
| Environments.RegisterEntriesStep | src/confetti/core/environment.py:47-61 | the loop registers each entry in turn, skipping failures |
| Environments.FailingEntrySkipped | src/confetti/core/environment.py:57-61 | a failing entry has the same effect as no entry |
| Environments.AllEntriesRegister | src/confetti/core/environment.py:47-56 | with no failures, each entry adds its registration, in order |
| Environments.WithExplicitOrder | src/confetti/core/environment.py:36-41 | the explicit sources go after what the file registered, which stays first; one registration per explicit location, in the order given |
| Environments.WithExplicitFails | src/confetti/core/environment.py:36-41 | construction fails exactly when some explicit location is rejected by the dispatch, a malformed or token-less `github://` URI included |
| Environments.NewEnvironment | src/confetti/core/environment.py:17-41 | the environment keeps its name, and construction fails exactly when some explicit location is rejected |
| Environments.NewEnvironmentLayout | src/confetti/core/environment.py:36-41 | the file's registrations come first, then one registration per explicit location, in the order given |
| Environments.FromFile | src/confetti/core/environment.py:43-69 | at most one registration per listed entry; an unreadable configuration file registers nothing |
| Environments.FromFileRegistersEntries | src/confetti/core/environment.py:45-56 | when every listed entry registers, the environment holds exactly their registrations, in file order |
| Environments.AddSourceType | confetti/core/environment.py:122-129 | appends the source with the default, writable registration |
| Environments.OpenAll | src/confetti/core/environment.py:154-162 | one opened source per registration, keeping its filter, depth and writability |
| Environments.GetConfig | src/confetti/core/environment.py:154-162 | a config over the registered sources, already materialised, nothing staged |
| Environments.LaterRegistrationsWin | src/confetti/core/environment.py:36-41 | a key supplied at or after position `n` is served from a source at or after `n` |
| Environments.ExplicitSourcesWin | src/confetti/core/environment.py:36-41 | a key an explicit source supplies is served by an explicit source, not a file source |
| Environments.AddedSourceOverrides | confetti/core/environment.py:122-129 | a source added last overrides every key it stores |
| DotEnv.IdentLen | src/confetti/dotenv.py:58 | the longest run of identifier characters at the front |
| DotEnv.Match | src/confetti/dotenv.py:51-62 | an accepted line yields an identifier key and a value without a newline |
| DotEnv.Lookup | src/confetti/dotenv.py:86-95 | the environment first, then the loaded values, then the empty text |
| DotEnv.ExpandIdle | src/confetti/dotenv.py:82-99 | text without `$` is not changed by expansion |
| DotEnv.ExpandReference | src/confetti/dotenv.py:93-97 | `$NAME` expands to the lookup of `NAME` |
| DotEnv.ParseLine | src/confetti/dotenv.py:42-80 | a line parses iff it matches, and then under the matched identifier key |
| DotEnv.ParseDefinition | src/confetti/dotenv.py:42-80 | `KEY=raw` parses to the key and the unquoted, expanded raw value |
| DotEnv.Step | src/confetti/dotenv.py:119-126 | the parsed value is recorded; the environment is written only for a new key or with override |
| DotEnv.StepParses | src/confetti/dotenv.py:119-126 | one loop step is the parse of the line followed by that update |
| DotEnv.LoadFile | src/confetti/dotenv.py:110-137 | a missing file reports false and changes nothing |
| DotEnv.LastDefinitionWins | src/confetti/dotenv.py:119-122 | the last line defining a key gives its loaded value |
| DotEnv.ExistingEnvKept | src/confetti/dotenv.py:125-126 | without override an existing environment variable keeps its value |
| DotEnv.OverrideExports | src/confetti/dotenv.py:125-126 | with override every newly loaded key is exported with its loaded value |
| DotEnv.FirstDefining | src/confetti/dotenv.py:295-299 | the first line whose stripped text starts with `KEY=` |
| DotEnv.SetKey | src/confetti/dotenv.py:285-310 | the first defining line is replaced and nothing else changes; otherwise the line is appended; a missing file becomes that one line |
| DotEnv.UnsetKey | src/confetti/dotenv.py:328-340 | exactly the lines not defining the key remain; a missing file is reported |
| DotEnv.UnsetKeyKeepsOrder | src/confetti/dotenv.py:337-340 | an empty file stays empty; one more line at the end is kept, after the others, exactly when it does not define the key |
| DotEnv.UnsetKeyAppend | src/confetti/dotenv.py:337-340 | the kept lines keep their order and multiplicity: unsetting a concatenation unsets each part in place |
| DotEnv.FormatLine | src/confetti/dotenv.py:263-285 | the line is `KEY=`, then the value as given when no quoting is needed or a double-quoted text otherwise, then a newline |
| DotEnv.FormatLineOneLine | src/confetti/dotenv.py:263-285 | for a key without line breaks and a value that is quoted or has no `\n` or `\r`, the only line break in the written line is the final newline |
| DotEnv.SetThenUnsetKey | src/confetti/dotenv.py:294-340 | for a key and value written as one line, unsetting after setting leaves what unsetting leaves on the file, or on an empty file when there was none |
| DotEnv.FormatLineDefines | src/confetti/dotenv.py:285 | a written line defines its key |
| DotEnv.EscapeRoundTrip | src/confetti/dotenv.py:68-73 | for text without backslashes, unescaping undoes the quoting escapes; the escaped text has no newline and keeps no new `$` |
| DotEnv.MatchDefinition | src/confetti/dotenv.py:51-62 | a written `KEY=raw` line matches back to the key and raw value |
| DotEnv.QuotedResolves | src/confetti/dotenv.py:65-78 | a quoted, escaped value without backslash or `$` resolves to itself |
| DotEnv.AlwaysQuotedRoundTrip | src/confetti/dotenv.py:263-285 | a line written with `always` quoting parses back to the key and value, for values without backslash or `$` |
| DotEnv.BackslashNotPreserved | src/confetti/dotenv.py:275-280 | a value of a backslash followed by `n`, `r` or `t` reads back as the control character, not as written |
| RedisKv.Prefixed | src/confetti/sources/redis_kv.py:22-23 | the identity for an empty prefix; otherwise the key behind the prefix |
| RedisKv.Unprefixed | src/confetti/sources/redis_kv.py:25-28 | strips the prefix only from a key that starts with it |
| RedisKv.PrefixRoundTrip | src/confetti/sources/redis_kv.py:22-28 | unprefixing undoes prefixing for every key, and prefixing undoes unprefixing under the prefix |
| RedisKv.RedisSource.Id | src/confetti/sources/redis_kv.py:16 | the id is the URI |
| RedisKv.RedisSource.Load | src/confetti/sources/redis_kv.py:30-41 | exactly the stored keys under the prefix, unprefixed and admitted by the filter, as text |
| RedisKv.RedisSource.Get | src/confetti/sources/redis_kv.py:43-44 | reads the server under the prefixed key |
| RedisKv.RedisSource.Set | src/confetti/sources/redis_kv.py:46-47 | stages the value only |
| RedisKv.RedisSource.Unset | src/confetti/sources/redis_kv.py:49-50 | stages a deletion only |
| RedisKv.RedisSource.Save | src/confetti/sources/redis_kv.py:52-62 | staged keys are written or deleted under the prefix; other server keys are untouched; the stage is cleared |
| RedisKv.SetThenSaveLoads | src/confetti/sources/redis_kv.py:30-62 | set then save is seen by the next load; unset then save removes the key |
| RedisKv.RedisSource.Clear | src/confetti/sources/redis_kv.py:76-84 | without a prefix, stages a deletion of every key and keeps other stage entries; with a prefix, deletes exactly the server keys under it and stages nothing |
| RedisKv.ClearLeavesNothing | src/confetti/sources/redis_kv.py:30-84 | after `clear` a load finds nothing: at once with a prefix, after `save` without one |
| IniFile.Reference | src/confetti/sources/ini_file.py:23 | a recognised `%(name)s` reference has a non-empty name without `)` and spells exactly that text |
| IniFile.ReferenceOf | src/confetti/sources/ini_file.py:23 | every well-formed `%(name)s` at the front is recognised, whatever follows |
| IniFile.Expand | src/confetti/sources/ini_file.py:23 | a value that cannot be interpolated fails with the interpolation error |
| IniFile.ExpandPlain | src/confetti/sources/ini_file.py:23 | text without `%` reads as written |
| IniFile.ExpandEscaped | src/confetti/sources/ini_file.py:23 | doubling every `%` is undone by interpolation |
| IniFile.ExpandReference | src/confetti/sources/ini_file.py:23 | `%(name)s` reads as the value of the lower-cased option `name` |
| IniFile.TrailingPercentFails | src/confetti/sources/ini_file.py:23 | a lone `%` at the end makes reading the value fail |
| IniFile.SettablePlain | src/confetti/sources/ini_file.py:62 | `parser.set` accepts text without `%` |
| IniFile.TrailingPercentRefused | src/confetti/sources/ini_file.py:62 | `parser.set` refuses text ending in a lone `%`, such as `50%` |
| IniFile.DropReferencesPlain | src/confetti/sources/ini_file.py:62 | removing references from text without `%` changes nothing |
| IniFile.DropTrailingPercent | src/confetti/sources/ini_file.py:62 | removing references keeps a final lone `%` |
| IniFile.RawItems | src/confetti/sources/ini_file.py:23 | a section's raw items are its own options over the defaults |
| IniFile.Items | src/confetti/sources/ini_file.py:20-25 | the items of a section are its own options over the defaults, each value interpolated against them; reading fails exactly when some value cannot be interpolated |
| IniFile.ItemsPlain | src/confetti/sources/ini_file.py:23 | a section whose values hold no `%` reads as stored |
| IniFile.SectionFlat | src/confetti/sources/ini_file.py:22-24 | every option shows as `section.option` |
| IniFile.Flat | src/confetti/sources/ini_file.py:20-25 | every flat key has a dot; a failure is the interpolation error |
| IniFile.UnreadableSectionFails | src/confetti/sources/ini_file.py:22-23 | one section with a value that cannot be interpolated makes the whole read fail |
| IniFile.ReadableSectionsRead | src/confetti/sources/ini_file.py:22-23 | when every section's values can be interpolated, the read succeeds |
| IniFile.FlatFailsStep | src/confetti/sources/ini_file.py:22-23 | reading one more section fails exactly when the earlier ones fail or it does |
| IniFile.FlatLookup | src/confetti/sources/ini_file.py:20-25 | `section.option` reads that section's option, or is absent with the section |
| IniFile.Load | src/confetti/sources/ini_file.py:27-34 | a file holding a section named "" raises the parse error; otherwise fails exactly when the flattening does, and the cache is the flattening, its values as text, and the answer is the cache narrowed by the filter; depth is ignored |
| IniFile.Route | src/confetti/sources/ini_file.py:52-55 | no dot goes to DEFAULT; otherwise split at the first dot |
| IniFile.ApplySets | src/confetti/sources/ini_file.py:56-62 | a write leaves the option holding the text; a removal leaves it without a value of its own |
| IniFile.ApplyKeeps | src/confetti/sources/ini_file.py:56-62 | a write or removal of one option leaves every other option as it was |
| IniFile.ApplyOneSets | src/confetti/sources/ini_file.py:51-62 | after one staged entry, the lower-cased option it targets holds the written text, or is gone after a removal; a key with an empty section part, such as `.x`, targets DEFAULT |
| IniFile.ApplyOneKeeps | src/confetti/sources/ini_file.py:51-62 | one staged entry leaves every other option of every section and of DEFAULT as it was, including the DEFAULT option a key such as `.x` does not target |
| IniFile.ApplyStagedKeeps | src/confetti/sources/ini_file.py:51-62 | an option no staged key targets keeps its value |
| IniFile.ApplyStagedLastWins | src/confetti/sources/ini_file.py:51-62 | each option ends with the text of the last staged key that targets it; keys differing only in the option's case share one |
| IniFile.SaveDottedKeyReadsBack | src/confetti/sources/ini_file.py:54-66 | saving `section.Option` into a named section creates it if needed; a successful reload shows `section.option` (lower-cased) with the interpolated text, the text itself when it has no `%`, for an option line the reader gives back as written |
| IniFile.LoadShowsOption | src/confetti/sources/ini_file.py:20-34 | in a plain file that reloads, an option a named section holds or inherits shows as `section.option`, expanded, and as written when it has no `%` |
| IniFile.UndottedKeyGoesToDefault | src/confetti/sources/ini_file.py:52-66 | an undotted key lands in DEFAULT: a successful reload never shows it under its own name, and shows it lower-cased and interpolated under a section lacking it, for an option line the reader gives back as written |
| IniFile.UnsetAbsentIsNoOp | src/confetti/sources/ini_file.py:56-58 | unsetting an option that has no value of its own, in DEFAULT or its section, changes nothing |
| IniFile.BareKeyWritesDefault | src/confetti/sources/ini_file.py:55-62 | writing `.x` sets DEFAULT's `x`, adds a section named "", and the file then no longer reads |
| IniFile.BareKeyUnsetsDefault | src/confetti/sources/ini_file.py:55-58 | unsetting `.x` removes DEFAULT's `x` and adds no section |
| IniFile.ApplyKeepsSection | src/confetti/sources/ini_file.py:56-62 | no staged entry removes a section |
| IniFile.ApplyStagedBare | src/confetti/sources/ini_file.py:51-62 | once a `.x` key is written, the section named "" stays to the end of the save |
| IniFile.IniSource.Set | src/confetti/sources/ini_file.py:39-40 | stages the value only |
| IniFile.IniSource.Unset | src/confetti/sources/ini_file.py:42-43 | stages a removal only |
| IniFile.IniSource.Save | src/confetti/sources/ini_file.py:45-66 | a file that does not parse, or a staged text `parser.set` refuses, raises and changes nothing; otherwise the stage is applied to the file and cleared, and the unfiltered reload replaces the cache or raises (the parse error for a `[]` header, else the interpolation error), keeping the old cache |
| IniFile.SaveRefusesTrailingPercent | src/confetti/sources/ini_file.py:62 | staging a value whose text ends in a lone `%` makes save of a readable file raise `ValueError` and change nothing |
| IniFile.SaveBareKeyFails | src/confetti/sources/ini_file.py:45-66 | saving a staged `.x` raises the parse error on reload, keeps the old cache and clears the stage |
| YamlFile.ReadDoc | src/confetti/sources/yaml_file.py:19-26 | a missing, empty or non-mapping document reads as `{}` |
| YamlFile.Flattened | src/confetti/sources/yaml_file.py:30-33 | without a mask, the flattening with the registered depth; with a structured filter's mask, exactly the flattened keys the mask includes, with their values |
| YamlFile.Normalize | src/confetti/sources/yaml_file.py:35-40 | mappings and lists become JSON text; scalars are unchanged |
| YamlFile.Load | src/confetti/sources/yaml_file.py:28-44 | the cache has the flattened keys, each with its value normalised; the answer is the cache narrowed by the filter |
| YamlFile.LoadComplete | src/confetti/sources/yaml_file.py:28-44 | every value the document holds at a dotted path the flattening reaches, and the mask admits, is in the cache |
| YamlFile.LoadSound | src/confetti/sources/yaml_file.py:28-44 | every loaded key is a value the document holds at that path, normalised |
| YamlFile.SetNested | src/confetti/sources/yaml_file.py:62-67 | the path then leads to the value; other top-level keys are untouched |
| YamlFile.SetNestedMakesParents | src/confetti/sources/yaml_file.py:62-66 | every proper prefix of the path leads to a mapping |
| YamlFile.UnsetNested | src/confetti/sources/yaml_file.py:69-74 | the path then leads nowhere; other top-level keys are untouched |
| YamlFile.UnsetNestedHead | src/confetti/sources/yaml_file.py:69-73 | through a mapping under the first segment, the unset carries on inside that mapping, which stays in place |
| YamlFile.UnsetNestedKeeps | src/confetti/sources/yaml_file.py:69-74 | only the final key is dropped: every path apart from the unset one, siblings at any level included, keeps its value |
| YamlFile.SetNestedKeeps | src/confetti/sources/yaml_file.py:62-67 | every path apart from the written one keeps its value, including siblings inside the mappings walked through |
| YamlFile.UnsetNestedMissingParent | src/confetti/sources/yaml_file.py:69-73 | with a missing or non-mapping parent nothing changes |
| YamlFile.ApplyStaged | src/confetti/sources/yaml_file.py:59-81 | a top-level key no staged key starts with is untouched; the last staged entry's path holds its value, or nothing after a removal |
| YamlFile.ApplyStagedKeepsPath | src/confetti/sources/yaml_file.py:59-81 | a path apart from every staged key's path keeps what the document held there |
| YamlFile.ApplyStagedEntryWins | src/confetti/sources/yaml_file.py:59-81 | any staged entry whose path is apart from every later entry's path holds its value there after the save, or nothing after a removal |
| YamlFile.YamlSource.Set | src/confetti/sources/yaml_file.py:49-50 | stages the value (a removal for `None`) and appends a new key; every other key's stage entry is unchanged |
| YamlFile.YamlSource.Unset | src/confetti/sources/yaml_file.py:52-53 | stages a removal; every other key's stage entry is unchanged |
| YamlFile.YamlSource.Save | src/confetti/sources/yaml_file.py:55-86 | the stage is written over the document, cleared, and the document reloaded |
| YamlFile.StageThenSaveWrites | src/confetti/sources/yaml_file.py:59-81 | set then save puts the value at the dotted path |
| YamlFile.StageUnsetThenSaveRemoves | src/confetti/sources/yaml_file.py:59-81 | unset then save leaves nothing at the dotted path |
| GitHubEnv.ParseUri | confetti/sources/github_env.py:46-60 | non-`github://`, no `#` or no `/` is rejected (the `#` check first); the parts rebuild the URI; the explicit token wins |
| GitHubEnv.ParseRenderRoundTrip | confetti/sources/github_env.py:46-60 | parsing a rendered context gives it back |
| GitHubEnv.Id | confetti/sources/github_env.py:31 | the id is `owner/repo#environment` |
| GitHubEnv.Name | confetti/sources/github_env.py:32 | the given name when truthy, else `github:` and the id |
| GitHubEnv.GitHubSource.Load | confetti/sources/github_env.py:93-98 | lists the remote into the cache and answers it narrowed by the filter |
| GitHubEnv.GitHubSource.Set | confetti/sources/github_env.py:103-104 | stages `str(value)` |
| GitHubEnv.GitHubSource.Unset | confetti/sources/github_env.py:106-107 | stages a deletion |
| GitHubEnv.GitHubSource.Save | confetti/sources/github_env.py:109-116 | upserts or deletes every staged variable, clears the stage and lists again |
| GitHubEnv.SetThenSaveLists | confetti/sources/github_env.py:103-116 | set then save lists the text; unset then save removes it |
| GitHubEnv.Push | confetti/core/config.py:218-221 | every merged key is upserted as its text; nothing is deleted |

## Left out

- I/O is not modelled: file reads and writes, directory walking (`_find_config_file`, `_find_dotenv_path`, `find_dotenv`), `Path.exists`, YAML/JSON/INI parsing and dumping, the Redis client and GitHub HTTP calls with pagination. Their results are parameters or datatypes.
- `os.environ` mutation, the `DotEnv.get`/`set`/`unset`/`values` accessors and the module-level `load_dotenv`/`get_key` wrappers are not modelled. `load_dotenv` is modelled as a fold over an environment map.
- The regular-expression engine is the uninterpreted `search` parameter. A malformed pattern (`re.error`) is not modelled.
- Timestamps are one `now` per operation rather than one clock reading per key.
- Floats, dates and other YAML scalars are `Opaque`; only their identity is kept.
- The command-line interface, `env_file.py` (delegates to the dotenv file functions) and the `__init__.py` re-exports are not modelled.
- `HierarchicalFilter` and `FilterSpec` in `types.py` are unused by the code and not modelled.
- The `exists`, `keys`, `values` and `size` methods of the sources are plain reads of the store and carry no contracts.
- Configs.SaveToGitHubDryRun: `to_delete` is a set, so the listing order of the output is not modelled.
- Sources.Source.Load: the test mock ignores its filter. The model applies the key predicate, as every adapter does.
- Sources.Source.Clear: stages a removal for every stored key, standing for the keys of the last load. The INI, YAML and dotenv adapters, and the Redis adapter without a prefix, stage a removal per cached key. The Redis adapter with a prefix deletes its server keys at once instead (RedisKv.RedisSource.Clear). The test mock, which empties its data at once, is not followed.
- RedisKv.RedisSource.Clear: without a prefix, the deletions staged are for the server's keys, which are the keys of the last load only when the server has not changed since.
- IniFile.Flat: the parsed file is taken with its option names already lower-cased, as `configparser` stores them. Reading the file text is not modelled; the one parse error modelled is the `[]` header that saving a `.x` key writes (IniFile.EmptyHeader).
- IniFile.IniSource.Save: the reload reads the applied file as it stands rather than writing it out and parsing it again. The reader strips whitespace around each value and each continuation line, drops continuation lines starting with `#` or `;`, splits an option line at its first `=` or `:`, and takes an indented line for a continuation. Those rewrites are not modelled, except the `[]` header of a section named "".
- IniFile.Items: only `BasicInterpolation` is modelled, as `ConfigParser()` uses by default; the distinct Python exception classes (syntax, missing option, depth) are one interpolation error.
- IniFile.SaveDottedKeyReadsBack: an option written as `Port` reads back under `section.port`, because option names are lower-cased on write; the lemma states the lower-cased key. It holds only for an option line the reader gives back as written (OptionReadsBack, ReadsBackAsIs, a section name on one line): otherwise the reread strips the value, or splits the name at `=` or `:`, or takes the line for a comment, a header or a continuation.
- IniFile.UndottedKeyGoesToDefault: holds only for an option line the reader gives back as written, as for SaveDottedKeyReadsBack.
- IniFile.Expand: reference names are lower-cased by `Text.Lower`, which folds ASCII letters only, while `optionxform` is Python's `str.lower`; a reference such as `%(Ä)s` finds a different option here.
- IniFile.ExpandReference: the lower-cased name is ASCII-folded, as for IniFile.Expand.
- IniFile.ApplyOne: option names are lower-cased ASCII-only, as for IniFile.Expand; a staged `Ä` writes the option `Ä` where `configparser` writes `ä`.
- IniFile.ApplyStagedLastWins: keys that differ only in the case of a non-ASCII letter count as different options here, while `configparser` merges them.
- Environments.CreateSource: the Redis client's validation of the URL in `redis.from_url` is not modelled; a `redis://` location always dispatches.
- RedisKv.RedisSource.Load: glob characters inside the prefix are taken literally.
- DotEnv.SetKey: lines are kept as a list, so a last line without a newline is not merged with the appended line when the file is written back.
- DotEnv.SetThenUnsetKey: files are lists of lines, and rereading with universal newlines is not modelled; so the law is stated only for a key without `\n` or `\r` (the key is written unquoted, so a break in it splits the line on reread, as `A\nB` does) and a value whose written line holds no inner line break (quoted, or without `\n` and `\r`). An unquoted `\r` in `auto` mode, or a line break in `never` mode, splits the line on reread and can leave a fragment behind.
- DotEnv.SetKey: the success flag and the echo of key and value are not modelled; a write failure is I/O.
- ConfigLoader.ParseSource: a non-string `path` or `uri` is rejected rather than converted with `str()`. A non-string `name` is dropped.
- ConfigLoader.ParseSource: a depth that is neither an integer nor a boolean is read as absent (Python stores it and fails later). Path normalisation by `pathlib` is not modelled.
- Filters.DepthOf: a depth that is neither an integer nor a boolean is read as absent, while `Filter` stores any value and fails only where the depth is compared.
- Environments.PathSuffix: models `pathlib`'s suffix for plain `/`-separated paths. Drive letters and Windows separators are not modelled.
- Environments.RegisterEntries: warnings printed for skipped entries are not modelled.
- Environments.FromFile: a configuration file that cannot be read contributes no sources, which is the effect of the warning path.
- Environments.GetConfig: the adapter constructors are a parameter, so what each adapter does after construction is covered by its own module, not here.
- Environments.GetConfig: in Python the config holds the environment's own list of registrations and the same source objects. A later `add_source_type` or `register_source` on the environment shows in that config's next materialisation, and configs from one environment share their sources' stage and cache. The model copies the registrations into the config, so this sharing is not modelled.
