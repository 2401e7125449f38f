/** The INI adapter (`sources/ini_file.py`): sections flatten to
    `section.option` keys, and staged keys are routed back to a section and
    an option when saving. The parsed file is a list of named sections over
    a DEFAULT section whose options every section inherits. */
module IniFile {
  import opened Wrappers
  import opened Dicts
  import opened Types
  import opened Filters
  import Text

  const DefaultSection: string := "DEFAULT"

  /** A parsed file: the DEFAULT options and the named sections in file order. */
  datatype Ini = Ini(defaults: map<string, string>, sections: seq<Entry<map<string, string>>>)

  // ------------------------------------------------------------ interpolation

  /** The deepest nesting of references `BasicInterpolation` follows. */
  const MaxInterpolationDepth: nat := 10

  /** A `%(name)s` reference at the start of `s` (the pattern `%\(([^)]+)\)s`):
      the name, which runs to the first `)` and is not empty, and the length
      of the reference. */
  function Reference(s: string): (r: Option<(string, nat)>)
    ensures r.Some? ==>
      && 4 <= r.value.1 <= |s| && |r.value.0| > 0 && !Text.HasChar(r.value.0, ')')
      && s[..r.value.1] == "%(" + r.value.0 + ")s"
  {
    if |s| < 2 || s[0] != '%' || s[1] != '(' then None
    else
      var j := Text.IndexOf(s[2..], ')');
      if j == 0 || 2 + j + 1 >= |s| || s[2 + j + 1] != 's' then None
      else
        var name := s[2..2 + j];
        assert !Text.HasChar(name, ')') by {
          forall i | 0 <= i < |name| ensures name[i] != ')' { assert name[i] == s[2..][i]; }
        }
        assert s[..2 + j + 2] == "%(" + name + ")s";
        Some((name, 2 + j + 2))
  }

  /** Every well-formed reference is recognised, whatever follows it. */
  lemma ReferenceOf(name: string, rest: string)
    requires |name| > 0 && !Text.HasChar(name, ')')
    ensures Reference("%(" + name + ")s" + rest) == Some((name, |name| + 4))
  {
    var s := "%(" + name + ")s" + rest;
    assert s[2..][..|name|] == name;
    assert s[2..][|name|] == ')';
    assert Text.IndexOf(s[2..], ')') == |name|;
    assert s[2..2 + |name|] == name;
  }

  /** `BasicInterpolation._interpolate_some`: `%%` is a literal `%`;
      `%(name)s` is the value of the lower-cased option `name` in `vars`,
      itself expanded one level deeper when it holds a `%`; any other `%`, a
      missing option and a nesting deeper than the limit raise. */
  function Expand(s: string, vars: map<string, string>, depth: nat): (r: Result<string, Error>)
    ensures r.Err? ==> r.error == BadInterpolation
    decreases MaxInterpolationDepth + 1 - depth, |s|
  {
    if depth > MaxInterpolationDepth then Err(BadInterpolation)
    else if |s| == 0 then Ok("")
    else if s[0] != '%' then
      match Expand(s[1..], vars, depth)
      case Err(e) => Err(e)
      case Ok(t) => Ok([s[0]] + t)
    else if |s| >= 2 && s[1] == '%' then
      match Expand(s[2..], vars, depth)
      case Err(e) => Err(e)
      case Ok(t) => Ok("%" + t)
    else
      match Reference(s)
      case None => Err(BadInterpolation)
      case Some((name, n)) =>
        var key := Text.Lower(name);
        if key !in vars then Err(BadInterpolation)
        else
          var v := vars[key];
          var head := if Text.HasChar(v, '%') then Expand(v, vars, depth + 1) else Ok(v);
          if head.Err? then Err(BadInterpolation)
          else
            match Expand(s[n..], vars, depth)
            case Err(e) => Err(e)
            case Ok(t) => Ok(head.value + t)
  }

  /** Text without `%` expands to itself. */
  lemma {:induction false} ExpandPlain(s: string, vars: map<string, string>, depth: nat)
    requires depth <= MaxInterpolationDepth && !Text.HasChar(s, '%')
    ensures Expand(s, vars, depth) == Ok(s)
    decreases |s|
  {
    if |s| > 0 {
      Text.LacksTail(s, '%');
      ExpandPlain(s[1..], vars, depth);
      assert s == [s[0]] + s[1..];
    }
  }

  /** Doubling every `%` (`s.replace("%", "%%")`). */
  function Escape(s: string): string {
    Text.ReplaceAll(s, "%", "%%")
  }

  /** Expansion undoes doubling: an escaped text reads back as it was. */
  lemma {:induction false} ExpandEscaped(s: string, vars: map<string, string>, depth: nat)
    requires depth <= MaxInterpolationDepth
    ensures Expand(Escape(s), vars, depth) == Ok(s)
    decreases |s|
  {
    if |s| > 0 {
      ExpandEscaped(s[1..], vars, depth);
      var e := Escape(s);
      if s[..1] == "%" {
        Text.ReplaceStepMatch(s, "%", "%%");
        assert e == "%%" + Escape(s[1..]);
        assert e[2..] == Escape(s[1..]);
        assert s == "%" + s[1..];
      } else {
        Text.ReplaceStepSkip(s, "%", "%%");
        assert e == [s[0]] + Escape(s[1..]);
        assert e[1..] == Escape(s[1..]);
        assert s == [s[0]] + s[1..];
      }
    }
  }

  /** A reference to an option whose value has no `%` reads as that value. */
  lemma ExpandReference(name: string, vars: map<string, string>)
    requires |name| > 0 && !Text.HasChar(name, ')')
    requires Text.Lower(name) in vars && !Text.HasChar(vars[Text.Lower(name)], '%')
    ensures Expand("%(" + name + ")s", vars, 1) == Ok(vars[Text.Lower(name)])
  {
    var s := "%(" + name + ")s";
    ReferenceOf(name, "");
    assert s + "" == s;
    assert s[|name| + 4..] == "";
    assert vars[Text.Lower(name)] + "" == vars[Text.Lower(name)];
  }

  /** A `%` that ends the text, after text without `%`, cannot be read. */
  lemma {:induction false} TrailingPercentFails(s: string, vars: map<string, string>, depth: nat)
    requires !Text.HasChar(s, '%')
    ensures Expand(s + "%", vars, depth).Err?
    decreases |s|
  {
    if depth <= MaxInterpolationDepth && |s| > 0 {
      Text.LacksTail(s, '%');
      assert (s + "%")[1..] == s[1..] + "%";
      TrailingPercentFails(s[1..], vars, depth);
    }
  }

  /** `KEYCRE.sub('', s)`: every `%(name)s` reference, scanning left to
      right, removed. */
  function DropReferences(s: string): string
    decreases |s|
  {
    if |s| == 0 then ""
    else
      match Reference(s)
      case Some((_, n)) => DropReferences(s[n..])
      case None => [s[0]] + DropReferences(s[1..])
  }

  /** `BasicInterpolation.before_set`: once the `%%` pairs and then the
      references are removed, no `%` may remain, or `parser.set` raises
      `ValueError`. */
  predicate Settable(s: string) {
    !Text.HasChar(DropReferences(Text.ReplaceAll(s, "%%", "")), '%')
  }

  /** Removing references from text that holds no `%` changes nothing. */
  lemma {:induction false} DropReferencesPlain(s: string)
    requires !Text.HasChar(s, '%')
    ensures DropReferences(s) == s
    decreases |s|
  {
    if |s| > 0 {
      Text.LacksTail(s, '%');
      DropReferencesPlain(s[1..]);
    }
  }

  /** Text without `%` can always be set. */
  lemma SettablePlain(s: string)
    requires !Text.HasChar(s, '%')
    ensures Settable(s)
  {
    Text.ReplaceAbsent(s, "%%", "");
    DropReferencesPlain(s);
  }

  /** A `%` that ends the text, after text without `%`, is refused. */
  lemma TrailingPercentRefused(s: string)
    requires !Text.HasChar(s, '%')
    ensures !Settable(s + "%")
  {
    Text.ReplacePairConcat(s, "%", "%%", "");
    Text.ReplaceAbsent(s, "%%", "");
    assert Text.ReplaceAll("%", "%%", "") == "%";
    DropTrailingPercent(s);
    assert (s + "%")[|s|] == '%';
  }

  /** Removing references keeps a final `%` that follows text without `%`. */
  lemma {:induction false} DropTrailingPercent(s: string)
    requires !Text.HasChar(s, '%')
    ensures DropReferences(s + "%") == s + "%"
    decreases |s|
  {
    if |s| == 0 {
      assert DropReferences("%") == "%" + DropReferences("");
    } else {
      Text.LacksTail(s, '%');
      assert (s + "%")[1..] == s[1..] + "%";
      DropTrailingPercent(s[1..]);
    }
  }

  // ------------------------------------------------------------------ reading

  /** The section's own options over the defaults, as stored. */
  function RawItems(defaults: map<string, string>, own: map<string, string>): (r: map<string, string>)
    ensures forall o :: o in r <==> o in own || o in defaults
    ensures forall o :: o in own ==> r[o] == own[o]
    ensures forall o :: o !in own && o in defaults ==> r[o] == defaults[o]
  {
    defaults + own
  }

  /** Some value of the options does not expand against them. */
  predicate BadValue(raw: map<string, string>) {
    exists o :: o in raw && Expand(raw[o], raw, 1).Err?
  }

  /** `parser.items(section)`: every option of the section, its own over the
      defaults, with the value expanded against those same options; a value
      that does not expand makes it raise. */
  function Items(defaults: map<string, string>, own: map<string, string>): (r: Result<map<string, string>, Error>)
    ensures r.Err? <==> BadValue(RawItems(defaults, own))
    ensures r.Err? ==> r.error == BadInterpolation
    ensures r.Ok? ==> forall o :: o in r.value <==> o in own || o in defaults
    ensures r.Ok? ==> forall o :: o in r.value ==> Expand(RawItems(defaults, own)[o], RawItems(defaults, own), 1) == Ok(r.value[o])
  {
    var raw := RawItems(defaults, own);
    if BadValue(raw) then Err(BadInterpolation)
    else Ok(map o | o in raw :: Expand(raw[o], raw, 1).value)
  }

  /** A section whose values hold no `%` reads as stored. */
  lemma ItemsPlain(defaults: map<string, string>, own: map<string, string>)
    requires forall o :: o in RawItems(defaults, own) ==> !Text.HasChar(RawItems(defaults, own)[o], '%')
    ensures Items(defaults, own) == Ok(RawItems(defaults, own))
  {
    var raw := RawItems(defaults, own);
    forall o | o in raw ensures Expand(raw[o], raw, 1) == Ok(raw[o]) {
      ExpandPlain(raw[o], raw, 1);
    }
    assert !BadValue(raw);
    assert (map o | o in raw :: Expand(raw[o], raw, 1).value) == raw;
  }

  /** The flat keys of one section. */
  function SectionFlat(name: string, items: map<string, string>): (r: map<string, string>)
    ensures forall o :: o in items ==> name + "." + o in r && r[name + "." + o] == items[o]
    ensures forall fk :: fk in r ==> exists o :: o in items && fk == name + "." + o
  {
    assert forall o :: (name + "." + o)[|name| + 1..] == o;
    map o | o in items :: name + "." + o := items[o]
  }

  /** `_flatten`: every option of every named section (DEFAULT is not one) as
      `section.option`, a later section winning a clash; the first section
      with a value that does not expand makes it raise. */
  function Flat(defaults: map<string, string>, secs: seq<Entry<map<string, string>>>): (r: Result<map<string, string>, Error>)
    ensures r.Err? ==> r.error == BadInterpolation
    ensures r.Ok? ==> forall fk :: fk in r.value ==> Text.HasChar(fk, '.')
    decreases |secs|
  {
    if |secs| == 0 then Ok(map[])
    else
      var n := |secs| - 1;
      match Flat(defaults, secs[..n])
      case Err(e) => Err(e)
      case Ok(init) =>
        match Items(defaults, secs[n].val)
        case Err(e) => Err(e)
        case Ok(items) =>
          var here := SectionFlat(secs[n].key, items);
          assert forall fk :: fk in here ==> Text.HasChar(fk, '.') by {
            forall fk | fk in here ensures Text.HasChar(fk, '.') {
              var o :| o in items && fk == secs[n].key + "." + o;
              assert fk[|secs[n].key|] == '.';
            }
          }
          Ok(init + here)
  }

  /** Some option of the section does not expand. */
  predicate Unreadable(defaults: map<string, string>, own: map<string, string>) {
    BadValue(RawItems(defaults, own))
  }

  /** One section with a value that does not expand makes reading fail. */
  lemma {:induction false} UnreadableSectionFails(defaults: map<string, string>, secs: seq<Entry<map<string, string>>>, i: int)
    requires 0 <= i < |secs| && Unreadable(defaults, secs[i].val)
    ensures Flat(defaults, secs).Err?
    decreases |secs|
  {
    var n := |secs| - 1;
    FlatFailsStep(defaults, secs);
    if i < n {
      assert secs[..n][i] == secs[i];
      UnreadableSectionFails(defaults, secs[..n], i);
    }
  }

  /** When every section's values expand, reading succeeds. */
  lemma {:induction false} ReadableSectionsRead(defaults: map<string, string>, secs: seq<Entry<map<string, string>>>)
    requires forall i :: 0 <= i < |secs| ==> !Unreadable(defaults, secs[i].val)
    ensures Flat(defaults, secs).Ok?
    decreases |secs|
  {
    if |secs| > 0 {
      var n := |secs| - 1;
      forall i | 0 <= i < n
        ensures !Unreadable(defaults, secs[..n][i].val)
      {
        assert secs[..n][i] == secs[i];
      }
      ReadableSectionsRead(defaults, secs[..n]);
      assert !Unreadable(defaults, secs[n].val);
      FlatFailsStep(defaults, secs);
    }
  }

  /** Reading one more section fails when the earlier ones fail or it does. */
  lemma FlatFailsStep(defaults: map<string, string>, secs: seq<Entry<map<string, string>>>)
    requires |secs| > 0
    ensures Flat(defaults, secs).Err? <==>
      Flat(defaults, secs[..|secs| - 1]).Err? || Unreadable(defaults, secs[|secs| - 1].val)
  {
  }

  /** The file holds a section named "": `write` puts it out as a `[]` line,
      which the reader takes for neither a header nor an option, so reading
      the file raises `ParsingError`. */
  predicate EmptyHeader(ini: Ini) {
    HasKey(ini.sections, "")
  }

  /** The key predicate that admits every key, as an unfiltered load uses. */
  function AnyKey(): Matcher {
    (p: string, k: string) => true
  }

  /** `load(filter)`: the flattened file as the cache, and the cache narrowed
      by the filter's key predicate as the answer; a file that does not
      parse, or a value that does not expand, makes it raise. Depth is
      ignored. */
  function Load(ini: Ini, flt: Option<Filter>, search: Matcher): (r: Result<(map<string, Value>, map<string, Value>), Error>)
    ensures EmptyHeader(ini) ==> r == Err(BadIniFile)
    ensures !EmptyHeader(ini) ==> (r.Err? <==> Flat(ini.defaults, ini.sections).Err?)
    ensures r.Ok? ==>
      var flat := Flat(ini.defaults, ini.sections).value;
      && (forall k :: k in r.value.0 <==> k in flat)
      && (forall k :: k in r.value.0 ==> r.value.0[k] == Str(flat[k]))
      && (forall k :: k in r.value.1 <==> k in r.value.0 && ShouldIncludeKey(k, flt, search))
      && (forall k :: k in r.value.1 ==> r.value.1[k] == r.value.0[k])
  {
    if EmptyHeader(ini) then Err(BadIniFile)
    else match Flat(ini.defaults, ini.sections)
    case Err(e) => Err(e)
    case Ok(flat) =>
      var cache := map k | k in flat :: Str(flat[k]);
      Ok((cache, map k | k in cache && ShouldIncludeKey(k, flt, search) :: cache[k]))
  }

  // ------------------------------------------------------------------ writing

  /** The routing of a staged key in `save`: no dot means DEFAULT, otherwise
      section and option are split at the first dot. */
  function Route(k: string): (r: (string, string))
    ensures !Text.HasChar(k, '.') ==> r == (DefaultSection, k)
    ensures Text.HasChar(k, '.') ==> r.0 + "." + r.1 == k && !Text.HasChar(r.0, '.')
  {
    if !Text.HasChar(k, '.') then (DefaultSection, k) else Text.SplitFirst(k, '.')
  }

  /** The section and the lower-cased option name a staged key writes to.
      An empty section part, as in `.x`, names DEFAULT: `set`, `has_option`
      and `remove_option` take an empty section name for DEFAULT. */
  function Target(k: string): (string, string) {
    (if Route(k).0 == "" then DefaultSection else Route(k).0, Text.Lower(Route(k).1))
  }

  /** The option's own value in the parsed file: DEFAULT's, or the named
      section's (not inherited from DEFAULT), if there is one. */
  function Own(ini: Ini, sec: string, opt: string): Option<string> {
    if sec == DefaultSection then
      if opt in ini.defaults then Some(ini.defaults[opt]) else None
    else if HasKey(ini.sections, sec) && opt in Get(ini.sections, sec).value then
      Some(Get(ini.sections, sec).value[opt])
    else None
  }

  /** One staged entry applied to the parsed file, the option name
      lower-cased as `configparser` stores it. */
  function ApplyOne(ini: Ini, k: string, v: Option<string>): Ini {
    Apply(ini, Target(k).0, Target(k).1, v, Route(k).0 == "")
  }

  /** A write or removal of one option: a removal happens only when the
      option is the section's own (`has_option` then `remove_option`); a
      write creates a missing section at the end first (`add_section`). When
      the key's section part was empty (`bare`), that section is the one
      named "", while the option goes to DEFAULT. */
  function Apply(ini: Ini, sec: string, opt: string, v: Option<string>, bare: bool): Ini {
    if v.None? then
      if sec == DefaultSection then
        if opt in ini.defaults then ini.(defaults := ini.defaults - {opt}) else ini
      else if HasKey(ini.sections, sec) && opt in Get(ini.sections, sec).value then
        ini.(sections := Put(ini.sections, sec, Get(ini.sections, sec).value - {opt}))
      else ini
    else if sec == DefaultSection then
      var secs := if bare && !HasKey(ini.sections, "") then Put(ini.sections, "", map[]) else ini.sections;
      Ini(ini.defaults[opt := v.value], secs)
    else
      var own := if HasKey(ini.sections, sec) then Get(ini.sections, sec).value else map[];
      ini.(sections := Put(ini.sections, sec, own[opt := v.value]))
  }

  /** The written option holds the text, or is gone after a removal. */
  lemma ApplySets(ini: Ini, sec: string, opt: string, v: Option<string>, bare: bool)
    ensures Own(Apply(ini, sec, opt, v, bare), sec, opt) == v
  {
    var r := Apply(ini, sec, opt, v, bare);
    if sec != DefaultSection && !(v.None? && !(HasKey(ini.sections, sec) && opt in Get(ini.sections, sec).value)) {
      assert Get(r.sections, sec).value == (if v.None? then Get(ini.sections, sec).value - {opt}
        else (if HasKey(ini.sections, sec) then Get(ini.sections, sec).value else map[])[opt := v.value]);
    }
  }

  /** Every other option keeps its value. */
  lemma ApplyKeeps(ini: Ini, sec: string, opt: string, v: Option<string>, bare: bool, s: string, o: string)
    requires (s, o) != (sec, opt)
    ensures Own(Apply(ini, sec, opt, v, bare), s, o) == Own(ini, s, o)
  {
    if sec == DefaultSection {
      if v.Some? && bare && !HasKey(ini.sections, "") {
        OwnPut(ini.(defaults := ini.defaults[opt := v.value]), "", map[], s, o);
      }
    } else if v.None? {
      if HasKey(ini.sections, sec) && opt in Get(ini.sections, sec).value {
        OwnPut(ini, sec, Get(ini.sections, sec).value - {opt}, s, o);
      }
    } else {
      OwnPut(ini, sec, (if HasKey(ini.sections, sec) then Get(ini.sections, sec).value else map[])[opt := v.value], s, o);
    }
  }

  /** Replacing a named section's options leaves every other section's, and
      DEFAULT's, as they were. */
  lemma OwnPut(ini: Ini, sec: string, own: map<string, string>, s: string, o: string)
    requires sec != DefaultSection
    ensures s != sec ==> Own(ini.(sections := Put(ini.sections, sec, own)), s, o) == Own(ini, s, o)
    ensures s == sec ==> Own(ini.(sections := Put(ini.sections, sec, own)), s, o) == if o in own then Some(own[o]) else None
  {
  }

  /** The targeted option ends with the entry's text, or is gone after a removal. */
  lemma ApplyOneSets(ini: Ini, k: string, v: Option<string>)
    ensures Own(ApplyOne(ini, k, v), Target(k).0, Target(k).1) == v
  {
    ApplySets(ini, Target(k).0, Target(k).1, v, Route(k).0 == "");
  }

  /** Every other option, of every section and of DEFAULT, keeps its value. */
  lemma ApplyOneKeeps(ini: Ini, k: string, v: Option<string>, sec: string, opt: string)
    requires (sec, opt) != Target(k)
    ensures Own(ApplyOne(ini, k, v), sec, opt) == Own(ini, sec, opt)
  {
    ApplyKeeps(ini, Target(k).0, Target(k).1, v, Route(k).0 == "", sec, opt);
  }

  /** The text `save` writes for a staged entry: `str(value)`, or a removal. */
  function Shown(v: Option<Value>, show: Value -> string): Option<string> {
    if v.Some? then Some(show(v.value)) else None
  }

  /** The staged entries applied in staged order. */
  function ApplyStaged(ini: Ini, staged: seq<Entry<Option<Value>>>, show: Value -> string): Ini
    decreases |staged|
  {
    if |staged| == 0 then ini
    else
      var n := |staged| - 1;
      ApplyOne(ApplyStaged(ini, staged[..n], show), staged[n].key, Shown(staged[n].val, show))
  }

  /** An option no staged key targets keeps its value through `save`. */
  lemma {:induction false} ApplyStagedKeeps(ini: Ini, staged: seq<Entry<Option<Value>>>, show: Value -> string, sec: string, opt: string)
    requires forall i :: 0 <= i < |staged| ==> Target(staged[i].key) != (sec, opt)
    ensures Own(ApplyStaged(ini, staged, show), sec, opt) == Own(ini, sec, opt)
    decreases |staged|
  {
    if |staged| > 0 {
      var n := |staged| - 1;
      forall i | 0 <= i < n ensures Target(staged[..n][i].key) != (sec, opt) {
        assert staged[..n][i] == staged[i];
      }
      ApplyStagedKeeps(ini, staged[..n], show, sec, opt);
      var prev := ApplyStaged(ini, staged[..n], show);
      ApplyOneKeeps(prev, staged[n].key, Shown(staged[n].val, show), sec, opt);
    }
  }

  /** Each option ends with the text of the last staged key that targets it;
      keys that differ only in the case of the option name share one. */
  lemma {:induction false} ApplyStagedLastWins(ini: Ini, staged: seq<Entry<Option<Value>>>, show: Value -> string, i: int)
    requires 0 <= i < |staged|
    requires forall j :: i < j < |staged| ==> Target(staged[j].key) != Target(staged[i].key)
    ensures Own(ApplyStaged(ini, staged, show), Target(staged[i].key).0, Target(staged[i].key).1) == Shown(staged[i].val, show)
    decreases |staged|
  {
    var n := |staged| - 1;
    var prev := ApplyStaged(ini, staged[..n], show);
    assert ApplyStaged(ini, staged, show) == ApplyOne(prev, staged[n].key, Shown(staged[n].val, show));
    if i == n {
      ApplyOneSets(prev, staged[n].key, Shown(staged[n].val, show));
    } else {
      forall j | i < j < n ensures Target(staged[..n][j].key) != Target(staged[..n][i].key) {
        assert staged[..n][j] == staged[j];
      }
      assert staged[..n][i] == staged[i];
      ApplyStagedLastWins(ini, staged[..n], show, i);
      var t := Target(staged[i].key);
      assert t != Target(staged[n].key);
      ApplyOneKeeps(prev, staged[n].key, Shown(staged[n].val, show), t.0, t.1);
    }
  }

  /** Section names are free of dots and appear once: then flat keys do not clash. */
  predicate Plain(secs: seq<Entry<map<string, string>>>) {
    && (forall i :: 0 <= i < |secs| ==> !Text.HasChar(secs[i].key, '.'))
    && (forall i, j :: 0 <= i < j < |secs| ==> secs[i].key != secs[j].key)
  }

  /** A `section.option` key, for a plain file that reads without error,
      reads the option of that section (its own, else the default, expanded),
      and is absent when the section is. */
  lemma {:induction false} FlatLookup(defaults: map<string, string>, secs: seq<Entry<map<string, string>>>, sec: string, opt: string)
    requires Plain(secs) && !Text.HasChar(sec, '.') && Flat(defaults, secs).Ok?
    ensures sec + "." + opt in Flat(defaults, secs).value <==> HasKey(secs, sec) && opt in RawItems(defaults, Get(secs, sec).value)
    ensures sec + "." + opt in Flat(defaults, secs).value ==>
      && Items(defaults, Get(secs, sec).value).Ok?
      && Flat(defaults, secs).value[sec + "." + opt] == Items(defaults, Get(secs, sec).value).value[opt]
    decreases |secs|
  {
    if |secs| > 0 {
      var n := |secs| - 1;
      var init := secs[..n];
      var last := secs[n];
      assert secs == init + [last];
      assert Plain(init);
      assert Flat(defaults, init).Ok?;
      FlatLookup(defaults, init, sec, opt);
      var items := Items(defaults, last.val).value;
      var here := SectionFlat(last.key, items);
      assert Flat(defaults, secs).value == Flat(defaults, init).value + here;
      SectionFlatKey(last.key, items, sec, opt);
      GetSnocUnique(init, last, sec);
    }
  }

  /** A dot-free section name is recovered from its flat keys. */
  lemma SectionFlatKey(name: string, items: map<string, string>, sec: string, opt: string)
    requires !Text.HasChar(name, '.') && !Text.HasChar(sec, '.')
    ensures sec + "." + opt in SectionFlat(name, items) <==> name == sec && opt in items
  {
    var fk := sec + "." + opt;
    assert fk == sec + ['.'] + opt;
    Text.SplitFirstOfJoined(sec, opt, '.');
    if fk in SectionFlat(name, items) {
      var o :| o in items && fk == name + "." + o;
      assert fk == name + ['.'] + o;
      Text.SplitFirstOfJoined(name, o, '.');
    }
  }

  /** Looking up a key in a list with one more entry at the end, when the
      earlier entries do not repeat the new key. */
  lemma GetSnocUnique<V>(init: seq<Entry<V>>, last: Entry<V>, k: string)
    requires forall i :: 0 <= i < |init| ==> init[i].key != last.key
    ensures last.key == k ==> Get(init + [last], k) == Some(last.val)
    ensures last.key != k ==> Get(init + [last], k) == Get(init, k)
    decreases |init|
  {
    if |init| > 0 {
      assert (init + [last])[1..] == init[1..] + [last];
      GetSnocUnique(init[1..], last, k);
    }
  }

  /** `Put` keeps a list plain when the new key is dot-free. */
  lemma {:induction false} PutKeepsPlain(secs: seq<Entry<map<string, string>>>, sec: string, own: map<string, string>)
    requires Plain(secs) && !Text.HasChar(sec, '.')
    ensures Plain(Put(secs, sec, own))
    decreases |secs|
  {
    if |secs| > 0 {
      PlainTail(secs);
      if secs[0].key == sec {
        PlainCons(Entry(sec, own), secs[1..]);
      } else {
        PutKeepsPlain(secs[1..], sec, own);
        var rest := Put(secs[1..], sec, own);
        assert Get(rest, secs[0].key) == Get(secs[1..], secs[0].key);
        PlainCons(secs[0], rest);
      }
    }
  }

  /** The entries after the first of a plain list are plain, and none of them
      repeats the first key. */
  lemma PlainTail(secs: seq<Entry<map<string, string>>>)
    requires |secs| > 0 && Plain(secs)
    ensures Plain(secs[1..]) && !HasKey(secs[1..], secs[0].key) && !Text.HasChar(secs[0].key, '.')
  {
    var t := secs[1..];
    forall j | 0 <= j < |t| ensures t[j].key != secs[0].key {
      assert t[j] == secs[j + 1];
    }
  }

  /** A dot-free entry whose key is new, in front of a plain list, keeps it plain. */
  lemma PlainCons(e: Entry<map<string, string>>, t: seq<Entry<map<string, string>>>)
    requires Plain(t) && !HasKey(t, e.key) && !Text.HasChar(e.key, '.')
    ensures Plain([e] + t)
  {
    var r := [e] + t;
    forall i | 0 <= i < |r| ensures !Text.HasChar(r[i].key, '.') {
      if i > 0 { assert r[i] == t[i - 1]; }
    }
    forall i, j | 0 <= i < j < |r| ensures r[i].key != r[j].key {
      assert r[j] == t[j - 1];
      if i > 0 { assert r[i] == t[i - 1]; }
    }
  }

  /** No line break: `write` puts the text on one line, and the reader
      splits lines at `\n` and at `\r`. */
  predicate SingleLine(s: string) {
    !Text.HasChar(s, '\n') && !Text.HasChar(s, '\r')
  }

  /** A value the reader gives back unchanged from its `option = text`
      line: one line, with no whitespace at either end, which it strips. */
  predicate ReadsBackAsIs(text: string) {
    SingleLine(text) && Text.Strip(text) == text
  }

  /** An option name the reader splits back out of its `option = text`
      line: not empty, one line, no whitespace at either end (an indented
      line continues the previous value, and the name is right-stripped),
      no `=` or `:` (the line is split at the first), and not starting with
      a comment prefix `#` or `;`, or with `[`, which opens a header. */
  predicate OptionReadsBack(opt: string) {
    && opt != ""
    && ReadsBackAsIs(opt)
    && !Text.HasChar(opt, '=') && !Text.HasChar(opt, ':')
    && opt[0] != '#' && opt[0] != ';' && opt[0] != '['
  }

  /** The write round trip: saving `section.option = text` into a named
      section makes a reload that succeeds show the text, expanded, under
      `section.` and the lower-cased option; text without `%` shows as it
      is. The line written for the option must read back as written. */
  lemma SaveDottedKeyReadsBack(ini: Ini, k: string, text: string)
    requires Plain(ini.sections) && Target(k).0 != DefaultSection
    requires SingleLine(Target(k).0) && OptionReadsBack(Target(k).1) && ReadsBackAsIs(text)
    ensures var r := ApplyOne(ini, k, Some(text));
      var key := Target(k).0 + "." + Target(k).1;
      var load := Load(r, None, AnyKey());
      var expanded := Expand(text, RawItems(r.defaults, Get(r.sections, Target(k).0).value), 1);
      load.Ok? ==>
        && key in load.value.0
        && expanded.Ok? && load.value.0[key] == Str(expanded.value)
        && (!Text.HasChar(text, '%') ==> load.value.0[key] == Str(text))
  {
    var sec := Target(k).0;
    var opt := Target(k).1;
    var r := ApplyOne(ini, k, Some(text));
    var own := (if HasKey(ini.sections, sec) then Get(ini.sections, sec).value else map[])[opt := text];
    assert r.sections == Put(ini.sections, sec, own);
    PutKeepsPlain(ini.sections, sec, own);
    assert Get(r.sections, sec) == Some(own);
    LoadShowsOption(r, sec, opt, text);
  }

  /** In a plain file that reloads, an option a named section holds or
      inherits shows under `section.option`, expanded. */
  lemma LoadShowsOption(r: Ini, sec: string, opt: string, text: string)
    requires Plain(r.sections) && !Text.HasChar(sec, '.') && HasKey(r.sections, sec)
    requires opt in RawItems(r.defaults, Get(r.sections, sec).value) && RawItems(r.defaults, Get(r.sections, sec).value)[opt] == text
    ensures var load := Load(r, None, AnyKey());
      var expanded := Expand(text, RawItems(r.defaults, Get(r.sections, sec).value), 1);
      load.Ok? ==>
        && sec + "." + opt in load.value.0
        && expanded.Ok? && load.value.0[sec + "." + opt] == Str(expanded.value)
        && (!Text.HasChar(text, '%') ==> load.value.0[sec + "." + opt] == Str(text))
  {
    if Load(r, None, AnyKey()).Ok? {
      FlatLookup(r.defaults, r.sections, sec, opt);
      if !Text.HasChar(text, '%') {
        ExpandPlain(text, RawItems(r.defaults, Get(r.sections, sec).value), 1);
      }
    }
  }

  /** A staged key without a dot is written to DEFAULT, so a reload never
      shows it under its own name; every named section that lacks the option
      shows it as `section.` and the lower-cased key instead. */
  lemma UndottedKeyGoesToDefault(ini: Ini, k: string, text: string, sec: string)
    requires Plain(ini.sections) && !Text.HasChar(k, '.') && !Text.HasChar(sec, '.')
    requires HasKey(ini.sections, sec) && Text.Lower(k) !in Get(ini.sections, sec).value
    requires OptionReadsBack(Text.Lower(k)) && ReadsBackAsIs(text)
    ensures var r := ApplyOne(ini, k, Some(text));
      var key := sec + "." + Text.Lower(k);
      var load := Load(r, None, AnyKey());
      var expanded := Expand(text, RawItems(r.defaults, Get(r.sections, sec).value), 1);
      load.Ok? ==>
        && k !in load.value.0
        && key in load.value.0
        && expanded.Ok? && load.value.0[key] == Str(expanded.value)
        && (!Text.HasChar(text, '%') ==> load.value.0[key] == Str(text))
  {
    var r := ApplyOne(ini, k, Some(text));
    LoadShowsOption(r, sec, Text.Lower(k), text);
    if Load(r, None, AnyKey()).Ok? {
      FlatLookup(r.defaults, r.sections, sec, Text.Lower(k));
    }
  }

  /** Unsetting an option that has no value of its own changes nothing. */
  lemma UnsetAbsentIsNoOp(ini: Ini, k: string)
    requires Own(ini, Target(k).0, Target(k).1).None?
    ensures ApplyOne(ini, k, None) == ini
  {
  }

  /** A staged key with an empty section part, such as `.x`, writes DEFAULT's
      option and adds a section named "", so the saved file no longer reads. */
  lemma BareKeyWritesDefault(ini: Ini, k: string, text: string)
    requires Route(k).0 == ""
    ensures var r := ApplyOne(ini, k, Some(text));
      && r.defaults == ini.defaults[Target(k).1 := text]
      && EmptyHeader(r)
      && Load(r, None, AnyKey()) == Err(BadIniFile)
  {
  }

  /** Unsetting such a key removes DEFAULT's option and adds no section. */
  lemma BareKeyUnsetsDefault(ini: Ini, k: string)
    requires Route(k).0 == ""
    ensures ApplyOne(ini, k, None) == ini.(defaults := ini.defaults - {Target(k).1})
  {
  }

  /** No staged entry removes a section. */
  lemma ApplyKeepsSection(ini: Ini, sec: string, opt: string, v: Option<string>, bare: bool, s: string)
    requires HasKey(ini.sections, s)
    ensures HasKey(Apply(ini, sec, opt, v, bare).sections, s)
  {
    assert Get(ini.sections, s).Some?;
    assert Get(Apply(ini, sec, opt, v, bare).sections, s).Some?;
  }

  /** Once an entry with an empty section part is written, the section
      named "" stays to the end of `save`. */
  lemma {:induction false} ApplyStagedBare(ini: Ini, staged: seq<Entry<Option<Value>>>, show: Value -> string, i: int)
    requires 0 <= i < |staged| && Route(staged[i].key).0 == "" && staged[i].val.Some?
    ensures EmptyHeader(ApplyStaged(ini, staged, show))
    decreases |staged|
  {
    var n := |staged| - 1;
    var prev := ApplyStaged(ini, staged[..n], show);
    var w := Shown(staged[n].val, show);
    assert ApplyStaged(ini, staged, show) == ApplyOne(prev, staged[n].key, w);
    if i == n {
      BareKeyWritesDefault(prev, staged[n].key, w.value);
    } else {
      assert staged[..n][i] == staged[i];
      ApplyStagedBare(ini, staged[..n], show, i);
      var t := Target(staged[n].key);
      ApplyKeepsSection(prev, t.0, t.1, w, Route(staged[n].key).0 == "", "");
    }
  }

  /** The adapter: the parsed file, the last load and the staged writes. */
  datatype IniSource = IniSource(file: Ini, cache: map<string, Value>, staged: seq<Entry<Option<Value>>>)
  {
    /** `set(key, value)`: stages the value; a Python `None` stages a removal. */
    function Set(key: string, v: Value): (r: IniSource)
      ensures Get(r.staged, key) == Some(if v == Null then None else Some(v)) && r.file == file
    {
      this.(staged := Put(staged, key, if v == Null then None else Some(v)))
    }

    /** `unset(key)`: stages a removal. */
    function Unset(key: string): (r: IniSource)
      ensures Get(r.staged, key) == Some(None) && r.file == file
    {
      this.(staged := Put(staged, key, None))
    }

    /** `save()`: a file that does not parse, or a staged value `parser.set`
      refuses, raises before the file is written, and nothing changes;
      otherwise the staged entries are applied and written, the stage is
      cleared, and the reload either replaces the cache or raises, leaving
      the old cache in place. */
    function Save(show: Value -> string): (r: (IniSource, Option<Error>))
      ensures EmptyHeader(file) ==> r == (this, Some(BadIniFile))
      ensures !EmptyHeader(file) && Refused(staged, show) ==> r == (this, Some(InvalidInterpolationSyntax))
      ensures !EmptyHeader(file) && !Refused(staged, show) ==>
        && r.0.staged == [] && r.0.file == ApplyStaged(file, staged, show)
        && (r.1.None? <==> Load(r.0.file, None, AnyKey()).Ok?)
        && (r.1.None? ==> r.0.cache == Load(r.0.file, None, AnyKey()).value.0)
        && (r.1.Some? ==> r.0.cache == cache)
        && (r.1.Some? ==> r.1.value == if EmptyHeader(r.0.file) then BadIniFile else BadInterpolation)
    {
      if EmptyHeader(file) then (this, Some(BadIniFile))
      else if Refused(staged, show) then (this, Some(InvalidInterpolationSyntax))
      else
        var f := ApplyStaged(file, staged, show);
        match Load(f, None, AnyKey())
        case Err(e) => (this.(file := f, staged := []), Some(e))
        case Ok(loaded) => (this.(file := f, cache := loaded.0, staged := []), None)
    }
  }

  /** Some staged value is text that `parser.set` refuses. */
  predicate Refused(staged: seq<Entry<Option<Value>>>, show: Value -> string) {
    exists i :: 0 <= i < |staged| && staged[i].val.Some? && !Settable(show(staged[i].val.value))
  }

  /** Staging a value whose text ends in a lone `%` makes `save` raise
      `ValueError` and change nothing. */
  lemma SaveRefusesTrailingPercent(src: IniSource, key: string, v: Value, show: Value -> string, prefix: string)
    requires v != Null && show(v) == prefix + "%" && !Text.HasChar(prefix, '%') && !EmptyHeader(src.file)
    ensures src.Set(key, v).Save(show) == (src.Set(key, v), Some(InvalidInterpolationSyntax))
  {
    var s := src.Set(key, v);
    TrailingPercentRefused(prefix);
    GetWitness(s.staged, key);
    var i :| 0 <= i < |s.staged| && s.staged[i].key == key && s.staged[i].val == Get(s.staged, key).value;
    assert s.staged[i].val == Some(v);
  }

  /** Saving a staged `.x` writes DEFAULT's `x` and the section named "",
      so the reload raises and the old cache stays. */
  lemma SaveBareKeyFails(src: IniSource, k: string, v: Value, show: Value -> string)
    requires Route(k).0 == "" && v != Null && !EmptyHeader(src.file) && !Refused(src.Set(k, v).staged, show)
    ensures var r := src.Set(k, v).Save(show);
      r.1 == Some(BadIniFile) && r.0.cache == src.cache && r.0.staged == []
  {
    var s := src.Set(k, v);
    GetWitness(s.staged, k);
    var i :| 0 <= i < |s.staged| && s.staged[i].key == k && s.staged[i].val == Get(s.staged, k).value;
    ApplyStagedBare(s.file, s.staged, show, i);
  }
}
