/** The `.env` reader and writer (`dotenv.py`): the line parser with quote
    handling and variable expansion, the accumulation of a file's lines into
    the loaded values and the process environment, and the line rewriting of
    `set_key` and `unset_key`. Files are lists of lines; the process
    environment is a map threaded through the calls. */
module DotEnv {
  import opened Wrappers
  import opened Seqs
  import opened Text

  // ------------------------------------------------------------ line parser

  predicate IsIdentStart(c: char) {
    ('A' <= c <= 'Z') || ('a' <= c <= 'z') || c == '_'
  }

  predicate IsIdentChar(c: char) {
    IsIdentStart(c) || ('0' <= c <= '9')
  }

  /** The length of the longest prefix made of `[A-Za-z0-9_]`. */
  function IdentLen(s: string): (n: nat)
    ensures n <= |s|
    ensures forall i :: 0 <= i < n ==> IsIdentChar(s[i])
    ensures n < |s| ==> !IsIdentChar(s[n])
  {
    if |s| > 0 && IsIdentChar(s[0]) then 1 + IdentLen(s[1..]) else 0
  }

  /** A name the key pattern `[A-Za-z_][A-Za-z0-9_]*` matches in full. */
  predicate IsIdent(k: string) {
    |k| > 0 && IsIdentStart(k[0]) && forall i :: 0 <= i < |k| ==> IsIdentChar(k[i])
  }

  /** The pattern `^([A-Za-z_][A-Za-z0-9_]*)\s*=\s*(.*)$` applied to the
      stripped line, after blank lines and comments are skipped: the key and
      the raw value text. The value may not span a newline. */
  function Match(line: string): (r: Option<(string, string)>)
    ensures r.Some? ==> IsIdent(r.value.0) && !HasChar(r.value.1, '\n')
  {
    var s := Strip(line);
    if |s| == 0 || s[0] == '#' || !IsIdentStart(s[0]) then None
    else
      var n := IdentLen(s);
      assert n > 0 by {
        assert IsIdentChar(s[0]);
      }
      match ValueAfterKey(s[n..])
      case None => None
      case Some(raw) => Some((s[..n], raw))
  }

  /** The `\s*=\s*(.*)$` part of the pattern, on the text after the key. */
  function ValueAfterKey(rest: string): (r: Option<string>)
    ensures r.Some? ==> !HasChar(r.value, '\n')
  {
    var after := TrimStart(rest);
    if |after| == 0 || after[0] != '=' then None
    else
      var raw := TrimStart(after[1..]);
      if HasChar(raw, '\n') then None else Some(raw)
  }

  /** The text between the first and the last character (`v[1:-1]`). */
  function Inner(v: string): string {
    if |v| >= 2 then v[1..|v| - 1] else ""
  }

  /** The unescaping of a double-quoted value, one replacement after another. */
  function Unescape(v: string): string {
    ReplaceAll(ReplaceAll(ReplaceAll(ReplaceAll(v, "\\\"", "\""), "\\n", "\n"), "\\r", "\r"), "\\t", "\t")
  }

  /** Double quotes are removed and the value unescaped; single quotes are
      only removed; anything else is kept. */
  function Unquote(raw: string): string {
    if |raw| > 0 && raw[0] == '"' && raw[|raw| - 1] == '"' then Unescape(Inner(raw))
    else if |raw| > 0 && raw[0] == '\'' && raw[|raw| - 1] == '\'' then Inner(raw)
    else raw
  }

  /** A variable reference resolves to the process environment, else an
      earlier loaded value, else the empty text. */
  function Lookup(name: string, env: map<string, string>, values: map<string, string>): (r: string)
    ensures name in env ==> r == env[name]
    ensures name !in env && name in values ==> r == values[name]
    ensures name !in env && name !in values ==> r == ""
  {
    if name in env then env[name] else if name in values then values[name] else ""
  }

  /** The `${NAME}` pass, scanning left to right. */
  function ExpandBraced(s: string, env: map<string, string>, values: map<string, string>): string
    decreases |s|
  {
    if |s| == 0 then ""
    else if |s| >= 3 && s[0] == '$' && s[1] == '{' && IsIdentStart(s[2])
            && 2 + IdentLen(s[2..]) < |s| && s[2 + IdentLen(s[2..])] == '}' then
      var n := IdentLen(s[2..]);
      Lookup(s[2..2 + n], env, values) + ExpandBraced(s[3 + n..], env, values)
    else [s[0]] + ExpandBraced(s[1..], env, values)
  }

  /** The `$NAME` pass, scanning left to right. */
  function ExpandSimple(s: string, env: map<string, string>, values: map<string, string>): string
    decreases |s|
  {
    if |s| == 0 then ""
    else if |s| >= 2 && s[0] == '$' && IsIdentStart(s[1]) then
      var n := IdentLen(s[1..]);
      Lookup(s[1..1 + n], env, values) + ExpandSimple(s[1 + n..], env, values)
    else [s[0]] + ExpandSimple(s[1..], env, values)
  }

  /** `_expand_variables`: the braced pass, then the simple pass over its result. */
  function Expand(s: string, env: map<string, string>, values: map<string, string>): string {
    ExpandSimple(ExpandBraced(s, env, values), env, values)
  }

  /** A text without `$` is left alone by both passes. */
  lemma {:induction false} ExpandIdle(s: string, env: map<string, string>, values: map<string, string>)
    requires !HasChar(s, '$')
    ensures ExpandBraced(s, env, values) == s
    ensures ExpandSimple(s, env, values) == s
    ensures Expand(s, env, values) == s
    decreases |s|
  {
    if |s| > 0 {
      assert !HasChar(s[1..], '$') by {
        forall i | 0 <= i < |s[1..]| ensures s[1..][i] != '$' { assert s[1..][i] == s[i + 1]; }
      }
      ExpandIdle(s[1..], env, values);
      assert s == [s[0]] + s[1..];
    }
  }

  /** A whole `$NAME` reference becomes the variable's value, the process
      environment taking precedence over loaded values. */
  lemma ExpandReference(name: string, env: map<string, string>, values: map<string, string>)
    requires IsIdent(name)
    ensures ExpandSimple("$" + name, env, values) == Lookup(name, env, values)
  {
    var s := "$" + name;
    IdentLenOfIdent(name);
    assert s[1..] == name && s[1..1 + |name|] == name && s[1 + |name|..] == "";
  }

  /** A text made only of identifier characters is all key. */
  lemma IdentLenOfIdent(k: string)
    requires forall i :: 0 <= i < |k| ==> IsIdentChar(k[i])
    ensures IdentLen(k) == |k|
  {
  }

  /** The value a matched raw text stands for: quotes handled, then
      variables expanded against the environment and the earlier values. */
  function Resolve(raw: string, env: map<string, string>, values: map<string, string>): string {
    Expand(Unquote(raw), env, values)
  }

  /** `_parse_line`: the key and the resolved value; `None` for a blank
      line, a comment or a line the pattern rejects. */
  function ParseLine(line: string, env: map<string, string>, values: map<string, string>): (r: Option<(string, string)>)
    ensures r.Some? <==> Match(line).Some?
    ensures r.Some? ==> r.value.0 == Match(line).value.0 && IsIdent(r.value.0)
  {
    match Match(line)
    case None => None
    case Some((key, raw)) => Some((key, Resolve(raw, env, values)))
  }

  // ---------------------------------------------------------------- loading

  /** The loaded values and the process environment. */
  datatype Loaded = Loaded(env: map<string, string>, values: map<string, string>)

  /** The pattern matches of a file's lines, one per line. */
  function MatchAll(lines: seq<string>): (ms: seq<Option<(string, string)>>)
    ensures |ms| == |lines|
  {
    seq(|lines|, j requires 0 <= j < |lines| => Match(lines[j]))
  }

  /** One line of `load_dotenv`, given its match: the pair always lands in
      the values, and in the environment only when the key is new there or
      `override` is set. */
  function Step(st: Loaded, m: Option<(string, string)>, override: bool): (r: Loaded)
    ensures m.None? ==> r == st
    ensures m.Some? ==>
      var v := Resolve(m.value.1, st.env, st.values);
      && r.values == st.values[m.value.0 := v]
      && r.env == (if m.value.0 !in st.env || override then st.env[m.value.0 := v] else st.env)
  {
    match m
    case None => st
    case Some((k, raw)) =>
      var v := Resolve(raw, st.env, st.values);
      Loaded(if k !in st.env || override then st.env[k := v] else st.env, st.values[k := v])
  }

  /** The matched lines of a file, one after another. */
  function LoadMatches(st: Loaded, ms: seq<Option<(string, string)>>, override: bool): Loaded
    decreases |ms|
  {
    if |ms| == 0 then st
    else Step(LoadMatches(st, ms[..|ms| - 1], override), ms[|ms| - 1], override)
  }

  /** `load_dotenv`: no file means nothing loaded and `False`. */
  function LoadFile(st: Loaded, file: Option<seq<string>>, override: bool): (r: (bool, Loaded))
    ensures r.0 <==> file.Some?
    ensures file.None? ==> r.1 == st
  {
    if file.None? then (false, st) else (true, LoadMatches(st, MatchAll(file.value), override))
  }

  /** Each step of the fold is `_parse_line` followed by the two updates. */
  lemma StepParses(st: Loaded, line: string, override: bool)
    ensures ParseLine(line, st.env, st.values).None? ==> Step(st, Match(line), override) == st
    ensures ParseLine(line, st.env, st.values).Some? ==>
      var (k, v) := ParseLine(line, st.env, st.values).value;
      && Step(st, Match(line), override).values == st.values[k := v]
      && Step(st, Match(line), override).env == (if k !in st.env || override then st.env[k := v] else st.env)
  {
  }

  /** When a key repeats, the last line defining it wins: its value, resolved
      in the state reached just before that line, is the loaded value. */
  lemma {:induction false} LastDefinitionWins(st: Loaded, ms: seq<Option<(string, string)>>, override: bool, i: int, k: string)
    requires 0 <= i < |ms| && ms[i].Some? && ms[i].value.0 == k
    requires forall j :: i < j < |ms| ==> ms[j].None? || ms[j].value.0 != k
    ensures var before := LoadMatches(st, ms[..i], override);
      && k in LoadMatches(st, ms, override).values
      && LoadMatches(st, ms, override).values[k] == Resolve(ms[i].value.1, before.env, before.values)
    decreases |ms|
  {
    var n := |ms| - 1;
    var init := ms[..n];
    if i < n {
      assert init[..i] == ms[..i];
      LastDefinitionWins(st, init, override, i, k);
    } else {
      assert init == ms[..i];
    }
  }

  /** Without `override`, a variable already in the environment keeps its value. */
  lemma {:induction false} ExistingEnvKept(st: Loaded, ms: seq<Option<(string, string)>>, k: string)
    requires k in st.env
    ensures k in LoadMatches(st, ms, false).env && LoadMatches(st, ms, false).env[k] == st.env[k]
    decreases |ms|
  {
    if |ms| > 0 {
      ExistingEnvKept(st, ms[..|ms| - 1], k);
    }
  }

  /** With `override`, the environment ends up agreeing with the loaded
      values on every key the file defines. */
  lemma {:induction false} OverrideExports(st: Loaded, ms: seq<Option<(string, string)>>, k: string)
    requires k in LoadMatches(st, ms, true).values && k !in st.values
    ensures k in LoadMatches(st, ms, true).env
    ensures LoadMatches(st, ms, true).env[k] == LoadMatches(st, ms, true).values[k]
    decreases |ms|
  {
    if |ms| > 0 {
      var prev := LoadMatches(st, ms[..|ms| - 1], true);
      var m := ms[|ms| - 1];
      if m.None? || m.value.0 != k {
        OverrideExports(st, ms[..|ms| - 1], k);
      }
    }
  }

  // ---------------------------------------------------------------- writing

  /** `quote_mode`: any text other than "always" and "auto" behaves as "never". */
  datatype QuoteMode = Always | Auto | Never

  /** Quoting is forced, or chosen for a value with a space, a newline or a
      tab, or one starting with `#`. */
  predicate NeedsQuotes(v: string, mode: QuoteMode) {
    mode == Always
    || (mode == Auto && (HasChar(v, ' ') || HasChar(v, '\n') || HasChar(v, '\t') || StartsWith(v, "#")))
  }

  /** The escaping of a quoted value: quotes and line-control characters;
      backslashes are not escaped. */
  function Escape(v: string): string {
    ReplaceAll(ReplaceAll(ReplaceAll(ReplaceAll(v, "\"", "\\\""), "\n", "\\n"), "\r", "\\r"), "\t", "\\t")
  }

  /** The line `set_key` writes: `KEY=`, the value (quoted and escaped when
      needed) and a newline. */
  function FormatLine(key: string, v: string, mode: QuoteMode): (r: string)
    ensures |r| > |key| + 1 && r[..|key| + 1] == key + "=" && r[|r| - 1] == '\n'
    ensures !NeedsQuotes(v, mode) ==> r[|key| + 1..|r| - 1] == v
    ensures NeedsQuotes(v, mode) ==> r[|key| + 1] == '"' && r[|r| - 2] == '"'
  {
    key + "=" + (if NeedsQuotes(v, mode) then "\"" + Escape(v) + "\"" else v) + "\n"
  }

  /** A line that `set_key` and `unset_key` take to define `key`. */
  predicate Defines(line: string, key: string) {
    StartsWith(Strip(line), key + "=")
  }

  /** The index of the first line defining `key`, or the number of lines. */
  function FirstDefining(lines: seq<string>, key: string): (i: nat)
    ensures i <= |lines|
    ensures forall j :: 0 <= j < i ==> !Defines(lines[j], key)
    ensures i < |lines| ==> Defines(lines[i], key)
  {
    FirstDefiningFrom(lines, key, 0)
  }

  /** The scan behind `FirstDefining`, from line `k` on. */
  function FirstDefiningFrom(lines: seq<string>, key: string, k: nat): (i: nat)
    requires k <= |lines|
    ensures k <= i <= |lines|
    ensures forall j :: k <= j < i ==> !Defines(lines[j], key)
    ensures i < |lines| ==> Defines(lines[i], key)
    decreases |lines| - k
  {
    if k == |lines| then k
    else if Defines(lines[k], key) then k
    else FirstDefiningFrom(lines, key, k + 1)
  }

  /** `set_key`: the first line defining the key is replaced, or the line is
      appended; a missing file becomes that single line. */
  function SetKey(file: Option<seq<string>>, key: string, v: string, mode: QuoteMode): (r: seq<string>)
    ensures file.None? ==> r == [FormatLine(key, v, mode)]
    ensures file.Some? && FirstDefining(file.value, key) < |file.value| ==>
      && |r| == |file.value|
      && r[FirstDefining(file.value, key)] == FormatLine(key, v, mode)
      && forall j :: 0 <= j < |r| && j != FirstDefining(file.value, key) ==> r[j] == file.value[j]
    ensures file.Some? && FirstDefining(file.value, key) == |file.value| ==>
      r == file.value + [FormatLine(key, v, mode)]
  {
    var line := FormatLine(key, v, mode);
    if file.None? then [line]
    else
      var i := FirstDefining(file.value, key);
      if i < |file.value| then file.value[i := line] else file.value + [line]
  }

  /** The lines `unset_key` keeps. */
  function KeptBy(key: string): string -> bool {
    (l: string) => !Defines(l, key)
  }

  /** `unset_key`: every line defining the key is dropped, the rest kept in
      order; a missing file is reported and left missing. */
  function UnsetKey(file: Option<seq<string>>, key: string): (r: Option<seq<string>>)
    ensures r.None? <==> file.None?
    ensures r.Some? ==> forall j :: 0 <= j < |r.value| ==> !Defines(r.value[j], key)
    ensures r.Some? ==> forall l :: l in r.value <==> l in file.value && !Defines(l, key)
  {
    if file.None? then None else Some(Keep(file.value, KeptBy(key)))
  }

  /** `unset_key` keeps the surviving lines in file order, each as often as
      it occurs: filtering a file with one more line at the end extends the
      result by that line exactly when it does not define the key. */
  lemma UnsetKeyKeepsOrder(ls: seq<string>, l: string, key: string)
    ensures UnsetKey(Some([]), key) == Some([])
    ensures UnsetKey(Some(ls + [l]), key) ==
      Some(UnsetKey(Some(ls), key).value + (if Defines(l, key) then [] else [l]))
  {
    KeepSnoc(ls, l, KeptBy(key));
  }

  /** Unsetting a file made of two parts unsets each part in place. */
  lemma UnsetKeyAppend(a: seq<string>, b: seq<string>, key: string)
    ensures UnsetKey(Some(a + b), key) == Some(UnsetKey(Some(a), key).value + UnsetKey(Some(b), key).value)
  {
    KeepAppend(a, b, KeptBy(key));
  }

  /** The text written holds no line break before its final newline, so
      rereading it with universal newlines yields the one line written. */
  predicate OneLine(v: string, mode: QuoteMode) {
    NeedsQuotes(v, mode) || (!HasChar(v, '\n') && !HasChar(v, '\r'))
  }

  /** The line written for a key with a non-blank first character defines
      that key, so `unset_key` after `set_key` leaves what unsetting leaves
      on the file, or on an empty file when there was none. */
  lemma SetThenUnsetKey(file: Option<seq<string>>, key: string, v: string, mode: QuoteMode)
    requires |key| > 0 && !IsSpace(key[0])
    requires !HasChar(key, '\n') && !HasChar(key, '\r')
    requires OneLine(v, mode)
    ensures UnsetKey(Some(SetKey(file, key, v, mode)), key) == UnsetKey(Some(file.GetOr([])), key)
  {
    var p := KeptBy(key);
    var ls := file.GetOr([]);
    var written := SetKey(file, key, v, mode);
    assert Keep(written, p) == Keep(ls, p) by {
      var line := FormatLine(key, v, mode);
      FormatLineDefines(key, v, mode);
      assert !p(line);
      if file.None? {
        assert written == [] + [line];
        KeepSnoc([], line, p);
      } else {
        var i := FirstDefining(ls, key);
        if i < |ls| {
          assert written == ls[i := line];
          assert !p(ls[i]);
          KeepReplaceDropped(ls, i, line, p);
        } else {
          assert written == ls + [line];
          KeepSnoc(ls, line, p);
        }
      }
    }
  }

  /** A key starting with a non-blank character defines itself in its line. */
  lemma FormatLineDefines(key: string, v: string, mode: QuoteMode)
    requires |key| > 0 && !IsSpace(key[0])
    ensures Defines(FormatLine(key, v, mode), key)
  {
    var line := FormatLine(key, v, mode);
    assert line[0] == key[0];
    assert TrimStart(line) == line;
    var r := TrimEnd(line);
    assert line[|key|] == '=';
    assert !IsSpace(line[|key|]);
    TrimEndKeeps(line, |key|);
    assert Strip(line) == r;
    assert r[..|key| + 1] == line[..|key| + 1] == key + "=";
  }

  // ----------------------------------------------------- write-then-read

  /** How one character is escaped. */
  function EscapeChar(c: char): string {
    if c == '"' then "\\\"" else if c == '\n' then "\\n" else if c == '\r' then "\\r" else if c == '\t' then "\\t" else [c]
  }

  /** Escaping works character by character. */
  lemma EscapeCons(c: char, rest: string)
    ensures Escape([c] + rest) == EscapeChar(c) + Escape(rest)
  {
    var s := [c] + rest;
    ReplaceCharConcat([c], rest, '"', "\\\"");
    var a1 := ReplaceAll([c], "\"", "\\\"");
    var b1 := ReplaceAll(rest, "\"", "\\\"");
    ReplaceCharConcat(a1, b1, '\n', "\\n");
    var a2 := ReplaceAll(a1, "\n", "\\n");
    var b2 := ReplaceAll(b1, "\n", "\\n");
    ReplaceCharConcat(a2, b2, '\r', "\\r");
    var a3 := ReplaceAll(a2, "\r", "\\r");
    var b3 := ReplaceAll(b2, "\r", "\\r");
    ReplaceCharConcat(a3, b3, '\t', "\\t");
    EscapeCharSteps(c);
  }

  /** The four replacements applied to one character. */
  lemma EscapeCharSteps(c: char)
    ensures ReplaceAll(ReplaceAll(ReplaceAll(ReplaceAll([c], "\"", "\\\""), "\n", "\\n"), "\r", "\\r"), "\t", "\\t") == EscapeChar(c)
  {
    var a1 := ReplaceAll([c], "\"", "\\\"");
    assert [c][..1] == [c];
    if c == '"' {
      assert a1 == "\\\"";
    } else {
      assert a1 == [c];
    }
    var a2 := ReplaceAll(a1, "\n", "\\n");
    if c == '\n' { assert a2 == "\\n"; }
    else if c == '"' { ReplaceAbsent(a1, "\n", "\\n"); }
    else { assert a2 == a1; }
    var a3 := ReplaceAll(a2, "\r", "\\r");
    if c == '\r' { assert a3 == "\\r"; }
    else { ReplaceAbsent(a2, "\r", "\\r"); }
    var a4 := ReplaceAll(a3, "\t", "\\t");
    if c == '\t' { assert a4 == "\\t"; }
    else { ReplaceAbsent(a3, "\t", "\\t"); }
  }

  /** Unescaping undoes the escape of one character that is not a backslash,
      in front of any text. */
  lemma UnescapeCons(c: char, rest: string)
    requires c != '\\'
    ensures Unescape(EscapeChar(c) + rest) == [c] + Unescape(rest)
  {
    var e := EscapeChar(c);
    ReplacePairConcat(e, rest, "\\\"", "\"");
    var a1 := ReplaceAll(e, "\\\"", "\"");
    var b1 := ReplaceAll(rest, "\\\"", "\"");
    UnescapeCharStep1(c);
    ReplacePairConcat(a1, b1, "\\n", "\n");
    var a2 := ReplaceAll(a1, "\\n", "\n");
    var b2 := ReplaceAll(b1, "\\n", "\n");
    UnescapeCharStep2(c);
    ReplacePairConcat(a2, b2, "\\r", "\r");
    var a3 := ReplaceAll(a2, "\\r", "\r");
    var b3 := ReplaceAll(b2, "\\r", "\r");
    UnescapeCharStep3(c);
    ReplacePairConcat(a3, b3, "\\t", "\t");
    UnescapeCharStep4(c);
  }

  /** Unescaping one escaped character, the `\"` step. */
  lemma UnescapeCharStep1(c: char)
    requires c != '\\'
    ensures ReplaceAll(EscapeChar(c), "\\\"", "\"") == (if c == '"' then "\"" else EscapeChar(c))
  {
    var e := EscapeChar(c);
    if c == '"' {
      assert e[..2] == "\\\"";
      assert e[2..] == "";
    } else if |e| == 2 {
      assert e[..2][1] == e[1] && e[1] != '"';
      assert e[1..] == [e[1]];
    }
  }

  /** Unescaping one escaped character, the `\n` step. */
  lemma UnescapeCharStep2(c: char)
    requires c != '\\'
    ensures ReplaceAll(if c == '"' then "\"" else EscapeChar(c), "\\n", "\n") == (if c == '"' || c == '\n' then [c] else EscapeChar(c))
  {
    var e := if c == '"' then "\"" else EscapeChar(c);
    if c == '\n' {
      assert e[..2] == "\\n";
      assert e[2..] == "";
    } else if |e| == 2 {
      assert e[..2][1] == e[1] && e[1] != 'n';
      assert e[1..] == [e[1]];
    }
  }

  /** Unescaping one escaped character, the `\r` step. */
  lemma UnescapeCharStep3(c: char)
    requires c != '\\'
    ensures ReplaceAll(if c == '"' || c == '\n' then [c] else EscapeChar(c), "\\r", "\r") == (if c == '"' || c == '\n' || c == '\r' then [c] else EscapeChar(c))
  {
    var e := if c == '"' || c == '\n' then [c] else EscapeChar(c);
    if c == '\r' {
      assert e[..2] == "\\r";
      assert e[2..] == "";
    } else if |e| == 2 {
      assert e[..2][1] == e[1] && e[1] != 'r';
      assert e[1..] == [e[1]];
    }
  }

  /** Unescaping one escaped character, the `\t` step. */
  lemma UnescapeCharStep4(c: char)
    requires c != '\\'
    ensures ReplaceAll(if c == '"' || c == '\n' || c == '\r' then [c] else EscapeChar(c), "\\t", "\t") == [c]
  {
    var e := if c == '"' || c == '\n' || c == '\r' then [c] else EscapeChar(c);
    if c == '\t' {
      assert e[..2] == "\\t";
      assert e[2..] == "";
    }
  }

  /** Unescaping undoes escaping for every value without a backslash, and the
      escaped text never holds a newline. */
  lemma {:induction false} EscapeRoundTrip(v: string)
    requires !HasChar(v, '\\')
    ensures Unescape(Escape(v)) == v
    ensures !HasChar(Escape(v), '\n')
    ensures !HasChar(Escape(v), '$') <== !HasChar(v, '$')
    decreases |v|
  {
    if |v| == 0 {
      assert Escape(v) == "";
    } else {
      var rest := v[1..];
      assert v == [v[0]] + rest;
      LacksTail(v, '\\');
      EscapeRoundTrip(rest);
      EscapeCons(v[0], rest);
      UnescapeCons(v[0], Escape(rest));
      var e := EscapeChar(v[0]);
      EscapeCharClean(v[0]);
      if !HasChar(v, '$') {
        LacksTail(v, '$');
      }
      NoCharConcat(e, Escape(rest), '\n');
      NoCharConcat(e, Escape(rest), '$');
    }
  }

  /** The escape of one character holds no newline, and no `$` unless the
      character is one. */
  lemma EscapeCharClean(c: char)
    ensures !HasChar(EscapeChar(c), '\n')
    ensures !HasChar(EscapeChar(c), '\r')
    ensures c != '$' ==> !HasChar(EscapeChar(c), '$')
  {
    var e := EscapeChar(c);
    if c == '"' || c == '\n' || c == '\r' || c == '\t' {
      assert |e| == 2 && e[0] == '\\' && e[1] != '\n' && e[1] != '\r' && e[1] != '$';
    } else {
      assert e == [c];
    }
  }

  /** Escaping leaves no line break of either kind, whatever the value. */
  lemma {:induction false} EscapeSingleLine(v: string)
    ensures !HasChar(Escape(v), '\n') && !HasChar(Escape(v), '\r')
    decreases |v|
  {
    if |v| == 0 {
      assert Escape(v) == "";
    } else {
      var rest := v[1..];
      assert v == [v[0]] + rest;
      EscapeSingleLine(rest);
      EscapeCons(v[0], rest);
      EscapeCharClean(v[0]);
      NoCharConcat(EscapeChar(v[0]), Escape(rest), '\n');
      NoCharConcat(EscapeChar(v[0]), Escape(rest), '\r');
    }
  }

  /** Under `OneLine`, the line `set_key` writes has its only line break at
      the end, so rereading the file gives it back as one line. */
  lemma FormatLineOneLine(key: string, v: string, mode: QuoteMode)
    requires !HasChar(key, '\n') && !HasChar(key, '\r')
    requires OneLine(v, mode)
    ensures var line := FormatLine(key, v, mode);
      && |line| > 0 && line[|line| - 1] == '\n'
      && !HasChar(line[..|line| - 1], '\n') && !HasChar(line[..|line| - 1], '\r')
  {
    var line := FormatLine(key, v, mode);
    var body := if NeedsQuotes(v, mode) then "\"" + Escape(v) + "\"" else v;
    assert line == key + "=" + body + "\n";
    assert line[..|line| - 1] == (key + "=") + body;
    if NeedsQuotes(v, mode) {
      EscapeSingleLine(v);
      NoCharConcat("\"", Escape(v), '\n');
      NoCharConcat("\"", Escape(v), '\r');
      NoCharConcat("\"" + Escape(v), "\"", '\n');
      NoCharConcat("\"" + Escape(v), "\"", '\r');
    }
    NoCharConcat(key, "=", '\n');
    NoCharConcat(key, "=", '\r');
    NoCharConcat(key + "=", body, '\n');
    NoCharConcat(key + "=", body, '\r');
  }

  /** A character in neither part is not in their concatenation. */
  lemma NoCharConcat(a: string, b: string, c: char)
    ensures !HasChar(a, c) && !HasChar(b, c) ==> !HasChar(a + b, c)
  {
    if !HasChar(a, c) && !HasChar(b, c) {
      forall i | 0 <= i < |a + b| ensures (a + b)[i] != c {
        if i < |a| { assert (a + b)[i] == a[i]; } else { assert (a + b)[i] == b[i - |a|]; }
      }
    }
  }

  /** A line `key=raw` with a valid key and a raw value without a newline
      and without whitespace at its ends matches with that key and value. */
  lemma MatchDefinition(key: string, raw: string)
    requires IsIdent(key) && |raw| > 0 && !IsSpace(raw[0]) && !IsSpace(raw[|raw| - 1])
    requires !HasChar(raw, '\n')
    ensures Match(key + "=" + raw + "\n") == Some((key, raw))
  {
    StripLine(key + "=" + raw);
    IdentLenOfDefinition(key, raw);
    MatchParts(key + "=" + raw + "\n", key, raw);
  }

  /** The identifier scan of `key=raw` stops at the `=`. */
  lemma IdentLenOfDefinition(key: string, raw: string)
    requires IsIdent(key)
    ensures IdentLen(key + "=" + raw) == |key|
  {
    var body := key + "=" + raw;
    assert body[..|key|] == key;
    IdentLenPrefix(body, key);
  }

  /** The steps of `Match` on a line that strips to `key=raw`. */
  lemma MatchParts(line: string, key: string, raw: string)
    requires |key| > 0 && IsIdentStart(key[0])
    requires Strip(line) == key + "=" + raw && IdentLen(key + "=" + raw) == |key|
    requires TrimStart(raw) == raw && !HasChar(raw, '\n')
    ensures Match(line) == Some((key, raw))
  {
    DefinitionPieces(key, raw);
    ValueAfterEquals(raw);
  }

  /** The text after the key, `=raw`, yields `raw`. */
  lemma ValueAfterEquals(raw: string)
    requires TrimStart(raw) == raw && !HasChar(raw, '\n')
    ensures ValueAfterKey("=" + raw) == Some(raw)
  {
    var rest := "=" + raw;
    assert rest[0] == '=' && rest[1..] == raw;
    assert TrimStart(rest) == rest;
  }

  /** How `key=raw` splits around the end of the key. */
  lemma DefinitionPieces(key: string, raw: string)
    requires |key| > 0
    ensures var s := key + "=" + raw;
      s[0] == key[0] && s[..|key|] == key && s[|key|..] == "=" + raw && s[|key|..][1..] == raw
  {
    var s := key + "=" + raw;
    assert s[|key|..] == "=" + raw;
  }

  /** The quoted form of a value. */
  function Quoted(v: string): string {
    "\"" + Escape(v) + "\""
  }

  /** The quoted form of a value without a backslash is a single line that
      resolves back to the value when it holds no `$`. */
  lemma QuotedResolves(v: string, env: map<string, string>, values: map<string, string>)
    requires !HasChar(v, '\\') && !HasChar(v, '$')
    ensures !HasChar(Quoted(v), '\n')
    ensures Resolve(Quoted(v), env, values) == v
  {
    EscapeRoundTrip(v);
    var e := Escape(v);
    var raw := Quoted(v);
    assert !HasChar(raw, '\n') by {
      forall i | 0 <= i < |raw| ensures raw[i] != '\n' {
        if 0 < i < |raw| - 1 { assert raw[i] == e[i - 1]; }
      }
    }
    assert Inner(raw) == e;
    assert Unquote(raw) == v;
    ExpandIdle(v, env, values);
  }

  /** The write-then-read round trip that holds: a line written with forced
      quoting parses back to the same key and value, in any environment, when
      the key is a valid name and the value holds no backslash and no `$`. */
  lemma AlwaysQuotedRoundTrip(key: string, v: string, env: map<string, string>, values: map<string, string>)
    requires IsIdent(key) && !HasChar(v, '\\') && !HasChar(v, '$')
    ensures ParseLine(FormatLine(key, v, Always), env, values) == Some((key, v))
  {
    var raw := Quoted(v);
    QuotedResolves(v, env, values);
    assert FormatLine(key, v, Always) == key + "=" + raw + "\n";
    MatchDefinition(key, raw);
  }

  /** The identifier scan of `key + rest` stops at the end of `key` when
      `rest` starts with a character outside the identifier class. */
  lemma IdentLenPrefix(s: string, key: string)
    requires |key| < |s| && s[..|key|] == key && !IsIdentChar(s[|key|])
    requires forall i :: 0 <= i < |key| ==> IsIdentChar(key[i])
    ensures IdentLen(s) == |key|
    decreases |key|
  {
    if |key| > 0 {
      assert s[1..][..|key| - 1] == key[1..];
      IdentLenPrefix(s[1..], key[1..]);
    }
  }

  /** The control character a backslash sequence stands for. */
  function ControlOf(c: char): char {
    if c == 'n' then '\n' else if c == 'r' then '\r' else '\t'
  }

  /** A backslash followed by `n`, `r` or `t` passes escaping untouched. */
  lemma EscapeBackslashPair(c: char)
    requires c == 'n' || c == 'r' || c == 't'
    ensures Escape(['\\', c]) == ['\\', c]
  {
    var v := ['\\', c];
    ReplaceAbsent(v, "\"", "\\\"");
    ReplaceAbsent(v, "\n", "\\n");
    ReplaceAbsent(v, "\r", "\\r");
    ReplaceAbsent(v, "\t", "\\t");
  }

  /** One replacement step applied to a two-character text. */
  lemma ReplacePairStep(v: string, pat: string, rep: string)
    requires |v| == 2 && |pat| == 2
    ensures v == pat ==> ReplaceAll(v, pat, rep) == rep
    ensures v != pat ==> ReplaceAll(v, pat, rep) == v
  {
    assert v[..2] == v;
    if v != pat {
      assert v[1..] == [v[1]];
      assert [v[1]][..0] == [];
    }
  }

  /** A backslash followed by `n`, `r` or `t` unescapes to the control
      character. */
  lemma UnescapeBackslashPair(c: char)
    requires c == 'n' || c == 'r' || c == 't'
    ensures Unescape(['\\', c]) == [ControlOf(c)]
  {
    var v := ['\\', c];
    ReplacePairStep(v, "\\\"", "\"");
    assert v != "\\\"" by { assert v[1] != '"'; }
    var a := ReplaceAll(v, "\\n", "\n");
    ReplacePairStep(v, "\\n", "\n");
    if c == 'n' {
      ReplaceAbsent(a, "\\r", "\r");
      ReplaceAbsent(a, "\\t", "\t");
    } else {
      assert v != "\\n" by { assert v[1] != 'n'; }
      var b := ReplaceAll(v, "\\r", "\r");
      ReplacePairStep(v, "\\r", "\r");
      if c == 'r' {
        ReplaceAbsent(b, "\\t", "\t");
      } else {
        assert v != "\\r" by { assert v[1] != 'r'; }
        ReplacePairStep(v, "\\t", "\t");
      }
    }
  }

  /** The quoted backslash sequence resolves to the control character. */
  lemma ResolveBackslashPair(c: char, env: map<string, string>, values: map<string, string>)
    requires c == 'n' || c == 'r' || c == 't'
    ensures Resolve(Quoted(['\\', c]), env, values) == [ControlOf(c)]
  {
    var v := ['\\', c];
    EscapeBackslashPair(c);
    UnescapeBackslashPair(c);
    var raw := Quoted(v);
    assert Inner(raw) == v;
    var u := Unquote(raw);
    assert u == [ControlOf(c)];
    assert !HasChar(u, '$');
    ExpandIdle(u, env, values);
  }

  /** Where the round trip fails: backslashes are not escaped on writing, so
      a value made of a backslash and `n`, `r` or `t` reads back as the
      control character. */
  lemma BackslashNotPreserved(key: string, c: char, env: map<string, string>, values: map<string, string>)
    requires IsIdent(key) && (c == 'n' || c == 'r' || c == 't')
    ensures ParseLine(FormatLine(key, ['\\', c], Always), env, values) == Some((key, [ControlOf(c)]))
  {
    var raw := Quoted(['\\', c]);
    QuotedBackslashPair(key, c);
    ParseDefinition(key, raw, env, values);
    ResolveBackslashPair(c, env, values);
  }

  /** How a backslash pair is written: quoted, with nothing escaped. */
  lemma QuotedBackslashPair(key: string, c: char)
    requires c == 'n' || c == 'r' || c == 't'
    ensures Quoted(['\\', c]) == ['"', '\\', c, '"']
    ensures FormatLine(key, ['\\', c], Always) == key + "=" + Quoted(['\\', c]) + "\n"
    ensures !HasChar(Quoted(['\\', c]), '\n')
  {
    EscapeBackslashPair(c);
    QuotedPairOneLine(c);
  }

  /** A quoted pair of a backslash and a letter is a single line. */
  lemma QuotedPairOneLine(c: char)
    requires c != '\n'
    ensures !HasChar(['"', '\\', c, '"'], '\n')
  {
    var raw := ['"', '\\', c, '"'];
    forall i | 0 <= i < |raw| ensures raw[i] != '\n' {
      if i == 2 {
        assert raw[i] == c;
      } else {
        assert raw[i] == '"' || raw[i] == '\\';
      }
    }
  }

  /** `_parse_line` on a definition line `key=raw`. */
  lemma ParseDefinition(key: string, raw: string, env: map<string, string>, values: map<string, string>)
    requires IsIdent(key) && |raw| > 0 && !IsSpace(raw[0]) && !IsSpace(raw[|raw| - 1])
    requires !HasChar(raw, '\n')
    ensures ParseLine(key + "=" + raw + "\n", env, values) == Some((key, Resolve(raw, env, values)))
  {
    MatchDefinition(key, raw);
  }
}
