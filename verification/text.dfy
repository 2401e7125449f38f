/** String helpers with the semantics of the Python `str` methods the
    system uses: `startswith`, `in`, `split`, `replace`, `strip`, `lower`. */
module Text {
  import opened Wrappers

  predicate StartsWith(s: string, prefix: string) {
    |prefix| <= |s| && s[..|prefix|] == prefix
  }

  predicate EndsWith(s: string, suffix: string) {
    |suffix| <= |s| && s[|s| - |suffix|..] == suffix
  }

  /** `c in s` for a single character. */
  predicate HasChar(s: string, c: char) {
    exists i :: 0 <= i < |s| && s[i] == c
  }

  /** Index of the first occurrence of `c`, or `|s|` when there is none. */
  function IndexOf(s: string, c: char): (r: nat)
    ensures r <= |s|
    ensures r < |s| ==> s[r] == c
    ensures forall i :: 0 <= i < r ==> s[i] != c
    ensures r == |s| <==> !HasChar(s, c)
  {
    if |s| == 0 then 0
    else if s[0] == c then 0
    else 1 + IndexOf(s[1..], c)
  }

  /** `s.split(c, 1)` when `c in s`: the text before and after the first `c`. */
  function SplitFirst(s: string, c: char): (r: (string, string))
    requires HasChar(s, c)
    ensures r.0 + [c] + r.1 == s
    ensures !HasChar(r.0, c)
  {
    var i := IndexOf(s, c);
    assert s == s[..i] + [c] + s[i + 1..];
    (s[..i], s[i + 1..])
  }

  /** Splitting at the first `c` undoes gluing two texts with `c` when the
      first one has no `c`. */
  lemma SplitFirstOfJoined(a: string, b: string, c: char)
    requires !HasChar(a, c)
    ensures HasChar(a + [c] + b, c)
    ensures SplitFirst(a + [c] + b, c) == (a, b)
  {
    var s := a + [c] + b;
    assert s[|a|] == c;
    var i := IndexOf(s, c);
    assert i == |a|;
    assert s[..i] == a && s[i + 1..] == b;
  }

  /** A text without `c` has neither a first character `c` nor `c` after it. */
  lemma LacksTail(s: string, c: char)
    requires |s| > 0 && !HasChar(s, c)
    ensures s[0] != c && !HasChar(s[1..], c)
  {
    forall i | 0 <= i < |s| - 1 ensures s[1..][i] != c { assert s[1..][i] == s[i + 1]; }
  }

  /** Both pieces of a split keep any character the text lacks out. */
  lemma SplitFirstLacks(s: string, c: char, d: char)
    requires HasChar(s, c) && !HasChar(s, d)
    ensures !HasChar(SplitFirst(s, c).0, d) && !HasChar(SplitFirst(s, c).1, d)
  {
    var (a, b) := SplitFirst(s, c);
    forall i | 0 <= i < |a| ensures a[i] != d { assert a[i] == s[i]; }
    forall i | 0 <= i < |b| ensures b[i] != d { assert b[i] == s[|a| + 1 + i]; }
  }

  /** `s.split(c)` with a single-character separator: never empty. */
  function Split(s: string, c: char): (parts: seq<string>)
    ensures |parts| >= 1
    ensures forall i :: 0 <= i < |parts| ==> !HasChar(parts[i], c)
    ensures Join(parts, c) == s
    decreases |s|
  {
    if !HasChar(s, c) then [s]
    else
      var (head, tail) := SplitFirst(s, c);
      [head] + Split(tail, c)
  }

  /** `c.join(parts)`. */
  function Join(parts: seq<string>, c: char): string {
    if |parts| == 0 then ""
    else if |parts| == 1 then parts[0]
    else parts[0] + [c] + Join(parts[1..], c)
  }

  /** `s.replace(pat, rep)`: every non-overlapping occurrence of a non-empty
      pattern, scanning left to right, is replaced. */
  function ReplaceAll(s: string, pat: string, rep: string): string
    requires |pat| > 0
    decreases |s|
  {
    if |s| < |pat| then s
    else if s[..|pat|] == pat then rep + ReplaceAll(s[|pat|..], pat, rep)
    else [s[0]] + ReplaceAll(s[1..], pat, rep)
  }

  /** A replacement whose pattern starts with a character that does not occur
      leaves the text unchanged. */
  lemma {:induction false} ReplaceAbsent(s: string, pat: string, rep: string)
    requires |pat| > 0 && !HasChar(s, pat[0])
    ensures ReplaceAll(s, pat, rep) == s
    decreases |s|
  {
    if |s| >= |pat| {
      assert s[..|pat|][0] == s[0];
      assert !HasChar(s[1..], pat[0]) by {
        forall i | 0 <= i < |s[1..]| ensures s[1..][i] != pat[0] {
          assert s[1..][i] == s[i + 1];
        }
      }
      ReplaceAbsent(s[1..], pat, rep);
    }
  }

  /** A single-character replacement works piecewise on a concatenation. */
  lemma {:induction false} ReplaceCharConcat(a: string, b: string, c: char, rep: string)
    ensures ReplaceAll(a + b, [c], rep) == ReplaceAll(a, [c], rep) + ReplaceAll(b, [c], rep)
    decreases |a|
  {
    if |a| > 0 {
      var ab := a + b;
      assert ab[1..] == a[1..] + b;
      assert ab[..1] == a[..1];
      ReplaceCharConcat(a[1..], b, c, rep);
      if a[..1] == [c] {
        assert ReplaceAll(ab, [c], rep) == rep + ReplaceAll(ab[1..], [c], rep);
        assert ReplaceAll(a, [c], rep) == rep + ReplaceAll(a[1..], [c], rep);
      } else {
        assert ReplaceAll(ab, [c], rep) == [ab[0]] + ReplaceAll(ab[1..], [c], rep);
        assert ReplaceAll(a, [c], rep) == [a[0]] + ReplaceAll(a[1..], [c], rep);
      }
    } else {
      assert a + b == b;
    }
  }

  /** A two-character replacement works piecewise on a concatenation whose
      first part does not end with the pattern's first character. */
  lemma {:induction false} ReplacePairConcat(a: string, b: string, pat: string, rep: string)
    requires |pat| == 2
    requires |a| > 0 ==> a[|a| - 1] != pat[0]
    ensures ReplaceAll(a + b, pat, rep) == ReplaceAll(a, pat, rep) + ReplaceAll(b, pat, rep)
    decreases |a|
  {
    var ab := a + b;
    if |a| == 0 {
      assert ab == b;
    } else if |a| == 1 {
      ConcatSlices(a, b, 1);
      if |ab| >= 2 {
        assert ab[..2][0] == a[0];
        ReplaceStepSkip(ab, pat, rep);
        assert ReplaceAll(a, pat, rep) == a == [a[0]];
      } else {
        assert b == [] && ab == a;
      }
    } else {
      ConcatSlices(a, b, 1);
      ConcatSlices(a, b, 2);
      if a[..2] == pat {
        assert a[2..] == [] || a[2..][|a[2..]| - 1] == a[|a| - 1];
        ReplacePairConcat(a[2..], b, pat, rep);
        ReplaceStepMatch(ab, pat, rep);
        ReplaceStepMatch(a, pat, rep);
        ConcatAssoc(rep, ReplaceAll(a[2..], pat, rep), ReplaceAll(b, pat, rep));
      } else {
        assert a[1..][|a[1..]| - 1] == a[|a| - 1];
        ReplacePairConcat(a[1..], b, pat, rep);
        ReplaceStepSkip(ab, pat, rep);
        ReplaceStepSkip(a, pat, rep);
        ConcatAssoc([a[0]], ReplaceAll(a[1..], pat, rep), ReplaceAll(b, pat, rep));
      }
    }
  }

  /** Concatenation regroups freely. */
  lemma ConcatAssoc(x: string, y: string, z: string)
    ensures (x + y) + z == x + (y + z)
  {
  }

  /** Slicing a concatenation inside its first part. */
  lemma ConcatSlices(a: string, b: string, n: nat)
    requires n <= |a|
    ensures (a + b)[..n] == a[..n] && (a + b)[n..] == a[n..] + b
  {
  }

  /** A replacement at an occurrence of the pattern. */
  lemma ReplaceStepMatch(s: string, pat: string, rep: string)
    requires 0 < |pat| <= |s| && s[..|pat|] == pat
    ensures ReplaceAll(s, pat, rep) == rep + ReplaceAll(s[|pat|..], pat, rep)
  {
  }

  /** A replacement where the pattern does not start. */
  lemma ReplaceStepSkip(s: string, pat: string, rep: string)
    requires 0 < |pat| <= |s| && s[..|pat|] != pat
    ensures ReplaceAll(s, pat, rep) == [s[0]] + ReplaceAll(s[1..], pat, rep)
  {
  }

  /** Python's `str.isspace()` characters (also what `\s` matches in a
      `str` regular expression). */
  predicate IsSpace(c: char) {
    var n := c as int;
    n == 0x20 || (0x09 <= n <= 0x0D) || (0x1C <= n <= 0x1F) || n == 0x85 || n == 0xA0
    || n == 0x1680 || (0x2000 <= n <= 0x200A) || n == 0x2028 || n == 0x2029
    || n == 0x202F || n == 0x205F || n == 0x3000
  }

  /** Drops leading whitespace (`lstrip()`). */
  function TrimStart(s: string): (r: string)
    ensures |r| <= |s| && r == s[|s| - |r|..]
    ensures |r| > 0 ==> !IsSpace(r[0])
  {
    if |s| > 0 && IsSpace(s[0]) then TrimStart(s[1..]) else s
  }

  /** Drops trailing whitespace (`rstrip()`). */
  function TrimEnd(s: string): (r: string)
    ensures |r| <= |s| && r == s[..|r|]
    ensures |r| > 0 ==> !IsSpace(r[|r| - 1])
  {
    if |s| > 0 && IsSpace(s[|s| - 1]) then TrimEnd(s[..|s| - 1]) else s
  }

  /** `lstrip()` drops only whitespace: it keeps every character from the
      first non-blank one on. */
  lemma {:induction false} TrimStartKeeps(s: string, i: nat)
    requires i < |s| && !IsSpace(s[i])
    ensures |s| - |TrimStart(s)| <= i
    decreases |s|
  {
    if IsSpace(s[0]) {
      TrimStartKeeps(s[1..], i - 1);
    }
  }

  /** `rstrip()` drops only whitespace: it keeps every character up to the
      last non-blank one. */
  lemma {:induction false} TrimEndKeeps(s: string, i: nat)
    requires i < |s| && !IsSpace(s[i])
    ensures i < |TrimEnd(s)|
    decreases |s|
  {
    if IsSpace(s[|s| - 1]) {
      assert s[..|s| - 1][i] == s[i];
      TrimEndKeeps(s[..|s| - 1], i);
    }
  }

  /** `s.strip()`. */
  function Strip(s: string): (r: string)
    ensures |r| > 0 ==> !IsSpace(r[0]) && !IsSpace(r[|r| - 1])
  {
    TrimEnd(TrimStart(s))
  }

  /** A string free of whitespace at both ends is its own `strip()`. */
  lemma StripIdle(s: string)
    requires |s| > 0 ==> !IsSpace(s[0]) && !IsSpace(s[|s| - 1])
    ensures Strip(s) == s
  {
  }

  /** A line written as a text free of whitespace at both ends followed by a
      newline strips back to that text. */
  lemma StripLine(s: string)
    requires |s| > 0 && !IsSpace(s[0]) && !IsSpace(s[|s| - 1])
    ensures Strip(s + "\n") == s
  {
    var l := s + "\n";
    assert l[..|l| - 1] == s;
    assert TrimStart(l) == l;
    assert TrimEnd(l) == TrimEnd(s);
  }

  /** `s.lower()` on ASCII letters. For the suffix comparisons this is exact:
      no other character lower-cases to one of the ASCII letters compared. */
  function Lower(s: string): (r: string)
    ensures |r| == |s|
    ensures forall i :: 0 <= i < |s| ==> r[i] == LowerChar(s[i])
  {
    if |s| == 0 then "" else [LowerChar(s[0])] + Lower(s[1..])
  }

  function LowerChar(c: char): char {
    if 'A' <= c <= 'Z' then (c as int + 32) as char else c
  }

  /** Lower-casing twice is lower-casing once. */
  lemma LowerIdempotent(s: string)
    ensures Lower(Lower(s)) == Lower(s)
  {
    assert forall i :: 0 <= i < |s| ==> LowerChar(LowerChar(s[i])) == LowerChar(s[i]);
  }

  /** The position of the last occurrence of `c` (`rfind`), if any. */
  function LastIndexOf(s: string, c: char): (r: Option<nat>)
    ensures r.None? <==> !HasChar(s, c)
    ensures r.Some? ==> r.value < |s| && s[r.value] == c && forall j :: r.value < j < |s| ==> s[j] != c
    decreases |s|
  {
    if |s| == 0 then None
    else if s[|s| - 1] == c then Some(|s| - 1)
    else
      var r := LastIndexOf(s[..|s| - 1], c);
      assert HasChar(s, c) <==> HasChar(s[..|s| - 1], c) by {
        if HasChar(s, c) {
          var i :| 0 <= i < |s| && s[i] == c;
          assert s[..|s| - 1][i] == c;
        }
      }
      r
  }
}
