/** Order-preserving filtering of lists (a Python list comprehension with a
    condition). */
module Seqs {

  /** `s` with the elements `p` rejects dropped, order kept. */
  function Keep<T(!new)>(s: seq<T>, p: T -> bool): (r: seq<T>)
    ensures |r| <= |s|
    ensures forall i :: 0 <= i < |r| ==> p(r[i])
    ensures forall x :: x in r <==> x in s && p(x)
    decreases |s|
  {
    if |s| == 0 then []
    else
      var init := s[..|s| - 1];
      var last := s[|s| - 1];
      assert s == init + [last];
      Keep(init, p) + (if p(last) then [last] else [])
  }

  /** Filtering a list with one more element at the end. */
  lemma KeepSnoc<T(!new)>(s: seq<T>, x: T, p: T -> bool)
    ensures Keep(s + [x], p) == Keep(s, p) + (if p(x) then [x] else [])
  {
    assert (s + [x])[..|s + [x]| - 1] == s;
  }

  /** Filtering a concatenation filters each part in place. */
  lemma {:induction false} KeepAppend<T(!new)>(a: seq<T>, b: seq<T>, p: T -> bool)
    ensures Keep(a + b, p) == Keep(a, p) + Keep(b, p)
    decreases |b|
  {
    if |b| == 0 {
      assert a + b == a;
    } else {
      var n := |b| - 1;
      assert a + b == (a + b[..n]) + [b[n]];
      assert b == b[..n] + [b[n]];
      KeepAppend(a, b[..n], p);
      KeepSnoc(a + b[..n], b[n], p);
      KeepSnoc(b[..n], b[n], p);
    }
  }

  /** Keeping everything changes nothing. */
  lemma {:induction false} KeepAll<T(!new)>(s: seq<T>, p: T -> bool)
    requires forall i :: 0 <= i < |s| ==> p(s[i])
    ensures Keep(s, p) == s
    decreases |s|
  {
    if |s| > 0 {
      KeepAll(s[..|s| - 1], p);
      assert s == s[..|s| - 1] + [s[|s| - 1]];
    }
  }

  /** Replacing a dropped element by another dropped element does not change
      what is kept. */
  lemma {:induction false} KeepReplaceDropped<T(!new)>(s: seq<T>, i: int, x: T, p: T -> bool)
    requires 0 <= i < |s| && !p(s[i]) && !p(x)
    ensures Keep(s[i := x], p) == Keep(s, p)
    decreases |s|
  {
    var n := |s| - 1;
    var t := s[i := x];
    assert s == s[..n] + [s[n]];
    if i == n {
      assert t == s[..n] + [x];
      KeepSnoc(s[..n], x, p);
      KeepSnoc(s[..n], s[n], p);
    } else {
      assert t == s[..n][i := x] + [s[n]];
      KeepReplaceDropped(s[..n], i, x, p);
      KeepSnoc(s[..n][i := x], s[n], p);
      KeepSnoc(s[..n], s[n], p);
    }
  }

  /** Dropping the head of a prefix is taking a prefix of the tail. */
  lemma PrefixTail<T>(s: seq<T>, i: int)
    requires 1 <= i <= |s|
    ensures s[..i][1..] == s[1..][..i - 1]
  {
  }

  /** `f` applied to every element, in order. */
  function Map<A, B>(xs: seq<A>, f: A -> B): (ys: seq<B>)
    ensures |ys| == |xs|
    ensures forall i :: 0 <= i < |xs| ==> ys[i] == f(xs[i])
  {
    seq(|xs|, i requires 0 <= i < |xs| => f(xs[i]))
  }

  /** Mapping a prefix gives the prefix of the mapped list. */
  lemma MapPrefix<A, B>(xs: seq<A>, f: A -> B, n: int)
    requires 0 <= n <= |xs|
    ensures Map(xs[..n], f) == Map(xs, f)[..n]
  {
  }

  /** Mapping a list with one element dropped drops that element's image. */
  lemma MapDrop<A, B>(xs: seq<A>, f: A -> B, i: int)
    requires 0 <= i < |xs|
    ensures Map(xs[..i] + xs[i + 1..], f) == Map(xs, f)[..i] + Map(xs, f)[i + 1..]
  {
    var l := xs[..i] + xs[i + 1..];
    var ys := Map(xs, f);
    forall j | 0 <= j < |l| ensures Map(l, f)[j] == (ys[..i] + ys[i + 1..])[j] {
      if j >= i {
        assert l[j] == xs[j + 1];
      }
    }
  }
}
