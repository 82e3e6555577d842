/** Sequence helpers shared by the views: order-preserving filtering, the
    subsequence relation and duplicate-freedom. */
module Seqs {

  /** `a` can be obtained from `b` by deleting elements (order is kept). */
  ghost predicate IsSubseq<T>(a: seq<T>, b: seq<T>)
    decreases |b|
  {
    a == [] ||
    (b != [] &&
     ((a[|a| - 1] == b[|b| - 1] && IsSubseq(a[..|a| - 1], b[..|b| - 1])) ||
      IsSubseq(a, b[..|b| - 1])))
  }

  /** No value occurs twice (exact equality). */
  ghost predicate NoDups<T>(s: seq<T>) {
    forall i, j :: 0 <= i < j < |s| ==> s[i] != s[j]
  }

  /** The elements of `s` satisfying `p`, in their original order: the list a
      Python loop builds with `if p(x): out.append(x)`. */
  function Filter<T(!new)>(s: seq<T>, p: T -> bool): (r: seq<T>)
    ensures |r| <= |s|
    ensures forall x :: x in r <==> x in s && p(x)
    ensures forall i :: 0 <= i < |r| ==> p(r[i])
  {
    if s == [] then []
    else
      var init := Filter(s[..|s| - 1], p);
      assert s == s[..|s| - 1] + [s[|s| - 1]];
      if p(s[|s| - 1]) then init + [s[|s| - 1]] else init
  }

  /** Filtering keeps the input's order: the result is a subsequence. */
  lemma {:induction false} FilterIsSubseq<T(!new)>(s: seq<T>, p: T -> bool)
    ensures IsSubseq(Filter(s, p), s)
  {
    if s == [] {
    } else {
      var init := s[..|s| - 1];
      FilterIsSubseq(init, p);
      var r := Filter(s, p);
      if p(s[|s| - 1]) {
        assert r[..|r| - 1] == Filter(init, p);
      } else {
        assert r == Filter(init, p);
        SubseqOfPrefix(r, init, s[|s| - 1]);
      }
    }
  }

  /** A subsequence of `b` is a subsequence of `b` extended by one element. */
  lemma {:induction false} SubseqOfPrefix<T>(a: seq<T>, b: seq<T>, x: T)
    requires IsSubseq(a, b)
    ensures IsSubseq(a, b + [x])
  {
    var b' := b + [x];
    assert b'[..|b'| - 1] == b;
  }

  /** A subsequence of a subsequence is a subsequence. */
  lemma {:induction false} SubseqTransitive<T>(a: seq<T>, b: seq<T>, c: seq<T>)
    requires IsSubseq(a, b) && IsSubseq(b, c)
    ensures IsSubseq(a, c)
    decreases |c|
  {
    if a != [] {
      var b', c' := b[..|b| - 1], c[..|c| - 1];
      if b[|b| - 1] == c[|c| - 1] && IsSubseq(b', c') {
        if a[|a| - 1] == b[|b| - 1] && IsSubseq(a[..|a| - 1], b') {
          SubseqTransitive(a[..|a| - 1], b', c');
        } else {
          SubseqTransitive(a, b', c');
        }
      } else {
        SubseqTransitive(a, b, c');
      }
    }
  }

  /** Filtering a one-element extension: the step a result-building loop takes. */
  lemma FilterSnoc<T(!new)>(s: seq<T>, x: T, p: T -> bool)
    ensures Filter(s + [x], p) == if p(x) then Filter(s, p) + [x] else Filter(s, p)
  {
    assert (s + [x])[..|s + [x]| - 1] == s;
  }
}
