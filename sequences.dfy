/** The array methods the application calls on plain lists, as functions on
    sequences: `filter`, and what it means for one list to be drawn from another. */
module Sequences {

  /** `xs.filter(keep)`. */
  function Filter<T>(xs: seq<T>, keep: T -> bool): (r: seq<T>)
    ensures |r| <= |xs|
    ensures forall i :: 0 <= i < |r| ==> keep(r[i])
  {
    if xs == [] then []
    else if keep(xs[0]) then [xs[0]] + Filter(xs[1..], keep)
    else Filter(xs[1..], keep)
  }

  /** `xs.slice(0, n)`. */
  function Take<T>(xs: seq<T>, n: nat): (r: seq<T>)
    ensures |r| == if |xs| <= n then |xs| else n
    ensures r == xs[..|r|]
  {
    if |xs| <= n then xs else xs[..n]
  }

  /** `xs` is `ys` with some entries taken out, the rest in their order. */
  predicate IsSubseq<T(==)>(xs: seq<T>, ys: seq<T>)
    decreases |ys|
  {
    xs == [] || (ys != [] && ((xs[0] == ys[0] && IsSubseq(xs[1..], ys[1..])) || IsSubseq(xs, ys[1..])))
  }

  /** A kept entry is an entry of the input that passes the test, and every such entry is kept. */
  lemma {:induction false} FilterMembers<T>(xs: seq<T>, keep: T -> bool, v: T)
    ensures v in Filter(xs, keep) <==> v in xs && keep(v)
  {
    if xs != [] {
      FilterMembers(xs[1..], keep, v);
      assert xs == [xs[0]] + xs[1..];
    }
  }

  /** Filtering keeps the order of what it keeps. */
  lemma {:induction false} FilterSubseq<T>(xs: seq<T>, keep: T -> bool)
    ensures IsSubseq(Filter(xs, keep), xs)
  {
    if xs != [] {
      FilterSubseq(xs[1..], keep);
      var r := Filter(xs, keep);
      if keep(xs[0]) {
        assert r[1..] == Filter(xs[1..], keep);
      }
    }
  }

  /** A list every entry of which passes the test is its own filter. */
  lemma {:induction false} FilterAllPass<T>(xs: seq<T>, keep: T -> bool)
    requires forall i :: 0 <= i < |xs| ==> keep(xs[i])
    ensures Filter(xs, keep) == xs
  {
    if xs != [] {
      FilterAllPass(xs[1..], keep);
    }
  }

  /** Filtering twice with the same test is filtering once. */
  lemma FilterIdempotent<T>(xs: seq<T>, keep: T -> bool)
    ensures Filter(Filter(xs, keep), keep) == Filter(xs, keep)
  {
    FilterAllPass(Filter(xs, keep), keep);
  }

  /** A subsequence of a subsequence is a subsequence. */
  lemma {:induction false} SubseqTransitive<T>(xs: seq<T>, ys: seq<T>, zs: seq<T>)
    requires IsSubseq(xs, ys) && IsSubseq(ys, zs)
    ensures IsSubseq(xs, zs)
    decreases |zs|
  {
    if xs != [] {
      if ys != [] && zs != [] {
        if ys[0] == zs[0] && IsSubseq(ys[1..], zs[1..]) {
          if xs[0] == ys[0] && IsSubseq(xs[1..], ys[1..]) {
            SubseqTransitive(xs[1..], ys[1..], zs[1..]);
          } else {
            SubseqTransitive(xs, ys[1..], zs[1..]);
          }
        } else {
          SubseqTransitive(xs, ys, zs[1..]);
        }
      }
    }
  }

  lemma {:induction false} SubseqRefl<T>(xs: seq<T>)
    ensures IsSubseq(xs, xs)
  {
    if xs != [] {
      SubseqRefl(xs[1..]);
    }
  }

  predicate NoDuplicates<T(==)>(s: seq<T>) {
    forall i, j :: 0 <= i < j < |s| ==> s[i] != s[j]
  }

  /** A list has no duplicates exactly when each value occurs in it at most once. */
  lemma {:induction false} NoDuplicatesCount<T>(s: seq<T>)
    ensures NoDuplicates(s) <==> forall x :: multiset(s)[x] <= 1
  {
    if s != [] {
      NoDuplicatesCount(s[1..]);
      assert s == [s[0]] + s[1..];
      if NoDuplicates(s) {
        assert s[0] !in s[1..];
      } else {
        var i, j :| 0 <= i < j < |s| && s[i] == s[j];
        if i == 0 {
          assert s[j] in s[1..];
          assert multiset(s)[s[0]] >= 2;
        } else {
          assert s[1..][i - 1] == s[1..][j - 1];
          assert !NoDuplicates(s[1..]);
          var x :| multiset(s[1..])[x] > 1;
          assert multiset(s)[x] > 1;
        }
      }
    }
  }

  /** Reordering keeps a list free of duplicates. */
  lemma PermutationNoDuplicates<T>(s: seq<T>, t: seq<T>)
    requires multiset(s) == multiset(t) && NoDuplicates(t)
    ensures NoDuplicates(s)
  {
    NoDuplicatesCount(s);
    NoDuplicatesCount(t);
  }
}
