/** `Array.prototype.sort` with a comparator, as the catalog uses it: an in-place
    sort of an array by an order that is total and transitive. */
module Sorting {

  /** `le(x, y)`: the comparator lets `x` stay before `y`. */
  ghost predicate TotalOrder<T(!new)>(le: (T, T) -> bool) {
    && (forall x, y :: le(x, y) || le(y, x))
    && (forall x, y, z :: le(x, y) && le(y, z) ==> le(x, z))
  }

  predicate Sorted<T>(s: seq<T>, le: (T, T) -> bool) {
    forall k, l :: 0 <= k < l < |s| ==> le(s[k], s[l])
  }

  /** Insertion sort by adjacent swaps; an entry moves left only past entries
      that must follow it. */
  method SortInPlace<T(!new)>(a: array<T>, le: (T, T) -> bool)
    requires TotalOrder(le)
    modifies a
    ensures Sorted(a[..], le)
    ensures multiset(a[..]) == multiset(old(a[..]))
  {
    var i := 0;
    while i < a.Length
      invariant 0 <= i <= a.Length
      invariant Sorted(a[..i], le)
      invariant multiset(a[..]) == multiset(old(a[..]))
    {
      StartInsert(a[..], i, le);
      var j := i;
      while j > 0 && !le(a[j - 1], a[j])
        invariant 0 <= j <= i
        invariant SortedAround(a[..], i, j, le) && BelowAfter(a[..], i, j, le)
        invariant multiset(a[..]) == multiset(old(a[..]))
      {
        SwapKeeps(a[..], i, j, le);
        a[j - 1], a[j] := a[j], a[j - 1];
        j := j - 1;
      }
      Inserted(a[..], i, j, le);
      i := i + 1;
    }
    assert a[..a.Length] == a[..];
  }

  /** Every pair among the first `i + 1` entries that avoids position `j` is in order. */
  predicate SortedAround<T>(s: seq<T>, i: int, j: int, le: (T, T) -> bool)
    requires 0 <= i < |s|
  {
    forall k, l :: 0 <= k < l <= i && k != j && l != j ==> le(s[k], s[l])
  }

  /** The entry at `j` may precede every entry after it, up to `i`. */
  predicate BelowAfter<T>(s: seq<T>, i: int, j: int, le: (T, T) -> bool)
    requires 0 <= j <= i < |s|
  {
    forall l :: j < l <= i ==> le(s[j], s[l])
  }

  lemma StartInsert<T>(s: seq<T>, i: int, le: (T, T) -> bool)
    requires 0 <= i < |s| && Sorted(s[..i], le)
    ensures SortedAround(s, i, i, le) && BelowAfter(s, i, i, le)
  {
    forall k, l | 0 <= k < l <= i && k != i && l != i
      ensures le(s[k], s[l])
    {
      assert s[..i][k] == s[k] && s[..i][l] == s[l];
    }
  }

  /** Swapping an out-of-order neighbour keeps both loop facts, one place further left. */
  lemma SwapKeeps<T(!new)>(s: seq<T>, i: int, j: int, le: (T, T) -> bool)
    requires TotalOrder(le)
    requires 0 < j <= i < |s| && !le(s[j - 1], s[j])
    requires SortedAround(s, i, j, le) && BelowAfter(s, i, j, le)
    ensures var t := s[j - 1 := s[j]][j := s[j - 1]];
      SortedAround(t, i, j - 1, le) && BelowAfter(t, i, j - 1, le)
  {
    var t := s[j - 1 := s[j]][j := s[j - 1]];
    assert le(s[j], s[j - 1]);
    forall k, l | 0 <= k < l <= i && k != j - 1 && l != j - 1
      ensures le(t[k], t[l])
    {
      if l == j {
        assert le(s[k], s[j - 1]);
      } else if k == j {
        assert le(s[j - 1], s[l]);
      } else {
        assert t[k] == s[k] && t[l] == s[l];
      }
    }
  }

  /** When the entry stops moving, the first `i + 1` entries are sorted. */
  lemma Inserted<T(!new)>(s: seq<T>, i: int, j: int, le: (T, T) -> bool)
    requires TotalOrder(le)
    requires 0 <= j <= i < |s| && (j == 0 || le(s[j - 1], s[j]))
    requires SortedAround(s, i, j, le) && BelowAfter(s, i, j, le)
    ensures Sorted(s[..i + 1], le)
  {
    var t := s[..i + 1];
    forall k, l | 0 <= k < l < |t|
      ensures le(t[k], t[l])
    {
      assert t[k] == s[k] && t[l] == s[l];
      if l == j && k < j - 1 {
        assert le(s[k], s[j - 1]);
      }
    }
  }

  /** `list.sort(compare)` on a copy of the list. */
  method SortSeq<T(!new)>(list: seq<T>, le: (T, T) -> bool) returns (r: seq<T>)
    requires TotalOrder(le)
    ensures Sorted(r, le)
    ensures multiset(r) == multiset(list)
  {
    var a := new T[|list|](i requires 0 <= i < |list| => list[i]);
    assert a[..] == list;
    SortInPlace(a, le);
    r := a[..];
  }
}
