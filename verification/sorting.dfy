/** A stable insertion sort by a total preorder. It models the `ORDER BY`
    clauses of the repository's queries: the rows are scanned in ascending id
    order and the sort keeps that order among rows whose sort keys are equal. */
module Sorting {
  import opened Seqs

  /** `le` is total and transitive (a total preorder). */
  ghost predicate TotalPreorder<T(!new)>(le: (T, T) -> bool) {
    && (forall a, b :: le(a, b) || le(b, a))
    && (forall a, b, c :: le(a, b) && le(b, c) ==> le(a, c))
  }

  /** Every element is `le` every later element. */
  predicate SortedBy<T>(s: seq<T>, le: (T, T) -> bool) {
    forall i, j :: 0 <= i < j < |s| ==> le(s[i], s[j])
  }

  /** Inserts `x` before the first element it is `le` to. */
  function Insert<T(!new)>(x: T, s: seq<T>, le: (T, T) -> bool): (r: seq<T>)
    ensures multiset(r) == multiset(s) + multiset{x}
  {
    if s == [] then [x]
    else if le(x, s[0]) then [x] + s
    else
      assert s == [s[0]] + s[1..];
      [s[0]] + Insert(x, s[1..], le)
  }

  /** Insertion sort. */
  function Sort<T(!new)>(s: seq<T>, le: (T, T) -> bool): (r: seq<T>)
    ensures multiset(r) == multiset(s)
    ensures |r| == |s|
    ensures forall x :: x in r <==> x in s
  {
    if s == [] then []
    else
      assert s == [s[0]] + s[1..];
      var r := Insert(s[0], Sort(s[1..], le), le);
      assert forall x :: x in r <==> x in multiset(r);
      r
  }

  lemma {:induction false} InsertSorted<T(!new)>(x: T, s: seq<T>, le: (T, T) -> bool)
    requires TotalPreorder(le)
    requires SortedBy(s, le)
    ensures SortedBy(Insert(x, s, le), le)
  {
    if s != [] {
      if le(x, s[0]) {
        forall k | 0 <= k < |s|
          ensures le(x, s[k])
        {
          if k > 0 {
            assert le(s[0], s[k]);
          }
        }
      } else {
        InsertSorted(x, s[1..], le);
        var t := Insert(x, s[1..], le);
        forall k | 0 <= k < |t|
          ensures le(s[0], t[k])
        {
          assert t[k] in multiset(t);
          if t[k] != x {
            assert t[k] in multiset(s[1..]);
            var m :| 0 <= m < |s[1..]| && s[1..][m] == t[k];
            assert s[1..][m] == s[m + 1];
          }
        }
      }
    }
  }

  /** The output of `Sort` is ordered by `le`. */
  lemma {:induction false} SortSorted<T(!new)>(s: seq<T>, le: (T, T) -> bool)
    requires TotalPreorder(le)
    ensures SortedBy(Sort(s, le), le)
  {
    if s != [] {
      SortSorted(s[1..], le);
      InsertSorted(s[0], Sort(s[1..], le), le);
    }
  }

  lemma {:induction false} FilterInsert<T(!new)>(x: T, s: seq<T>, le: (T, T) -> bool, p: T -> bool)
    requires TotalPreorder(le)
    requires SortedBy(s, le)
    ensures Filter(Insert(x, s, le), p) == if p(x) then Insert(x, Filter(s, p), le) else Filter(s, p)
  {
    if s == [] {
      assert Filter([x], p) == if p(x) then [x] else [];
    } else if le(x, s[0]) {
      assert ([x] + s)[1..] == s;
      var fs := Filter(s, p);
      if p(x) && fs != [] {
        assert fs[0] in s;
        var m :| 0 <= m < |s| && s[m] == fs[0];
        if m > 0 {
          assert le(s[0], s[m]);
        }
      }
    } else {
      var t := Insert(x, s[1..], le);
      assert ([s[0]] + t)[1..] == t;
      FilterInsert(x, s[1..], le, p);
    }
  }

  /** Filtering a sorted list gives the same list as sorting the filtered
      input: a query with a WHERE clause and ORDER BY returns the full ordered
      listing with the non-matching rows left out. */
  lemma {:induction false} FilterSort<T(!new)>(s: seq<T>, le: (T, T) -> bool, p: T -> bool)
    requires TotalPreorder(le)
    ensures Filter(Sort(s, le), p) == Sort(Filter(s, p), le)
  {
    if s != [] {
      FilterSort(s[1..], le, p);
      SortSorted(s[1..], le);
      FilterInsert(s[0], Sort(s[1..], le), le, p);
      var fs := Filter(s, p);
      if p(s[0]) {
        assert fs[0] == s[0] && fs[1..] == Filter(s[1..], p);
      }
    }
  }

  /** A filter of a sorted list is sorted. */
  lemma {:induction false} FilterSorted<T(!new)>(s: seq<T>, le: (T, T) -> bool, p: T -> bool)
    requires SortedBy(s, le)
    ensures SortedBy(Filter(s, p), le)
  {
    if s != [] {
      FilterSorted(s[1..], le, p);
      var r := Filter(s[1..], p);
      if p(s[0]) {
        forall j | 0 <= j < |r|
          ensures le(s[0], r[j])
        {
          assert r[j] in s[1..];
          var k :| 0 <= k < |s[1..]| && s[1..][k] == r[j];
          assert s[k + 1] == r[j];
        }
        var f := [s[0]] + r;
        forall i, j | 0 <= i < j < |f|
          ensures le(f[i], f[j])
        {
          if i > 0 {
            assert f[i] == r[i - 1] && f[j] == r[j - 1];
          }
        }
      }
    }
  }
}
