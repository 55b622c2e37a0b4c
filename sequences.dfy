/**
 * The iterator adaptors the search functions are built from (`filter` and
 * `flat_map` over `Option`, followed by `collect`), as functions on sequences,
 * together with an independent characterisation of what a filter returns.
 */
module Sequences {
  import opened Results

  /** `iter.filter(keep).collect()`: the elements satisfying `keep`, in order. */
  function Filter<T(==,!new)>(s: seq<T>, keep: T -> bool): (r: seq<T>)
    ensures |r| <= |s|
    ensures forall x :: x in r <==> x in s && keep(x)
    decreases |s|
  {
    if s == [] then []
    else (if keep(s[0]) then [s[0]] else []) + Filter(s[1..], keep)
  }

  /** `iter.flat_map(f).collect()` where `f` returns an `Option`. */
  function FlatMapOption<T, U>(s: seq<T>, f: T -> Option<U>): (r: seq<U>)
    ensures |r| <= |s|
    decreases |s|
  {
    if s == [] then []
    else
      (match f(s[0]) case Some(y) => [y] case None => []) + FlatMapOption(s[1..], f)
  }

  /** `r` can be obtained from `s` by deleting elements, keeping the order of the rest. */
  predicate IsSubsequence<T(==)>(r: seq<T>, s: seq<T>)
    decreases |s|
  {
    if r == [] then true
    else if s == [] then false
    else (r[0] == s[0] && IsSubsequence(r[1..], s[1..])) || IsSubsequence(r, s[1..])
  }

  /**
   * Reference definition of "r is s filtered by keep": r keeps the order of s,
   * holds only elements satisfying keep, and holds every such element exactly
   * as often as s does. FilteringUnique shows that this determines r.
   */
  ghost predicate IsFiltering<T(!new)>(r: seq<T>, s: seq<T>, keep: T -> bool)
  {
    && IsSubsequence(r, s)
    && (forall x :: x in r ==> keep(x))
    && (forall x :: keep(x) ==> multiset(r)[x] == multiset(s)[x])
  }

  lemma {:induction false} SubsequenceOfTail<T>(r: seq<T>, a: T, s: seq<T>)
    requires IsSubsequence(r, s)
    ensures IsSubsequence(r, [a] + s)
  {
    if r != [] {
      assert ([a] + s)[1..] == s;
    }
  }

  /** Deleting elements never adds occurrences. */
  lemma {:induction false} SubsequenceMultiset<T>(r: seq<T>, s: seq<T>)
    requires IsSubsequence(r, s)
    ensures multiset(r) <= multiset(s)
    decreases |s|
  {
    if r != [] {
      assert s == [s[0]] + s[1..];
      if r[0] == s[0] && IsSubsequence(r[1..], s[1..]) {
        SubsequenceMultiset(r[1..], s[1..]);
        assert r == [r[0]] + r[1..];
      } else {
        SubsequenceMultiset(r, s[1..]);
      }
    }
  }

  /** Filter meets the reference definition. */
  lemma {:induction false} FilterIsFiltering<T(!new)>(s: seq<T>, keep: T -> bool)
    ensures IsFiltering(Filter(s, keep), s, keep)
    decreases |s|
  {
    if s != [] {
      var a, t := s[0], s[1..];
      FilterIsFiltering(t, keep);
      var ft := Filter(t, keep);
      assert s == [a] + t;
      if keep(a) {
        assert Filter(s, keep) == [a] + ft;
        assert ([a] + ft)[1..] == ft;
      } else {
        assert Filter(s, keep) == ft;
        SubsequenceOfTail(ft, a, t);
      }
    }
  }

  /** The reference definition has exactly one solution: Filter(s, keep). */
  lemma {:induction false} FilteringUnique<T(!new)>(r: seq<T>, s: seq<T>, keep: T -> bool)
    requires IsFiltering(r, s, keep)
    ensures r == Filter(s, keep)
    decreases |s|
  {
    if s != [] {
      var a, t := s[0], s[1..];
      assert s == [a] + t;
      if r == [] {
        forall x | keep(x)
          ensures x !in s
        {
          assert multiset(s)[x] == multiset(r)[x] == 0;
        }
        FilterKeepsNone(s, keep);
      } else if keep(a) {
        assert multiset(r)[a] == multiset(s)[a];
        if r[0] == a && IsSubsequence(r[1..], t) {
          assert r == [a] + r[1..];
          forall x | keep(x)
            ensures multiset(r[1..])[x] == multiset(t)[x]
          {
            assert multiset(r)[x] == multiset([a])[x] + multiset(r[1..])[x];
          }
          FilteringUnique(r[1..], t, keep);
        } else {
          SubsequenceMultiset(r, t);
          assert false;
        }
      } else {
        assert r[0] in r;
        assert IsSubsequence(r, t);
        forall x | keep(x)
          ensures multiset(r)[x] == multiset(t)[x]
        {
          assert multiset(s)[x] == multiset([a])[x] + multiset(t)[x];
        }
        FilteringUnique(r, t, keep);
      }
    }
  }

  /** Filtering with a predicate every element satisfies changes nothing. */
  lemma {:induction false} FilterKeepsAll<T(!new)>(s: seq<T>, keep: T -> bool)
    requires forall x :: x in s ==> keep(x)
    ensures Filter(s, keep) == s
    decreases |s|
  {
    if s != [] {
      FilterKeepsAll(s[1..], keep);
      assert s == [s[0]] + s[1..];
    }
  }

  /** Filtering with a predicate no element satisfies leaves nothing. */
  lemma {:induction false} FilterKeepsNone<T(!new)>(s: seq<T>, keep: T -> bool)
    requires forall x :: x in s ==> !keep(x)
    ensures Filter(s, keep) == []
    decreases |s|
  {
    if s != [] {
      FilterKeepsNone(s[1..], keep);
    }
  }

  /** A weaker predicate keeps a superset of the elements, in the same order. */
  lemma {:induction false} FilterMonotone<T(!new)>(s: seq<T>, keep: T -> bool, keep2: T -> bool)
    requires forall x :: x in s && keep(x) ==> keep2(x)
    ensures IsSubsequence(Filter(s, keep), Filter(s, keep2))
    decreases |s|
  {
    if s != [] {
      var a, t := s[0], s[1..];
      FilterMonotone(t, keep, keep2);
      var f1, f2 := Filter(t, keep), Filter(t, keep2);
      if keep(a) {
        assert Filter(s, keep) == [a] + f1;
        assert Filter(s, keep2) == [a] + f2;
        assert ([a] + f1)[1..] == f1;
        assert ([a] + f2)[1..] == f2;
      } else if keep2(a) {
        assert Filter(s, keep) == f1;
        assert Filter(s, keep2) == [a] + f2;
        SubsequenceOfTail(f1, a, f2);
      } else {
        assert Filter(s, keep) == f1;
        assert Filter(s, keep2) == f2;
      }
    }
  }

  /** `flat_map` with a selector that returns `Some(x)` or `None` is `filter`. */
  lemma {:induction false} FlatMapSelectIsFilter<T(!new)>(s: seq<T>, f: T -> Option<T>, keep: T -> bool)
    requires forall x :: f(x) == if keep(x) then Some(x) else None
    ensures FlatMapOption(s, f) == Filter(s, keep)
    decreases |s|
  {
    if s != [] {
      FlatMapSelectIsFilter(s[1..], f, keep);
    }
  }
}
