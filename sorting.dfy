/** `Array.prototype.sort` with a comparator.  Since ECMAScript 2019 the sort
    is stable, and with a consistent comparator its result is determined:
    the stable sorted permutation.  `SortBy` is that result, built by
    insertion. */
module Sorting {
  import opened Seqs

  /** A consistent comparator: the sign of `cmp(a, b)` is the opposite of
      the sign of `cmp(b, a)`, and "not after" is transitive. */
  ghost predicate IsComparator<T(!new)>(cmp: (T, T) -> int) {
    (forall a, b :: cmp(a, b) < 0 <==> cmp(b, a) > 0)
    && (forall a, b, c :: cmp(a, b) <= 0 && cmp(b, c) <= 0 ==> cmp(a, c) <= 0)
  }

  /** Every element is "not after" each element that follows it. */
  ghost predicate SortedBy<T>(s: seq<T>, cmp: (T, T) -> int) {
    forall i, j :: 0 <= i < j < |s| ==> cmp(s[i], s[j]) <= 0
  }

  /** `x` placed after every leading element that it is not before. */
  function Insert<T>(x: T, s: seq<T>, cmp: (T, T) -> int): (r: seq<T>)
    ensures |r| == |s| + 1
    ensures multiset(r) == multiset(s) + multiset{x}
  {
    if s == [] then [x]
    else if cmp(x, s[0]) < 0 then [x] + s
    else
      assert s == [s[0]] + s[1..];
      [s[0]] + Insert(x, s[1..], cmp)
  }

  /** The stable sort: each element, in order, inserted behind the ones
      already placed that it is not before. */
  function SortBy<T>(s: seq<T>, cmp: (T, T) -> int): (r: seq<T>)
    ensures multiset(r) == multiset(s)
    ensures |r| == |s|
  {
    if s == [] then []
    else
      assert s == s[..|s| - 1] + [s[|s| - 1]];
      Insert(s[|s| - 1], SortBy(s[..|s| - 1], cmp), cmp)
  }

  /** An element not after `x` nor after any element of `s` is not after
      any element of `Insert(x, s)`. */
  lemma {:induction false} InsertBound<T>(a: T, x: T, s: seq<T>, cmp: (T, T) -> int)
    requires cmp(a, x) <= 0 && forall k :: 0 <= k < |s| ==> cmp(a, s[k]) <= 0
    ensures forall k :: 0 <= k < |Insert(x, s, cmp)| ==> cmp(a, Insert(x, s, cmp)[k]) <= 0
  {
    if s != [] && cmp(x, s[0]) >= 0 {
      InsertBound(a, x, s[1..], cmp);
    }
  }

  lemma {:induction false} InsertSorted<T(!new)>(x: T, s: seq<T>, cmp: (T, T) -> int)
    requires IsComparator(cmp) && SortedBy(s, cmp)
    ensures SortedBy(Insert(x, s, cmp), cmp)
  {
    if s != [] && cmp(x, s[0]) >= 0 {
      InsertSorted(x, s[1..], cmp);
      assert cmp(s[0], x) <= 0;
      InsertBound(s[0], x, s[1..], cmp);
    }
  }

  /** The sort's result is ordered by the comparator. */
  lemma {:induction false} SortBySorted<T(!new)>(s: seq<T>, cmp: (T, T) -> int)
    requires IsComparator(cmp)
    ensures SortedBy(SortBy(s, cmp), cmp)
  {
    if s != [] {
      SortBySorted(s[..|s| - 1], cmp);
      InsertSorted(s[|s| - 1], SortBy(s[..|s| - 1], cmp), cmp);
    }
  }

  /** `a` and `b` are tied: the comparator returns 0. */
  predicate Tied<T>(cmp: (T, T) -> int, a: T, b: T) {
    cmp(a, b) == 0
  }

  /** An element after `x` cannot be tied with anything `x` is tied with. */
  lemma NotTiedAfter<T(!new)>(cmp: (T, T) -> int, x: T, a: T, b: T, y: T)
    requires IsComparator(cmp) && cmp(x, a) < 0 && cmp(a, b) <= 0 && Tied(cmp, x, y)
    ensures !Tied(cmp, b, y)
  {
    assert cmp(a, x) > 0;
  }

  /** `x` placed in front: the elements of `s` tied with `y` stay in front
      of `x` when `x` is tied with `y` too, since then there are none. */
  lemma InsertFrontStable<T(!new)>(x: T, s: seq<T>, cmp: (T, T) -> int, y: T)
    requires IsComparator(cmp) && SortedBy(s, cmp) && s != [] && cmp(x, s[0]) < 0
    ensures Filter([x] + s, e => Tied(cmp, e, y))
            == Filter(s, e => Tied(cmp, e, y)) + Filter([x], e => Tied(cmp, e, y))
  {
    var p := e => Tied(cmp, e, y);
    FilterAppend([x], s, p);
    if p(x) {
      forall k | 0 <= k < |s|
        ensures !p(s[k])
      {
        NotTiedAfter(cmp, x, s[0], s[k], y);
      }
      FilterNone(s, p);
    }
  }

  lemma {:induction false} InsertStable<T(!new)>(x: T, s: seq<T>, cmp: (T, T) -> int, y: T)
    requires IsComparator(cmp) && SortedBy(s, cmp)
    ensures Filter(Insert(x, s, cmp), e => Tied(cmp, e, y))
            == Filter(s, e => Tied(cmp, e, y)) + Filter([x], e => Tied(cmp, e, y))
  {
    if s == [] {
    } else if cmp(x, s[0]) < 0 {
      InsertFrontStable(x, s, cmp, y);
    } else {
      var p := e => Tied(cmp, e, y);
      var t := s[1..];
      assert SortedBy(t, cmp) by {
        forall i, j | 0 <= i < j < |t| ensures cmp(t[i], t[j]) <= 0 {
          assert t[i] == s[i + 1] && t[j] == s[j + 1];
        }
      }
      InsertStable(x, t, cmp, y);
      assert Insert(x, s, cmp) == [s[0]] + Insert(x, t, cmp);
      FilterAppend([s[0]], Insert(x, t, cmp), p);
      FilterAppend([s[0]], t, p);
    }
  }

  /** Filtering removes every element when none passes. */
  lemma {:induction false} FilterNone<T>(s: seq<T>, p: T -> bool)
    requires forall k :: 0 <= k < |s| ==> !p(s[k])
    ensures Filter(s, p) == []
  {
    if s != [] {
      FilterNone(s[1..], p);
    }
  }

  /** Inserting into a sorted prefix keeps the tied elements' order. */
  lemma InsertIntoSortedStable<T(!new)>(x: T, s: seq<T>, cmp: (T, T) -> int, y: T)
    requires IsComparator(cmp)
    ensures Filter(Insert(x, SortBy(s, cmp), cmp), e => Tied(cmp, e, y))
            == Filter(SortBy(s, cmp), e => Tied(cmp, e, y)) + Filter([x], e => Tied(cmp, e, y))
  {
    SortBySorted(s, cmp);
    InsertStable(x, SortBy(s, cmp), cmp, y);
  }

  /** Stability: elements tied with any `y` keep their relative order. */
  lemma {:induction false} SortByStable<T(!new)>(s: seq<T>, cmp: (T, T) -> int, y: T)
    requires IsComparator(cmp)
    ensures Filter(SortBy(s, cmp), e => Tied(cmp, e, y)) == Filter(s, e => Tied(cmp, e, y))
  {
    if s != [] {
      var init, last := s[..|s| - 1], s[|s| - 1];
      var p := e => Tied(cmp, e, y);
      assert SortBy(s, cmp) == Insert(last, SortBy(init, cmp), cmp);
      SortByStable(init, cmp, y);
      InsertIntoSortedStable(last, init, cmp, y);
      assert s == init + [last];
      FilterAppend(init, [last], p);
    }
  }
}
