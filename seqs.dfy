/**
 * The array operations the listing pages and the feed are built from:
 * Array.prototype.filter, Array.prototype.map and the stable
 * Array.prototype.sort with a "newest first" comparator of the form
 * `(a, b) => key(b) - key(a)`.
 */
module Seqs {

  /** The elements of `s` that satisfy `p`, in their original order. */
  function Filter<T>(s: seq<T>, p: T -> bool): (r: seq<T>)
    ensures |r| <= |s|
  {
    if s == [] then [] else (if p(s[0]) then [s[0]] else []) + Filter(s[1..], p)
  }

  /** `f` applied to every element, in order. */
  function MapSeq<A, B>(s: seq<A>, f: A -> B): (r: seq<B>)
    ensures |r| == |s|
    ensures forall i | 0 <= i < |s| :: r[i] == f(s[i])
  {
    if s == [] then [] else [f(s[0])] + MapSeq(s[1..], f)
  }

  /** No element occurs twice. */
  ghost predicate NoDup<T>(s: seq<T>) {
    forall x | x in s :: multiset(s)[x] == 1
  }

  /** Ordered newest first: keys never increase along the sequence. */
  ghost predicate SortedDesc<T>(s: seq<T>, key: T -> int) {
    forall i, j | 0 <= i < j < |s| :: key(s[i]) >= key(s[j])
  }

  /** The predicate "has key `d`", used to speak about ties. */
  function KeyIs<T>(key: T -> int, d: int): T -> bool {
    x => key(x) == d
  }

  /**
   * Places `x` in front of the first element whose key is not greater than
   * its own: the step of a stable insertion sort that runs from the back.
   */
  function Insert<T>(x: T, s: seq<T>, key: T -> int): (r: seq<T>)
    ensures multiset(r) == multiset(s) + multiset{x}
  {
    if s == [] || key(s[0]) <= key(x) then
      assert multiset([x] + s) == multiset{x} + multiset(s);
      [x] + s
    else
      assert s == [s[0]] + s[1..];
      [s[0]] + Insert(x, s[1..], key)
  }

  /**
   * The result of a stable `sort` with comparator `(a, b) => key(b) - key(a)`:
   * descending by key, and elements with equal keys stay in input order.
   */
  function SortDesc<T>(s: seq<T>, key: T -> int): (r: seq<T>)
    ensures multiset(r) == multiset(s)
  {
    if s == [] then []
    else
      assert s == [s[0]] + s[1..];
      Insert(s[0], SortDesc(s[1..], key), key)
  }

  // ---------------------------------------------------------------------
  // Filter

  /** What a filter keeps: exactly the elements that pass. */
  lemma {:induction false} FilterMember<T>(s: seq<T>, p: T -> bool, x: T)
    ensures x in Filter(s, p) <==> x in s && p(x)
  {
    if s != [] {
      FilterMember(s[1..], p, x);
      assert s == [s[0]] + s[1..];
    }
  }

  lemma {:induction false} FilterAppend<T>(a: seq<T>, b: seq<T>, p: T -> bool)
    ensures Filter(a + b, p) == Filter(a, p) + Filter(b, p)
  {
    if a == [] {
      assert a + b == b;
    } else {
      var x := if p(a[0]) then [a[0]] else [];
      assert (a + b)[0] == a[0];
      assert (a + b)[1..] == a[1..] + b;
      FilterAppend(a[1..], b, p);
      assert Filter(a + b, p) == x + (Filter(a[1..], p) + Filter(b, p));
      assert x + (Filter(a[1..], p) + Filter(b, p)) == (x + Filter(a[1..], p)) + Filter(b, p);
    }
  }

  /** Filtering with a predicate every element satisfies changes nothing. */
  lemma {:induction false} FilterAllKept<T>(s: seq<T>, p: T -> bool)
    requires forall i | 0 <= i < |s| :: p(s[i])
    ensures Filter(s, p) == s
  {
    if s != [] {
      FilterAllKept(s[1..], p);
    }
  }

  /** Filters with predicates that agree on the elements give the same result. */
  lemma {:induction false} FilterSameOn<T>(s: seq<T>, p: T -> bool, q: T -> bool)
    requires forall x | x in s :: p(x) == q(x)
    ensures Filter(s, p) == Filter(s, q)
  {
    if s != [] {
      FilterSameOn(s[1..], p, q);
    }
  }

  /** Filtering with a predicate no element satisfies leaves nothing. */
  lemma {:induction false} FilterNoneKept<T>(s: seq<T>, p: T -> bool)
    requires forall i | 0 <= i < |s| :: !p(s[i])
    ensures Filter(s, p) == []
  {
    if s != [] {
      FilterNoneKept(s[1..], p);
    }
  }

  /** Two filters commute (both keep exactly the elements that pass both, in order). */
  lemma {:induction false} FilterCommute<T>(s: seq<T>, p: T -> bool, q: T -> bool)
    ensures Filter(Filter(s, p), q) == Filter(Filter(s, q), p)
  {
    if s != [] {
      var h := s[0];
      FilterCommute(s[1..], p, q);
      FilterAppend(if p(h) then [h] else [], Filter(s[1..], p), q);
      FilterAppend(if q(h) then [h] else [], Filter(s[1..], q), p);
    }
  }

  /** Filtering again with a stricter predicate is filtering once with it. */
  lemma {:induction false} FilterNarrow<T>(s: seq<T>, p: T -> bool, q: T -> bool)
    requires forall x | x in s && q(x) :: p(x)
    ensures Filter(Filter(s, p), q) == Filter(s, q)
  {
    if s != [] {
      var h, t := s[0], s[1..];
      assert s == [h] + t;
      FilterNarrow(t, p, q);
      FilterCons(h, t, p);
      FilterCons(h, t, q);
      if p(h) {
        FilterCons(h, Filter(t, p), q);
      } else {
        assert [] + Filter(t, p) == Filter(t, p);
      }
    }
  }

  /** How many copies of each element a filter keeps. */
  lemma {:induction false} FilterCount<T>(s: seq<T>, p: T -> bool, x: T)
    ensures multiset(Filter(s, p))[x] == if p(x) then multiset(s)[x] else 0
  {
    if s != [] {
      FilterCount(s[1..], p, x);
      assert s == [s[0]] + s[1..];
    }
  }

  lemma FilterNoDup<T>(s: seq<T>, p: T -> bool)
    requires NoDup(s)
    ensures NoDup(Filter(s, p))
  {
    forall x | x in Filter(s, p) ensures multiset(Filter(s, p))[x] == 1 {
      FilterCount(s, p, x);
    }
  }

  /** A filter keeps the order of what it keeps. */
  lemma {:induction false} FilterSorted<T>(s: seq<T>, p: T -> bool, key: T -> int)
    requires SortedDesc(s, key)
    ensures SortedDesc(Filter(s, p), key)
  {
    if s != [] {
      FilterSorted(s[1..], p, key);
      var rest := Filter(s[1..], p);
      forall y | y in rest ensures key(s[0]) >= key(y) {
        FilterMember(s[1..], p, y);
        var j :| 0 <= j < |s[1..]| && s[1..][j] == y;
        assert s[j + 1] == y;
      }
    }
  }

  // ---------------------------------------------------------------------
  // Stable sort

  lemma {:induction false} InsertSorted<T>(x: T, s: seq<T>, key: T -> int)
    requires SortedDesc(s, key)
    ensures SortedDesc(Insert(x, s, key), key)
  {
    if s != [] && key(s[0]) > key(x) {
      InsertSorted(x, s[1..], key);
      var rest := Insert(x, s[1..], key);
      forall y | y in rest ensures key(s[0]) >= key(y) {
        assert y in multiset(rest);
        if y != x {
          assert y in s[1..];
        }
      }
    }
  }

  /** The sorted output is ordered newest first. */
  lemma {:induction false} SortDescSorted<T>(s: seq<T>, key: T -> int)
    ensures SortedDesc(SortDesc(s, key), key)
  {
    if s != [] {
      SortDescSorted(s[1..], key);
      InsertSorted(s[0], SortDesc(s[1..], key), key);
    }
  }

  /** Sorting an already sorted sequence leaves it as it is. */
  lemma {:induction false} SortDescOfSorted<T>(s: seq<T>, key: T -> int)
    requires SortedDesc(s, key)
    ensures SortDesc(s, key) == s
  {
    if s != [] {
      SortDescOfSorted(s[1..], key);
    }
  }

  lemma FilterCons<T>(h: T, r: seq<T>, p: T -> bool)
    ensures Filter([h] + r, p) == (if p(h) then [h] else []) + Filter(r, p)
  {
    assert ([h] + r)[0] == h;
    assert ([h] + r)[1..] == r;
  }

  lemma InsertFront<T>(x: T, t: seq<T>, key: T -> int)
    requires t == [] || key(t[0]) <= key(x)
    ensures Insert(x, t, key) == [x] + t
  {
  }

  lemma InsertBehind<T>(x: T, t: seq<T>, key: T -> int)
    requires t != [] && key(t[0]) > key(x)
    ensures Insert(x, t, key) == [t[0]] + Insert(x, t[1..], key)
  {
  }

  lemma {:induction false} FilterInsert<T>(x: T, t: seq<T>, p: T -> bool, key: T -> int)
    requires SortedDesc(t, key)
    ensures Filter(Insert(x, t, key), p)
         == if p(x) then Insert(x, Filter(t, p), key) else Filter(t, p)
  {
    if t == [] || key(t[0]) <= key(x) {
      InsertFront(x, t, key);
      FilterCons(x, t, p);
      if p(x) {
        var ft := Filter(t, p);
        if ft != [] {
          FilterMember(t, p, ft[0]);
          var j :| 0 <= j < |t| && t[j] == ft[0];
          assert key(ft[0]) <= key(t[0]);
        }
        InsertFront(x, ft, key);
      }
    } else {
      var t0, rest := t[0], t[1..];
      SortedTail(t, key);
      FilterInsert(x, rest, p, key);
      InsertBehind(x, t, key);
      FilterCons(t0, Insert(x, rest, key), p);
      assert t == [t0] + rest;
      FilterCons(t0, rest, p);
      var fr := Filter(rest, p);
      if p(x) && p(t0) {
        assert ([t0] + fr)[1..] == fr;
        InsertBehind(x, [t0] + fr, key);
      } else if !p(t0) {
        assert [] + fr == fr;
        assert [] + Filter(Insert(x, rest, key), p) == Filter(Insert(x, rest, key), p);
      }
    }
  }

  lemma SortedTail<T>(t: seq<T>, key: T -> int)
    requires t != [] && SortedDesc(t, key)
    ensures SortedDesc(t[1..], key)
  {
    forall i, j | 0 <= i < j < |t[1..]| ensures key(t[1..][i]) >= key(t[1..][j]) {
      assert t[1..][i] == t[i + 1] && t[1..][j] == t[j + 1];
    }
  }

  /**
   * Filtering after a stable sort is the same as sorting after the filter:
   * the sort never lets an element's neighbours decide its place.
   */
  lemma {:induction false} FilterSortDesc<T>(s: seq<T>, p: T -> bool, key: T -> int)
    ensures Filter(SortDesc(s, key), p) == SortDesc(Filter(s, p), key)
  {
    if s != [] {
      var h, rest := s[0], s[1..];
      FilterSortDesc(rest, p, key);
      SortDescSorted(rest, key);
      FilterInsert(h, SortDesc(rest, key), p, key);
      assert s == [h] + rest;
      FilterCons(h, rest, p);
      var fr := Filter(rest, p);
      if p(h) {
        assert ([h] + fr)[0] == h && ([h] + fr)[1..] == fr;
      } else {
        assert [] + fr == fr;
      }
    }
  }

  /**
   * Stability: the elements that share a key come out in input order, and
   * the result is ordered and a permutation of the input.
   */
  lemma SortDescStable<T>(s: seq<T>, key: T -> int, d: int)
    ensures SortedDesc(SortDesc(s, key), key)
    ensures multiset(SortDesc(s, key)) == multiset(s)
    ensures Filter(SortDesc(s, key), KeyIs(key, d)) == Filter(s, KeyIs(key, d))
  {
    SortDescSorted(s, key);
    var same := Filter(s, KeyIs(key, d));
    FilterSortDesc(s, KeyIs(key, d), key);
    forall i, j | 0 <= i < j < |same| ensures key(same[i]) >= key(same[j]) {
      FilterMember(s, KeyIs(key, d), same[i]);
      FilterMember(s, KeyIs(key, d), same[j]);
      assert KeyIs(key, d)(same[i]) && KeyIs(key, d)(same[j]);
    }
    SortDescOfSorted(same, key);
  }

  lemma {:induction false} InsertMap<A, B>(x: A, t: seq<A>, f: A -> B, k1: A -> int, k2: B -> int)
    requires forall y | y in t || y == x :: k2(f(y)) == k1(y)
    ensures MapSeq(Insert(x, t, k1), f) == Insert(f(x), MapSeq(t, f), k2)
  {
    if t != [] && k1(t[0]) > k1(x) {
      InsertMap(x, t[1..], f, k1, k2);
      assert MapSeq(t, f)[1..] == MapSeq(t[1..], f);
    }
  }

  /**
   * Sorting records by a key and then projecting them is sorting the
   * projections, when the projection determines the key.
   */
  lemma {:induction false} SortDescMap<A, B>(s: seq<A>, f: A -> B, k1: A -> int, k2: B -> int)
    requires forall y | y in s :: k2(f(y)) == k1(y)
    ensures MapSeq(SortDesc(s, k1), f) == SortDesc(MapSeq(s, f), k2)
  {
    if s != [] {
      SortDescMap(s[1..], f, k1, k2);
      var t := SortDesc(s[1..], k1);
      forall y | y in t ensures k2(f(y)) == k1(y) {
        assert y in multiset(t);
      }
      InsertMap(s[0], t, f, k1, k2);
      assert MapSeq(s, f)[1..] == MapSeq(s[1..], f);
    }
  }

  /** Pairwise distinct elements occur once each. */
  lemma {:induction false} DistinctNoDup<T>(s: seq<T>)
    requires forall i, j | 0 <= i < j < |s| :: s[i] != s[j]
    ensures NoDup(s)
  {
    if s != [] {
      var h, r := s[0], s[1..];
      assert s == [h] + r;
      DistinctNoDup(r);
      forall j | 0 <= j < |r| ensures r[j] != h {
        assert r[j] == s[j + 1];
      }
      forall x | x in s ensures multiset(s)[x] == 1 {
        assert multiset(s)[x] == multiset([h])[x] + multiset(r)[x];
      }
    }
  }

  /** The last element of a duplicate-free sequence does not occur before it. */
  lemma NoDupSnoc<T>(r: seq<T>, a: T)
    requires NoDup(r + [a])
    ensures NoDup(r) && a !in r
  {
    assert multiset(r + [a]) == multiset(r) + multiset{a};
    forall x | x in r ensures multiset(r)[x] == 1 {
      assert x in r + [a];
    }
    assert a in r + [a];
  }

  lemma NoDupPermutation<T>(s: seq<T>, t: seq<T>)
    requires multiset(s) == multiset(t) && NoDup(s)
    ensures NoDup(t)
  {
    forall x | x in t ensures multiset(t)[x] == 1 {
      assert x in multiset(t);
    }
  }
}
