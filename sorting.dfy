/**
 * Python's `sorted(d.items(), key=lambda x: x[1], reverse=True)` on a dictionary of
 * counts, and the `[:n]` slice that truncates the sorted list.  Python's sort is
 * stable, also with `reverse=True`: items with equal counts keep their order.
 */
module Sorting {
  import opened Dicts

  /** Counts never increase from left to right. */
  predicate NonIncreasing<K>(r: seq<(K, nat)>) {
    forall i, j :: 0 <= i < j < |r| ==> r[i].1 >= r[j].1
  }

  /** The items of `r` whose count is `c`, in their order in `r`. */
  function WithCount<K>(r: seq<(K, nat)>, c: nat): seq<(K, nat)>
  {
    if r == [] then [] else (if r[0].1 == c then [r[0]] else []) + WithCount(r[1..], c)
  }

  lemma {:induction false} WithCountSnoc<K>(r: seq<(K, nat)>, x: (K, nat), c: nat)
    ensures WithCount(r + [x], c) == WithCount(r, c) + (if x.1 == c then [x] else [])
  {
    if r == [] {
      assert r + [x] == [x];
    } else {
      var head := if r[0].1 == c then [r[0]] else [];
      assert (r + [x])[0] == r[0];
      assert (r + [x])[1..] == r[1..] + [x];
      WithCountSnoc(r[1..], x, c);
      assert WithCount(r + [x], c) == head + WithCount(r[1..] + [x], c);
      assert WithCount(r, c) == head + WithCount(r[1..], c);
    }
  }

  /** Places `x` after every item whose count is at least that of `x`. */
  function Insert<K>(x: (K, nat), r: seq<(K, nat)>): seq<(K, nat)>
  {
    if r == [] then [x]
    else if r[0].1 >= x.1 then [r[0]] + Insert(x, r[1..])
    else [x] + r
  }

  /** Every count in `r` is at most `b`. */
  predicate AtMost<K>(r: seq<(K, nat)>, b: nat) {
    forall t :: 0 <= t < |r| ==> r[t].1 <= b
  }

  lemma {:induction false} InsertAtMost<K>(x: (K, nat), r: seq<(K, nat)>, b: nat)
    requires AtMost(r, b) && x.1 <= b
    ensures AtMost(Insert(x, r), b)
  {
    if r != [] && r[0].1 >= x.1 {
      InsertAtMost(x, r[1..], b);
    }
  }

  lemma {:induction false} InsertSorted<K>(x: (K, nat), r: seq<(K, nat)>)
    requires NonIncreasing(r)
    ensures NonIncreasing(Insert(x, r))
  {
    if r != [] && r[0].1 >= x.1 {
      InsertSorted(x, r[1..]);
      InsertAtMost(x, r[1..], r[0].1);
      var rest := Insert(x, r[1..]);
      assert Insert(x, r) == [r[0]] + rest;
    }
  }

  lemma {:induction false} InsertMultiset<K>(x: (K, nat), r: seq<(K, nat)>)
    ensures multiset(Insert(x, r)) == multiset(r) + multiset{x}
  {
    if r != [] && r[0].1 >= x.1 {
      InsertMultiset(x, r[1..]);
      assert r == [r[0]] + r[1..];
    }
  }

  lemma NonIncreasingTail<K>(r: seq<(K, nat)>)
    requires r != [] && NonIncreasing(r)
    ensures NonIncreasing(r[1..])
  {
    forall i, j | 0 <= i < j < |r[1..]| ensures r[1..][i].1 >= r[1..][j].1 {
      assert r[1..][i] == r[i + 1] && r[1..][j] == r[j + 1];
    }
  }

  /** When `x` goes in front, it is the last item of its count class. */
  lemma InsertFrontWithCount<K>(x: (K, nat), r: seq<(K, nat)>, c: nat)
    requires NonIncreasing(r) && (r == [] || r[0].1 < x.1)
    ensures WithCount(Insert(x, r), c) == WithCount(r, c) + (if x.1 == c then [x] else [])
  {
    var tail := if x.1 == c then [x] else [];
    assert Insert(x, r) == [x] + r;
    assert ([x] + r)[1..] == r;
    assert WithCount([x] + r, c) == tail + WithCount(r, c);
    if x.1 == c {
      // every item of r counts less than x
      WithCountNone(r, c);
    }
  }

  lemma {:induction false} InsertWithCount<K>(x: (K, nat), r: seq<(K, nat)>, c: nat)
    requires NonIncreasing(r)
    ensures WithCount(Insert(x, r), c) == WithCount(r, c) + (if x.1 == c then [x] else [])
  {
    if r == [] || r[0].1 < x.1 {
      InsertFrontWithCount(x, r, c);
    } else {
      var tail := if x.1 == c then [x] else [];
      var head := if r[0].1 == c then [r[0]] else [];
      NonIncreasingTail(r);
      InsertWithCount(x, r[1..], c);
      var rest := Insert(x, r[1..]);
      assert Insert(x, r) == [r[0]] + rest;
      assert ([r[0]] + rest)[1..] == rest;
      assert WithCount(Insert(x, r), c) == head + WithCount(rest, c);
      assert WithCount(r, c) == head + WithCount(r[1..], c);
      assert head + (WithCount(r[1..], c) + tail) == (head + WithCount(r[1..], c)) + tail;
    }
  }

  lemma {:induction false} WithCountNone<K>(r: seq<(K, nat)>, c: nat)
    requires forall t :: 0 <= t < |r| ==> r[t].1 != c
    ensures WithCount(r, c) == []
  {
    if r != [] {
      WithCountNone(r[1..], c);
    }
  }

  /** Stable sort by non-increasing count (insertion sort, one item at a time). */
  function SortByCountDesc<K>(items: seq<(K, nat)>): seq<(K, nat)>
  {
    if items == [] then []
    else Insert(items[|items| - 1], SortByCountDesc(items[..|items| - 1]))
  }

  /** The sorted items are in non-increasing count order, are a permutation of the
      items, and keep the order of the items that have the same count. */
  lemma {:induction false} SortByCountDescSpec<K>(items: seq<(K, nat)>)
    ensures NonIncreasing(SortByCountDesc(items))
    ensures multiset(SortByCountDesc(items)) == multiset(items)
    ensures forall c :: WithCount(SortByCountDesc(items), c) == WithCount(items, c)
  {
    if items != [] {
      var init := items[..|items| - 1];
      var last := items[|items| - 1];
      var sorted := SortByCountDesc(init);
      SortByCountDescSpec(init);
      InsertSorted(last, sorted);
      InsertMultiset(last, sorted);
      assert items == init + [last];
      forall c ensures WithCount(Insert(last, sorted), c) == WithCount(items, c) {
        WithCountSnoc(init, last, c);
        InsertWithCount(last, sorted, c);
      }
    }
  }

  /** Sorting neither adds nor drops items. */
  lemma SortedItems<K>(items: seq<(K, nat)>)
    ensures |SortByCountDesc(items)| == |items|
    ensures forall x :: x in SortByCountDesc(items) <==> x in items
  {
    SortByCountDescSpec(items);
    assert |multiset(SortByCountDesc(items))| == |multiset(items)|;
    forall x ensures x in SortByCountDesc(items) <==> x in items {
      assert x in SortByCountDesc(items) <==> x in multiset(SortByCountDesc(items));
      assert x in items <==> x in multiset(items);
    }
  }

  lemma {:induction false} InsertDistinct<K>(x: (K, nat), r: seq<(K, nat)>)
    requires Distinct(r) && forall t :: 0 <= t < |r| ==> r[t].0 != x.0
    ensures Distinct(Insert(x, r))
  {
    if r != [] && r[0].1 >= x.1 {
      var tail := r[1..];
      InsertDistinct(x, tail);
      InsertMultiset(x, tail);
      var rest := Insert(x, tail);
      forall j | 0 <= j < |rest| ensures rest[j].0 != r[0].0 {
        assert rest[j] in multiset(rest);
        if rest[j] != x {
          assert rest[j] in multiset(tail);
          var k :| 0 <= k < |tail| && tail[k] == rest[j];
          assert r[k + 1] == rest[j];
        }
      }
      assert Insert(x, r) == [r[0]] + rest;
    }
  }

  /** Sorting a dictionary's items never repeats a key. */
  lemma {:induction false} SortedDistinct<K>(items: seq<(K, nat)>)
    requires Distinct(items)
    ensures Distinct(SortByCountDesc(items))
  {
    if items != [] {
      var init := items[..|items| - 1];
      var last := items[|items| - 1];
      var sorted := SortByCountDesc(init);
      DistinctLast(items);
      SortedDistinct(init);
      SortByCountDescSpec(init);
      forall t | 0 <= t < |sorted| ensures sorted[t].0 != last.0 {
        assert sorted[t] in multiset(sorted);
        assert sorted[t] in multiset(init);
        var k :| 0 <= k < |init| && init[k] == sorted[t];
        assert items[k] == init[k];
      }
      InsertDistinct(last, sorted);
    }
  }

  lemma {:induction false} InsertTotal<K>(x: (K, nat), r: seq<(K, nat)>)
    ensures Total(Insert(x, r)) == Total(r) + x.1
  {
    if r != [] && r[0].1 >= x.1 {
      InsertTotal(x, r[1..]);
      var rest := Insert(x, r[1..]);
      assert ([r[0]] + rest)[1..] == rest;
    } else {
      assert ([x] + r)[1..] == r;
    }
  }

  /** Sorting keeps the sum of the counts. */
  lemma {:induction false} SortTotal<K>(items: seq<(K, nat)>)
    ensures Total(SortByCountDesc(items)) == Total(items)
  {
    if items != [] {
      var init := items[..|items| - 1];
      SortTotal(init);
      InsertTotal(items[|items| - 1], SortByCountDesc(init));
      TotalLast(items);
    }
  }

  /** The first n of the sorted items are items, and count at least as much as any item
      left out. */
  lemma TopCountsMost<K>(items: seq<(K, nat)>, n: nat)
    ensures var top := Take(SortByCountDesc(items), n);
            && (forall x :: x in top ==> x in items)
            && (forall x, y :: x in top && y in items && y !in top ==> x.1 >= y.1)
  {
    var sorted := SortByCountDesc(items);
    var top := Take(sorted, n);
    SortByCountDescSpec(items);
    SortedItems(items);
    forall x | x in top ensures x in items {
      var i :| 0 <= i < |top| && top[i] == x;
      assert sorted[i] == x;
    }
    forall x, y | x in top && y in items && y !in top ensures x.1 >= y.1 {
      var i :| 0 <= i < |top| && top[i] == x;
      var j :| 0 <= j < |sorted| && sorted[j] == y;
      assert top[i] == sorted[i];
      assert |top| <= j;
    }
  }

  /** Python's `r[:n]`. */
  function Take<T>(r: seq<T>, n: nat): (p: seq<T>)
    ensures |p| == if |r| <= n then |r| else n
    ensures p == r[..|p|]
  {
    if |r| <= n then r else r[..n]
  }
}
