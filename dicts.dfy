/**
 * Python dictionaries as the scripts use them: keys kept in first-insertion order,
 * `d[k] = v` overwriting in place or appending a new key at the end, and
 * `defaultdict` reads that fall back to a default value.
 */
module Dicts {

  /** A dictionary as its items in iteration (insertion) order. */
  type Dict<K, V> = seq<(K, V)>

  function Keys<K, V>(d: Dict<K, V>): (r: seq<K>)
    ensures |r| == |d|
    ensures forall t :: 0 <= t < |d| ==> r[t] == d[t].0
  {
    if d == [] then [] else [d[0].0] + Keys(d[1..])
  }

  /** No key appears twice, as in every Python dictionary. */
  predicate Distinct<K(==), V>(d: Dict<K, V>) {
    forall i, j :: 0 <= i < j < |d| ==> d[i].0 != d[j].0
  }

  /** `d.get(k, dflt)`; also what a `defaultdict` read returns. */
  function Get<K(==), V>(d: Dict<K, V>, k: K, dflt: V): V
  {
    if d == [] then dflt
    else if d[0].0 == k then d[0].1
    else Get(d[1..], k, dflt)
  }

  /** `d[k] = v`: overwrite the value in place, or append `k` as the newest key. */
  function Put<K(==), V>(d: Dict<K, V>, k: K, v: V): Dict<K, V>
  {
    if d == [] then [(k, v)]
    else if d[0].0 == k then [(k, v)] + d[1..]
    else [d[0]] + Put(d[1..], k, v)
  }

  /** Setting a key keeps the order of the keys and appends a new one. */
  lemma {:induction false} PutKeys<K, V>(d: Dict<K, V>, k: K, v: V)
    ensures k in Keys(d) ==> Keys(Put(d, k, v)) == Keys(d)
    ensures k !in Keys(d) ==> Keys(Put(d, k, v)) == Keys(d) + [k]
  {
    if d != [] {
      assert Keys(d) == [d[0].0] + Keys(d[1..]);
      if d[0].0 != k {
        PutKeys(d[1..], k, v);
        assert Keys(Put(d, k, v)) == [d[0].0] + Keys(Put(d[1..], k, v));
      } else {
        assert Keys(Put(d, k, v)) == [k] + Keys(d[1..]);
      }
    }
  }

  /** After `d[k] = v`, the pair (k, v) is one of the items. */
  lemma {:induction false} PutHas<K, V>(d: Dict<K, V>, k: K, v: V)
    ensures (k, v) in Put(d, k, v)
  {
    if d != [] && d[0].0 != k {
      PutHas(d[1..], k, v);
    }
  }

  lemma {:induction false} GetPut<K, V>(d: Dict<K, V>, k: K, v: V, k': K, dflt: V)
    ensures Get(Put(d, k, v), k', dflt) == if k' == k then v else Get(d, k', dflt)
  {
    if d != [] && d[0].0 != k {
      GetPut(d[1..], k, v, k', dflt);
    }
  }

  /** Writing a key twice is writing it once, with the second value. */
  lemma {:induction false} PutTwice<K, V>(d: Dict<K, V>, k: K, a: V, b: V)
    ensures Put(Put(d, k, a), k, b) == Put(d, k, b)
  {
    if d != [] && d[0].0 != k {
      PutTwice(d[1..], k, a, b);
    }
  }

  /** Reading a dictionary with a new key appended at the end. */
  lemma GetLast<K, V>(d: Dict<K, V>, k: K, v: V, k': K, dflt: V)
    requires k !in Keys(d)
    ensures Get(d + [(k, v)], k', dflt) == if k' == k then v else Get(d, k', dflt)
  {
    PutNew(d, k, v);
    GetPut(d, k, v, k', dflt);
  }

  lemma {:induction false} GetMissing<K, V>(d: Dict<K, V>, k: K, dflt: V)
    requires k !in Keys(d)
    ensures Get(d, k, dflt) == dflt
  {
    if d != [] {
      assert Keys(d) == [d[0].0] + Keys(d[1..]);
      GetMissing(d[1..], k, dflt);
    }
  }

  lemma {:induction false} GetPresent<K, V>(d: Dict<K, V>, t: nat, dflt: V)
    requires Distinct(d) && t < |d|
    ensures Get(d, d[t].0, dflt) == d[t].1
  {
    if t > 0 {
      GetPresent(d[1..], t - 1, dflt);
    }
  }

  lemma {:induction false} DistinctPut<K, V>(d: Dict<K, V>, k: K, v: V)
    requires Distinct(d)
    ensures Distinct(Put(d, k, v))
  {
    var r := Put(d, k, v);
    PutKeys(d, k, v);
    forall i, j | 0 <= i < j < |r| ensures r[i].0 != r[j].0 {
      assert Keys(r)[i] == r[i].0 && Keys(r)[j] == r[j].0;
      if j < |d| {
        assert Keys(d)[i] == d[i].0 && Keys(d)[j] == d[j].0;
      } else {
        assert Keys(d)[i] == d[i].0;
      }
    }
  }

  /** `sum(d.values())` for a dictionary of counts. */
  function Total<K>(d: Dict<K, nat>): nat
  {
    if d == [] then 0 else d[0].1 + Total(d[1..])
  }

  /** No single count exceeds the sum. */
  lemma {:induction false} TotalItem<K>(d: Dict<K, nat>, x: (K, nat))
    requires x in d
    ensures x.1 <= Total(d)
  {
    if d[0] != x {
      TotalItem(d[1..], x);
    }
  }

  /** Setting a count replaces the old one (0 when the key was absent) in the sum. */
  lemma {:induction false} TotalPut<K>(d: Dict<K, nat>, k: K, v: nat)
    ensures Total(Put(d, k, v)) + Get(d, k, 0) == Total(d) + v
  {
    if d != [] && d[0].0 != k {
      TotalPut(d[1..], k, v);
    }
  }

  lemma {:induction false} TotalConcat<K>(a: Dict<K, nat>, b: Dict<K, nat>)
    ensures Total(a + b) == Total(a) + Total(b)
  {
    if a == [] {
      assert a + b == b;
    } else {
      assert (a + b)[1..] == a[1..] + b;
      TotalConcat(a[1..], b);
    }
  }

  lemma TotalLast<K>(d: Dict<K, nat>)
    requires d != []
    ensures Total(d) == Total(d[..|d| - 1]) + d[|d| - 1].1
  {
    assert d == d[..|d| - 1] + [d[|d| - 1]];
    TotalConcat(d[..|d| - 1], [d[|d| - 1]]);
  }

  /** `sum(w(v) for v in d.values())`. */
  function SumBy<K, V>(d: Dict<K, V>, w: V -> nat): nat
  {
    if d == [] then 0 else w(d[0].1) + SumBy(d[1..], w)
  }

  /** Setting a value replaces its weight (that of the default when the key was absent) in the sum. */
  lemma {:induction false} SumByPut<K, V>(d: Dict<K, V>, k: K, v: V, dflt: V, w: V -> nat)
    requires w(dflt) == 0
    ensures SumBy(Put(d, k, v), w) + w(Get(d, k, dflt)) == SumBy(d, w) + w(v)
  {
    if d != [] && d[0].0 != k {
      SumByPut(d[1..], k, v, dflt, w);
    }
  }

  lemma {:induction false} SumBySnoc<K, V>(d: Dict<K, V>, x: (K, V), w: V -> nat)
    ensures SumBy(d + [x], w) == SumBy(d, w) + w(x.1)
  {
    if d == [] {
      assert [x][1..] == [];
    } else {
      assert (d + [x])[1..] == d[1..] + [x];
      SumBySnoc(d[1..], x, w);
    }
  }

  /** A new key goes at the end. */
  lemma {:induction false} PutNew<K, V>(d: Dict<K, V>, k: K, v: V)
    requires forall t :: 0 <= t < |d| ==> d[t].0 != k
    ensures Put(d, k, v) == d + [(k, v)]
  {
    if d != [] {
      PutNew(d[1..], k, v);
    }
  }

  /** Every item after `d[k] = v` is the new one or an item that was there. */
  lemma {:induction false} PutItems<K, V>(d: Dict<K, V>, k: K, v: V)
    ensures forall x :: x in Put(d, k, v) ==> x == (k, v) || x in d
  {
    if d != [] && d[0].0 != k {
      PutItems(d[1..], k, v);
    }
  }

  /** A key that is present is read with its own value. */
  lemma {:induction false} GetIn<K, V>(d: Dict<K, V>, k: K, dflt: V)
    requires k in Keys(d)
    ensures (k, Get(d, k, dflt)) in d
  {
    assert Keys(d) == [d[0].0] + Keys(d[1..]);
    if d[0].0 != k {
      GetIn(d[1..], k, dflt);
    }
  }

  /** Without its newest key a dictionary is still one, and that key is not among the others. */
  lemma DistinctLast<K, V>(d: Dict<K, V>)
    requires Distinct(d) && d != []
    ensures Distinct(d[..|d| - 1])
    ensures forall t :: 0 <= t < |d| - 1 ==> d[t].0 != d[|d| - 1].0
  {
  }

  /** `for k, v in items: d[k] = v`, i.e. `d.update(items)`. */
  function Update<K(==), V>(d: Dict<K, V>, items: Dict<K, V>): Dict<K, V>
  {
    if items == [] then d
    else Put(Update(d, items[..|items| - 1]), items[|items| - 1].0, items[|items| - 1].1)
  }

  /** Overwriting counts can only lose what was there: the sum grows by at most the new counts. */
  lemma {:induction false} UpdateTotal<K>(d: Dict<K, nat>, items: Dict<K, nat>)
    ensures Total(Update(d, items)) <= Total(d) + Total(items)
  {
    if items != [] {
      var init, last := items[..|items| - 1], items[|items| - 1];
      UpdateTotal(d, init);
      TotalPut(Update(d, init), last.0, last.1);
      TotalLast(items);
    }
  }

  /** Copying a dictionary into an empty one gives it back. */
  lemma {:induction false} UpdateEmpty<K, V>(items: Dict<K, V>)
    requires Distinct(items)
    ensures Update([], items) == items
  {
    if items != [] {
      var init, last := items[..|items| - 1], items[|items| - 1];
      DistinctLast(items);
      UpdateEmpty(init);
      PutNew(init, last.0, last.1);
      assert items == init + [last];
    }
  }

  /** `{k: f(v) for k, v in d.items()}`, or a loop doing `r[k] = f(v)`. */
  function MapValues<K(==), V, W>(d: Dict<K, V>, f: V -> W): Dict<K, W>
  {
    if d == [] then []
    else Put(MapValues(d[..|d| - 1], f), d[|d| - 1].0, f(d[|d| - 1].1))
  }

  /** On a dictionary, the mapped one has the same keys in the same order, each with its mapped value. */
  lemma {:induction false} MapValuesItems<K, V, W>(d: Dict<K, V>, f: V -> W)
    requires Distinct(d)
    ensures |MapValues(d, f)| == |d|
    ensures forall t :: 0 <= t < |d| ==> MapValues(d, f)[t] == (d[t].0, f(d[t].1))
  {
    if d != [] {
      var init, last := d[..|d| - 1], d[|d| - 1];
      DistinctLast(d);
      MapValuesItems(init, f);
      var m := MapValues(init, f);
      assert forall t :: 0 <= t < |m| ==> m[t].0 != last.0 by {
        forall t | 0 <= t < |m| ensures m[t].0 != last.0 {
          assert m[t].0 == d[t].0;
        }
      }
      PutNew(m, last.0, f(last.1));
    }
  }

  /** Counts that are the weights of the values, item by item, sum to the weighted sum. */
  lemma {:induction false} TotalOfWeights<K, V>(m: Dict<K, nat>, d: Dict<K, V>, w: V -> nat)
    requires |m| == |d|
    requires forall t :: 0 <= t < |d| ==> m[t].1 == w(d[t].1)
    ensures Total(m) == SumBy(d, w)
  {
    if d != [] {
      TotalOfWeights(m[1..], d[1..], w);
    }
  }

  /** Summing the mapped values is summing the weights. */
  lemma MapValuesTotal<K, V>(d: Dict<K, V>, w: V -> nat)
    requires Distinct(d)
    ensures Total(MapValues(d, w)) == SumBy(d, w)
  {
    MapValuesItems(d, w);
    TotalOfWeights(MapValues(d, w), d, w);
  }
}
