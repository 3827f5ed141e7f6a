/**
 * `Array.prototype.sort` with a comparator `(a, b) => key(a) - key(b)`.
 * The language guarantees the sort is stable, so it is modelled as a
 * stable insertion sort on the integer key.
 */
module Sorting {

  predicate SortedBy<T>(s: seq<T>, key: T -> int)
  {
    forall i, j :: 0 <= i < j < |s| ==> key(s[i]) <= key(s[j])
  }

  /** The elements of `s` whose key is `k`, in their order in `s`. */
  function WithKey<T>(s: seq<T>, key: T -> int, k: int): (r: seq<T>)
    ensures |r| <= |s|
    ensures forall i :: 0 <= i < |r| ==> key(r[i]) == k
  {
    if |s| == 0 then []
    else (if key(s[0]) == k then [s[0]] else []) + WithKey(s[1..], key, k)
  }

  lemma WithKeyAppend<T>(a: seq<T>, b: seq<T>, key: T -> int, k: int)
    ensures WithKey(a + b, key, k) == WithKey(a, key, k) + WithKey(b, key, k)
  {
    if |a| > 0 {
      assert (a + b)[1..] == a[1..] + b;
      WithKeyAppend(a[1..], b, key, k);
    } else {
      assert a + b == b;
    }
  }

  /** Places `x` in front of the first element whose key is not smaller. */
  function Insert<T>(x: T, s: seq<T>, key: T -> int): (r: seq<T>)
    ensures |r| == |s| + 1
    ensures multiset(r) == multiset(s) + multiset{x}
  {
    if |s| == 0 then [x]
    else if key(x) <= key(s[0]) then [x] + s
    else
      assert s == [s[0]] + s[1..];
      [s[0]] + Insert(x, s[1..], key)
  }

  /** Every element of an insertion is `x` or an element of `s`. */
  lemma InsertFrom<T>(x: T, s: seq<T>, key: T -> int, y: T)
    requires y in Insert(x, s, key)
    ensures y == x || y in s
  {
  }

  lemma {:induction false} InsertSorted<T>(x: T, s: seq<T>, key: T -> int)
    requires SortedBy(s, key)
    ensures SortedBy(Insert(x, s, key), key)
  {
    if |s| > 0 && key(s[0]) < key(x) {
      var tail := Insert(x, s[1..], key);
      InsertSorted(x, s[1..], key);
      forall j | 0 <= j < |tail|
        ensures key(s[0]) <= key(tail[j])
      {
        InsertFrom(x, s[1..], key, tail[j]);
      }
      assert Insert(x, s, key) == [s[0]] + tail;
    }
  }

  /** Inserting `x` never lets it overtake an element with its own key. */
  lemma {:induction false} WithKeyInsert<T>(x: T, s: seq<T>, key: T -> int, k: int)
    ensures WithKey(Insert(x, s, key), key, k)
         == (if key(x) == k then [x] else []) + WithKey(s, key, k)
  {
    var mine: seq<T> := if key(x) == k then [x] else [];
    assert WithKey([x], key, k) == mine by {
      assert [x][1..] == [];
    }
    if |s| == 0 {
      assert Insert(x, s, key) == [x];
    } else if key(x) <= key(s[0]) {
      assert Insert(x, s, key) == [x] + s;
      WithKeyAppend([x], s, key, k);
    } else {
      var tail := Insert(x, s[1..], key);
      var ins := Insert(x, s, key);
      assert ins[0] == s[0] && ins[1..] == tail;
      WithKeyInsert(x, s[1..], key, k);
      if key(x) == k {
        // s[0] has a smaller key than x, so neither side keeps it
        assert WithKey(ins, key, k) == WithKey(tail, key, k);
        assert WithKey(s, key, k) == WithKey(s[1..], key, k);
      } else {
        assert WithKey(tail, key, k) == WithKey(s[1..], key, k);
      }
    }
  }

  /** Sorted in non-decreasing key order, and a permutation of the input. */
  function SortBy<T>(s: seq<T>, key: T -> int): (r: seq<T>)
    ensures |r| == |s|
    ensures SortedBy(r, key)
    ensures multiset(r) == multiset(s)
  {
    if |s| == 0 then []
    else
      assert s == [s[0]] + s[1..];
      InsertSorted(s[0], SortBy(s[1..], key), key);
      Insert(s[0], SortBy(s[1..], key), key)
  }

  /** Stability: elements with equal keys keep their relative order. */
  lemma {:induction false} SortByStable<T>(s: seq<T>, key: T -> int, k: int)
    ensures WithKey(SortBy(s, key), key, k) == WithKey(s, key, k)
  {
    if |s| > 0 {
      WithKeyInsert(s[0], SortBy(s[1..], key), key, k);
      SortByStable(s[1..], key, k);
    }
  }

  /** Sorting an already sorted sequence changes nothing. */
  lemma {:induction false} SortBySorted<T>(s: seq<T>, key: T -> int)
    requires SortedBy(s, key)
    ensures SortBy(s, key) == s
  {
    if |s| > 0 {
      assert SortedBy(s[1..], key);
      SortBySorted(s[1..], key);
      assert s == [s[0]] + s[1..];
    }
  }
}
