/**
 * Sequence operations the board is built on: `findIndex`, a pointwise map,
 * and `arrayMove` from the sortable drag-and-drop helpers, which copies the
 * list, takes out the element at `from` and splices it back in at `to`.
 */
module Sequences {

  /** Index of the first occurrence of `x` in `s`, or -1 (`Array.prototype.findIndex`). */
  function IndexOf<T(==)>(s: seq<T>, x: T): (r: int)
    ensures -1 <= r < |s|
    ensures r == -1 <==> x !in s
    ensures 0 <= r ==> s[r] == x && forall j :: 0 <= j < r ==> s[j] != x
  {
    if |s| == 0 then -1
    else if s[0] == x then 0
    else
      var k := IndexOf(s[1..], x);
      if k == -1 then -1 else k + 1
  }

  function MapSeq<T, U>(f: T -> U, s: seq<T>): (r: seq<U>)
    ensures |r| == |s|
    ensures forall k :: 0 <= k < |s| ==> r[k] == f(s[k])
  {
    seq(|s|, k requires 0 <= k < |s| => f(s[k]))
  }

  function RemoveAt<T>(s: seq<T>, i: nat): (r: seq<T>)
    requires i < |s|
    ensures |r| == |s| - 1
    ensures forall k :: 0 <= k < i ==> r[k] == s[k]
    ensures forall k :: i <= k < |r| ==> r[k] == s[k + 1]
  {
    s[..i] + s[i + 1..]
  }

  function InsertAt<T>(s: seq<T>, i: nat, x: T): (r: seq<T>)
    requires i <= |s|
    ensures |r| == |s| + 1
    ensures r[i] == x
    ensures forall k :: 0 <= k < i ==> r[k] == s[k]
    ensures forall k :: i < k < |r| ==> r[k] == s[k - 1]
  {
    s[..i] + [x] + s[i..]
  }

  /** Inserting an element and removing it again restores the sequence. */
  lemma RemoveInserted<T>(s: seq<T>, i: nat, x: T)
    requires i <= |s|
    ensures RemoveAt(InsertAt(s, i, x), i) == s
  {
  }

  lemma MultisetRemoveAt<T>(s: seq<T>, i: nat)
    requires i < |s|
    ensures multiset(RemoveAt(s, i)) + multiset{s[i]} == multiset(s)
  {
    assert s == s[..i] + [s[i]] + s[i + 1..];
  }

  lemma MultisetInsertAt<T>(s: seq<T>, i: nat, x: T)
    requires i <= |s|
    ensures multiset(InsertAt(s, i, x)) == multiset(s) + multiset{x}
  {
    assert s == s[..i] + s[i..];
  }

  /**
   * `arrayMove(array, from, to)`: the element at `from` ends up at `to`, and
   * the sequence without it is the same before and after the move.
   */
  function ArrayMove<T>(s: seq<T>, from: nat, to: nat): (r: seq<T>)
    requires from < |s| && to < |s|
    ensures |r| == |s|
    ensures r[to] == s[from]
    ensures RemoveAt(r, to) == RemoveAt(s, from)
    ensures multiset(r) == multiset(s)
  {
    var rest := RemoveAt(s, from);
    MultisetRemoveAt(s, from);
    MultisetInsertAt(rest, to, s[from]);
    RemoveInserted(rest, to, s[from]);
    InsertAt(rest, to, s[from])
  }

  /** Outside the slot written last, a sequence with the same remainder holds only elements kept from the original. */
  lemma RemainderKept<T>(s: seq<T>, r: seq<T>, from: nat, to: nat, k: nat) returns (j: nat)
    requires from < |s| && to < |r| && k < |r| && k != to
    requires RemoveAt(r, to) == RemoveAt(s, from)
    ensures j < |s| && j != from && r[k] == s[j]
  {
    var k' := if k < to then k else k - 1;
    assert r[k] == RemoveAt(r, to)[k'];
    j := if k' < from then k' else k' + 1;
  }

  /**
   * Where the element now at index `k` came from: the slots between `from`
   * and `to` shift by one towards `from`, everything else stays.
   */
  function MovedFrom(from: nat, to: nat, k: nat): nat
  {
    if k == to then from
    else if from < to && from <= k < to then k + 1
    else if to < from && to < k <= from then k - 1
    else k
  }

  /** Pointwise description of `arrayMove`, independent of its remove/insert definition. */
  lemma ArrayMoveAt<T>(s: seq<T>, from: nat, to: nat, k: nat)
    requires from < |s| && to < |s| && k < |s|
    ensures MovedFrom(from, to, k) < |s|
    ensures ArrayMove(s, from, to)[k] == s[MovedFrom(from, to, k)]
  {
  }

  /** A move between neighbours swaps them, so the neighbour is first found where the moved element was. */
  lemma IndexOfSwapped<T>(s: seq<T>, from: nat, to: nat, x: T)
    requires from < |s| && to < |s|
    requires from + 1 == to || to + 1 == from
    requires IndexOf(s, x) == to && s[from] != x
    ensures IndexOf(ArrayMove(s, from, to), x) == from
  {
  }

  /** `arrayMove(x, i, i)` hands back an equal sequence. */
  lemma ArrayMoveSelf<T>(s: seq<T>, i: nat)
    requires i < |s|
    ensures ArrayMove(s, i, i) == s
  {
  }

  /** Moving back from `to` to `from` undoes a move. */
  lemma ArrayMoveInverse<T>(s: seq<T>, from: nat, to: nat)
    requires from < |s| && to < |s|
    ensures ArrayMove(ArrayMove(s, from, to), to, from) == s
  {
  }

  /** Moving commutes with mapping every element. */
  lemma MapArrayMove<T, U>(f: T -> U, s: seq<T>, from: nat, to: nat)
    requires from < |s| && to < |s|
    ensures MapSeq(f, ArrayMove(s, from, to)) == ArrayMove(MapSeq(f, s), from, to)
  {
  }
}
