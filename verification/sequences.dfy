/**
 * Sequence operations the table relies on: `indexOf`/`findIndex` and the
 * `arrayMove` helper of the drag-and-drop library, which removes the element
 * at `from` and re-inserts it at `to`.
 */
module Sequences {

  /** No element occurs twice. */
  predicate Distinct<T(==)>(s: seq<T>)
  {
    forall i, j :: 0 <= i < |s| && 0 <= j < |s| && i != j ==> s[i] != s[j]
  }

  /** `s.indexOf(x)` for an element that is present: its first position. */
  function IndexOf<T(==)>(s: seq<T>, x: T): (i: nat)
    requires x in s
    ensures i < |s| && s[i] == x
    ensures forall j :: 0 <= j < i ==> s[j] != x
  {
    if s[0] == x then 0 else 1 + IndexOf(s[1..], x)
  }

  /** In a duplicate-free sequence the first position of `s[i]` is `i`. */
  lemma IndexOfDistinct<T>(s: seq<T>, i: nat)
    requires Distinct(s) && i < |s|
    ensures IndexOf(s, s[i]) == i
  {
  }

  /** `s` with its `i`-th element taken out. */
  function RemoveAt<T>(s: seq<T>, i: nat): (r: seq<T>)
    requires i < |s|
    ensures |r| == |s| - 1
    ensures forall k :: 0 <= k < i ==> r[k] == s[k]
    ensures forall k :: i <= k < |r| ==> r[k] == s[k + 1]
    ensures multiset(r) + multiset{s[i]} == multiset(s)
  {
    assert s == s[..i] + [s[i]] + s[i + 1..];
    s[..i] + s[i + 1..]
  }

  /** `s` with `x` placed at index `i`, later elements shifted right. */
  function InsertAt<T>(s: seq<T>, i: nat, x: T): (r: seq<T>)
    requires i <= |s|
    ensures |r| == |s| + 1
    ensures r[i] == x
    ensures forall k :: 0 <= k < i ==> r[k] == s[k]
    ensures forall k :: i < k < |r| ==> r[k] == s[k - 1]
    ensures multiset(r) == multiset(s) + multiset{x}
  {
    assert s == s[..i] + s[i..];
    s[..i] + [x] + s[i..]
  }

  /**
   * Where the element shown at index `k` after moving `from` to `to` came
   * from: the moved element lands on `to`, the elements strictly between
   * the two indices shift by one towards `from`, and all others stay put.
   */
  function Source(from: nat, to: nat, k: nat): nat
  {
    if k == to then from
    else if from < to && from <= k < to then k + 1
    else if to < from && to < k <= from then k - 1
    else k
  }

  /**
   * The drag-and-drop library's `arrayMove(s, from, to)`: remove at `from`,
   * insert the removed element at `to`.
   */
  function ArrayMove<T>(s: seq<T>, from: nat, to: nat): (r: seq<T>)
    requires from < |s| && to < |s|
    ensures |r| == |s|
    ensures r[to] == s[from]
    ensures forall k :: 0 <= k < |r| ==> Source(from, to, k) < |s| && r[k] == s[Source(from, to, k)]
    ensures multiset(r) == multiset(s)
  {
    InsertAt(RemoveAt(s, from), to, s[from])
  }

  /** Moving an element onto its own index changes nothing. */
  lemma ArrayMoveSameIndex<T>(s: seq<T>, i: nat)
    requires i < |s|
    ensures ArrayMove(s, i, i) == s
  {
    var r := ArrayMove(s, i, i);
    assert forall k :: 0 <= k < |s| ==> r[k] == s[k];
  }

  /** Moving back from `to` to `from` restores the original sequence. */
  lemma ArrayMoveInverse<T>(s: seq<T>, from: nat, to: nat)
    requires from < |s| && to < |s|
    ensures ArrayMove(ArrayMove(s, from, to), to, from) == s
  {
    var r := ArrayMove(s, from, to);
    var back := ArrayMove(r, to, from);
    forall k | 0 <= k < |s|
      ensures back[k] == s[k]
    {
      var m := Source(to, from, k);
      SourceInverse(from, to, k);
      assert back[k] == r[m];
    }
    assert back == s;
  }

  /** Moving back undoes the index mapping of a move. */
  lemma SourceInverse(from: nat, to: nat, k: nat)
    ensures Source(from, to, Source(to, from, k)) == k
  {
  }

  /** A move neither loses nor adds elements. */
  lemma ArrayMoveSameElements<T>(s: seq<T>, from: nat, to: nat)
    requires from < |s| && to < |s|
    ensures forall x :: x in ArrayMove(s, from, to) <==> x in s
  {
    var r := ArrayMove(s, from, to);
    forall i | 0 <= i < |s|
      ensures s[i] in r
    {
      SourceInverse(from, to, i);
      assert r[Source(to, from, i)] == s[i];
    }
  }

  /** A move keeps a duplicate-free sequence duplicate-free. */
  lemma ArrayMoveKeepsDistinct<T>(s: seq<T>, from: nat, to: nat)
    requires from < |s| && to < |s|
    requires Distinct(s)
    ensures Distinct(ArrayMove(s, from, to))
  {
    var r := ArrayMove(s, from, to);
    forall i, j | 0 <= i < |r| && 0 <= j < |r| && i != j
      ensures r[i] != r[j]
    {
      SourceInverse(to, from, i);
      SourceInverse(to, from, j);
    }
  }

  /**
   * In a sequence of length `n`, two positions other than `to` after a move
   * take their elements from positions in the same order, neither of them
   * `from`: the unmoved elements keep their relative order.
   */
  lemma ArrayMoveKeepsRelativeOrder(n: nat, from: nat, to: nat, i: nat, j: nat)
    requires from < n && to < n
    requires i < j < n && i != to && j != to
    ensures Source(from, to, i) < Source(from, to, j)
    ensures Source(from, to, i) != from && Source(from, to, j) != from
  {
  }

  /**
   * Two elements other than the moved one are in the same order after the
   * move as before it.
   */
  lemma ArrayMoveKeepsOthersInOrder<T>(s: seq<T>, from: nat, to: nat, x: T, y: T)
    requires from < |s| && to < |s| && Distinct(s)
    requires x in s && y in s && x != s[from] && y != s[from]
    ensures var r := ArrayMove(s, from, to);
            x in r && y in r && (IndexOf(s, x) < IndexOf(s, y) <==> IndexOf(r, x) < IndexOf(r, y))
  {
    var r := ArrayMove(s, from, to);
    ArrayMoveKeepsDistinct(s, from, to);
    ArrayMoveSameElements(s, from, to);
    var i, j := IndexOf(r, x), IndexOf(r, y);
    // neither x nor y sits on the moved element's new position
    assert i != to && j != to;
    IndexOfDistinct(s, Source(from, to, i));
    IndexOfDistinct(s, Source(from, to, j));
    if i < j {
      ArrayMoveKeepsRelativeOrder(|s|, from, to, i, j);
    } else if j < i {
      ArrayMoveKeepsRelativeOrder(|s|, from, to, j, i);
    }
  }

  /**
   * The elements strictly between the two indices shift one place towards
   * `from`, and those outside both indices stay put.
   */
  lemma ArrayMoveShifts<T>(s: seq<T>, from: nat, to: nat)
    requires from < |s| && to < |s|
    ensures var r := ArrayMove(s, from, to);
            && (forall k :: from <= k < to ==> r[k] == s[k + 1])
            && (forall k :: to < k <= from ==> r[k] == s[k - 1])
            && (forall k :: 0 <= k < |s| && ((k < from && k < to) || (k > from && k > to)) ==> r[k] == s[k])
  {
  }

  /** The element that was at `to` ends next to the moved one, on the side it came from. */
  lemma ArrayMoveDisplacedNeighbour<T>(s: seq<T>, from: nat, to: nat)
    requires from < |s| && to < |s| && from != to
    ensures var r := ArrayMove(s, from, to);
            if from < to then r[to - 1] == s[to] else r[to + 1] == s[to]
  {
  }
}
