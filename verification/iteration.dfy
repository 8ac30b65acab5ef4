/**
 * Iterators over a list: stepping, comparing, and the traversals that
 * `size()` and a range loop perform. Positions `0 .. |s|` of a list with
 * members `s` are the members followed by `end()` (see `Lists.At`).
 */
module Iteration {
  import opened Nodes
  import opened Rings
  import opened Lists

  /**
   * Helper unfolding `IsList`: the sentinel, then each member, then the
   * sentinel again is the walk `next` takes.
   */
  lemma ListWalk(h: Heap, d: Id, s: seq<Id>)
    requires IsList(h, d, s)
    ensures d < |h| && forall i | 0 <= i < |s| :: s[i] < |h|
    ensures forall k | 0 <= k <= |s| :: ([d] + s + [d])[k + 1] == At(d, s, k)
    ensures Linked(h, [d] + s + [d])
  {
    var w := [d] + s + [d];
    assert w == ([d] + s) + [([d] + s)[0]];
    assert w[0] == d;
    forall i | 0 <= i < |s| ensures s[i] < |h| {
      assert w[i + 1] == s[i];
    }
  }

  /** Positions of a list name distinct nodes; in particular only position `|s|` is `end()`. */
  lemma PositionsDistinct(h: Heap, d: Id, s: seq<Id>, i: nat, j: nat)
    requires IsList(h, d, s) && i <= |s| && j <= |s|
    ensures At(d, s, i) == At(d, s, j) <==> i == j
    ensures At(d, s, i) == d <==> i == |s|
  {
    var r := [d] + s;
    assert i < |s| ==> At(d, s, i) == r[i + 1];
    assert j < |s| ==> At(d, s, j) == r[j + 1];
    assert r[0] == d;
  }

  /**
   * `==` on iterators compares the nodes they stand at, so it is
   * `PositionsDistinct` read on iterators: two positions of one list are
   * equal iterators exactly when they coincide.
   */
  lemma IteratorEquality(h: Heap, d: Id, s: seq<Id>, i: nat, j: nat)
    requires IsList(h, d, s) && i <= |s| && j <= |s|
    ensures Iterator(At(d, s, i)) == Iterator(At(d, s, j)) <==> i == j
  {
    PositionsDistinct(h, d, s, i, j);
  }

  /**
   * `++` moves one position forward, and from `end()` wraps round to
   * `begin()`; `--` moves one position back, and from `begin()` reaches
   * `end()`.
   */
  lemma Steps(h: Heap, d: Id, s: seq<Id>, k: nat)
    requires IsList(h, d, s) && k <= |s|
    ensures d < |h| && forall i | 0 <= i <= |s| :: At(d, s, i) < |h|
    ensures Begin(h, d) == Iterator(At(d, s, 0))
    ensures Increment(h, End(d)) == Begin(h, d)
    ensures Decrement(h, Begin(h, d)) == End(d)
    ensures Decrement(h, End(d)) == Iterator(if s == [] then d else s[|s| - 1])
    ensures k < |s| ==> Increment(h, Iterator(At(d, s, k))) == Iterator(At(d, s, k + 1))
    ensures k < |s| ==> Decrement(h, Iterator(At(d, s, k + 1))) == Iterator(At(d, s, k))
  {
    ListWalk(h, d, s);
    var w := [d] + s + [d];
    assert w[0] == d && w[|w| - 1] == d && w[1] == At(d, s, 0);
    assert w[k + 1] == At(d, s, k);
    if k < |s| {
      assert w[k + 2] == At(d, s, k + 1);
    }
    assert w[|w| - 2] == (if s == [] then d else s[|s| - 1]);
    forall i | 0 <= i <= |s| ensures At(d, s, i) < |h| {
      assert w[i + 1] == At(d, s, i);
    }
  }

  /** `++` and `--` undo each other on any node, under the mutual-inverse invariant. */
  lemma IncrementDecrement(h: Heap, it: Iterator)
    requires Valid(h) && it.current < |h|
    ensures Decrement(h, Increment(h, it)) == it
    ensures Increment(h, Decrement(h, it)) == it
  {
    ValidInverse(h, it.current);
  }

  /** `n` applications of `++`. */
  function Advance(h: Heap, it: Iterator, n: nat): Iterator
    requires Closed(h) && it.current < |h|
    decreases n
  {
    if n == 0 then it else Advance(h, Increment(h, it), n - 1)
  }

  /** `n` applications of `--`. */
  function Retreat(h: Heap, it: Iterator, n: nat): Iterator
    requires Closed(h) && it.current < |h|
    decreases n
  {
    if n == 0 then it else Retreat(h, Decrement(h, it), n - 1)
  }

  /** Stepping forward `n` times from position `j` reaches position `j + n`. */
  lemma {:induction false} IterateForward(h: Heap, d: Id, s: seq<Id>, j: nat, n: nat)
    requires Closed(h) && IsList(h, d, s) && j + n <= |s|
    ensures At(d, s, j) < |h|
    ensures Advance(h, Iterator(At(d, s, j)), n) == Iterator(At(d, s, j + n))
    decreases n
  {
    Steps(h, d, s, j);
    if n > 0 {
      IterateForward(h, d, s, j + 1, n - 1);
    }
  }

  /** Stepping back `n` times from position `j` reaches position `j - n`. */
  lemma {:induction false} IterateBackward(h: Heap, d: Id, s: seq<Id>, j: nat, n: nat)
    requires Closed(h) && IsList(h, d, s) && n <= j <= |s|
    ensures At(d, s, j) < |h|
    ensures Retreat(h, Iterator(At(d, s, j)), n) == Iterator(At(d, s, j - n))
    decreases n
  {
    Steps(h, d, s, j);
    if n > 0 {
      Steps(h, d, s, j - 1);
      IterateBackward(h, d, s, j - 1, n - 1);
    }
  }

  /** A whole list: `|s|` steps lead from `begin()` to `end()`, and back again. */
  lemma BeginToEnd(h: Heap, d: Id, s: seq<Id>)
    requires Closed(h) && IsList(h, d, s)
    ensures d < |h|
    ensures Advance(h, Begin(h, d), |s|) == End(d)
    ensures Retreat(h, End(d), |s|) == Begin(h, d)
  {
    Steps(h, d, s, 0);
    IterateForward(h, d, s, 0, |s|);
    Steps(h, d, s, |s|);
    IterateBackward(h, d, s, |s|, |s|);
  }

  /** `empty()` holds exactly when the list has no members, which is when `begin() == end()`. */
  lemma EmptyIffNoMembers(h: Heap, d: Id, s: seq<Id>)
    requires IsList(h, d, s)
    ensures d < |h|
    ensures Empty(h, d) <==> s == []
    ensures Begin(h, d) == End(d) <==> s == []
  {
    Steps(h, d, s, 0);
    PositionsDistinct(h, d, s, 0, |s|);
    if s == [] {
      RingOfOne(h, d);
      assert [d] + s == [d];
    } else {
      RingParts(h, [d], s);
      assert s[|s| - 1] == ([d] + s)[|s|];
    }
  }

  /** `size()`: count the steps from `begin()` to `end()`. */
  method Size(h: Heap, d: Id, ghost s: seq<Id>) returns (n: nat)
    requires IsList(h, d, s)
    ensures n == |s|
  {
    Steps(h, d, s, 0);
    var it := Begin(h, d);
    n := 0;
    while it != End(d)
      invariant n <= |s| && it == Iterator(At(d, s, n))
      decreases |s| - n
    {
      PositionsDistinct(h, d, s, n, |s|);
      Steps(h, d, s, n);
      it := Increment(h, it);
      n := n + 1;
    }
    PositionsDistinct(h, d, s, n, |s|);
  }

  /** A range loop over the list: the nodes visited from `begin()` up to `end()`, in order. */
  method Members(h: Heap, d: Id, ghost s: seq<Id>) returns (m: seq<Id>)
    requires IsList(h, d, s)
    ensures m == s
  {
    Steps(h, d, s, 0);
    var it := Begin(h, d);
    m := [];
    while it != End(d)
      invariant |m| <= |s| && m == s[..|m|] && it == Iterator(At(d, s, |m|))
      decreases |s| - |m|
    {
      PositionsDistinct(h, d, s, |m|, |s|);
      Steps(h, d, s, |m|);
      m := m + [it.current];
      it := Increment(h, it);
    }
    PositionsDistinct(h, d, s, |m|, |s|);
  }
}
