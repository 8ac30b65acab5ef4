/**
 * The abstract view of the arena: chains and rings of nodes.
 *
 * `Linked(h, w)` says that following `next` from `w[0]` visits the rest of
 * `w` in order, with `prev` retracing each step. A ring is a sequence of
 * distinct nodes linked around back to its first node; an unlinked node is
 * the ring of one node, and a list is the ring that starts at its sentinel.
 */
module Rings {
  import opened Nodes

  /** No node occurs twice. */
  ghost predicate Distinct(s: seq<Id>) {
    forall i, j | 0 <= i < j < |s| :: s[i] != s[j]
  }

  /** No node occurs in both. */
  ghost predicate Disjoint(a: seq<Id>, b: seq<Id>) {
    forall x | x in a :: x !in b
  }

  /** Following `next` along `w` visits `w` in order, and `prev` retraces every step. */
  ghost predicate Linked(h: Heap, w: seq<Id>) {
    && (forall i | 0 <= i < |w| :: w[i] < |h|)
    && (forall i | 0 <= i < |w| - 1 :: h[w[i]].next == w[i + 1] && h[w[i + 1]].prev == w[i])
  }

  /** `r` is a whole ring: distinct nodes, each followed by the next and the last by the first. */
  ghost predicate Ring(h: Heap, r: seq<Id>) {
    && |r| > 0
    && Distinct(r)
    && Linked(h, r + [r[0]])
  }

  lemma DisjointSymmetric(a: seq<Id>, b: seq<Id>)
    requires Disjoint(a, b)
    ensures Disjoint(b, a)
  {
  }

  lemma DistinctConcat(a: seq<Id>, b: seq<Id>)
    ensures Distinct(a + b) <==> Distinct(a) && Distinct(b) && Disjoint(a, b)
  {
    var w := a + b;
    if Distinct(w) {
      forall i, j | 0 <= i < j < |a| ensures a[i] != a[j] {
        assert a[i] == w[i] && a[j] == w[j];
      }
      forall i, j | 0 <= i < j < |b| ensures b[i] != b[j] {
        assert b[i] == w[|a| + i] && b[j] == w[|a| + j];
      }
      forall x | x in a ensures x !in b {
        var i :| 0 <= i < |a| && a[i] == x;
        assert w[i] == x;
        forall j | 0 <= j < |b| ensures b[j] != x {
          assert w[|a| + j] == b[j];
        }
      }
    }
    if Distinct(a) && Distinct(b) && Disjoint(a, b) {
      forall i, j | 0 <= i < j < |w| ensures w[i] != w[j] {
        if j < |a| {
          assert w[i] == a[i] && w[j] == a[j];
        } else if i >= |a| {
          assert w[i] == b[i - |a|] && w[j] == b[j - |a|];
        } else {
          assert w[i] == a[i] && w[j] == b[j - |a|];
          assert w[i] in a;
        }
      }
    }
  }

  lemma LinkedSlice(h: Heap, w: seq<Id>, i: nat, j: nat)
    requires Linked(h, w) && i <= j <= |w|
    ensures Linked(h, w[i..j])
  {
    var v := w[i..j];
    forall k | 0 <= k < |v| - 1 ensures h[v[k]].next == v[k + 1] && h[v[k + 1]].prev == v[k] {
      assert v[k] == w[i + k] && v[k + 1] == w[i + k + 1];
    }
  }

  /** Two chains that share their meeting node form one chain. */
  lemma LinkedJoin(h: Heap, p: seq<Id>, x: Id, q: seq<Id>)
    requires Linked(h, p + [x]) && Linked(h, [x] + q)
    ensures Linked(h, p + [x] + q)
  {
    var a, b, w := p + [x], [x] + q, p + [x] + q;
    forall k | 0 <= k < |w| ensures w[k] < |h| {
      if k < |a| { assert w[k] == a[k]; } else { assert w[k] == b[k - |p|]; }
    }
    forall k | 0 <= k < |w| - 1 ensures h[w[k]].next == w[k + 1] && h[w[k + 1]].prev == w[k] {
      if k < |p| {
        assert w[k] == a[k] && w[k + 1] == a[k + 1];
      } else {
        assert w[k] == b[k - |p|] && w[k + 1] == b[k - |p| + 1];
      }
    }
  }

  /** Two chains joined by one link form one chain. */
  lemma LinkedConcat(h: Heap, a: seq<Id>, b: seq<Id>)
    requires Linked(h, a) && Linked(h, b) && |a| > 0 && |b| > 0
    requires h[a[|a| - 1]].next == b[0] && h[b[0]].prev == a[|a| - 1]
    ensures Linked(h, a + b)
  {
    var w := a + b;
    forall k | 0 <= k < |w| ensures w[k] < |h| {
      if k < |a| { assert w[k] == a[k]; } else { assert w[k] == b[k - |a|]; }
    }
    forall k | 0 <= k < |w| - 1 ensures h[w[k]].next == w[k + 1] && h[w[k + 1]].prev == w[k] {
      if k < |a| - 1 {
        assert w[k] == a[k] && w[k + 1] == a[k + 1];
      } else if k == |a| - 1 {
        assert w[k] == a[|a| - 1] && w[k + 1] == b[0];
      } else {
        assert w[k] == b[k - |a|] && w[k + 1] == b[k - |a| + 1];
      }
    }
  }

  /**
   * A chain survives any change that keeps the `next` link of all its nodes
   * but the last and the `prev` link of all its nodes but the first.
   */
  lemma LinkedFrame(h: Heap, h': Heap, w: seq<Id>)
    requires Linked(h, w)
    requires forall i | 0 <= i < |w| :: w[i] < |h'|
    requires forall i | 0 <= i < |w| - 1 :: h'[w[i]].next == h[w[i]].next
    requires forall i | 0 < i < |w| :: h'[w[i]].prev == h[w[i]].prev
    ensures Linked(h', w)
  {
  }

  /** A ring survives any change that leaves its own nodes alone. */
  lemma RingFrame(h: Heap, h': Heap, r: seq<Id>)
    requires Ring(h, r)
    requires forall i | 0 <= i < |r| :: r[i] < |h| && r[i] < |h'| && h'[r[i]] == h[r[i]]
    ensures Ring(h', r)
  {
    var w := r + [r[0]];
    forall i | 0 <= i < |w| ensures w[i] < |h'| && h'[w[i]] == h[w[i]] {
      if i < |r| { assert w[i] == r[i]; } else { assert w[i] == r[0]; }
    }
  }

  /** Every node of a ring exists, and its last node and first node are adjacent. */
  lemma RingBounds(h: Heap, r: seq<Id>)
    requires Ring(h, r)
    ensures forall i | 0 <= i < |r| :: r[i] < |h|
    ensures h[r[|r| - 1]].next == r[0] && h[r[0]].prev == r[|r| - 1]
  {
    var w := r + [r[0]];
    forall i | 0 <= i < |r| ensures r[i] < |h| {
      assert w[i] == r[i];
    }
    assert w[|r| - 1] == r[|r| - 1] && w[|r|] == r[0];
  }

  /** A single node is a ring exactly when it is a self-loop, i.e. unlinked. */
  lemma RingOfOne(h: Heap, x: Id)
    requires x < |h|
    ensures Ring(h, [x]) <==> h[x] == Node(x, x)
  {
    var w := [x] + [[x][0]];
    assert w == [x, x];
    if h[x] == Node(x, x) {
      assert Linked(h, w);
    }
    if Ring(h, [x]) {
      assert h[w[0]].next == w[1] && h[w[1]].prev == w[0];
    }
  }

  /** A ring may be read from any of its nodes. */
  lemma RingRotate(h: Heap, a: seq<Id>, b: seq<Id>)
    requires Ring(h, a + b)
    ensures Ring(h, b + a)
  {
    DistinctConcat(a, b);
    DistinctConcat(b, a);
    if a == [] {
      assert b + a == a + b;
    } else if b == [] {
      assert b + a == a + b;
    } else {
      var w := a + b + [a[0]];
      assert w == (a + b) + [(a + b)[0]];
      LinkedSlice(h, w, |a|, |w|);
      assert w[|a|..] == b + [a[0]];
      LinkedSlice(h, w, 0, |a| + 1);
      assert w[..|a| + 1] == a + [b[0]];
      assert a + [b[0]] == [a[0]] + (a[1..] + [b[0]]);
      LinkedJoin(h, b, a[0], a[1..] + [b[0]]);
      assert b + [a[0]] + (a[1..] + [b[0]]) == (b + a) + [(b + a)[0]];
    }
  }

  /**
   * Unlinking the first node of a ring of two or more leaves the rest as a
   * ring and the node as a self-loop.
   */
  lemma RingUnlinkHead(h: Heap, x: Id, t: seq<Id>)
    requires Closed(h) && Ring(h, [x] + t) && t != []
    ensures x < |h| && Unlink(h, x)[x] == Node(x, x)
    ensures Ring(Unlink(h, x), t)
  {
    var w := [x] + t + [x];
    assert w == ([x] + t) + [([x] + t)[0]];
    assert w[0] == x && w[|w| - 1] == x && w[1] == t[0] && w[|w| - 2] == t[|t| - 1];
    assert h[x].next == w[1] == t[0];
    assert h[x].prev == w[|w| - 2] == t[|t| - 1];
    var h' := Unlink(h, x);
    DistinctConcat([x], t);
    LinkedSlice(h, w, 1, |w| - 1);
    assert w[1..|w| - 1] == t;
    LinkedFrame(h, h', t);
    LinkedConcat(h', t, [t[0]]);
  }

  /**
   * A ring cut in two: both parts are chains of distinct nodes, disjoint
   * from each other, and each part's last node is followed by the other's first.
   */
  lemma RingParts(h: Heap, a: seq<Id>, b: seq<Id>)
    requires Ring(h, a + b) && a != [] && b != []
    ensures Linked(h, a) && Linked(h, b)
    ensures Distinct(a) && Distinct(b) && Disjoint(a, b)
    ensures h[a[|a| - 1]].next == b[0] && h[b[0]].prev == a[|a| - 1]
    ensures h[b[|b| - 1]].next == a[0] && h[a[0]].prev == b[|b| - 1]
  {
    DistinctConcat(a, b);
    var w := a + b + [a[0]];
    assert w == (a + b) + [(a + b)[0]];
    LinkedSlice(h, w, 0, |a|);
    assert w[..|a|] == a;
    LinkedSlice(h, w, |a|, |a| + |b|);
    assert w[|a|..|a| + |b|] == b;
    assert w[|a| - 1] == a[|a| - 1] && w[|a|] == b[0];
    assert w[|a| + |b| - 1] == b[|b| - 1] && w[|a| + |b|] == a[0];
  }

  /**
   * Unlinking the head of one ring leaves every ring disjoint from it as it
   * was; the rest of the unlinked node's ring closes up behind it.
   */
  lemma UnlinkOtherRing(h: Heap, x: Id, u: seq<Id>, r: seq<Id>)
    requires Closed(h) && Ring(h, [x] + u) && Ring(h, r) && Disjoint(r, [x] + u)
    ensures x < |h| && Unlink(h, x)[x] == Node(x, x)
    ensures Ring(Unlink(h, x), r)
    ensures u != [] ==> Ring(Unlink(h, x), u)
  {
    assert x in [x] + u;
    RingBounds(h, [x] + u);
    var h1 := Unlink(h, x);
    if u == [] {
      RingOfOne(h, x);
      assert h1 == h;
    } else {
      RingParts(h, [x], u);
      RingUnlinkHead(h, x, u);
      assert u[0] in [x] + u && u[|u| - 1] in [x] + u;
      forall i | 0 <= i < |r| ensures r[i] < |h| && r[i] < |h1| && h1[r[i]] == h[r[i]] {
        assert r[i] in r;
        assert (r + [r[0]])[i] == r[i];
      }
      RingFrame(h, h1, r);
    }
  }

  /**
   * A node that takes the place of a ring's head: if `dst` gets the head's
   * two links and the head's neighbours point at `dst`, the ring with `dst`
   * as its head results.
   */
  lemma RingReplaceHead(h: Heap, h': Heap, dst: Id, src: Id, t: seq<Id>)
    requires Ring(h, [src] + t) && t != [] && dst !in t && dst < |h'|
    requires h'[dst] == Node(t[|t| - 1], t[0])
    requires forall i | 0 <= i < |t| :: t[i] < |h| && t[i] < |h'|
    requires forall i | 0 <= i < |t| - 1 :: h'[t[i]].next == h[t[i]].next
    requires forall i | 0 < i < |t| :: h'[t[i]].prev == h[t[i]].prev
    requires h'[t[|t| - 1]].next == dst && h'[t[0]].prev == dst
    ensures Ring(h', [dst] + t)
  {
    RingParts(h, [src], t);
    LinkedFrame(h, h', t);
    LinkedConcat(h', [dst], t);
    LinkedConcat(h', [dst] + t, [dst]);
    DistinctConcat([dst], t);
    assert ([dst] + t) + [dst] == ([dst] + t) + [([dst] + t)[0]];
  }

  /**
   * Move assignment from a linked source into a self-looped destination:
   * the destination takes the source's place in its ring, the source
   * becomes a self-loop, and every other node is unchanged.
   */
  lemma MoveIntoRing(h: Heap, dst: Id, src: Id, t: seq<Id>)
    requires Closed(h) && dst < |h| && h[dst] == Node(dst, dst)
    requires Ring(h, [src] + t) && t != [] && dst !in [src] + t
    ensures src < |h|
    ensures Ring(MoveAssign(h, dst, src), [dst] + t)
    ensures MoveAssign(h, dst, src)[src] == Node(src, src)
    ensures forall y | 0 <= y < |h| && y != dst && y != src && y !in t :: MoveAssign(h, dst, src)[y] == h[y]
  {
    RingParts(h, [src], t);
    RingBounds(h, [src] + t);
    assert src !in t && t[|t| - 1] in t && t[0] in t;
    assert IsLinked(h, src);
    MoveAssignPointwise(h, dst, src);
    var h' := MoveAssign(h, dst, src);
    var p, n := t[|t| - 1], t[0];
    assert h[src].prev == p && h[src].next == n;
    forall i | 0 <= i < |t| - 1 ensures h'[t[i]].next == h[t[i]].next {
      assert t[i] != p && t[i] in t;
    }
    forall i | 0 < i < |t| ensures h'[t[i]].prev == h[t[i]].prev {
      assert t[i] != n && t[i] in t;
    }
    RingReplaceHead(h, h', dst, src, t);
  }

  /**
   * Move assignment into an already unlinked destination keeps every ring
   * that shares no node with the source's ring or the destination.
   */
  lemma MoveIntoRingKeepsOthers(h: Heap, dst: Id, src: Id, t: seq<Id>, u: seq<Id>)
    requires Closed(h) && dst < |h| && h[dst] == Node(dst, dst)
    requires Ring(h, [src] + t) && t != [] && dst !in [src] + t
    requires Ring(h, u) && dst !in u && Disjoint(u, [src] + t)
    ensures src < |h|
    ensures Ring(MoveAssign(h, dst, src), u)
  {
    MoveIntoRing(h, dst, src, t);
    var h' := MoveAssign(h, dst, src);
    RingBounds(h, u);
    forall i | 0 <= i < |u| ensures u[i] < |h| && u[i] < |h'| && h'[u[i]] == h[u[i]] {
      assert u[i] in u;
      assert u[i] !in [src] + t;
      assert u[i] != src && u[i] !in t;
    }
    RingFrame(h, h', u);
  }

  /**
   * Move assignment between two rings: the destination leaves its own ring
   * (which closes up behind it) and takes the source's place in the source's
   * ring; the source is left a self-loop.
   */
  lemma RingMoveAssign(h: Heap, dst: Id, src: Id, t: seq<Id>, u: seq<Id>)
    requires Closed(h)
    requires Ring(h, [src] + t) && t != []
    requires Ring(h, [dst] + u) && Disjoint([src] + t, [dst] + u)
    ensures dst < |h| && src < |h|
    ensures Ring(MoveAssign(h, dst, src), [dst] + t)
    ensures MoveAssign(h, dst, src)[src] == Node(src, src)
    ensures u != [] ==> Ring(MoveAssign(h, dst, src), u)
  {
    assert dst < |h| by {
      RingBounds(h, [dst] + u);
      assert dst == ([dst] + u)[0];
    }
    var h1 := Unlink(h, dst);
    assert Ring(h1, [src] + t) && h1[dst] == Node(dst, dst) && Closed(h1) by {
      UnlinkOtherRing(h, dst, u, [src] + t);
    }
    assert dst !in [src] + t by {
      assert dst in [dst] + u;
    }
    MoveIntoRing(h1, dst, src, t);
    MoveAssignUnlinksFirst(h, dst, src);
    if u != [] {
      assert Ring(h1, u) by {
        UnlinkOtherRing(h, dst, u, [src] + t);
      }
      assert dst !in u && Disjoint(u, [src] + t) by {
        DistinctConcat([dst], u);
        DisjointSymmetric([src] + t, [dst] + u);
        forall y | y in u ensures y !in [src] + t {
          assert y in [dst] + u;
        }
      }
      MoveIntoRingKeepsOthers(h1, dst, src, t, u);
    }
  }
}
