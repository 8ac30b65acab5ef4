/**
 * What the list operations do to rings, independently of which ring is a
 * list: inserting a node before a ring's first node, moving a node out of
 * one ring into another, and the two shapes of splice (between two rings
 * and inside one ring). Each lemma also states that no node outside the
 * rings involved changes.
 */
module ListRings {
  import opened Nodes
  import opened Rings
  import opened Lists

  /** `h'` differs from `h` at most at the nodes of `r`. */
  ghost predicate SameOutside(h: Heap, h': Heap, r: seq<Id>) {
    && |h'| == |h|
    && forall y | 0 <= y < |h| && y !in r :: h'[y] == h[y]
  }

  /** A ring that shares no node with the changed nodes is still a ring. */
  lemma RingUntouched(h: Heap, h': Heap, r: seq<Id>, q: seq<Id>)
    requires SameOutside(h, h', r) && Ring(h, q) && Disjoint(q, r)
    ensures Ring(h', q)
  {
    RingBounds(h, q);
    forall i | 0 <= i < |q| ensures q[i] < |h| && q[i] < |h'| && h'[q[i]] == h[q[i]] {
      assert q[i] in q;
    }
    RingFrame(h, h', q);
  }

  /** Unlinking a ring's head changes only nodes of that ring. */
  lemma UnlinkSameOutside(h: Heap, x: Id, u: seq<Id>)
    requires Closed(h) && Ring(h, [x] + u)
    ensures x < |h| && SameOutside(h, Unlink(h, x), [x] + u)
  {
    RingBounds(h, [x] + u);
    assert x == ([x] + u)[0];
    if u == [] {
      RingOfOne(h, x);
    } else {
      RingParts(h, [x], u);
      assert u[0] in [x] + u && u[|u| - 1] in [x] + u;
    }
  }

  /**
   * Linking a self-looped node `v` in before the first node of a ring
   * makes it the ring's last node.
   */
  lemma RingInsertBefore(h: Heap, r: seq<Id>, v: Id)
    requires Closed(h) && Ring(h, r) && v < |h| && h[v] == Node(v, v) && v !in r
    ensures r[0] < |h|
    ensures Ring(LinkBefore(h, r[0], v), r + [v])
    ensures SameOutside(h, LinkBefore(h, r[0], v), r + [v])
  {
    RingBounds(h, r);
    var pos, last := r[0], r[|r| - 1];
    var h' := LinkBefore(h, pos, v);
    assert h[pos].prev == last;
    assert Linked(h', r) by {
      assert pos in r && last in r;
      var w := r + [r[0]];
      LinkedSlice(h, w, 0, |r|);
      assert w[..|r|] == r;
      forall i | 0 <= i < |r| - 1 ensures h'[r[i]].next == h[r[i]].next {
        assert r[i] != last;
      }
      forall i | 0 < i < |r| ensures h'[r[i]].prev == h[r[i]].prev {
        assert r[i] != pos;
      }
      LinkedFrame(h, h', r);
    }
    assert Linked(h', r + [v] + [r[0]]) by {
      LinkedConcat(h', r, [v]);
      LinkedConcat(h', r + [v], [r[0]]);
    }
    assert Distinct(r + [v]) by {
      DistinctConcat(r, [v]);
    }
    assert (r + [v]) + [(r + [v])[0]] == r + [v] + [r[0]];
    assert pos in r + [v] && last in r + [v] && v in r + [v];
  }

  /**
   * `insert` of a node `v` taken from another ring `[v] + u` before the
   * first node of ring `r`: `v` ends last in `r`, what remains of its old
   * ring closes up, and nothing else changes.
   */
  lemma InsertFromOtherRing(h: Heap, r: seq<Id>, v: Id, u: seq<Id>)
    requires Closed(h) && Ring(h, r) && Ring(h, [v] + u) && Disjoint(r, [v] + u)
    ensures r[0] < |h| && v < |h|
    ensures var p := Insert(h, Iterator(r[0]), v);
            && p.at == Iterator(v)
            && Ring(p.heap, r + [v])
            && (u != [] ==> Ring(p.heap, u))
            && SameOutside(h, p.heap, r + [v] + u)
  {
    RingBounds(h, r);
    assert r[0] in r;
    UnlinkOtherRing(h, v, u, r);
    UnlinkSameOutside(h, v, u);
    var h1 := Unlink(h, v);
    RingInsertBefore(h1, r, v);
    var h2 := LinkBefore(h1, r[0], v);
    assert Insert(h, Iterator(r[0]), v) == Placed(h2, Iterator(v));
    if u != [] {
      DistinctConcat([v], u);
      forall y | y in u ensures y !in r + [v] {
        assert y in [v] + u;
        DisjointSymmetric(r, [v] + u);
      }
      RingUntouched(h1, h2, r + [v], u);
    }
  }

  /**
   * `insert` of a member `v` of ring `[v] + a + b` before `b[0]`: `v`
   * moves to just before `b[0]` within the same ring, and nothing else
   * changes.
   */
  lemma InsertWithinRing(h: Heap, v: Id, a: seq<Id>, b: seq<Id>)
    requires Closed(h) && Ring(h, [v] + a + b) && b != []
    ensures b[0] < |h| && v < |h|
    ensures var p := Insert(h, Iterator(b[0]), v);
            && p.at == Iterator(v)
            && Ring(p.heap, a + [v] + b)
            && SameOutside(h, p.heap, [v] + a + b)
  {
    assert [v] + a + b == [v] + (a + b);
    RingBounds(h, [v] + (a + b));
    assert b[0] == ([v] + (a + b))[1 + |a|];
    RingUnlinkHead(h, v, a + b);
    UnlinkSameOutside(h, v, a + b);
    var h1 := Unlink(h, v);
    RingRotate(h1, a, b);
    DistinctConcat([v], a + b);
    assert v !in b + a by {
      forall y | y in b + a ensures y != v {
        assert y in a + b;
      }
    }
    RingInsertBefore(h1, b + a, v);
    var h2 := LinkBefore(h1, b[0], v);
    assert (b + a)[0] == b[0];
    assert Insert(h, Iterator(b[0]), v) == Placed(h2, Iterator(v));
    assert b + a + [v] == b + (a + [v]);
    RingRotate(h2, b, a + [v]);
    assert (a + [v]) + b == a + [v] + b;
    forall y | 0 <= y < |h| && y !in [v] + a + b ensures h2[y] == h[y] {
      assert y !in b + a + [v];
    }
  }

  /** Two chains, each leading into the other, form a ring if no node repeats. */
  lemma RingOfTwo(h: Heap, a: seq<Id>, b: seq<Id>)
    requires Linked(h, a) && Linked(h, b) && a != [] && b != [] && Distinct(a + b)
    requires h[a[|a| - 1]].next == b[0] && h[b[0]].prev == a[|a| - 1]
    requires h[b[|b| - 1]].next == a[0] && h[a[0]].prev == b[|b| - 1]
    ensures Ring(h, a + b)
  {
    LinkedConcat(h, a, b);
    LinkedConcat(h, a + b, [a[0]]);
    assert (a + b) + [(a + b)[0]] == a + b + [a[0]];
  }

  /** A chain cut in two is two chains, the first leading into the second. */
  lemma ChainParts(h: Heap, a: seq<Id>, b: seq<Id>)
    requires Linked(h, a + b) && a != [] && b != []
    ensures Linked(h, a) && Linked(h, b)
    ensures h[a[|a| - 1]].next == b[0] && h[b[0]].prev == a[|a| - 1]
  {
    var w := a + b;
    LinkedSlice(h, w, 0, |a|);
    assert w[..|a|] == a;
    LinkedSlice(h, w, |a|, |w|);
    assert w[|a|..] == b;
    assert w[|a| - 1] == a[|a| - 1] && w[|a|] == b[0];
  }

  /** Moving the last of three blocks in front of the middle one keeps the nodes distinct. */
  lemma DistinctSwap(x: seq<Id>, g: seq<Id>, t: seq<Id>)
    requires Distinct(x + g + t)
    ensures Distinct(g + x + t)
  {
    DistinctConcat(x + g, t);
    DistinctConcat(x, g);
    DistinctConcat(g, x);
    DistinctConcat(g + x, t);
    forall y | y in g + x ensures y !in t {
      assert y in x + g;
    }
  }

  /**
   * A chain survives a change that rewrites `next` only at nodes of
   * `nexts` and `prev` only at nodes of `prevs`, when its only node in
   * `nexts` is its last and its only node in `prevs` is its first.
   */
  lemma ChainKept(h: Heap, h': Heap, w: seq<Id>, nexts: set<Id>, prevs: set<Id>)
    requires Linked(h, w) && w != [] && Distinct(w) && |h'| == |h|
    requires forall y | 0 <= y < |h| && y !in nexts :: h'[y].next == h[y].next
    requires forall y | 0 <= y < |h| && y !in prevs :: h'[y].prev == h[y].prev
    requires forall i | 0 <= i < |w| - 1 :: w[i] !in nexts
    requires forall i | 0 < i < |w| :: w[i] !in prevs
    ensures Linked(h', w)
  {
    LinkedFrame(h, h', w);
  }

  /**
   * Helper: `SplicePointwise` regrouped for the ring proofs below, as the
   * six rewritten links and the two sets of nodes whose links are kept.
   */
  lemma SpliceFrame(h: Heap, pos: Id, first: Id, lastExclusive: Id)
    requires Closed(h) && pos < |h| && first < |h| && lastExclusive < |h| && first != lastExclusive
    requires var last := h[lastExclusive].prev;
             var bp, bf, al := h[pos].prev, h[first].prev, h[last].next;
             && bp != last && bp != bf && last != bf
             && first != pos && first != al && pos != al
    ensures var h' := Splice(h, Iterator(pos), Iterator(first), Iterator(lastExclusive));
            var last := h[lastExclusive].prev;
            var bp, bf, al := h[pos].prev, h[first].prev, h[last].next;
            && h'[bp].next == first && h'[last].next == pos && h'[bf].next == al
            && h'[first].prev == bp && h'[pos].prev == last && h'[al].prev == bf
            && (forall y | 0 <= y < |h| && y !in {bp, last, bf} :: h'[y].next == h[y].next)
            && (forall y | 0 <= y < |h| && y !in {first, pos, al} :: h'[y].prev == h[y].prev)
  {
    SplicePointwise(h, pos, first, lastExclusive);
  }

  /** The shape of two disjoint rings `r` and `g + q`, as a splice between them reads it. */
  lemma AcrossShape(h: Heap, r: seq<Id>, g: seq<Id>, q: seq<Id>)
    requires Ring(h, r) && Ring(h, g + q) && g != [] && q != [] && Disjoint(r, g + q)
    ensures r[0] < |h| && g[0] < |h| && q[0] < |h|
    ensures Linked(h, r) && Linked(h, g) && Linked(h, q)
    ensures Distinct(r) && Distinct(g) && Distinct(q) && Disjoint(r, g)
    ensures h[q[0]].prev == g[|g| - 1] && h[g[|g| - 1]].next == q[0]
    ensures h[r[0]].prev == r[|r| - 1] && h[g[0]].prev == q[|q| - 1]
    ensures forall i | 0 <= i < |r| :: r[i] !in {g[0], g[|g| - 1], q[0], q[|q| - 1]}
    ensures forall i | 0 <= i < |g| :: g[i] !in {r[0], r[|r| - 1], q[0], q[|q| - 1]}
    ensures forall i | 0 <= i < |q| :: q[i] !in {r[0], r[|r| - 1], g[0], g[|g| - 1]}
  {
    RingBounds(h, r);
    RingBounds(h, g + q);
    RingParts(h, g, q);
    assert g[0] == (g + q)[0] && q[0] == (g + q)[|g|];
    var w := r + [r[0]];
    LinkedSlice(h, w, 0, |r|);
    assert w[..|r|] == r;
    assert r[0] in r && r[|r| - 1] in r;
    assert g[0] in g && g[|g| - 1] in g && q[0] in q && q[|q| - 1] in q;
    assert g[0] in g + q && g[|g| - 1] in g + q && q[0] in g + q && q[|q| - 1] in g + q;
    forall i | 0 <= i < |g| ensures g[i] !in {r[0], r[|r| - 1], q[0], q[|q| - 1]} {
      assert g[i] in g && g[i] in g + q;
    }
    forall i | 0 <= i < |q| ensures q[i] !in {r[0], r[|r| - 1], g[0], g[|g| - 1]} {
      assert q[i] in q && q[i] in g + q;
    }
    forall i | 0 <= i < |r| ensures r[i] !in {g[0], g[|g| - 1], q[0], q[|q| - 1]} {
      assert r[i] in r;
    }
    assert Disjoint(r, g) by {
      forall y | y in r ensures y !in g {
        assert y !in g + q;
      }
    }
  }

  /**
   * `splice` between two rings: the block `g` of ring `g + q`, from
   * `first == g[0]` up to `last_exclusive == q[0]`, moves to just before
   * `pos == r[0]` in the disjoint ring `r`. The remainder `q` closes up
   * into a ring, and no other node changes.
   */
  lemma SpliceAcross(h: Heap, r: seq<Id>, g: seq<Id>, q: seq<Id>)
    requires Closed(h) && Ring(h, r) && Ring(h, g + q) && g != [] && q != [] && Disjoint(r, g + q)
    ensures r[0] < |h| && g[0] < |h| && q[0] < |h|
    ensures var h' := Splice(h, Iterator(r[0]), Iterator(g[0]), Iterator(q[0]));
            && Ring(h', r + g)
            && Ring(h', q)
            && SameOutside(h, h', r + g + q)
  {
    AcrossShape(h, r, g, q);
    var pos, first, lastEx := r[0], g[0], q[0];
    var bp, last, bf, al := r[|r| - 1], g[|g| - 1], q[|q| - 1], q[0];
    SpliceFrame(h, pos, first, lastEx);
    var h' := Splice(h, Iterator(pos), Iterator(first), Iterator(lastEx));
    var nexts, prevs := {bp, last, bf}, {first, pos, al};
    ChainKept(h, h', r, nexts, prevs);
    ChainKept(h, h', g, nexts, prevs);
    ChainKept(h, h', q, nexts, prevs);
    DistinctConcat(r, g);
    RingOfTwo(h', r, g);
    LinkedConcat(h', q, [q[0]]);
    forall y | 0 <= y < |h| && y !in r + g + q ensures h'[y] == h[y] {
      assert y !in r && y !in g + q;
      assert y != pos && y != bp && y != first && y != last && y != bf && y != al;
    }
  }

  /** The shape of one ring `x + g + t`, as a splice inside it reads it. */
  lemma WithinShape(h: Heap, x: seq<Id>, g: seq<Id>, t: seq<Id>)
    requires Ring(h, x + g + t) && x != [] && g != [] && t != []
    ensures x[0] < |h| && g[0] < |h| && t[0] < |h|
    ensures Linked(h, x) && Linked(h, g) && Linked(h, t)
    ensures Distinct(x) && Distinct(g) && Distinct(t) && Distinct(g + x + t)
    ensures h[t[0]].prev == g[|g| - 1] && h[g[|g| - 1]].next == t[0]
    ensures h[x[0]].prev == t[|t| - 1] && h[g[0]].prev == x[|x| - 1]
    ensures forall i | 0 <= i < |x| :: x[i] !in {g[0], g[|g| - 1], t[0], t[|t| - 1]}
    ensures forall i | 0 <= i < |g| :: g[i] !in {x[0], x[|x| - 1], t[0], t[|t| - 1]}
    ensures forall i | 0 <= i < |t| :: t[i] !in {x[0], x[|x| - 1], g[0], g[|g| - 1]}
  {
    RingBounds(h, x + g + t);
    RingParts(h, x + g, t);
    ChainParts(h, x, g);
    DistinctConcat(x, g);
    assert x[0] == (x + g + t)[0] && g[0] == (x + g + t)[|x|] && t[0] == (x + g + t)[|x| + |g|];
    assert (x + g)[0] == x[0] && (x + g)[|x + g| - 1] == g[|g| - 1];
    assert x[0] in x && x[|x| - 1] in x && g[0] in g && g[|g| - 1] in g;
    assert x[0] in x + g && x[|x| - 1] in x + g && g[0] in x + g && g[|g| - 1] in x + g;
    assert t[0] in t && t[|t| - 1] in t;
    forall i | 0 <= i < |x| ensures x[i] !in {g[0], g[|g| - 1], t[0], t[|t| - 1]} {
      assert x[i] in x && x[i] in x + g;
    }
    forall i | 0 <= i < |g| ensures g[i] !in {x[0], x[|x| - 1], t[0], t[|t| - 1]} {
      assert g[i] in g && g[i] in x + g;
    }
    forall i | 0 <= i < |t| ensures t[i] !in {x[0], x[|x| - 1], g[0], g[|g| - 1]} {
      assert t[i] in t;
    }
    DistinctSwap(x, g, t);
  }

  /** The chains and links a splice inside one ring leaves, read off its three rewritten nodes. */
  lemma SpliceWithinLinks(h: Heap, x: seq<Id>, g: seq<Id>, t: seq<Id>)
    requires Closed(h) && Ring(h, x + g + t) && x != [] && g != [] && t != []
    ensures x[0] < |h| && g[0] < |h| && t[0] < |h|
    ensures var h' := Splice(h, Iterator(x[0]), Iterator(g[0]), Iterator(t[0]));
            && Linked(h', x) && Linked(h', g) && Linked(h', t)
            && h'[g[|g| - 1]].next == x[0] && h'[x[0]].prev == g[|g| - 1]
            && h'[x[|x| - 1]].next == t[0] && h'[t[0]].prev == x[|x| - 1]
            && h'[t[|t| - 1]].next == g[0] && h'[g[0]].prev == t[|t| - 1]
            && SameOutside(h, h', x + g + t)
  {
    WithinShape(h, x, g, t);
    var pos, first, lastEx := x[0], g[0], t[0];
    var bp, last, bf, al := t[|t| - 1], g[|g| - 1], x[|x| - 1], t[0];
    SpliceFrame(h, pos, first, lastEx);
    var h' := Splice(h, Iterator(pos), Iterator(first), Iterator(lastEx));
    var nexts, prevs := {bp, last, bf}, {first, pos, al};
    ChainKept(h, h', x, nexts, prevs);
    ChainKept(h, h', g, nexts, prevs);
    ChainKept(h, h', t, nexts, prevs);
    forall y | 0 <= y < |h| && y !in x + g + t ensures h'[y] == h[y] {
      assert y !in x && y !in g && y !in t;
      assert x[0] in x && x[|x| - 1] in x && g[0] in g && g[|g| - 1] in g && t[0] in t && t[|t| - 1] in t;
    }
  }

  /** Three chains joined `x` to `t`, `t` to `g` and `g` back to `x` form the ring `x + t + g`. */
  lemma RingOfThree(h: Heap, x: seq<Id>, g: seq<Id>, t: seq<Id>)
    requires x != [] && g != [] && t != [] && Distinct(g + x + t)
    requires Linked(h, x) && Linked(h, g) && Linked(h, t)
    requires h[g[|g| - 1]].next == x[0] && h[x[0]].prev == g[|g| - 1]
    requires h[x[|x| - 1]].next == t[0] && h[t[0]].prev == x[|x| - 1]
    requires h[t[|t| - 1]].next == g[0] && h[g[0]].prev == t[|t| - 1]
    ensures Ring(h, x + t + g)
  {
    LinkedConcat(h, g, x);
    assert (g + x)[0] == g[0] && (g + x)[|g + x| - 1] == x[|x| - 1];
    RingOfTwo(h, g + x, t);
    assert g + x + t == g + (x + t);
    RingRotate(h, g, x + t);
    assert (x + t) + g == x + t + g;
  }

  /**
   * `splice` inside one ring `x + g + t`: the block `g`, from
   * `first == g[0]` up to `last_exclusive == t[0]`, moves to just before
   * `pos == x[0]`, giving the ring `x + t + g`; no other node changes.
   */
  lemma SpliceWithin(h: Heap, x: seq<Id>, g: seq<Id>, t: seq<Id>)
    requires Closed(h) && Ring(h, x + g + t) && x != [] && g != [] && t != []
    ensures x[0] < |h| && g[0] < |h| && t[0] < |h|
    ensures var h' := Splice(h, Iterator(x[0]), Iterator(g[0]), Iterator(t[0]));
            && Ring(h', x + t + g)
            && SameOutside(h, h', x + g + t)
  {
    WithinShape(h, x, g, t);
    SpliceWithinLinks(h, x, g, t);
    RingOfThree(Splice(h, Iterator(x[0]), Iterator(g[0]), Iterator(t[0])), x, g, t);
  }

  /** Move assignment between two disjoint rings changes only nodes of those rings. */
  lemma MoveAssignSameOutside(h: Heap, dst: Id, src: Id, t: seq<Id>, u: seq<Id>)
    requires Closed(h)
    requires Ring(h, [src] + t) && t != []
    requires Ring(h, [dst] + u) && Disjoint([src] + t, [dst] + u)
    ensures dst < |h| && src < |h|
    ensures SameOutside(h, MoveAssign(h, dst, src), [src] + t + [dst] + u)
  {
    UnlinkOtherRing(h, dst, u, [src] + t);
    UnlinkSameOutside(h, dst, u);
    var h1 := Unlink(h, dst);
    assert dst in [dst] + u;
    assert dst !in [src] + t;
    MoveIntoRing(h1, dst, src, t);
    MoveAssignUnlinksFirst(h, dst, src);
    var h' := MoveAssign(h, dst, src);
    forall y | 0 <= y < |h| && y !in [src] + t + [dst] + u ensures h'[y] == h[y] {
      assert y !in [src] + t && y !in [dst] + u;
      assert y != src && y != dst && y !in t;
    }
  }

  /**
   * What a splice does when `pos` is `last_exclusive`: the range's last
   * node and the node before `first` are both made to lead into `pos`,
   * `pos` is led back to the node before `first`, and `first` is led back
   * to the range's last node; nothing else changes.
   */
  lemma SpliceOntoRangeEndLinks(h: Heap, pos: Id, first: Id)
    requires Closed(h) && pos < |h| && first < |h| && first != pos
    requires var last, bf := h[pos].prev, h[first].prev;
             && h[last].next == pos && last != bf && last != pos
    ensures var h' := Splice(h, Iterator(pos), Iterator(first), Iterator(pos));
            var last, bf := h[pos].prev, h[first].prev;
            && |h'| == |h|
            && h'[last].next == pos && h'[first].prev == last
            && h'[bf].next == pos && h'[pos].prev == bf
            && (forall y | 0 <= y < |h| && y != last && y != bf :: h'[y].next == h[y].next)
            && (forall y | 0 <= y < |h| && y != first && y != pos :: h'[y].prev == h[y].prev)
  {
    var last, bf := h[pos].prev, h[first].prev;
    var h1 := Link(h, last, first);
    var h2 := Link(h1, last, pos);
    var h3 := Link(h2, bf, pos);
    assert Splice(h, Iterator(pos), Iterator(first), Iterator(pos)) == h3;
  }

  /**
   * A splice whose `pos` is its own `last_exclusive`, on a ring `g + t`
   * with `first == g[0]` and `last_exclusive == t[0]`: the block `g` is
   * dropped from the ring, `t` closes up on its own, `g[0]` is led back to
   * `g`'s last node, and the mutual-inverse invariant is broken, since both
   * `g`'s last node and `t`'s last node lead into `t[0]`.
   */
  lemma SpliceOntoRangeEnd(h: Heap, g: seq<Id>, t: seq<Id>)
    requires Closed(h) && Ring(h, g + t) && g != [] && t != []
    ensures g[0] < |h| && t[0] < |h| && g[|g| - 1] < |h|
    ensures var h' := Splice(h, Iterator(t[0]), Iterator(g[0]), Iterator(t[0]));
            && Ring(h', t)
            && h'[g[0]].prev == g[|g| - 1]
            && !Valid(h')
  {
    RingBounds(h, g + t);
    RingParts(h, g, t);
    assert g[0] == (g + t)[0] && t[0] == (g + t)[|g|] && g[|g| - 1] == (g + t)[|g| - 1];
    var pos, first, last, bf := t[0], g[0], g[|g| - 1], t[|t| - 1];
    assert first in g && last in g && pos in t && bf in t;
    SpliceOntoRangeEndLinks(h, pos, first);
    var h' := Splice(h, Iterator(pos), Iterator(first), Iterator(pos));
    forall i | 0 <= i < |t| ensures (i < |t| - 1 ==> t[i] !in {last, bf}) && (0 < i ==> t[i] !in {first, pos}) {
      assert t[i] in t;
    }
    ChainKept(h, h', t, {last, bf}, {first, pos});
    LinkedConcat(h', t, [t[0]]);
    assert h'[last].next == pos && h'[pos].prev == bf && bf != last;
  }

  /** Constructing a node, by default or by copy, leaves every existing ring as it was. */
  lemma ConstructKeepsRings(h: Heap, r: seq<Id>)
    requires Ring(h, r)
    ensures Ring(Construct(h), r)
  {
    RingBounds(h, r);
    var h' := Construct(h);
    forall i | 0 <= i < |r| ensures r[i] < |h| && r[i] < |h'| && h'[r[i]] == h[r[i]] {
      assert h'[..|h|] == h;
    }
    RingFrame(h, h', r);
  }

  /**
   * Copy assignment to a member of ring `[dst] + u` from any other node:
   * the destination ends unlinked, the rest of its ring closes up, every
   * ring disjoint from it (the source's among them) is kept, and nothing
   * outside the destination's ring changes.
   */
  lemma CopyAssignRings(h: Heap, dst: Id, src: Id, u: seq<Id>, r: seq<Id>)
    requires Closed(h) && src < |h| && dst != src
    requires Ring(h, [dst] + u) && Ring(h, r) && Disjoint(r, [dst] + u)
    ensures dst < |h|
    ensures var h' := CopyAssign(h, dst, src);
            && h'[dst] == Node(dst, dst)
            && Ring(h', r)
            && (u != [] ==> Ring(h', u))
            && SameOutside(h, h', [dst] + u)
  {
    UnlinkOtherRing(h, dst, u, r);
    UnlinkSameOutside(h, dst, u);
  }
}
