/**
 * The link record of the intrusive list: `details::list_element_base`.
 *
 * A node is two links, `prev` and `next`. Node identities stand for node
 * addresses: they index an arena `Heap` holding the two links of every
 * node, so that each pointer write of the C++ code becomes one update of
 * the arena, performed in the order the C++ code performs it. Constructing
 * a node appends it to the arena.
 */
module Nodes {

  /** The identity (address) of one list_element_base: its arena index. */
  type Id = nat

  /** The two links of one node. */
  datatype Node = Node(prev: Id, next: Id)

  /** Every node in existence; node `x` is `h[x]`. */
  type Heap = seq<Node>

  /** No dangling link: every link of every node names an existing node. */
  ghost predicate Closed(h: Heap) {
    forall x | 0 <= x < |h| :: h[x].prev < |h| && h[x].next < |h|
  }

  /**
   * The central invariant: `next` and `prev` are mutual inverses, that is
   * `y` follows `x` exactly when `x` precedes `y`.
   */
  ghost predicate Valid(h: Heap) {
    && Closed(h)
    && forall x, y | 0 <= x < |h| && 0 <= y < |h| :: h[x].next == y <==> h[y].prev == x
  }

  /** The invariant read pointwise: `next[prev[x]] == x` and `prev[next[x]] == x`. */
  lemma ValidInverse(h: Heap, x: Id)
    requires Valid(h) && x < |h|
    ensures h[h[x].next].prev == x && h[h[x].prev].next == x
  {
  }

  /** A node is linked exactly when its `prev` link is not a self-loop. */
  predicate IsLinked(h: Heap, x: Id)
    requires x < |h|
  {
    h[x].prev != x
  }

  /** Under the invariant either link tells whether a node is linked. */
  lemma LinkedIffNextNotSelf(h: Heap, x: Id)
    requires Valid(h) && x < |h|
    ensures IsLinked(h, x) <==> h[x].next != x
    ensures !IsLinked(h, x) <==> h[x] == Node(x, x)
  {
  }

  /** Default construction: a new node, self-looped, at a fresh identity. */
  function Construct(h: Heap): (h': Heap)
    ensures |h'| == |h| + 1 && h'[..|h|] == h
    ensures !IsLinked(h', |h|) && h'[|h|].next == |h|
    ensures Closed(h) ==> Closed(h')
    ensures Valid(h) ==> Valid(h')
  {
    h + [Node(|h|, |h|)]
  }

  /**
   * Copy construction: the copy never inherits the source's membership.
   * It starts self-looped, and the source is untouched.
   */
  function CopyConstruct(h: Heap, src: Id): (h': Heap)
    requires src < |h|
    ensures |h'| == |h| + 1 && h'[..|h|] == h
    ensures !IsLinked(h', |h|) && h'[|h|].next == |h|
    ensures h'[src] == h[src]
  {
    Construct(h)
  }

  /** `link(a, b)`: make `b` the successor of `a`; no other link changes. */
  function Link(h: Heap, a: Id, b: Id): (h': Heap)
    requires a < |h| && b < |h|
    ensures |h'| == |h|
    ensures h'[a].next == b && h'[b].prev == a
    ensures a != b ==> h'[a].prev == h[a].prev && h'[b].next == h[b].next
    ensures forall y | 0 <= y < |h| && y != a && y != b :: h'[y] == h[y]
    ensures Closed(h) ==> Closed(h')
  {
    var h1 := h[a := h[a].(next := b)];
    h1[b := h1[b].(prev := a)]
  }

  /**
   * `unlink()`: the node's former neighbours are joined to each other and
   * the node becomes a self-loop. Only the node and its two neighbours
   * change, and the mutual-inverse invariant is kept.
   */
  function Unlink(h: Heap, x: Id): (h': Heap)
    requires x < |h| && h[x].prev < |h| && h[x].next < |h|
    ensures |h'| == |h|
    ensures h'[x] == Node(x, x)
    ensures forall y | 0 <= y < |h| && y != x ::
              h'[y] == Node(if y == h[x].next then h[x].prev else h[y].prev,
                            if y == h[x].prev then h[x].next else h[y].next)
    ensures h[x] == Node(x, x) ==> h' == h
    ensures Closed(h) ==> Closed(h')
    ensures Valid(h) ==> Valid(h')
  {
    var h1 := Link(h, h[x].prev, h[x].next);
    h1[x := Node(x, x)]
  }

  /** Unlinking twice is unlinking once. */
  lemma UnlinkIdempotent(h: Heap, x: Id)
    requires Closed(h) && x < |h|
    ensures Unlink(Unlink(h, x), x) == Unlink(h, x)
  {
  }

  /**
   * Copy assignment: self-assignment changes nothing; otherwise the
   * destination leaves its ring. The source keeps its links unless it was
   * one of the destination's neighbours (whose links the unlinking joins).
   */
  function CopyAssign(h: Heap, dst: Id, src: Id): (h': Heap)
    requires Closed(h) && dst < |h| && src < |h|
    ensures |h'| == |h| && Closed(h')
    ensures dst == src ==> h' == h
    ensures dst != src ==> h'[dst] == Node(dst, dst)
    ensures dst != src && src != h[dst].prev && src != h[dst].next ==> h'[src] == h[src]
    ensures Valid(h) ==> Valid(h')
  {
    if dst == src then h else Unlink(h, dst)
  }

  /**
   * Move assignment. The destination first leaves its own ring; if the
   * source is then still linked, the destination takes the source's two
   * links, those neighbours are pointed at the destination, and the source
   * becomes a self-loop. Self-move changes nothing.
   */
  function MoveAssign(h: Heap, dst: Id, src: Id): (h': Heap)
    requires Closed(h) && dst < |h| && src < |h|
    ensures |h'| == |h| && Closed(h')
    ensures dst == src ==> h' == h
    ensures dst != src && !IsLinked(Unlink(h, dst), src) ==> h' == Unlink(h, dst)
    ensures Valid(h) && dst != src ==> h'[src] == Node(src, src)
    ensures Valid(h) && dst != src && IsLinked(Unlink(h, dst), src) ==>
              && h'[dst] == Unlink(h, dst)[src]
              && h'[h'[dst].prev].next == dst
              && h'[h'[dst].next].prev == dst
  {
    if dst == src then h
    else
      var h1 := Unlink(h, dst);
      if IsLinked(h1, src) then
        var p := h1[src].prev;
        var n := h1[src].next;
        // the exchange first points the source's prev at the source itself,
        // then the destination takes the old value
        var h2 := h1[src := h1[src].(prev := src)];
        var h3 := h2[dst := h2[dst].(prev := p)];
        // likewise for next
        var h4 := h3[src := h3[src].(next := src)];
        var h5 := h4[dst := h4[dst].(next := n)];
        // both neighbours now point back at the destination; each write
        // reads the destination's link afresh, as the C++ code does
        var h6 := h5[h5[dst].prev := h5[h5[dst].prev].(next := dst)];
        h6[h6[dst].next := h6[h6[dst].next].(prev := dst)]
      else
        h1
  }

  /**
   * What move assignment does to each node when the destination is already
   * a self-loop and the source is linked: the destination takes the
   * source's links, the source becomes a self-loop, the two neighbours
   * point at the destination, and every other node is unchanged.
   */
  lemma MoveAssignPointwise(h: Heap, dst: Id, src: Id)
    requires Closed(h) && dst < |h| && src < |h| && dst != src
    requires h[dst] == Node(dst, dst) && IsLinked(h, src)
    requires h[src].prev != dst && h[src].next != dst && h[src].next != src
    ensures var h', p, n := MoveAssign(h, dst, src), h[src].prev, h[src].next;
            && h'[dst] == Node(p, n)
            && h'[src] == Node(src, src)
            && forall y | 0 <= y < |h| && y != dst && y != src ::
                 h'[y] == Node(if y == n then dst else h[y].prev,
                               if y == p then dst else h[y].next)
  {
    assert Unlink(h, dst) == h;
  }

  /** Move assignment begins by unlinking the destination from its own ring. */
  lemma MoveAssignUnlinksFirst(h: Heap, dst: Id, src: Id)
    requires Closed(h) && dst < |h| && src < |h| && dst != src
    ensures MoveAssign(h, dst, src) == MoveAssign(Unlink(h, dst), dst, src)
  {
    var h1 := Unlink(h, dst);
    assert Unlink(h1, dst) == h1;
  }

  /** Move assignment keeps the mutual-inverse invariant. */
  lemma MoveAssignKeepsValid(h: Heap, dst: Id, src: Id)
    requires Valid(h) && dst < |h| && src < |h|
    ensures Valid(MoveAssign(h, dst, src))
  {
    var h1 := Unlink(h, dst);
    if dst != src && IsLinked(h1, src) {
      var p, n := h1[src].prev, h1[src].next;
      assert h1[p].next == src && h1[n].prev == src;
      assert h1[dst] == Node(dst, dst);
      MoveAssignUnlinksFirst(h, dst, src);
      MoveAssignPointwise(h1, dst, src);
      var h' := MoveAssign(h, dst, src);
      forall a, b | 0 <= a < |h'| && 0 <= b < |h'|
        ensures h'[a].next == b <==> h'[b].prev == a
      {
        assert h1[a].next == b <==> h1[b].prev == a;
        assert h1[a].next == src <==> h1[src].prev == a;
        assert h1[dst].next == b <==> h1[b].prev == dst;
        assert h1[a].next == dst <==> h1[dst].prev == a;
        assert h1[src].next == b <==> h1[b].prev == src;
      }
    }
  }

  /** A move from an unlinked source leaves both nodes unlinked. */
  lemma MoveFromUnlinked(h: Heap, dst: Id, src: Id)
    requires Valid(h) && dst < |h| && src < |h| && dst != src
    requires !IsLinked(h, src)
    ensures !IsLinked(MoveAssign(h, dst, src), dst)
    ensures !IsLinked(MoveAssign(h, dst, src), src)
  {
  }

  /**
   * Move construction: default construction followed by move assignment.
   * The new node occupies the source's exact ring position.
   */
  function MoveConstruct(h: Heap, src: Id): (h': Heap)
    requires Closed(h) && src < |h|
    ensures |h'| == |h| + 1 && Closed(h')
    ensures Valid(h) ==> h'[src] == Node(src, src)
    ensures Valid(h) && IsLinked(h, src) ==>
              && h'[|h|] == h[src]
              && h'[h[src].prev].next == |h|
              && h'[h[src].next].prev == |h|
    ensures Valid(h) && !IsLinked(h, src) ==> h'[|h|] == Node(|h|, |h|)
  {
    MoveAssign(Construct(h), |h|, src)
  }

  /** Move construction keeps the mutual-inverse invariant. */
  lemma MoveConstructKeepsValid(h: Heap, src: Id)
    requires Valid(h) && src < |h|
    ensures Valid(MoveConstruct(h, src))
  {
    MoveAssignKeepsValid(Construct(h), |h|, src);
  }
}
