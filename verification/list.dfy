/**
 * The container `list<T, Tag>` and its iterators.
 *
 * A list owns one sentinel node (`dummy`); its members are the nodes met by
 * following `next` from the sentinel until the sentinel comes round again.
 * Every operation is built from the node primitives of module `Nodes`. An
 * iterator is the identity of the node it stands at; `end()` stands at the
 * sentinel. One arena models one tag channel.
 */
module Lists {
  import opened Nodes
  import opened Rings

  /** The list whose sentinel is `d` has members `s`, in order. */
  ghost predicate IsList(h: Heap, d: Id, s: seq<Id>) {
    Ring(h, [d] + s)
  }

  /** Position `k` of the list: member `s[k]`, or the sentinel (end) at `k == |s|`. */
  function At(d: Id, s: seq<Id>, k: nat): Id
    requires k <= |s|
  {
    if k < |s| then s[k] else d
  }

  /** `basic_iterator`: a cursor holding the node it stands at. */
  datatype Iterator = Iterator(current: Id)

  /** The arena after an operation together with the iterator the operation returns. */
  datatype Placed = Placed(heap: Heap, at: Iterator)

  /** `list()`: a fresh sentinel, self-looped. */
  function NewList(h: Heap): (h': Heap)
    ensures |h'| == |h| + 1 && h'[..|h|] == h
    ensures IsList(h', |h|, [])
  {
    var h' := Construct(h);
    RingOfOne(h', |h|);
    assert [|h|] + [] == [|h|];
    h'
  }

  /** `begin()`: the node after the sentinel. */
  function Begin(h: Heap, d: Id): Iterator
    requires d < |h|
  {
    Iterator(h[d].next)
  }

  /** `end()`: the sentinel itself. */
  function End(d: Id): Iterator {
    Iterator(d)
  }

  /** `operator++`: follow `next`. */
  function Increment(h: Heap, it: Iterator): Iterator
    requires it.current < |h|
  {
    Iterator(h[it.current].next)
  }

  /** `operator--`: follow `prev`. */
  function Decrement(h: Heap, it: Iterator): Iterator
    requires it.current < |h|
  {
    Iterator(h[it.current].prev)
  }

  /** `empty()`: the sentinel is not linked. */
  predicate Empty(h: Heap, d: Id)
    requires d < |h|
  {
    !IsLinked(h, d)
  }

  /** `front()`: the first member; the list must not be empty. */
  function Front(h: Heap, d: Id, ghost s: seq<Id>): (x: Id)
    requires d < |h| && IsList(h, d, s) && s != []
    ensures x == s[0]
  {
    RingParts(h, [d], s);
    Begin(h, d).current
  }

  /** `back()`: the last member, one step back from `end()`; the list must not be empty. */
  function Back(h: Heap, d: Id, ghost s: seq<Id>): (x: Id)
    requires d < |h| && IsList(h, d, s) && s != []
    ensures x == s[|s| - 1]
  {
    RingParts(h, [d], s);
    Decrement(h, End(d)).current
  }

  /** The two links `link(pos.prev, v)` and `link(v, pos)` that put `v` just before `pos`. */
  function LinkBefore(h: Heap, pos: Id, v: Id): (h': Heap)
    requires Closed(h) && pos < |h| && v < |h|
    ensures |h'| == |h| && Closed(h')
    ensures h'[v].next == pos && h'[pos].prev == v
    ensures v != pos && h[pos].prev != v ==> h'[h[pos].prev].next == v && h'[v].prev == h[pos].prev
    ensures forall y | 0 <= y < |h| && y != v && y != pos && y != h[pos].prev :: h'[y] == h[y]
    ensures v != pos && v != h[pos].prev && h[pos].prev != pos ==>
              h'[pos].next == h[pos].next && h'[h[pos].prev].prev == h[h[pos].prev].prev
  {
    Link(Link(h, h[pos].prev, v), v, pos)
  }

  /**
   * `insert(pos, v)`: if `pos` already stands at `v` nothing changes and
   * `pos` is returned; otherwise `v` leaves whatever ring it is in and is
   * linked in just before `pos`, and an iterator at `v` is returned.
   */
  function Insert(h: Heap, pos: Iterator, v: Id): (r: Placed)
    requires Closed(h) && pos.current < |h| && v < |h|
    ensures |r.heap| == |h| && Closed(r.heap)
    ensures pos.current == v ==> r == Placed(h, pos)
    ensures pos.current != v ==>
              && r.at == Iterator(v)
              && r.heap[v].next == pos.current
              && r.heap[pos.current].prev == v
  {
    if pos.current == v then Placed(h, pos)
    else
      var h1 := Unlink(h, v);
      Placed(LinkBefore(h1, pos.current, v), Iterator(v))
  }

  /**
   * `erase(pos)`: the node at `pos` leaves its ring and becomes a
   * self-loop; the iterator returned stands at its former successor.
   */
  function Erase(h: Heap, pos: Iterator): (r: Placed)
    requires Closed(h) && pos.current < |h|
    ensures |r.heap| == |h| && Closed(r.heap)
    ensures !IsLinked(r.heap, pos.current) && r.heap[pos.current].next == pos.current
    ensures r.at == Increment(h, pos)
  {
    var next := h[pos.current].next;
    Placed(Unlink(h, pos.current), Iterator(next))
  }

  /** `push_front(v)`: insert at `begin()`. */
  function PushFront(h: Heap, d: Id, v: Id): (h': Heap)
    requires Closed(h) && d < |h| && v < |h|
    ensures |h'| == |h| && Closed(h')
  {
    Insert(h, Begin(h, d), v).heap
  }

  /** `push_back(v)`: insert at `end()`. */
  function PushBack(h: Heap, d: Id, v: Id): (h': Heap)
    requires Closed(h) && d < |h| && v < |h|
    ensures |h'| == |h| && Closed(h')
  {
    Insert(h, End(d), v).heap
  }

  /** `pop_front()`: erase `begin()`; the list must not be empty. */
  function PopFront(h: Heap, d: Id): (h': Heap)
    requires Closed(h) && d < |h| && !Empty(h, d)
    ensures |h'| == |h| && Closed(h')
  {
    Erase(h, Begin(h, d)).heap
  }

  /** `pop_back()`: erase the node before `end()`; the list must not be empty. */
  function PopBack(h: Heap, d: Id): (h': Heap)
    requires Closed(h) && d < |h| && !Empty(h, d)
    ensures |h'| == |h| && Closed(h')
  {
    Erase(h, Decrement(h, End(d))).heap
  }

  /** `clear()`: unlink the sentinel only; the members are not visited. */
  function Clear(h: Heap, d: Id): (h': Heap)
    requires Closed(h) && d < |h|
    ensures |h'| == |h| && Closed(h')
    ensures Empty(h', d)
  {
    Unlink(h, d)
  }

  /**
   * `splice(pos, other, first, last_exclusive)`: three links move the
   * nodes from `first` up to (not including) `last_exclusive` to just before
   * `pos`. The `other` list is never consulted and is not modelled. An empty
   * range changes nothing.
   */
  function Splice(h: Heap, pos: Iterator, first: Iterator, lastExclusive: Iterator): (h': Heap)
    requires Closed(h) && pos.current < |h| && first.current < |h| && lastExclusive.current < |h|
    ensures |h'| == |h| && Closed(h')
    ensures first == lastExclusive ==> h' == h
  {
    if first == lastExclusive then h
    else
      var last := Decrement(h, lastExclusive).current;
      var beforePos := h[pos.current].prev;
      var beforeFirst := h[first.current].prev;
      var afterLast := h[last].next;
      var h1 := Link(h, beforePos, first.current);
      var h2 := Link(h1, last, pos.current);
      Link(h2, beforeFirst, afterLast)
  }

  /** Insertion keeps the mutual-inverse invariant. */
  lemma InsertKeepsValid(h: Heap, pos: Iterator, v: Id)
    requires Valid(h) && pos.current < |h| && v < |h|
    ensures Valid(Insert(h, pos, v).heap)
  {
    if pos.current != v {
      var h1 := Unlink(h, v);
      var p := pos.current;
      var bp := h1[p].prev;
      assert h1[bp].next == p;
      assert bp != v;
      var h' := LinkBefore(h1, p, v);
      forall a, b | 0 <= a < |h'| && 0 <= b < |h'|
        ensures h'[a].next == b <==> h'[b].prev == a
      {
        assert h1[a].next == b <==> h1[b].prev == a;
        assert h1[a].next == p <==> h1[p].prev == a;
        assert h1[bp].next == b <==> h1[b].prev == bp;
      }
    }
  }

  /**
   * What a non-empty splice does to each node, provided the three nodes
   * whose `next` it rewrites are distinct and so are the three whose `prev`
   * it rewrites.
   */
  lemma SplicePointwise(h: Heap, pos: Id, first: Id, lastExclusive: Id)
    requires Closed(h) && pos < |h| && first < |h| && lastExclusive < |h| && first != lastExclusive
    requires var last := h[lastExclusive].prev;
             var bp, bf, al := h[pos].prev, h[first].prev, h[last].next;
             && bp != last && bp != bf && last != bf
             && first != pos && first != al && pos != al
    ensures var h' := Splice(h, Iterator(pos), Iterator(first), Iterator(lastExclusive));
            var last := h[lastExclusive].prev;
            var bp, bf, al := h[pos].prev, h[first].prev, h[last].next;
            forall y | 0 <= y < |h| ::
              && h'[y].next == (if y == bp then first else if y == last then pos else if y == bf then al else h[y].next)
              && h'[y].prev == (if y == first then bp else if y == pos then last else if y == al then bf else h[y].prev)
  {
  }

  /**
   * A splice keeps the mutual-inverse invariant when it is asked to
   * move a non-empty range to a position that is neither the range's first
   * node nor its end: `pos != last_exclusive` is the precondition the code
   * relies on without checking.
   */
  lemma SpliceKeepsValid(h: Heap, pos: Id, first: Id, lastExclusive: Id)
    requires Valid(h) && pos < |h| && first < |h| && lastExclusive < |h|
    requires first != lastExclusive && pos != first && pos != lastExclusive
    ensures Valid(Splice(h, Iterator(pos), Iterator(first), Iterator(lastExclusive)))
  {
    var last := h[lastExclusive].prev;
    var bp, bf, al := h[pos].prev, h[first].prev, h[last].next;
    assert h[last].next == lastExclusive;
    assert h[bp].next == pos && h[bf].next == first;
    SplicePointwise(h, pos, first, lastExclusive);
    var h' := Splice(h, Iterator(pos), Iterator(first), Iterator(lastExclusive));
    forall a, b | 0 <= a < |h'| && 0 <= b < |h'|
      ensures h'[a].next == b <==> h'[b].prev == a
    {
      assert h[a].next == b <==> h[b].prev == a;
      assert h[a].next == first <==> h[first].prev == a;
      assert h[a].next == pos <==> h[pos].prev == a;
      assert h[a].next == al <==> h[al].prev == a;
      assert h[bp].next == b <==> h[b].prev == bp;
      assert h[last].next == b <==> h[b].prev == last;
      assert h[bf].next == b <==> h[b].prev == bf;
    }
  }
}
