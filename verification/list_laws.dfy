/**
 * The list operations in terms of member sequences: for every operation of
 * `list`, the members of each list involved afterwards, stated for every
 * list and every position, together with which nodes may change.
 */
module ListLaws {
  import opened Nodes
  import opened Rings
  import opened Lists
  import opened ListRings
  import opened Iteration

  /** The ring of a list read from position `k`: positions `k .. |s|`, then the rest. */
  lemma RotateToPosition(h: Heap, d: Id, s: seq<Id>, k: nat)
    requires IsList(h, d, s) && k <= |s|
    ensures Ring(h, s[k..] + ([d] + s[..k]))
    ensures (s[k..] + ([d] + s[..k]))[0] == At(d, s, k)
    ensures forall y :: y in s[k..] + ([d] + s[..k]) <==> y in [d] + s
  {
    assert [d] + s == ([d] + s[..k]) + s[k..];
    RingRotate(h, [d] + s[..k], s[k..]);
    forall y ensures y in s[k..] + ([d] + s[..k]) <==> y in [d] + s {
      assert y in s <==> y in s[..k] || y in s[k..];
    }
  }

  /** A ring read from anywhere is the list of its sentinel `d`, once rotated back to `d`. */
  lemma RotateToSentinel(h: Heap, d: Id, a: seq<Id>, b: seq<Id>)
    requires Ring(h, a + ([d] + b))
    ensures IsList(h, d, b + a)
  {
    RingRotate(h, a, [d] + b);
    assert [d] + b + a == [d] + (b + a);
  }

  /**
   * `insert(pos, v)` at position `k` of list `d`, with `v` taken from a
   * ring `[v] + u` outside the list (`u == []` when `v` is unlinked):
   * `v` becomes member `k`, what remains of `v`'s old ring closes up, and
   * only nodes of the two rings change.
   */
  lemma InsertIntoList(h: Heap, d: Id, s: seq<Id>, k: nat, v: Id, u: seq<Id>)
    requires Closed(h) && IsList(h, d, s) && k <= |s|
    requires Ring(h, [v] + u) && Disjoint([d] + s, [v] + u)
    ensures At(d, s, k) < |h| && v < |h|
    ensures var p := Insert(h, Iterator(At(d, s, k)), v);
            && p.at == Iterator(v)
            && IsList(p.heap, d, s[..k] + [v] + s[k..])
            && (u != [] ==> Ring(p.heap, u))
            && SameOutside(h, p.heap, [d] + s + [v] + u)
  {
    var r := s[k..] + ([d] + s[..k]);
    RotateToPosition(h, d, s, k);
    assert Disjoint(r, [v] + u) by {
      forall y | y in r ensures y !in [v] + u {
        assert y in [d] + s;
      }
    }
    InsertFromOtherRing(h, r, v, u);
    var p := Insert(h, Iterator(At(d, s, k)), v);
    assert r + [v] == s[k..] + ([d] + (s[..k] + [v]));
    RotateToSentinel(p.heap, d, s[k..], s[..k] + [v]);
    assert s[..k] + [v] + s[k..] == (s[..k] + [v]) + s[k..];
    forall y | 0 <= y < |h| && y !in [d] + s + [v] + u ensures p.heap[y] == h[y] {
      assert y !in r + [v] + u;
    }
  }

  /** `push_back(v)`: `v` becomes the last member. */
  lemma PushBackAppends(h: Heap, d: Id, s: seq<Id>, v: Id, u: seq<Id>)
    requires Closed(h) && IsList(h, d, s)
    requires Ring(h, [v] + u) && Disjoint([d] + s, [v] + u)
    ensures d < |h| && v < |h|
    ensures IsList(PushBack(h, d, v), d, s + [v])
    ensures u != [] ==> Ring(PushBack(h, d, v), u)
    ensures SameOutside(h, PushBack(h, d, v), [d] + s + [v] + u)
  {
    InsertIntoList(h, d, s, |s|, v, u);
    assert s[..|s|] + [v] + s[|s|..] == s + [v];
  }

  /** `push_front(v)`: `v` becomes the first member. */
  lemma PushFrontPrepends(h: Heap, d: Id, s: seq<Id>, v: Id, u: seq<Id>)
    requires Closed(h) && IsList(h, d, s)
    requires Ring(h, [v] + u) && Disjoint([d] + s, [v] + u)
    ensures d < |h| && v < |h|
    ensures IsList(PushFront(h, d, v), d, [v] + s)
    ensures u != [] ==> Ring(PushFront(h, d, v), u)
    ensures SameOutside(h, PushFront(h, d, v), [d] + s + [v] + u)
  {
    Steps(h, d, s, 0);
    InsertIntoList(h, d, s, 0, v, u);
    assert s[..0] + [v] + s[0..] == [v] + s;
  }

  /** `insert` moving member `j` forward, to before position `k > j`. */
  lemma InsertWithinListForward(h: Heap, d: Id, s: seq<Id>, j: nat, k: nat)
    requires Closed(h) && IsList(h, d, s) && j < k <= |s|
    ensures At(d, s, k) < |h| && s[j] < |h|
    ensures var p := Insert(h, Iterator(At(d, s, k)), s[j]);
            && p.at == Iterator(s[j])
            && IsList(p.heap, d, s[..j] + s[j + 1..k] + [s[j]] + s[k..])
            && SameOutside(h, p.heap, [d] + s)
  {
    var v := s[j];
    RotateToPosition(h, d, s, j);
    var a, b := s[j + 1..k], s[k..] + ([d] + s[..j]);
    assert s[j..] + ([d] + s[..j]) == [v] + a + b by {
      assert s[j..] == [v] + a + s[k..];
    }
    assert b[0] == At(d, s, k);
    InsertWithinRing(h, v, a, b);
    var p := Insert(h, Iterator(b[0]), v);
    assert a + [v] + b == (a + [v] + s[k..]) + ([d] + s[..j]);
    RotateToSentinel(p.heap, d, a + [v] + s[k..], s[..j]);
    assert s[..j] + (a + [v] + s[k..]) == s[..j] + s[j + 1..k] + [v] + s[k..];
  }

  /** `insert` moving member `j` back, to before position `k < j`. */
  lemma InsertWithinListBackward(h: Heap, d: Id, s: seq<Id>, j: nat, k: nat)
    requires Closed(h) && IsList(h, d, s) && k < j < |s|
    ensures At(d, s, k) < |h| && s[j] < |h|
    ensures var p := Insert(h, Iterator(At(d, s, k)), s[j]);
            && p.at == Iterator(s[j])
            && IsList(p.heap, d, s[..k] + [s[j]] + s[k..j] + s[j + 1..])
            && SameOutside(h, p.heap, [d] + s)
  {
    var v := s[j];
    RotateToPosition(h, d, s, j);
    var a, b := s[j + 1..] + ([d] + s[..k]), s[k..j];
    assert s[j..] + ([d] + s[..j]) == [v] + a + b by {
      assert s[j..] == [v] + s[j + 1..];
      assert s[..j] == s[..k] + b;
    }
    assert b[0] == At(d, s, k);
    InsertWithinRing(h, v, a, b);
    var p := Insert(h, Iterator(b[0]), v);
    assert a + [v] + b == s[j + 1..] + ([d] + (s[..k] + [v] + b));
    RotateToSentinel(p.heap, d, s[j + 1..], s[..k] + [v] + b);
  }

  /**
   * `insert(pos, v)` where `v` is already member `j` of the same list and
   * `pos` is position `k != j`: `v` moves to just before position `k`, the
   * other members keep their order, and only the list's nodes change.
   */
  lemma InsertWithinList(h: Heap, d: Id, s: seq<Id>, j: nat, k: nat)
    requires Closed(h) && IsList(h, d, s) && j < |s| && k <= |s| && k != j
    ensures At(d, s, k) < |h| && s[j] < |h|
    ensures var p := Insert(h, Iterator(At(d, s, k)), s[j]);
            && p.at == Iterator(s[j])
            && IsList(p.heap, d, if k < j then s[..k] + [s[j]] + s[k..j] + s[j + 1..]
                                 else s[..j] + s[j + 1..k] + [s[j]] + s[k..])
            && SameOutside(h, p.heap, [d] + s)
  {
    if k > j {
      InsertWithinListForward(h, d, s, j, k);
    } else {
      InsertWithinListBackward(h, d, s, j, k);
    }
  }

  /**
   * `insert(pos, v)` where `v` is member `j` of another list `d2`: `v`
   * leaves `d2`, whose other members keep their order, and becomes member
   * `k` of `d`.
   */
  lemma InsertBetweenLists(h: Heap, d: Id, s: seq<Id>, k: nat, d2: Id, s2: seq<Id>, j: nat)
    requires Closed(h) && IsList(h, d, s) && IsList(h, d2, s2) && Disjoint([d] + s, [d2] + s2)
    requires k <= |s| && j < |s2|
    ensures At(d, s, k) < |h| && s2[j] < |h|
    ensures var p := Insert(h, Iterator(At(d, s, k)), s2[j]);
            && p.at == Iterator(s2[j])
            && IsList(p.heap, d, s[..k] + [s2[j]] + s[k..])
            && IsList(p.heap, d2, s2[..j] + s2[j + 1..])
            && SameOutside(h, p.heap, [d] + s + [d2] + s2)
  {
    var v := s2[j];
    var u := s2[j + 1..] + ([d2] + s2[..j]);
    RotateToPosition(h, d2, s2, j);
    assert s2[j..] + ([d2] + s2[..j]) == [v] + u;
    assert Disjoint([d] + s, [v] + u) by {
      forall y | y in [d] + s ensures y !in [v] + u {
        assert y !in [d2] + s2;
      }
    }
    InsertIntoList(h, d, s, k, v, u);
    var p := Insert(h, Iterator(At(d, s, k)), v);
    RotateToSentinel(p.heap, d2, s2[j + 1..], s2[..j]);
    forall y | 0 <= y < |h| && y !in [d] + s + [d2] + s2 ensures p.heap[y] == h[y] {
      assert y !in [d2] + s2;
      assert y !in [d] + s + [v] + u;
    }
  }

  /**
   * `erase(pos)` at member `k`: the member leaves the list, the others keep
   * their order, the erased node ends unlinked, and the iterator returned
   * stands at the position the next member now occupies.
   */
  lemma EraseMember(h: Heap, d: Id, s: seq<Id>, k: nat)
    requires Closed(h) && IsList(h, d, s) && k < |s|
    ensures s[k] < |h|
    ensures var p := Erase(h, Iterator(s[k]));
            && IsList(p.heap, d, s[..k] + s[k + 1..])
            && !IsLinked(p.heap, s[k])
            && p.at == Iterator(At(d, s[..k] + s[k + 1..], k))
            && SameOutside(h, p.heap, [d] + s)
  {
    Steps(h, d, s, k);
    RotateToPosition(h, d, s, k);
    var t := s[k + 1..] + ([d] + s[..k]);
    assert s[k..] + ([d] + s[..k]) == [s[k]] + t;
    RingUnlinkHead(h, s[k], t);
    UnlinkSameOutside(h, s[k], t);
    var p := Erase(h, Iterator(s[k]));
    RotateToSentinel(p.heap, d, s[k + 1..], s[..k]);
    var s' := s[..k] + s[k + 1..];
    assert At(d, s', k) == At(d, s, k + 1) by {
      if k + 1 < |s| {
        assert s'[k] == s[k + 1];
      }
    }
  }

  /** `pop_front()` on a non-empty list drops its first member. */
  lemma PopFrontDropsFirst(h: Heap, d: Id, s: seq<Id>)
    requires Closed(h) && IsList(h, d, s) && s != []
    ensures d < |h| && s[0] < |h| && !Empty(h, d)
    ensures IsList(PopFront(h, d), d, s[1..])
    ensures !IsLinked(PopFront(h, d), s[0])
    ensures SameOutside(h, PopFront(h, d), [d] + s)
  {
    EmptyIffNoMembers(h, d, s);
    Steps(h, d, s, 0);
    EraseMember(h, d, s, 0);
    assert s[..0] + s[1..] == s[1..];
  }

  /** `pop_back()` on a non-empty list drops its last member. */
  lemma PopBackDropsLast(h: Heap, d: Id, s: seq<Id>)
    requires Closed(h) && IsList(h, d, s) && s != []
    ensures d < |h| && s[|s| - 1] < |h| && !Empty(h, d)
    ensures IsList(PopBack(h, d), d, s[..|s| - 1])
    ensures !IsLinked(PopBack(h, d), s[|s| - 1])
    ensures SameOutside(h, PopBack(h, d), [d] + s)
  {
    EmptyIffNoMembers(h, d, s);
    Steps(h, d, s, 0);
    EraseMember(h, d, s, |s| - 1);
    assert s[..|s| - 1] + s[|s|..] == s[..|s| - 1];
  }

  /**
   * `clear()`: the list becomes empty and its former members stay linked to
   * one another as a ring without a sentinel. A member therefore still
   * reports `is_linked()` exactly when there were at least two of them: a
   * lone member is left a self-loop. Nothing outside the list changes.
   */
  lemma ClearDetaches(h: Heap, d: Id, s: seq<Id>)
    requires Closed(h) && IsList(h, d, s)
    ensures d < |h|
    ensures IsList(Clear(h, d), d, [])
    ensures s != [] ==> Ring(Clear(h, d), s)
    ensures forall i | 0 <= i < |s| :: s[i] < |h| && (IsLinked(Clear(h, d), s[i]) <==> |s| >= 2)
    ensures SameOutside(h, Clear(h, d), [d] + s)
  {
    Steps(h, d, s, 0);
    ListWalk(h, d, s);
    UnlinkSameOutside(h, d, s);
    var h' := Clear(h, d);
    RingOfOne(h', d);
    assert [d] + [] == [d];
    if s != [] {
      RingUnlinkHead(h, d, s);
      var w := s + [s[0]];
      forall i | 0 <= i < |s| ensures IsLinked(h', s[i]) <==> |s| >= 2 {
        if |s| == 1 {
          RingOfOne(h', s[0]);
        } else if i == 0 {
          RingBounds(h', s);
        } else {
          assert w[i - 1] == s[i - 1] && w[i] == s[i];
        }
      }
    }
  }

  /**
   * `splice(pos, other, first, last_exclusive)` between two lists: the
   * members `a .. b-1` of list `d2` move, in order, to before position `k`
   * of list `d`; `d2` keeps its other members in order.
   */
  lemma SpliceBetweenLists(h: Heap, d: Id, s: seq<Id>, k: nat, d2: Id, s2: seq<Id>, a: nat, b: nat)
    requires Closed(h) && IsList(h, d, s) && IsList(h, d2, s2) && Disjoint([d] + s, [d2] + s2)
    requires k <= |s| && a < b <= |s2|
    ensures At(d, s, k) < |h| && s2[a] < |h| && At(d2, s2, b) < |h|
    ensures var h' := Splice(h, Iterator(At(d, s, k)), Iterator(s2[a]), Iterator(At(d2, s2, b)));
            && IsList(h', d, s[..k] + s2[a..b] + s[k..])
            && IsList(h', d2, s2[..a] + s2[b..])
            && SameOutside(h, h', [d] + s + [d2] + s2)
  {
    var r := s[k..] + ([d] + s[..k]);
    RotateToPosition(h, d, s, k);
    RotateToPosition(h, d2, s2, a);
    var g, q := s2[a..b], s2[b..] + ([d2] + s2[..a]);
    assert s2[a..] + ([d2] + s2[..a]) == g + q by {
      assert s2[a..] == g + s2[b..];
    }
    assert q[0] == At(d2, s2, b);
    assert g[0] == s2[a];
    assert Disjoint(r, g + q) by {
      forall y | y in r ensures y !in g + q {
        assert y in [d] + s;
        assert y !in [d2] + s2;
      }
    }
    SpliceAcross(h, r, g, q);
    var h' := Splice(h, Iterator(r[0]), Iterator(g[0]), Iterator(q[0]));
    assert r + g == s[k..] + ([d] + (s[..k] + g));
    RotateToSentinel(h', d, s[k..], s[..k] + g);
    RotateToSentinel(h', d2, s2[b..], s2[..a]);
    forall y | 0 <= y < |h| && y !in [d] + s + [d2] + s2 ensures h'[y] == h[y] {
      assert y !in [d] + s && y !in [d2] + s2;
      assert y !in r + g + q;
    }
  }

  /** `splice` within one list, moving members `a .. b-1` back to before position `k < a`. */
  lemma SpliceWithinListBackward(h: Heap, d: Id, s: seq<Id>, k: nat, a: nat, b: nat)
    requires Closed(h) && IsList(h, d, s) && k < a < b <= |s|
    ensures At(d, s, k) < |h| && s[a] < |h| && At(d, s, b) < |h|
    ensures var h' := Splice(h, Iterator(At(d, s, k)), Iterator(s[a]), Iterator(At(d, s, b)));
            && IsList(h', d, s[..k] + s[a..b] + s[k..a] + s[b..])
            && SameOutside(h, h', [d] + s)
  {
    RotateToPosition(h, d, s, k);
    var x, g, t := s[k..a], s[a..b], s[b..] + ([d] + s[..k]);
    assert s[k..] + ([d] + s[..k]) == x + g + t by {
      assert s[k..] == x + g + s[b..];
    }
    assert x[0] == At(d, s, k) && g[0] == s[a] && t[0] == At(d, s, b);
    SpliceWithin(h, x, g, t);
    var h' := Splice(h, Iterator(x[0]), Iterator(g[0]), Iterator(t[0]));
    assert x + t + g == (x + s[b..]) + ([d] + (s[..k] + g));
    RotateToSentinel(h', d, x + s[b..], s[..k] + g);
    assert s[..k] + g + (x + s[b..]) == s[..k] + s[a..b] + s[k..a] + s[b..];
  }

  /** `splice` within one list, moving members `a .. b-1` forward to before position `k > b`. */
  lemma SpliceWithinListForward(h: Heap, d: Id, s: seq<Id>, k: nat, a: nat, b: nat)
    requires Closed(h) && IsList(h, d, s) && a < b < k <= |s|
    ensures At(d, s, k) < |h| && s[a] < |h| && At(d, s, b) < |h|
    ensures var h' := Splice(h, Iterator(At(d, s, k)), Iterator(s[a]), Iterator(At(d, s, b)));
            && IsList(h', d, s[..a] + s[b..k] + s[a..b] + s[k..])
            && SameOutside(h, h', [d] + s)
  {
    RotateToPosition(h, d, s, k);
    var x, g, t := s[k..] + ([d] + s[..a]), s[a..b], s[b..k];
    assert s[k..] + ([d] + s[..k]) == x + g + t by {
      assert s[..k] == s[..a] + g + t;
    }
    assert x[0] == At(d, s, k) && g[0] == s[a] && t[0] == At(d, s, b);
    SpliceWithin(h, x, g, t);
    var h' := Splice(h, Iterator(x[0]), Iterator(g[0]), Iterator(t[0]));
    assert x + t + g == s[k..] + ([d] + (s[..a] + t + g));
    RotateToSentinel(h', d, s[k..], s[..a] + t + g);
  }

  /**
   * `splice` within one list with `pos` outside the closed range
   * `[first, last_exclusive]`: the members `a .. b-1` move, in order, to
   * before position `k`, and the other members keep their order.
   */
  lemma SpliceWithinList(h: Heap, d: Id, s: seq<Id>, k: nat, a: nat, b: nat)
    requires Closed(h) && IsList(h, d, s) && a < b <= |s| && k <= |s| && (k < a || b < k)
    ensures At(d, s, k) < |h| && s[a] < |h| && At(d, s, b) < |h|
    ensures var h' := Splice(h, Iterator(At(d, s, k)), Iterator(s[a]), Iterator(At(d, s, b)));
            && IsList(h', d, if k < a then s[..k] + s[a..b] + s[k..a] + s[b..]
                             else s[..a] + s[b..k] + s[a..b] + s[k..])
            && SameOutside(h, h', [d] + s)
  {
    if k < a {
      SpliceWithinListBackward(h, d, s, k, a, b);
    } else {
      SpliceWithinListForward(h, d, s, k, a, b);
    }
  }

  /**
   * `splice` with `pos == last_exclusive`, as the code behaves: instead of
   * leaving the list as it is, the members `a .. b-1` are dropped from it,
   * the first of them is left pointing back at the last, and the arena no
   * longer satisfies the mutual-inverse invariant. This is why `pos` must
   * lie outside the closed range `[first, last_exclusive]`.
   */
  lemma SpliceOntoRangeEndDropsRange(h: Heap, d: Id, s: seq<Id>, a: nat, b: nat)
    requires Closed(h) && IsList(h, d, s) && a < b <= |s|
    ensures s[a] < |h| && At(d, s, b) < |h|
    ensures var h' := Splice(h, Iterator(At(d, s, b)), Iterator(s[a]), Iterator(At(d, s, b)));
            && IsList(h', d, s[..a] + s[b..])
            && h'[s[a]].prev == s[b - 1]
            && !Valid(h')
  {
    RotateToPosition(h, d, s, a);
    var g, t := s[a..b], s[b..] + ([d] + s[..a]);
    assert s[a..] + ([d] + s[..a]) == g + t by {
      assert s[a..] == g + s[b..];
    }
    assert g[0] == s[a] && t[0] == At(d, s, b) && g[|g| - 1] == s[b - 1];
    SpliceOntoRangeEnd(h, g, t);
    var h' := Splice(h, Iterator(t[0]), Iterator(g[0]), Iterator(t[0]));
    RotateToSentinel(h', d, s[b..], s[..a]);
  }

  /**
   * `list(list&&)`: the new list's sentinel takes the old sentinel's place,
   * so the new list has the old members and the old list is left empty.
   */
  lemma ListMoveConstruct(h: Heap, d: Id, s: seq<Id>)
    requires Closed(h) && IsList(h, d, s)
    ensures d < |h|
    ensures var h' := MoveConstruct(h, d);
            && IsList(h', |h|, s)
            && IsList(h', d, [])
            && forall y | 0 <= y < |h| && y !in [d] + s :: h'[y] == h[y]
  {
    ListWalk(h, d, s);
    RingBounds(h, [d] + s);
    var h0 := Construct(h);
    ConstructKeepsRings(h, [d] + s);
    RingOfOne(h0, |h|);
    assert [|h|] + [] == [|h|];
    assert Disjoint([d] + s, [|h|] + []);
    var h' := MoveConstruct(h, d);
    assert [d] + [] == [d];
    if s != [] {
      RingMoveAssign(h0, |h|, d, s, []);
      MoveAssignSameOutside(h0, |h|, d, s, []);
      RingOfOne(h', d);
      forall y | 0 <= y < |h| && y !in [d] + s ensures h'[y] == h[y] {
        assert y !in [d] + s + [|h|] + [];
        assert h0[y] == h[y];
      }
    } else {
      RingOfOne(h, d);
      assert h' == h0;
    }
  }

  /**
   * `operator=(list&&)` between two different lists: the destination takes
   * the source's members, the source is left empty, and the destination's
   * former members stay linked to one another as a ring without a sentinel,
   * as after `clear()`.
   */
  lemma ListMoveAssign(h: Heap, d: Id, s: seq<Id>, d2: Id, s2: seq<Id>)
    requires Closed(h) && IsList(h, d, s) && IsList(h, d2, s2) && Disjoint([d] + s, [d2] + s2)
    ensures d < |h| && d2 < |h|
    ensures var h' := MoveAssign(h, d, d2);
            && IsList(h', d, s2)
            && IsList(h', d2, [])
            && (s != [] ==> Ring(h', s))
            && SameOutside(h, h', [d] + s + [d2] + s2)
  {
    ListWalk(h, d, s);
    ListWalk(h, d2, s2);
    assert d in [d] + s && d2 in [d2] + s2;
    var h' := MoveAssign(h, d, d2);
    assert [d2] + [] == [d2] && [d] + [] == [d];
    if s2 != [] {
      DisjointSymmetric([d] + s, [d2] + s2);
      RingMoveAssign(h, d, d2, s2, s);
      MoveAssignSameOutside(h, d, d2, s2, s);
      RingOfOne(h', d2);
      forall y | 0 <= y < |h| && y !in [d] + s + [d2] + s2 ensures h'[y] == h[y] {
        assert y !in [d2] + s2 + [d] + s;
      }
    } else {
      UnlinkOtherRing(h, d, s, [d2]);
      UnlinkSameOutside(h, d, s);
      var h1 := Unlink(h, d);
      RingOfOne(h1, d2);
      RingOfOne(h1, d);
      assert h' == h1;
      forall y | 0 <= y < |h| && y !in [d] + s + [d2] + s2 ensures h'[y] == h[y] {
        assert y !in [d] + s;
      }
    }
  }

  /** `push_back` of an unlinked node that is not in the list appends it and touches nothing else. */
  lemma PushBackUnlinked(h: Heap, d: Id, s: seq<Id>, v: Id)
    requires Closed(h) && IsList(h, d, s) && v < |h| && h[v] == Node(v, v) && v !in [d] + s
    ensures d < |h|
    ensures IsList(PushBack(h, d, v), d, s + [v])
    ensures SameOutside(h, PushBack(h, d, v), [d] + s + [v])
  {
    RingOfOne(h, v);
    assert [v] + [] == [v];
    PushBackAppends(h, d, s, v, []);
    assert [d] + s + [v] + [] == [d] + s + [v];
  }

  /**
   * One `push_back` of the first of the distinct unlinked nodes `vs`: it is
   * appended, and the remaining nodes are still unlinked and outside the list.
   */
  lemma PushBackFirst(h: Heap, d: Id, s: seq<Id>, vs: seq<Id>)
    requires Closed(h) && IsList(h, d, s) && vs != []
    requires Distinct(vs) && Disjoint(vs, [d] + s)
    requires forall i | 0 <= i < |vs| :: vs[i] < |h| && h[vs[i]] == Node(vs[i], vs[i])
    ensures d < |h|
    ensures var h1, rest := PushBack(h, d, vs[0]), vs[1..];
            && IsList(h1, d, s + [vs[0]])
            && Distinct(rest) && Disjoint(rest, [d] + (s + [vs[0]]))
            && forall i | 0 <= i < |rest| :: rest[i] < |h1| && h1[rest[i]] == Node(rest[i], rest[i])
  {
    var v, rest := vs[0], vs[1..];
    assert v in vs;
    assert v !in [d] + s;
    PushBackUnlinked(h, d, s, v);
    var h1 := PushBack(h, d, v);
    assert forall i | 0 <= i < |rest| :: rest[i] == vs[i + 1] && rest[i] != v;
    assert Disjoint(rest, [d] + (s + [v])) by {
      forall y | y in rest ensures y !in [d] + (s + [v]) {
        var j :| 0 <= j < |rest| && rest[j] == y;
        assert y in vs && y != v;
      }
    }
    forall i | 0 <= i < |rest| ensures rest[i] < |h1| && h1[rest[i]] == Node(rest[i], rest[i]) {
      assert rest[i] in rest;
      assert rest[i] !in [d] + s + [v];
    }
  }

  /**
   * `push_back` of each of the distinct unlinked nodes `vs` in turn: they
   * are appended in the order pushed.
   */
  method PushBackEach(h: Heap, d: Id, ghost s: seq<Id>, vs: seq<Id>) returns (h': Heap)
    requires Closed(h) && IsList(h, d, s)
    requires Distinct(vs) && Disjoint(vs, [d] + s)
    requires forall i | 0 <= i < |vs| :: vs[i] < |h| && h[vs[i]] == Node(vs[i], vs[i])
    ensures |h'| == |h| && Closed(h')
    ensures IsList(h', d, s + vs)
  {
    assert d < |h| by {
      RingBounds(h, [d] + s);
      assert d == ([d] + s)[0];
    }
    h' := h;
    ghost var done: seq<Id> := [];
    var rest: seq<Id> := vs;
    assert s + done == s;
    while rest != []
      invariant |h'| == |h| && Closed(h') && done + rest == vs
      invariant IsList(h', d, s + done)
      invariant Distinct(rest) && Disjoint(rest, [d] + (s + done))
      invariant forall i | 0 <= i < |rest| :: rest[i] < |h'| && h'[rest[i]] == Node(rest[i], rest[i])
      decreases |rest|
    {
      PushBackFirst(h', d, s + done, rest);
      assert (s + done) + [rest[0]] == s + (done + [rest[0]]);
      assert (done + [rest[0]]) + rest[1..] == done + rest;
      h' := PushBack(h', d, rest[0]);
      done := done + [rest[0]];
      rest := rest[1..];
    }
    assert done == vs;
  }

  /**
   * `push_back(a); push_back(b); push_back(c)` on an empty list: a traversal
   * yields `[a, b, c]`, `size()` is 3, `front()` is `a` and `back()` is `c`.
   */
  method PushBackThree(h: Heap, d: Id, a: Id, b: Id, c: Id)
    returns (h': Heap, members: seq<Id>, size: nat, front: Id, back: Id)
    requires Closed(h) && IsList(h, d, [])
    requires a < |h| && b < |h| && c < |h|
    requires h[a] == Node(a, a) && h[b] == Node(b, b) && h[c] == Node(c, c)
    requires d != a && d != b && d != c && a != b && a != c && b != c
    ensures IsList(h', d, [a, b, c])
    ensures members == [a, b, c] && size == 3 && front == a && back == c
  {
    h' := PushBackEach(h, d, [], [a, b, c]);
    assert [] + [a, b, c] == [a, b, c];
    members := Members(h', d, [a, b, c]);
    size := Size(h', d, [a, b, c]);
    Steps(h', d, [a, b, c], 0);
    front := Front(h', d, [a, b, c]);
    back := Back(h', d, [a, b, c]);
  }

  /** Erasing the middle one of three members leaves the other two, in order, and the erased node unlinked. */
  lemma EraseMiddleOfThree(h: Heap, d: Id, a: Id, b: Id, c: Id)
    requires Closed(h) && IsList(h, d, [a, b, c])
    ensures b < |h|
    ensures IsList(Erase(h, Iterator(b)).heap, d, [a, c])
    ensures !IsLinked(Erase(h, Iterator(b)).heap, b)
  {
    assert [a, b, c][1] == b;
    EraseMember(h, d, [a, b, c], 1);
    assert [a, b, c][..1] + [a, b, c][2..] == [a, c];
  }

  /**
   * Splicing the whole of a non-empty list `d` to the end of an empty list
   * `d2` moves every member, in order, and leaves `d` empty.
   */
  lemma SpliceWholeList(h: Heap, d: Id, s: seq<Id>, d2: Id)
    requires Closed(h) && IsList(h, d, s) && s != [] && IsList(h, d2, []) && Disjoint([d2], [d] + s)
    ensures d < |h| && d2 < |h|
    ensures var h' := Splice(h, End(d2), Begin(h, d), End(d));
            && IsList(h', d2, s)
            && IsList(h', d, [])
  {
    Steps(h, d, s, 0);
    Steps(h, d2, [], 0);
    assert [d2] + [] == [d2];
    SpliceBetweenLists(h, d2, [], 0, d, s, 0, |s|);
    assert [][..0] + s[0..|s|] + [][0..] == s;
    assert s[..0] + s[|s|..] == [];
  }
}
