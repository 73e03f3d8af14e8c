/** The unit tests of src/production_linked_list.rs that exercise the
    list, its iterators and its cursor, replayed against the model, and
    concrete scenarios of the three cursor defects next to the corrected
    operations. */
module ProductionScenarios {
  import opened Core
  import opened ProductionList
  import opened ProductionIter
  import opened ProductionCursor

  /** `test_basic_front` (src/production_linked_list.rs:603-641): what
      `pop_front` returns and what `len` reports, in order. */
  method BasicFront() returns (popped: seq<Option<int>>, lens: seq<nat>)
    ensures popped == [None, Some(10), None, Some(30), Some(40), Some(20), Some(10), None, None]
    ensures lens == [0, 0, 1, 0, 0, 1, 2, 3, 2, 3, 2, 1, 0, 0, 0]
  {
    var list := new LinkedList<int>();
    var p1, l1 := BasicFrontOneItem(list);
    var p2, l2 := BasicFrontFill(list);
    var p3, l3 := BasicFrontDrain(list);
    popped, lens := p1 + p2 + p3, l1 + l2 + l3;
  }

  /** src/production_linked_list.rs:608-618: an empty and a one-item list. */
  method BasicFrontOneItem(list: LinkedList<int>) returns (popped: seq<Option<int>>, lens: seq<nat>)
    requires list.Valid() && list.nodes == []
    modifies list
    ensures list.Valid() && list.nodes == []
    ensures popped == [None, Some(10), None] && lens == [0, 0, 1, 0, 0]
  {
    var a := list.Len();
    var p := list.PopFront();
    var b := list.Len();
    list.PushFront(10);
    var c := list.Len();
    var q := list.PopFront();
    var d := list.Len();
    var r := list.PopFront();
    var e := list.Len();
    popped, lens := [p, q, r], [a, b, c, d, e];
  }

  /** src/production_linked_list.rs:621-630: push 10, 20, 30 at the front,
      pop the 30 and push 40. */
  method BasicFrontFill(list: LinkedList<int>) returns (popped: seq<Option<int>>, lens: seq<nat>)
    requires list.Valid() && list.nodes == []
    modifies list
    ensures list.Valid() && fresh(list.nodes) && list.Elems() == [40, 20, 10]
    ensures popped == [Some(30)] && lens == [1, 2, 3, 2, 3]
  {
    var l1 := PushFrontThrice(list, 10, 20, 30);
    var p, l2 := PopAndPushFront(list, 40);
    popped, lens := [p], l1 + l2;
  }

  /** `push_front` of `x`, `y` and `z`, in that order, onto an empty list,
      with the length after each push. */
  method PushFrontThrice(list: LinkedList<int>, x: int, y: int, z: int) returns (lens: seq<nat>)
    requires list.Valid() && list.nodes == []
    modifies list
    ensures list.Valid() && fresh(list.nodes) && list.Elems() == [z, y, x]
    ensures lens == [1, 2, 3]
  {
    list.PushFront(x);
    var a := list.Len();
    list.PushFront(y);
    var b := list.Len();
    list.PushFront(z);
    var c := list.Len();
    lens := [a, b, c];
  }

  /** src/production_linked_list.rs:627-630: pop the front element of
      `[30, 20, 10]` and push `x` in its place. */
  method PopAndPushFront(list: LinkedList<int>, x: int) returns (popped: Option<int>, lens: seq<nat>)
    requires list.Valid() && list.Elems() == [30, 20, 10]
    modifies list, list.nodes
    ensures list.Valid() && list.Elems() == [x, 20, 10]
    ensures list.nodes[1..] == old(list.nodes)[1..] && fresh(list.nodes[0])
    ensures popped == Some(30) && lens == [2, 3]
  {
    assert LinkedAt(list.nodes, 0);
    popped := list.PopFront();
    var a := list.Len();
    list.PushFront(x);
    var b := list.Len();
    lens := [a, b];
  }

  /** src/production_linked_list.rs:631-640: the pops come out newest
      first, then None for good. */
  method BasicFrontDrain(list: LinkedList<int>) returns (popped: seq<Option<int>>, lens: seq<nat>)
    requires list.Valid() && list.Elems() == [40, 20, 10]
    modifies list, list.nodes
    ensures popped == [Some(40), Some(20), Some(10), None, None]
    ensures lens == [2, 1, 0, 0, 0]
  {
    assert LinkedAt(list.nodes, 0);
    var a := list.PopFront();
    var l1 := list.Len();
    assert LinkedAt(list.nodes, 0);
    var b := list.PopFront();
    var l2 := list.Len();
    var c := list.PopFront();
    var l3 := list.Len();
    var d := list.PopFront();
    var l4 := list.Len();
    var e := list.PopFront();
    var l5 := list.Len();
    popped, lens := [a, b, c, d, e], [l1, l2, l3, l4, l5];
  }

  /** The first half of `test_basic` (src/production_linked_list.rs:645-662):
      pops of an empty list, a push and pop at the front, and the queue
      order of `push_back` followed by `pop_front`. */
  method BasicPops() returns (popped: seq<Option<int>>, lens: seq<nat>)
    ensures popped == [None, None, None, Some(1), Some(2), Some(3), None, Some(1)]
    ensures lens == [2, 0]
  {
    var m := new LinkedList<int>();
    var p1 := BasicEmptyAndOne(m);
    var p2, l := BasicTwoAtBack(m);
    var p3 := BasicFourAtBack(m);
    popped, lens := p1 + p2 + [p3], l;
  }

  /** src/production_linked_list.rs:646-650: both pops of an empty list are
      None, and a pushed front element comes straight back. */
  method BasicEmptyAndOne(m: LinkedList<int>) returns (popped: seq<Option<int>>)
    requires m.Valid() && m.nodes == []
    modifies m
    ensures m.Valid() && m.nodes == []
    ensures popped == [None, None, None, Some(1)]
  {
    var a := m.PopFront();
    var b := m.PopBack();
    var c := m.PopFront();
    m.PushFront(1);
    var d := m.PopFront();
    popped := [a, b, c, d];
  }

  /** src/production_linked_list.rs:651-657: `push_back` of 2 and 3, then
      `pop_front` gives them in that order. */
  method BasicTwoAtBack(m: LinkedList<int>) returns (popped: seq<Option<int>>, lens: seq<nat>)
    requires m.Valid() && m.nodes == []
    modifies m
    ensures m.Valid() && m.nodes == []
    ensures popped == [Some(2), Some(3), None] && lens == [2, 0]
  {
    m.PushBack(2);
    m.PushBack(3);
    var a := m.Len();
    assert LinkedAt(m.nodes, 0);
    var p := m.PopFront();
    var q := m.PopFront();
    var b := m.Len();
    var r := m.PopFront();
    popped, lens := [p, q, r], [a, b];
  }

  /** src/production_linked_list.rs:658-662: after `push_back` of 1, 3, 5
      and 7 the front is the 1. */
  method BasicFourAtBack(m: LinkedList<int>) returns (popped: Option<int>)
    requires m.Valid() && m.nodes == []
    modifies m
    ensures popped == Some(1)
  {
    m.PushBack(1);
    m.PushBack(3);
    m.PushBack(5);
    m.PushBack(7);
    assert LinkedAt(m.nodes, 0);
    popped := m.PopFront();
  }

  /** The second half of `test_basic` (src/production_linked_list.rs:667-680):
      overwriting the first and the last element through `front_mut` and
      `back_mut` is what later pops see. */
  method FrontMutBackMut() returns (peeked: seq<Option<int>>, popped: seq<Option<int>>)
    ensures peeked == [Some(3), Some(2)]
    ensures popped == [Some(0), Some(1)]
  {
    var n := new LinkedList<int>();
    PushFrontTwice(n, 2, 3);
    var a := n.Front();
    var b := n.Back();
    OverwriteEnds(n, 0, 1);
    assert LinkedAt(n.nodes, 0);
    var c := n.PopFront();
    var d := n.PopFront();
    peeked, popped := [a, b], [c, d];
  }

  /** src/production_linked_list.rs:667-678: `*front_mut() = x` and
      `*back_mut() = y` on a two-element list write through to its two
      nodes. */
  method OverwriteEnds(n: LinkedList<int>, x: int, y: int)
    requires n.Valid() && |n.nodes| == 2
    modifies n.nodes
    ensures n.Valid() && n.nodes == old(n.nodes) && n.Elems() == [x, y]
  {
    var front := n.FrontMut();
    front.value.elem := x;
    var back := n.BackMut();
    back.value.elem := y;
    assert DistinctAt(n.nodes, 0, 1);
    ElemsOfIs(n.nodes, [x, y]);
  }

  /** `push_front` of `x` and then `y` onto an empty list. */
  method PushFrontTwice(list: LinkedList<int>, x: int, y: int)
    requires list.Valid() && list.nodes == []
    modifies list
    ensures list.Valid() && fresh(list.nodes) && list.Elems() == [y, x]
  {
    list.PushFront(x);
    list.PushFront(y);
  }

  /** `test_iterator` (src/production_linked_list.rs:684-697): enumerating
      `iter()` over `[0, 1, 2, 3, 4, 5, 6]` pairs every position with the
      element equal to it; then an iterator over an empty list and over
      `[4]`. */
  method IteratorEnumerate() returns (items: seq<int>, empty: Option<int>,
                                      hints: seq<(nat, Option<nat>)>, single: seq<Option<int>>)
    ensures |items| == 7 && forall i :: 0 <= i < |items| ==> items[i] == i
    ensures empty == None
    ensures hints == [(1, Some(1)), (0, Some(0))] && single == [Some(4), None]
  {
    var m := LinkedList.FromIter([0, 1, 2, 3, 4, 5, 6]);
    items := CollectIter(m);
    empty, hints, single := IterOfOne(false);
  }

  /** `test_rev_iter` (src/production_linked_list.rs:718-731): enumerating
      `iter().rev()` over `[0, 1, 2, 3, 4, 5, 6]` pairs position `i` with
      `6 - i`; then the reversed iterator over an empty list and over
      `[4]`. */
  method RevIter() returns (items: seq<int>, empty: Option<int>,
                            hints: seq<(nat, Option<nat>)>, single: seq<Option<int>>)
    ensures |items| == 7 && forall i :: 0 <= i < |items| ==> items[i] == 6 - i
    ensures empty == None
    ensures hints == [(1, Some(1)), (0, Some(0))] && single == [Some(4), None]
  {
    var m := LinkedList.FromIter([0, 1, 2, 3, 4, 5, 6]);
    items := CollectIterRev(m);
    empty, hints, single := IterOfOne(true);
  }

  /** The `for elt in m.iter()` loop: `next` yields exactly the list's
      elements, front to back, and then None. */
  method CollectIter(m: LinkedList<int>) returns (items: seq<int>)
    requires m.Valid()
    ensures items == m.Elems()
  {
    var it := new Iter(m);
    items := [];
    while true
      invariant it.Valid() && it.list == m && m.Valid()
      invariant it.lo == |items| && it.lo + it.len == |m.Elems()|
      invariant items == m.Elems()[..it.lo]
      decreases it.len
    {
      var r := it.Next();
      if r.None? {
        break;
      }
      items := items + [r.value];
    }
  }

  /** The `for elt in m.iter().rev()` loop: `next_back` yields exactly the
      list's elements, back to front, and then None. */
  method CollectIterRev(m: LinkedList<int>) returns (items: seq<int>)
    requires m.Valid()
    ensures |items| == |m.Elems()|
    ensures forall i :: 0 <= i < |items| ==> items[i] == m.Elems()[|items| - 1 - i]
  {
    var it := new Iter(m);
    items := [];
    while true
      invariant it.Valid() && it.list == m && m.Valid() && it.lo == 0
      invariant it.len + |items| == |m.Elems()|
      invariant forall i :: 0 <= i < |items| ==> items[i] == m.Elems()[|m.Elems()| - 1 - i]
      decreases it.len
    {
      var r := it.NextBack();
      if r.None? {
        break;
      }
      items := items + [r.value];
    }
  }

  /** The second half of `test_iterator` and of `test_rev_iter`, identical
      but for the end the iterator is read from: nothing from an empty
      list, then over `[4]` the hint counts down from one and the 4 comes
      out once. */
  method IterOfOne(fromBack: bool) returns (empty: Option<int>, hints: seq<(nat, Option<nat>)>, items: seq<Option<int>>)
    ensures empty == None
    ensures hints == [(1, Some(1)), (0, Some(0))] && items == [Some(4), None]
  {
    var n := new LinkedList<int>();
    var e := new Iter(n);
    if fromBack { empty := e.NextBack(); } else { empty := e.Next(); }
    n.PushFront(4);
    hints, items := IterOverOne(n, fromBack);
  }

  /** The hints and items of one iterator over `[4]`, read from the front
      or from the back. */
  method IterOverOne(n: LinkedList<int>, fromBack: bool) returns (hints: seq<(nat, Option<nat>)>, items: seq<Option<int>>)
    requires n.Valid() && n.Elems() == [4]
    ensures hints == [(1, Some(1)), (0, Some(0))] && items == [Some(4), None]
  {
    var it := new Iter(n);
    var h0 := it.SizeHint();
    var a, b;
    if fromBack { a := it.NextBack(); } else { a := it.Next(); }
    var h1 := it.SizeHint();
    if fromBack { b := it.NextBack(); } else { b := it.Next(); }
    hints, items := [h0, h1], [a, b];
  }

  /** `test_iterator_double_end` (src/production_linked_list.rs:699-715):
      the size hints and the items of `next` and `next_back` interleaved
      over `[6, 5, 4]`; every element comes out once, then None at both
      ends. */
  method IteratorDoubleEnd() returns (hints: seq<(nat, Option<nat>)>, items: seq<Option<int>>)
    ensures hints == [(3, Some(3)), (2, Some(2)), (1, Some(1))]
    ensures items == [None, Some(6), Some(4), Some(5), None, None]
  {
    var n := new LinkedList<int>();
    var a := FirstOfEmpty(n);
    var _ := PushFrontThrice(n, 4, 5, 6);
    hints, items := IterBothEnds(n);
    items := [a] + items;
  }

  /** src/production_linked_list.rs:706-714: `next` and `next_back` of one
      iterator over `[6, 5, 4]`, interleaved. */
  method IterBothEnds(n: LinkedList<int>) returns (hints: seq<(nat, Option<nat>)>, items: seq<Option<int>>)
    requires n.Valid() && n.Elems() == [6, 5, 4]
    ensures hints == [(3, Some(3)), (2, Some(2)), (1, Some(1))]
    ensures items == [Some(6), Some(4), Some(5), None, None]
  {
    var it := new Iter(n);
    var first;
    hints, first := OneFromEachEnd(it);
    var rest := DrainLast(it);
    items := first + rest;
  }

  /** src/production_linked_list.rs:706-711: over `[6, 5, 4]`, `next` yields
      the 6 and `next_back` the 4, and the size hint counts down from 3. */
  method OneFromEachEnd(it: Iter<int>) returns (hints: seq<(nat, Option<nat>)>, items: seq<Option<int>>)
    requires it.Valid() && it.list.Valid() && it.list.Elems() == [6, 5, 4]
    requires it.lo == 0 && it.len == 3
    modifies it
    ensures it.Valid() && it.lo == 1 && it.len == 1
    ensures hints == [(3, Some(3)), (2, Some(2)), (1, Some(1))]
    ensures items == [Some(6), Some(4)]
  {
    var h0 := it.SizeHint();
    var b := it.Next();
    var h1 := it.SizeHint();
    var c := it.NextBack();
    var h2 := it.SizeHint();
    hints, items := [h0, h1, h2], [b, c];
  }

  /** `iter().next()` on an empty list is None. */
  method FirstOfEmpty(n: LinkedList<int>) returns (a: Option<int>)
    requires n.Valid() && n.nodes == []
    ensures a == None
  {
    var it := new Iter(n);
    a := it.Next();
  }

  /** src/production_linked_list.rs:712-714: with one element `x` left, a
      `next_back` yields it and then both ends are exhausted. */
  method DrainLast(it: Iter<int>) returns (items: seq<Option<int>>)
    requires it.Valid() && it.list.Valid() && it.len == 1
    modifies it
    ensures items == [Some(it.list.Elems()[old(it.lo)]), None, None]
  {
    var d := it.NextBack();
    var e := it.NextBack();
    var f := it.Next();
    items := [d, e, f];
  }

  /** `move_prev` as written on `[1, 2, 3]`: from the ghost onto the 3
      (index 2, right), then onto the 2, where the index reads 3 although
      the 2 is at position 1. */
  method MovePrevTwice() returns (index: Option<nat>, elem: int)
    ensures elem == 2 && index == Some(3)
  {
    var list := LinkedList.FromIter([1, 2, 3]);
    var cursor := new CursorMut(list);
    cursor.MovePrev();
    cursor.MovePrev();
    var here := cursor.Current();
    ElemsOfAt(list.nodes, 1);
    index, elem := cursor.Index(), here.value.elem;
  }

  /** The same two steps with the corrected `move_prev`: on the 2 the index
      is 1. */
  method MovePrevTwiceCorrected() returns (index: Option<nat>, elem: int)
    ensures elem == 2 && index == Some(1)
  {
    var list := LinkedList.FromIter([1, 2, 3]);
    var cursor := new CursorMut(list);
    cursor.MovePrevCorrected();
    cursor.MovePrevCorrected();
    var here := cursor.Current();
    ElemsOfAt(list.nodes, 1);
    index, elem := cursor.Index(), here.value.elem;
  }

  /** `split_before` as written on the front node of `[1, 2]`: the list
      returned claims length 0 yet has a `front` (the cursor's own node)
      and no `back`. */
  method SplitBeforeAtFront() returns (outLen: nat, outHasFront: bool, outHasBack: bool)
    ensures outLen == 0 && outHasFront && !outHasBack
  {
    var list := LinkedList.FromIter([1, 2]);
    var cursor := new CursorMut(list);
    cursor.MoveNext();
    var out := cursor.SplitBefore();
    outLen, outHasFront, outHasBack := out.len, out.front != null, out.back != null;
  }

  /** The corrected `split_before` on the front node of `[1, 2]`: an empty
      list comes back and the cursor's list keeps both elements. */
  method SplitBeforeAtFrontCorrected() returns (outLen: nat, outHasFront: bool, outHasBack: bool)
    ensures outLen == 0 && !outHasFront && !outHasBack
  {
    var list := LinkedList.FromIter([1, 2]);
    var cursor := new CursorMut(list);
    cursor.MoveNext();
    var out := cursor.SplitBeforeCorrected();
    outLen, outHasFront, outHasBack := out.len, out.front != null, out.back != null;
  }

  /** `splice_before([2])` as written on the front node of `[1]`: it
      panics. */
  method SpliceBeforeAtFront() returns (r: Outcome<()>)
    ensures r == Panicked
  {
    var list := LinkedList.FromIter([1]);
    var input := LinkedList.FromIter([2]);
    var cursor := new CursorMut(list);
    cursor.MoveNext();
    r := cursor.SpliceBefore(input);
  }

  /** `splice_before([2])` as written at the ghost of `[1]`: it panics. */
  method SpliceBeforeAtGhost() returns (r: Outcome<()>)
    ensures r == Panicked
  {
    var list := LinkedList.FromIter([1]);
    var input := LinkedList.FromIter([2]);
    var cursor := new CursorMut(list);
    r := cursor.SpliceBefore(input);
  }

  /** The corrected `splice_before([2])` on the front node of `[1]`: the 2
      goes in front. */
  method SpliceBeforeAtFrontCorrected() returns (list: LinkedList<int>)
    ensures list.Valid() && list.Elems() == [2, 1]
  {
    list := LinkedList.FromIter([1]);
    var input := LinkedList.FromIter([2]);
    var cursor := new CursorMut(list);
    cursor.MoveNext();
    cursor.SpliceBeforeCorrected(input);
  }

  /** The corrected `splice_before([2])` at the ghost of `[1]`: the 2 goes
      at the back. */
  method SpliceBeforeAtGhostCorrected() returns (list: LinkedList<int>)
    ensures list.Valid() && list.Elems() == [1, 2]
  {
    list := LinkedList.FromIter([1]);
    var input := LinkedList.FromIter([2]);
    var cursor := new CursorMut(list);
    cursor.SpliceBeforeCorrected(input);
  }

  /** `split_before` as written on `[0, 1, 2, 3, 4, 5, 6]` with the cursor
      on the 3 (index 3): `[0, 1, 2]` comes back, and the cursor's list
      keeps `[3, 4, 5, 6]` with the cursor on its front at index 0. */
  method SplitAtThree() returns (cursor: CursorMut<int>, out: LinkedList<int>)
    ensures fresh(cursor) && fresh(cursor.list) && fresh(cursor.list.nodes) && fresh(out) && fresh(out.nodes)
    ensures cursor.Valid() && cursor.InSync() && cursor.list.Valid() && cursor.pos == 0
    ensures out.Valid() && out != cursor.list && Disjoint(out.nodes, cursor.list.nodes)
    ensures out.Elems() == [0, 1, 2] && cursor.list.Elems() == [3, 4, 5, 6]
  {
    cursor := CursorAtThree();
    DisjointHalves(cursor.list.nodes, 3);
    ghost var e := cursor.list.Elems();
    out := cursor.SplitBefore();
    assert e[..3] == [0, 1, 2] && e[3..] == [3, 4, 5, 6];
  }

  /** A cursor over `[0, 1, 2, 3, 4, 5, 6]` moved from the ghost onto the
      3, at index 3. */
  method CursorAtThree() returns (cursor: CursorMut<int>)
    ensures fresh(cursor) && fresh(cursor.list) && fresh(cursor.list.nodes)
    ensures cursor.Valid() && cursor.InSync() && cursor.list.Valid() && cursor.pos == 3
    ensures cursor.list.Elems() == [0, 1, 2, 3, 4, 5, 6]
  {
    var list := LinkedList.FromIter([0, 1, 2, 3, 4, 5, 6]);
    cursor := new CursorMut(list);
    cursor.MoveNext();
    cursor.MoveNext();
    cursor.MoveNext();
    cursor.MoveNext();
  }

  /** Splicing the split-off `[0, 1, 2]` back in front of the cursor, as
      written: the cursor is at index 0, so the round trip panics. */
  method SplitThenSpliceAtThree() returns (r: Outcome<()>)
    ensures r == Panicked
  {
    var cursor, out := SplitAtThree();
    r := cursor.SpliceBefore(out);
  }

  /** The same round trip with the corrected operations gives back
      `[0, 1, 2, 3, 4, 5, 6]` with the cursor on the 3 at index 3. */
  method SplitThenSpliceAtThreeCorrected() returns (list: LinkedList<int>, index: Option<nat>)
    ensures list.Valid() && list.Elems() == [0, 1, 2, 3, 4, 5, 6]
    ensures index == Some(3)
  {
    var cursor := CursorAtThree();
    list := cursor.list;
    SplitThenSpliceBack(cursor);
    index := cursor.Index();
  }
}
