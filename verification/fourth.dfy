/** The deque `List<T>` of src/fourth.rs: `head` and `tail` handles over
    nodes shared through `Rc<RefCell<Node<T>>>`, each node linking to its
    `next` and `prev` neighbour. There is no cached length.

    The nodes are the heap nodes of the production list: a node's `next`
    is its `back` link and its `prev` is its `front` link. Reference
    counts and borrow flags are not modelled. One count does decide an
    outcome: `Rc::try_unwrap(..).ok().unwrap()` in `pop_back`. There, the
    node still counts as shared exactly when a link of the model still
    refers to it.

    `pop_front` as written sets `tail` to the new head whenever a node
    remains (line 68). Afterwards `tail` may be any node of the chain.
    `Shaped()` is what every operation keeps: a chain starting at `head`,
    and `tail` is the chain's node at the ghost position `tailAt`.
    `Valid()` adds that `tail` is the last node, which is what the
    operations are meant to keep. */
module Fourth {
  import opened Core
  import opened ProductionList
  import opened ProductionCursor

  /** No link of the chain `ns[a..b]`, cut out of the distinct nodes `ns`,
      refers to the node at a position `k` outside the cut. */
  lemma LinksAvoid<T>(ns: seq<Node<T>>, a: int, b: int, k: int)
    requires Distinct(ns) && 0 <= a <= b <= |ns| && Chained(ns[a..b])
    requires 0 <= k < |ns| && !(a <= k < b)
    ensures forall i :: 0 <= i < b - a ==> ns[a..b][i].front != ns[k] && ns[a..b][i].back != ns[k]
  {
    var s := ns[a..b];
    forall i | 0 <= i < b - a ensures s[i].front != ns[k] && s[i].back != ns[k] {
      assert LinkedAt(s, i - 1) && LinkedAt(s, i);
      assert DistinctAt(ns, a + i - 1, k) && DistinctAt(ns, k, a + i - 1);
      assert DistinctAt(ns, a + i + 1, k) && DistinctAt(ns, k, a + i + 1);
    }
  }

  class List<T> {
    var head: Node?<T>
    var tail: Node?<T>
    /** The nodes from `head` along the `next` links. */
    ghost var nodes: seq<Node<T>>
    /** The position of `tail` in `nodes`. */
    ghost var tailAt: nat

    /** The nodes form a chain that starts at `head`, and `tail` is one of
        them. Both handles are null exactly when the list is empty. */
    ghost predicate Shaped()
      reads this, nodes`front, nodes`back
    {
      && Chained(nodes)
      && (nodes == [] ==> head == null && tail == null)
      && (nodes != [] ==> head == nodes[0] && tailAt < |nodes| && tail == nodes[tailAt])
    }

    /** `Shaped()`, and `tail` is the last node. */
    ghost predicate Valid()
      reads this, nodes`front, nodes`back
    {
      Shaped() && (nodes != [] ==> tailAt == |nodes| - 1)
    }

    /** The elements from `head` to the last node. */
    ghost function Elems(): seq<T>
      reads this, nodes`elem
    {
      ElemsOf(nodes)
    }

    /** Neither handle and no link of the list refers to `n`. Then
        `Rc::try_unwrap` on the last `Rc` of `n` succeeds. */
    ghost predicate Unshared(n: Node<T>)
      reads this, nodes`front, nodes`back
    {
      && head != n && tail != n
      && forall i :: 0 <= i < |nodes| ==> nodes[i].front != n && nodes[i].back != n
    }

    /** `List::new` (also `Default::default`). */
    constructor ()
      ensures Valid() && nodes == [] && Elems() == []
    {
      head := null;
      tail := null;
      nodes := [];
      tailAt := 0;
    }

    /** `push_front`: a new node becomes the head. On an empty list it is
        the tail as well. Otherwise it and the old head link to each
        other, and the tail stays the same node. */
    method PushFront(elem: T)
      requires Shaped()
      modifies this, head
      ensures Shaped() && head != null && fresh(head) && nodes == [head] + old(nodes)
      ensures Elems() == [elem] + old(Elems())
      ensures old(nodes) == [] ==> tail == head
      ensures old(nodes) != [] ==> tail == old(tail) && tailAt == old(tailAt) + 1
      ensures old(Valid()) ==> Valid()
    {
      var newHead := new Node(elem);
      var oldHead := head;
      if oldHead != null {
        oldHead.front := newHead;
        newHead.back := oldHead;
        head := newHead;
        tailAt := tailAt + 1;
      } else {
        tail := newHead;
        head := newHead;
        tailAt := 0;
      }
      ChainCons(newHead, nodes);
      ElemsCons(newHead, nodes);
      nodes := [newHead] + nodes;
    }

    /** `pop_front` as written. If a node remains behind the old head, it
        becomes the head, with its `prev` cleared, and it also becomes the
        tail (line 68). So for three or more nodes the list leaves
        `Valid()`. On a single node both handles are cleared. The popped
        node is unshared afterwards, so the `try_unwrap` at line 76 never
        fails. */
    method PopFront() returns (r: Option<T>)
      requires Shaped()
      modifies this, nodes
      ensures Shaped()
      ensures old(nodes) == [] ==> r == None && nodes == []
      ensures old(nodes) != [] ==> && r == Some(old(Elems())[0])
                                   && nodes == old(nodes)[1..]
                                   && Elems() == old(Elems())[1..]
                                   && Unshared(old(head))
      ensures |old(nodes)| > 1 ==> tail == head && tailAt == 0
    {
      if head == null {
        return None;
      }
      var oldHead := head;
      ghost var ns := nodes;
      assert oldHead == ns[0] && (|ns| > 1 ==> oldHead.back == ns[1]) by {
        assert LinkedAt(ns, 0);
      }
      assert DistinctAt(ns, 0, |ns| - 1) && DistinctAt(ns, 0, 1);
      ElemsOfAt(ns, 0);
      r := Some(oldHead.elem);
      var next := oldHead.back;
      if next != null {
        Unlink(ns, oldHead, next, 1);
        head := next;
        tail := head;
        tailAt := 0;
      } else {
        head := null;
        tail := null;
      }
      assert ns[1..] == ns[1..|ns|];
      LinksAvoid(ns, 1, |ns|, 0);
      nodes := ns[1..];
    }

    /** `pop_front` as evidently intended: the tail changes only when the
        last node goes. */
    method PopFrontCorrected() returns (r: Option<T>)
      requires Valid()
      modifies this, nodes
      ensures Valid()
      ensures old(nodes) == [] ==> r == None && nodes == []
      ensures old(nodes) != [] ==> && r == Some(old(Elems())[0])
                                   && nodes == old(nodes)[1..]
                                   && Elems() == old(Elems())[1..]
                                   && Unshared(old(head))
      ensures |old(nodes)| > 1 ==> tail == old(tail)
    {
      if head == null {
        return None;
      }
      var oldHead := head;
      ghost var ns := nodes;
      assert oldHead == ns[0] && (|ns| > 1 ==> oldHead.back == ns[1]) by {
        assert LinkedAt(ns, 0);
      }
      assert DistinctAt(ns, 0, |ns| - 1) && DistinctAt(ns, 0, 1);
      ElemsOfAt(ns, 0);
      r := Some(oldHead.elem);
      var next := oldHead.back;
      if next != null {
        Unlink(ns, oldHead, next, 1);
        head := next;
        tailAt := tailAt - 1;
      } else {
        head := null;
        tail := null;
      }
      assert ns[1..] == ns[1..|ns|];
      LinksAvoid(ns, 1, |ns|, 0);
      nodes := ns[1..];
    }

    /** `push_back`: a new node becomes the tail. On an empty list it is
        the head as well. Otherwise it and the old tail link to each
        other. */
    method PushBack(elem: T)
      requires Valid()
      modifies this, tail
      ensures Valid() && tail != null && fresh(tail) && nodes == old(nodes) + [tail]
      ensures Elems() == old(Elems()) + [elem]
      ensures old(nodes) != [] ==> head == old(head)
    {
      var newTail := new Node(elem);
      var oldTail := tail;
      if oldTail != null {
        oldTail.back := newTail;
        newTail.front := oldTail;
        tail := newTail;
      } else {
        head := newTail;
        tail := newTail;
      }
      tailAt := |nodes|;
      ChainSnoc(nodes, newTail);
      ElemsSnoc(nodes, newTail);
      nodes := nodes + [newTail];
    }

    /** `pop_back`. The old tail's `prev` neighbour, if any, loses its
        `next` link and becomes the tail. Without one, the head is
        cleared. Then `Rc::try_unwrap(old_tail).ok().unwrap()` (line 124)
        runs. It panics when the old tail is not the last node: the node
        after it still holds it through its `prev` link. That happens
        after `pop_front` has moved the tail (line 68). On a `Valid()`
        list it pops the last element. */
    method PopBack() returns (r: Outcome<Option<T>>)
      requires Shaped()
      modifies this, nodes
      ensures r.Panicked? <==> old(nodes) != [] && old(tailAt) < |old(nodes)| - 1
      ensures r.Panicked? ==> old(tail).back != null && old(tail).back.front == old(tail)
      ensures r.Done? ==> Valid()
      ensures r.Done? && old(nodes) == [] ==> r.value == None && nodes == []
      ensures r.Done? && old(nodes) != [] ==>
                && r.value == Some(old(Elems())[|old(nodes)| - 1])
                && nodes == old(nodes)[..|old(nodes)| - 1]
                && Elems() == old(Elems())[..|old(nodes)| - 1]
                && Unshared(old(tail))
    {
      if tail == null {
        return Done(None);
      }
      var oldTail := tail;
      ghost var ns, k := nodes, tailAt;
      assert && oldTail == ns[k]
             && (k > 0 ==> oldTail.front == ns[k - 1])
             && (k == 0 ==> oldTail.front == null)
             && (k < |ns| - 1 ==> oldTail.back == ns[k + 1] && ns[k + 1].front == oldTail)
             && (k == |ns| - 1 ==> oldTail.back == null)
      by {
        assert LinkedAt(ns, k - 1) && LinkedAt(ns, k);
      }
      assert DistinctAt(ns, k - 1, k);
      ElemsOfAt(ns, k);
      var elem := oldTail.elem;
      var newTail := oldTail.front;
      if newTail != null {
        Unlink(ns, newTail, oldTail, k);
        assert LinkedAt(ns[k..], 0);
        tail := newTail;
      } else {
        tail := null;
        head := null;
      }
      if oldTail.back != null {
        return Panicked;
      }
      assert k == |ns| - 1;
      tailAt := if k > 0 then k - 1 else 0;
      assert ns[..k] == ns[0..k];
      LinksAvoid(ns, 0, k, k);
      nodes := ns[..k];
      r := Done(Some(elem));
    }

    /** `peek_front`: the element at the head, if any. */
    function PeekFront(): (r: Option<T>)
      requires Shaped()
      reads this, nodes
      ensures r.None? <==> Elems() == []
      ensures r.Some? ==> r.value == Elems()[0]
    {
      if head == null then None else ElemsOfAt(nodes, 0); Some(head.elem)
    }

    /** `peek_front_mut`: the place holding the head's element. */
    function PeekFrontMut(): (r: Option<Node<T>>)
      requires Shaped()
      reads this, nodes
      ensures r.None? <==> nodes == []
      ensures r.Some? ==> r.value == nodes[0]
    {
      if head == null then None else Some(head as Node<T>)
    }

    /** `peek_back`: the element at the tail, if any. That is the last
        element only while the list is `Valid()`. */
    function PeekBack(): (r: Option<T>)
      requires Shaped()
      reads this, nodes
      ensures r.None? <==> Elems() == []
      ensures r.Some? ==> r.value == Elems()[tailAt]
      ensures r.Some? && Valid() ==> r.value == Elems()[|Elems()| - 1]
    {
      if tail == null then None else ElemsOfAt(nodes, tailAt); Some(tail.elem)
    }

    /** `peek_back_mut`: the place holding the tail's element. */
    function PeekBackMut(): (r: Option<Node<T>>)
      requires Shaped()
      reads this, nodes
      ensures r.None? <==> nodes == []
      ensures r.Some? ==> r.value == nodes[tailAt]
    {
      if tail == null then None else Some(tail as Node<T>)
    }

    /** `Drop::drop`: `pop_front` until it returns `None`. This works from
        any `Shaped()` state, because `pop_front` never panics. */
    method Drop()
      requires Shaped()
      modifies this, nodes
      ensures Valid() && nodes == [] && Elems() == []
    {
      ghost var k := 0;
      while true
        invariant Shaped()
        invariant k <= |old(nodes)| && nodes == old(nodes)[k..]
        decreases |nodes|
      {
        DropStep(old(nodes), k);
        assert LinkedAt(nodes, 0);
        var r := PopFront();
        if r.None? {
          break;
        }
        k := k + 1;
      }
    }
  }

  /** `IntoIter<T>` (`List::into_iter`): owns the list. `next` is
      `pop_front` and `next_back` is `pop_back`. */
  class IntoIter<T> {
    const list: List<T>

    /** `into_iter()`: the iterator takes ownership of the whole list. */
    constructor (list: List<T>)
      requires list.Shaped()
      ensures this.list == list && this.list.Shaped()
    {
      this.list := list;
    }

    method Next() returns (r: Option<T>)
      requires list.Shaped()
      modifies list, list.nodes
      ensures list.Shaped()
      ensures old(list.nodes) == [] ==> r == None && list.nodes == []
      ensures old(list.nodes) != [] ==> && r == Some(old(list.Elems())[0])
                                        && list.nodes == old(list.nodes)[1..]
                                        && list.Elems() == old(list.Elems())[1..]
    {
      assert LinkedAt(list.nodes, 0);
      r := list.PopFront();
    }

    method NextBack() returns (r: Outcome<Option<T>>)
      requires list.Shaped()
      modifies list, list.nodes
      ensures r.Panicked? <==> old(list.nodes) != [] && old(list.tailAt) < |old(list.nodes)| - 1
      ensures r.Done? ==> list.Valid()
      ensures r.Done? && old(list.nodes) == [] ==> r.value == None && list.nodes == []
      ensures r.Done? && old(list.nodes) != [] ==>
                && r.value == Some(old(list.Elems())[|old(list.nodes)| - 1])
                && list.nodes == old(list.nodes)[..|old(list.nodes)| - 1]
                && list.Elems() == old(list.Elems())[..|old(list.nodes)| - 1]
    {
      assert list.nodes != [] ==> list.tail in list.nodes;
      assert list.nodes != [] ==> LinkedAt(list.nodes, list.tailAt - 1);
      r := list.PopBack();
    }
  }

  // The tests of src/fourth.rs, and the scenario that shows the `tail`
  // defect of `pop_front`.

  /** `push_front_and_pop_front` (lines 178-193): last in, first out. */
  method PushFrontAndPopFront() returns (popped: seq<Option<int>>)
    ensures popped == [None, Some(1), Some(3), Some(2), None]
  {
    var list, a, b := PopPushPop();
    list.PushFront(2);
    list.PushFront(3);
    var c := list.PopFront();
    var d := list.PopFront();
    var e := list.PopFront();
    popped := [a, b, c, d, e];
  }

  /** The first half of `push_front_and_pop_front`: popping a new list
      gives nothing, and popping after one push gives that element back. */
  method PopPushPop() returns (list: List<int>, a: Option<int>, b: Option<int>)
    ensures fresh(list) && fresh(list.nodes) && list.Valid() && list.Elems() == []
    ensures a == None && b == Some(1)
  {
    list := new List<int>();
    a := list.PopFront();
    list.PushFront(1);
    b := list.PopFront();
  }

  /** `push_front_and_peek_front` (lines 196-212): the head is the most
      recent `push_front`. */
  method PushFrontAndPeekFront() returns (peeked: seq<Option<int>>)
    ensures peeked == [None, Some(1), Some(2), Some(3)]
  {
    var list := new List<int>();
    var a := list.PeekFront();
    list.PushFront(1);
    var b := list.PeekFront();
    list.PushFront(2);
    var c := list.PeekFront();
    list.PushFront(3);
    var d := list.PeekFront();
    peeked := [a, b, c, d];
  }

  /** `push_front` of 1, 2 and 3 onto a new list. */
  method PushedOneTwoThree() returns (list: List<int>)
    ensures fresh(list) && fresh(list.nodes) && list.Valid() && list.Elems() == [3, 2, 1]
  {
    list := new List<int>();
    list.PushFront(1);
    list.PushFront(2);
    list.PushFront(3);
  }

  /** `into_iter_iterator` (lines 215-227): `next` pops from the front. */
  method IntoIterIterator() returns (items: seq<Option<int>>)
    ensures items == [Some(3), Some(2), Some(1)]
  {
    var list := PushedOneTwoThree();
    var iter := new IntoIter(list);
    var a := iter.Next();
    var b := iter.Next();
    var c := iter.Next();
    items := [a, b, c];
  }

  /** `into_iter_double_ended_iterator` (lines 230-242): `next_back` pops
      from the back and never panics on a list built by pushes. */
  method IntoIterDoubleEnded() returns (items: seq<Outcome<Option<int>>>)
    ensures items == [Done(Some(1)), Done(Some(2)), Done(Some(3))]
  {
    var list := PushedOneTwoThree();
    var iter := new IntoIter(list);
    var a := iter.NextBack();
    var b := iter.NextBack();
    var c := iter.NextBack();
    items := [a, b, c];
  }

  /** Three `push_front`s, one `pop_front`, one `pop_back`. As written,
      `pop_front` leaves `tail` on the new head, so `pop_back` panics. */
  method TailAfterPopFront() returns (first: Option<int>, last: Outcome<Option<int>>)
    ensures first == Some(3) && last == Panicked
  {
    var list := PushedOneTwoThree();
    first := list.PopFront();
    last := list.PopBack();
  }

  /** The same calls with the corrected `pop_front`: `pop_back` pops the
      first element pushed. */
  method TailAfterPopFrontCorrected() returns (first: Option<int>, last: Outcome<Option<int>>)
    ensures first == Some(3) && last == Done(Some(1))
  {
    var list := PushedOneTwoThree();
    first := list.PopFrontCorrected();
    last := list.PopBack();
  }
}
