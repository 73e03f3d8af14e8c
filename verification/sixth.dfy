/** The queue of src/sixth.rs: like src/fifth.rs, but `head`, `tail` and
    every `next` are raw pointers, so nothing is owned through a `Box` and
    `pop` frees the old head without touching its `next`. On top of push and
    pop it offers `peek`, `peek_mut`, the three iterators and a `Drop` that
    pops until the list is empty. */
module Sixth {
  import opened Core
  import opened QueueNodes

  class List<T> {
    var head: Node?<T>
    var tail: Node?<T>
    /** The nodes from `head` to `tail`. */
    ghost var nodes: seq<Node<T>>

    /** `head` is the first node and `tail` the last node of a well-formed
        chain, and both are null exactly when the chain is empty. */
    ghost predicate Valid()
      reads this, nodes`next
    {
      && Linked(nodes)
      && (nodes == [] ==> head == null && tail == null)
      && (nodes != [] ==> head == nodes[0] && tail == nodes[|nodes| - 1])
    }

    /** The elements from head to tail. */
    ghost function Elems(): seq<T>
      reads this, nodes`elem
    {
      ElemsOf(nodes)
    }

    /** `List::new` (`Default::default`): both pointers null. */
    constructor ()
      ensures Valid() && nodes == [] && Elems() == []
    {
      head := null;
      tail := null;
      nodes := [];
    }

    /** `push`: a new node with a null `next` becomes the tail, linked after
        the old tail, or becomes the head too when the tail was null. */
    method Push(elem: T)
      requires Valid()
      modifies this, tail
      ensures Valid()
      ensures fresh(tail) && nodes == old(nodes) + [tail]
      ensures Elems() == old(Elems()) + [elem]
      ensures old(tail) == null ==> head == tail
      ensures old(tail) != null ==> head == old(head) && old(tail).next == tail
    {
      var newTail := new Node(elem);
      ghost var ns := nodes;
      if tail == null {
        head := newTail;
      } else {
        tail.next := newTail;
      }
      tail := newTail;
      nodes := ns + [newTail];
      LinkedSnoc(ns, newTail);
      ElemsSnoc(ns, newTail);
    }

    /** `pop`: None when `head` is null; otherwise `head` moves to the old
        head's `next`, the tail is reset to null when that is null, and the
        old head's element is returned. No node is written. */
    method Pop() returns (r: Option<T>)
      requires Valid()
      modifies this
      ensures Valid()
      ensures old(nodes) == [] ==> r == None && nodes == []
      ensures old(nodes) != [] ==> && r == Some(old(Elems())[0])
                                   && nodes == old(nodes)[1..]
                                   && Elems() == old(Elems())[1..]
      ensures nodes == [] <==> tail == null
    {
      if head == null {
        return None;
      }
      ghost var ns := nodes;
      var oldHead: Node<T> := head;
      assert NextAt(ns, 0);
      ElemsOfAt(ns, 0);
      ElemsOfTail(ns);
      LinkedTail(ns);
      head := oldHead.next;
      if head == null {
        tail := null;
      }
      nodes := ns[1..];
      r := Some(oldHead.elem);
    }

    /** `peek`: the first element, if any. */
    function Peek(): (r: Option<T>)
      requires Valid()
      reads this, nodes
      ensures r.None? <==> Elems() == []
      ensures r.Some? ==> r.value == Elems()[0]
    {
      if head == null then None else ElemsOfAt(nodes, 0); Some(head.elem)
    }

    /** `peek_mut`: the place holding the first element; writing its `elem`
        changes the first element in place (`ElemsOfHeadUpdate`). */
    function PeekMut(): (r: Option<Node<T>>)
      requires Valid()
      reads this, nodes
      ensures r.None? <==> nodes == []
      ensures r.Some? ==> r.value == nodes[0]
    {
      if head == null then None else Some(head as Node<T>)
    }

    /** `Drop`: pop until `pop` returns None. */
    method Drop()
      requires Valid()
      modifies this
      ensures Valid() && nodes == [] && head == null && tail == null
    {
      while true
        invariant Valid()
        decreases |nodes|
      {
        var r := Pop();
        if r.None? {
          break;
        }
      }
    }
  }

  /** `Iter<'a, T>` (`List::iter`): `next` is the node still to be read, or
      null once the walk has passed the tail. The ghost `pos` is its
      position in the borrowed list. */
  class Iter<T> {
    var next: Node?<T>
    ghost const list: List<T>
    ghost var pos: nat

    ghost predicate Valid()
      reads this, list
    {
      && pos <= |list.nodes|
      && next == (if pos < |list.nodes| then list.nodes[pos] else null)
    }

    /** `iter()`: starts at the head (None when the head is null). */
    constructor (list: List<T>)
      requires list.Valid()
      ensures Valid() && this.list == list && pos == 0
    {
      next := list.head;
      this.list := list;
      pos := 0;
    }

    /** `next`: the element at `pos` and a step along `next`, or None,
        again and again, once the walk is over. */
    method Next() returns (r: Option<T>)
      requires Valid() && list.Valid()
      modifies this
      ensures Valid()
      ensures old(pos) < |list.nodes| ==> r == Some(list.Elems()[old(pos)]) && pos == old(pos) + 1
      ensures old(pos) == |list.nodes| ==> r == None && pos == old(pos)
    {
      if next == null {
        return None;
      }
      var node: Node<T> := next;
      assert NextAt(list.nodes, pos);
      ElemsOfAt(list.nodes, pos);
      next := node.next;
      pos := pos + 1;
      r := Some(node.elem);
    }
  }

  /** `IterMut<'a, T>` (`List::iter_mut`): like `Iter`, but it hands out
      the places holding the elements (the nodes) for the caller to
      overwrite; it never writes a link. */
  class IterMut<T> {
    var next: Node?<T>
    ghost const list: List<T>
    ghost var pos: nat

    ghost predicate Valid()
      reads this, list
    {
      && pos <= |list.nodes|
      && next == (if pos < |list.nodes| then list.nodes[pos] else null)
    }

    /** `iter_mut()`: starts at the head. */
    constructor (list: List<T>)
      requires list.Valid()
      ensures Valid() && this.list == list && pos == 0
    {
      next := list.head;
      this.list := list;
      pos := 0;
    }

    method Next() returns (r: Option<Node<T>>)
      requires Valid() && list.Valid()
      modifies this
      ensures Valid()
      ensures old(pos) < |list.nodes| ==> r == Some(list.nodes[old(pos)]) && pos == old(pos) + 1
      ensures old(pos) == |list.nodes| ==> r == None && pos == old(pos)
    {
      if next == null {
        return None;
      }
      var node: Node<T> := next;
      assert NextAt(list.nodes, pos);
      next := node.next;
      pos := pos + 1;
      r := Some(node);
    }
  }

  /** `IntoIter<T>` (`List::into_iter`): owns the list; `next` is `pop`. */
  class IntoIter<T> {
    const list: List<T>

    /** `into_iter()`: the iterator takes ownership of the whole list. */
    constructor (list: List<T>)
      requires list.Valid()
      ensures this.list == list && this.list.Valid()
    {
      this.list := list;
    }

    method Next() returns (r: Option<T>)
      requires list.Valid()
      modifies list
      ensures list.Valid()
      ensures old(list.nodes) == [] ==> r == None && list.nodes == []
      ensures old(list.nodes) != [] ==> && r == Some(old(list.Elems())[0])
                                        && list.nodes == old(list.nodes)[1..]
                                        && list.Elems() == old(list.Elems())[1..]
    {
      r := list.Pop();
    }
  }

  /** `for elem in list.iter_mut() { *elem *= factor }`, the loop of the
      test at src/sixth.rs:202-204: every element is multiplied in place and
      the chain is left as it was. */
  method ScaleEach(list: List<int>, factor: int)
    requires list.Valid()
    modifies list.nodes
    ensures list.Valid()
    ensures |list.Elems()| == |old(list.Elems())|
    ensures forall i :: 0 <= i < |list.Elems()| ==> list.Elems()[i] == old(list.Elems())[i] * factor
  {
    ghost var before := list.Elems();
    ghost var ns := list.nodes;
    forall i | 0 <= i < |ns| ensures ns[i].elem == before[i] {
      ElemsOfAt(ns, i);
    }
    var it := new IterMut(list);
    while true
      invariant it.Valid() && it.list == list && list.nodes == ns && list.Valid()
      invariant forall i :: 0 <= i < it.pos ==> ns[i].elem == before[i] * factor
      invariant forall i :: it.pos <= i < |ns| ==> ns[i].elem == before[i]
      decreases |ns| - it.pos
    {
      var r := it.Next();
      if r.None? {
        break;
      }
      ScaleNode(r.value, factor, ns, it.pos - 1);
    }
    forall i | 0 <= i < |ns| ensures list.Elems()[i] == before[i] * factor {
      ElemsOfAt(ns, i);
    }
  }

  /** One step of `ScaleEach`: the element of the `k`-th node of a chain is
      multiplied, and since no node occurs twice, no other element changes. */
  method ScaleNode(node: Node<int>, factor: int, ghost ns: seq<Node<int>>, ghost k: nat)
    requires Linked(ns) && k < |ns| && ns[k] == node
    modifies node`elem
    ensures node.elem == old(node.elem) * factor
    ensures forall i :: 0 <= i < |ns| && i != k ==> ns[i].elem == old(ns[i].elem)
  {
    forall i | 0 <= i < |ns| && i != k ensures ns[i] != node {
      assert DistinctAt(ns, i, k) && DistinctAt(ns, k, i);
    }
    node.elem := node.elem * factor;
  }

  /** The test at src/sixth.rs:155-181, the same interleaving as the one of
      src/fifth.rs: the pops come out in push order. The source repeats
      that test word for word, so `SmokeFill`, `PushOneTwoThree`,
      `SmokeDrain` and `SmokeRefill` below repeat the phases of
      `Fifth.Smoke` over this module's `List`; they differ only in the
      list they drive. */
  method Smoke() returns (popped: seq<Option<int>>)
    ensures popped == [None, Some(1), Some(2), Some(3), Some(4), Some(5), None, Some(6), Some(7), None]
  {
    var list, first := SmokeFill();
    var second := SmokeDrain(list);
    var third := SmokeRefill(list);
    popped := first + second + third;
  }

  /** src/sixth.rs:156-165: pop on the new list, push 1, 2, 3, pop twice. */
  method SmokeFill() returns (list: List<int>, popped: seq<Option<int>>)
    ensures fresh(list) && fresh(list.nodes) && list.Valid() && list.Elems() == [3]
    ensures popped == [None, Some(1), Some(2)]
  {
    list := new List<int>();
    var a := list.Pop();
    PushOneTwoThree(list);
    var b := list.Pop();
    var c := list.Pop();
    popped := [a, b, c];
  }

  /** Push 1, 2, 3 onto the empty list. */
  method PushOneTwoThree(list: List<int>)
    requires list.Valid() && list.nodes == []
    modifies list
    ensures list.Valid() && fresh(list.nodes) && list.Elems() == [1, 2, 3]
  {
    list.Push(1);
    list.Push(2);
    list.Push(3);
  }

  /** src/sixth.rs:167-173: push 4, 5 behind the 3, then pop until empty. */
  method SmokeDrain(list: List<int>) returns (popped: seq<Option<int>>)
    requires list.Valid() && list.Elems() == [3]
    modifies list, list.nodes
    ensures list.Valid() && list.nodes == []
    ensures popped == [Some(3), Some(4), Some(5), None]
  {
    list.Push(4);
    list.Push(5);
    var a := list.Pop();
    var b := list.Pop();
    var c := list.Pop();
    var d := list.Pop();
    popped := [a, b, c, d];
  }

  /** src/sixth.rs:175-180: the emptied list is refilled with 6, 7. */
  method SmokeRefill(list: List<int>) returns (popped: seq<Option<int>>)
    requires list.Valid() && list.nodes == []
    modifies list
    ensures popped == [Some(6), Some(7), None]
  {
    list.Push(6);
    list.Push(7);
    var a := list.Pop();
    var b := list.Pop();
    var c := list.Pop();
    popped := [a, b, c];
  }

  /** `list.peek_mut().map(|x| *x *= factor)`, src/sixth.rs:198 and 214:
      the first element, if any, is multiplied in place. */
  method ScaleHead(list: List<int>, factor: int)
    requires list.Valid()
    modifies list.nodes
    ensures list.Valid()
    ensures list.Elems() == if old(list.Elems()) == [] then [] else old(list.Elems())[0 := old(list.Elems())[0] * factor]
  {
    var place := list.PeekMut();
    if place.Some? {
      ghost var ns := list.nodes;
      ElemsOfAt(ns, 0);
      forall i | 0 < i < |ns| ensures ns[i] != ns[0] {
        assert DistinctAt(ns, 0, i);
      }
      place.value.elem := place.value.elem * factor;
      ElemsOfHeadUpdate(ns);
    }
  }

  /** The test at src/sixth.rs:184-219: pushes, pops, peeks and in-place
      updates through `peek_mut` and `iter_mut` interleave; what `pop`,
      `peek` and `iter` see is returned in order. */
  method MiriFood() returns (seen: seq<Option<int>>)
    ensures seen == [Some(1), Some(2), Some(3), Some(30), Some(30),
                     Some(400), Some(500), Some(600), None, None, Some(400), Some(5000)]
  {
    var list, first := MiriFill();
    var second := MiriPeek(list);
    ScaleEach(list, 100);
    var third := MiriIter(list);
    var fourth := MiriFinish(list);
    seen := first + second + third + fourth;
  }

  /** src/sixth.rs:185-194: push 1, 2, 3, pop, push 4, pop, push 5. */
  method MiriFill() returns (list: List<int>, seen: seq<Option<int>>)
    ensures fresh(list) && fresh(list.nodes) && list.Valid() && list.Elems() == [3, 4, 5]
    ensures seen == [Some(1), Some(2)]
  {
    list := new List<int>();
    PushOneTwoThree(list);
    ghost var ns := list.nodes;
    seen := PopTwicePushing(list);
    assert fresh(ns[2]) && list.nodes == [list.nodes[0]] + list.nodes[1..];
  }

  /** src/sixth.rs:191-194: pop, push 4, pop, push 5. */
  method PopTwicePushing(list: List<int>) returns (seen: seq<Option<int>>)
    requires list.Valid() && list.Elems() == [1, 2, 3]
    modifies list, list.nodes
    ensures list.Valid() && list.Elems() == [3, 4, 5]
    ensures list.nodes[0] == old(list.nodes)[2] && fresh(list.nodes[1..])
    ensures seen == [Some(1), Some(2)]
  {
    var a := list.Pop();
    list.Push(4);
    var b := list.Pop();
    list.Push(5);
    seen := [a, b];
  }

  /** src/sixth.rs:196-200: peek, push 6, scale the head by 10 through
      `peek_mut`, peek, pop. */
  method MiriPeek(list: List<int>) returns (seen: seq<Option<int>>)
    requires list.Valid() && list.Elems() == [3, 4, 5]
    modifies list, list.nodes
    ensures list.Valid() && list.Elems() == [4, 5, 6]
    ensures fresh(list.tail) && list.nodes == old(list.nodes)[1..] + [list.tail]
    ensures seen == [Some(3), Some(30), Some(30)]
  {
    var a := list.Peek();
    list.Push(6);
    ScaleHead(list, 10);
    var b := list.Peek();
    var c := list.Pop();
    seen := [a, b, c];
  }

  /** src/sixth.rs:206-211: `iter` sees the scaled elements, then None
      twice. */
  method MiriIter(list: List<int>) returns (seen: seq<Option<int>>)
    requires list.Valid() && list.Elems() == [400, 500, 600]
    ensures seen == [Some(400), Some(500), Some(600), None, None]
  {
    var it := new Iter(list);
    var a := it.Next();
    var b := it.Next();
    var c := it.Next();
    var d := it.Next();
    var e := it.Next();
    seen := [a, b, c, d, e];
  }

  /** src/sixth.rs:213-218: pop, scale the head by 10, peek, push 7, and
      drop the list. */
  method MiriFinish(list: List<int>) returns (seen: seq<Option<int>>)
    requires list.Valid() && list.Elems() == [400, 500, 600]
    modifies list, list.nodes
    ensures list.Valid() && list.nodes == []
    ensures seen == [Some(400), Some(5000)]
  {
    var a := list.Pop();
    ScaleHead(list, 10);
    var b := list.Peek();
    list.Push(7);
    list.Drop();
    seen := [a, b];
  }
}
