/** The queue of src/fifth.rs: the list owns its first node (`head`, a
    `Box`) and every node owns the next one; a raw `tail` pointer aliases the
    last node so that `push` appends in constant time. `push` adds at the
    tail and `pop` removes at the head, so the list is first-in first-out. */
module Fifth {
  import opened Core
  import opened QueueNodes

  class List<T> {
    var head: Node?<T>
    /** The raw pointer; null when the list is empty. */
    var tail: Node?<T>
    /** The nodes from `head` to `tail`. */
    ghost var nodes: seq<Node<T>>

    /** `head` is the first node and `tail` the last node of a well-formed
        chain, and both are null exactly when the chain is empty. */
    ghost predicate Valid()
      reads this, nodes`next
    {
      && Linked(nodes)
      && (nodes == [] ==> head == null && tail == null)
      && (nodes != [] ==> head == nodes[0] && tail == nodes[|nodes| - 1])
    }

    /** The elements from head to tail. */
    ghost function Elems(): seq<T>
      reads this, nodes`elem
    {
      ElemsOf(nodes)
    }

    /** `List::new` (`Default::default`): no head and a null tail. */
    constructor ()
      ensures Valid() && nodes == [] && Elems() == []
    {
      head := null;
      tail := null;
      nodes := [];
    }

    /** `push`: the new node becomes the tail, linked after the old tail, or
        becomes the head too when the tail was null. */
    method Push(elem: T)
      requires Valid()
      modifies this, tail
      ensures Valid()
      ensures fresh(tail) && nodes == old(nodes) + [tail]
      ensures Elems() == old(Elems()) + [elem]
      ensures old(tail) == null ==> head == tail
      ensures old(tail) != null ==> head == old(head) && old(tail).next == tail
    {
      var newTail := new Node(elem);
      ghost var ns := nodes;
      if tail == null {
        head := newTail;
      } else {
        tail.next := newTail;
      }
      tail := newTail;
      nodes := ns + [newTail];
      LinkedSnoc(ns, newTail);
      ElemsSnoc(ns, newTail);
    }

    /** `pop`: None on an empty list; otherwise the head node is detached
        (its `next` taken), its successor becomes the head, and the tail is
        reset to null when nothing is left. */
    method Pop() returns (r: Option<T>)
      requires Valid()
      modifies this, head
      ensures Valid()
      ensures old(nodes) == [] ==> r == None && nodes == []
      ensures old(nodes) != [] ==> && r == Some(old(Elems())[0])
                                   && nodes == old(nodes)[1..]
                                   && Elems() == old(Elems())[1..]
                                   && old(head).next == null
      ensures nodes == [] <==> tail == null
    {
      if head == null {
        return None;
      }
      ghost var ns := nodes;
      var oldHead: Node<T> := head;
      assert NextAt(ns, 0);
      ElemsOfAt(ns, 0);
      ElemsOfTail(ns);
      head := oldHead.next;
      oldHead.next := null;
      if head == null {
        tail := null;
      }
      LinkedTail(ns);
      nodes := ns[1..];
      r := Some(oldHead.elem);
    }
  }

  /** The test at src/fifth.rs:62-90: pushes and pops interleave, the list
      empties and is refilled, and the pops come out in push order. */
  method Smoke() returns (popped: seq<Option<int>>)
    ensures popped == [None, Some(1), Some(2), Some(3), Some(4), Some(5), None, Some(6), Some(7), None]
  {
    var list, first := SmokeFill();
    var second := SmokeDrain(list);
    var third := SmokeRefill(list);
    popped := first + second + third;
  }

  /** src/fifth.rs:64-74: pop on the new list, push 1, 2, 3, pop twice. */
  method SmokeFill() returns (list: List<int>, popped: seq<Option<int>>)
    ensures fresh(list) && fresh(list.nodes) && list.Valid() && list.Elems() == [3]
    ensures popped == [None, Some(1), Some(2)]
  {
    list := new List<int>();
    var a := list.Pop();
    PushOneTwoThree(list);
    var b := list.Pop();
    var c := list.Pop();
    popped := [a, b, c];
  }

  /** src/fifth.rs:69-71: push 1, 2, 3 onto the empty list. */
  method PushOneTwoThree(list: List<int>)
    requires list.Valid() && list.nodes == []
    modifies list
    ensures list.Valid() && fresh(list.nodes) && list.Elems() == [1, 2, 3]
  {
    list.Push(1);
    list.Push(2);
    list.Push(3);
  }

  /** src/fifth.rs:76-82: push 4, 5 behind the 3, then pop until empty. */
  method SmokeDrain(list: List<int>) returns (popped: seq<Option<int>>)
    requires list.Valid() && list.Elems() == [3]
    modifies list, list.nodes
    ensures list.Valid() && list.nodes == []
    ensures popped == [Some(3), Some(4), Some(5), None]
  {
    list.Push(4);
    list.Push(5);
    var a := list.Pop();
    var b := list.Pop();
    var c := list.Pop();
    var d := list.Pop();
    popped := [a, b, c, d];
  }

  /** src/fifth.rs:84-89: the emptied list is refilled with 6, 7. */
  method SmokeRefill(list: List<int>) returns (popped: seq<Option<int>>)
    requires list.Valid() && list.nodes == []
    modifies list
    ensures popped == [Some(6), Some(7), None]
  {
    list.Push(6);
    list.Push(7);
    var a := list.Pop();
    var b := list.Pop();
    var c := list.Pop();
    popped := [a, b, c];
  }
}
