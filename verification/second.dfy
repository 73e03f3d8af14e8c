/** The stack of src/second.rs: the same stack as src/first.rs with the
    link written as `Option<Box<Node>>`, and a `Drop` that frees the nodes
    one at a time in a loop rather than recursively. */
module Second {
  import opened Core

  /** A node; its `next` is `Link = Option<Box<Node>>`. */
  datatype Node = Node(elem: i32, next: Option<Node>)

  /** The elements from the top of the stack down. */
  function Elems(link: Option<Node>): seq<i32>
  {
    match link
    case None => []
    case Some(node) => [node.elem] + Elems(node.next)
  }

  class List {
    var head: Option<Node>

    /** `List::new`: the empty stack. */
    constructor ()
      ensures head == None && Elems(head) == []
    {
      head := None;
    }

    /** `push`: a node holding `elem` whose `next` is the old head (taken
        from the list) becomes the head. */
    method Push(elem: i32)
      modifies this
      ensures head == Some(Node(elem, old(head)))
      ensures Elems(head) == [elem] + old(Elems(head))
    {
      var next := head;
      head := Some(Node(elem, next));
    }

    /** `pop`: the head is taken; if it was a node, its element is returned
        and its `next` becomes the head. */
    method Pop() returns (r: Option<i32>)
      modifies this
      ensures old(head) == None ==> r == None && head == None
      ensures old(head).Some? ==> r == Some(old(head).value.elem) && head == old(head).value.next
      ensures old(Elems(head)) != [] ==> r == Some(old(Elems(head))[0]) && Elems(head) == old(Elems(head))[1..]
    {
      var taken := head;
      head := None;
      match taken
      case None =>
        r := None;
      case Some(node) =>
        r := Some(node.elem);
        head := node.next;
    }

    /** `Drop`: the head is taken and the loop detaches one node per step,
        walking down the links until none is left. `dropped` is the
        sequence of elements of the detached nodes, in the order freed. */
    method Drop() returns (ghost dropped: seq<i32>)
      modifies this
      ensures head == None
      ensures dropped == old(Elems(head))
    {
      var curLink := head;
      head := None;
      dropped := [];
      while curLink.Some?
        invariant dropped + Elems(curLink) == old(Elems(head))
        decreases curLink
      {
        var boxedNode := curLink.value;
        dropped := dropped + [boxedNode.elem];
        curLink := boxedNode.next;
      }
    }
  }

  /** The test at src/second.rs:55-75: what pops see is last in, first out. */
  method Smoke() returns (popped: seq<Option<i32>>)
    ensures popped == [None, Some(1), None, Some(1), Some(2), Some(3), None]
  {
    var list := new List();
    var a := list.Pop();
    list.Push(1);
    var b := list.Pop();
    var c := list.Pop();
    list.Push(3);
    list.Push(2);
    list.Push(1);
    var d := list.Pop();
    var e := list.Pop();
    var f := list.Pop();
    var g := list.Pop();
    popped := [a, b, c, d, e, f, g];
  }
}
