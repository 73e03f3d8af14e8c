/** The stack of src/first.rs: the list holds a `Link`, which is either
    `Empty` or `More`, a box owning a node; each node holds an `i32` and the
    next link. Every box has exactly one owner, so links are values here and
    the list is an object whose `head` field `push` and `pop` reassign. */
module First {
  import opened Core

  datatype Link = Empty | More(node: Node)

  datatype Node = Node(elem: i32, next: Link)

  /** The elements from the top of the stack down. */
  function Elems(link: Link): seq<i32>
  {
    match link
    case Empty => []
    case More(node) => [node.elem] + Elems(node.next)
  }

  /** A link is determined by its elements: `Elems` forgets nothing, so the
      contracts below, stated on elements, pin the links down too. */
  lemma {:induction false} ElemsInjective(a: Link, b: Link)
    requires Elems(a) == Elems(b)
    ensures a == b
  {
    match a
    case Empty =>
    case More(na) =>
      var nb := b.node;
      assert Elems(nb.next) == Elems(b)[1..];
      ElemsInjective(na.next, nb.next);
  }

  class List {
    var head: Link

    /** `List::new`: the empty stack. */
    constructor ()
      ensures head == Empty && Elems(head) == []
    {
      head := Empty;
    }

    /** `push`: the new node, whose `next` is the old head, becomes the
        head; the element goes on top. */
    method Push(elem: i32)
      modifies this
      ensures head == More(Node(elem, old(head)))
      ensures Elems(head) == [elem] + old(Elems(head))
    {
      var next := head;
      head := More(Node(elem, next));
    }

    /** `pop`: the head is replaced by `Empty`; if it was a node, its
        element is returned and its `next` becomes the head. */
    method Pop() returns (r: Option<i32>)
      modifies this
      ensures old(head) == Empty ==> r == None && head == Empty
      ensures old(head).More? ==> r == Some(old(head).node.elem) && head == old(head).node.next
      ensures old(Elems(head)) != [] ==> r == Some(old(Elems(head))[0]) && Elems(head) == old(Elems(head))[1..]
    {
      var taken := head;
      head := Empty;
      match taken
      case Empty =>
        r := None;
      case More(node) =>
        r := Some(node.elem);
        head := node.next;
    }
  }

  /** The test at src/first.rs:47-66: what pops see is last in, first out. */
  method Smoke() returns (popped: seq<Option<i32>>)
    ensures popped == [None, Some(1), None, Some(1), Some(2), Some(3), None]
  {
    var list := new List();
    var a := list.Pop();
    list.Push(1);
    var b := list.Pop();
    var c := list.Pop();
    list.Push(3);
    list.Push(2);
    list.Push(1);
    var d := list.Pop();
    var e := list.Pop();
    var f := list.Pop();
    var g := list.Pop();
    popped := [a, b, c, d, e, f, g];
  }
}
