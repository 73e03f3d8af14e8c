/** The persistent list of src/third.rs. Nodes are shared through `Rc`
    and never changed after they are built, so lists and nodes are values:
    `cons` and `tail` build new lists that share the receiver's nodes, and
    leave the receiver as it was. Only the iterator changes state. */
module Third {
  import opened Core

  datatype Node<T> = Node(elem: T, next: Option<Node<T>>)

  /** The elements reachable from a link, first to last. */
  function LinkElems<T>(link: Option<Node<T>>): seq<T>
  {
    match link
    case None => []
    case Some(node) => [node.elem] + LinkElems(node.next)
  }

  datatype List<T> = List(head: Option<Node<T>>) {

    /** The elements of the list, head first. */
    function Elems(): seq<T>
    {
      LinkElems(head)
    }

    /** `cons`: a list one longer, whose head is `elem` and whose tail is
        this very list, shared rather than copied. */
    function Cons(elem: T): (r: List<T>)
      ensures r.Head() == Some(elem)
      ensures r.Tail() == this
      ensures r.Elems() == [elem] + Elems()
    {
      List(Some(Node(elem, head)))
    }

    /** `head`: the first element, or None for the empty list. */
    function Head(): (r: Option<T>)
      ensures r.None? <==> Elems() == []
      ensures r.Some? ==> r.value == Elems()[0]
    {
      match head
      case None => None
      case Some(node) => Some(node.elem)
    }

    /** `tail`: the list without its first element; the tail of the empty
        list is the empty list. */
    function Tail(): (r: List<T>)
      ensures Elems() == [] ==> r.Elems() == []
      ensures Elems() != [] ==> r.Elems() == Elems()[1..]
    {
      List(match head case None => None case Some(node) => node.next)
    }
  }

  /** `List::new`: the empty list. */
  function New<T>(): (r: List<T>)
    ensures r.Elems() == [] && r.Head() == None
  {
    List(None)
  }

  /** Consing and then taking the tail gives back the original list, and
      the tail of a cons of every element of `xs` onto `l` in turn is `l`
      again after `|xs|` tails: the list shares, and never changes, the
      nodes it was built from. */
  lemma {:induction false} TailsUndoConses<T>(l: List<T>, xs: seq<T>)
    ensures TailN(ConsAll(l, xs), |xs|) == l
  {
    if xs != [] {
      var last := xs[|xs| - 1];
      var init := xs[..|xs| - 1];
      assert ConsAll(l, xs) == ConsAll(l, init).Cons(last);
      TailsUndoConses(l, init);
    }
  }

  /** `l.cons(xs[0]).cons(xs[1])...`, in that order. */
  function ConsAll<T>(l: List<T>, xs: seq<T>): List<T>
  {
    if xs == [] then l else ConsAll(l, xs[..|xs| - 1]).Cons(xs[|xs| - 1])
  }

  /** `n` calls of `tail`, one after another. */
  function TailN<T>(l: List<T>, n: nat): List<T>
    decreases n
  {
    if n == 0 then l else TailN(l.Tail(), n - 1)
  }

  /** `Iter<'a, T>` (`List::iter`): `next` is the node still to be read. */
  class Iter<T> {
    var next: Option<Node<T>>

    /** The elements still to be yielded. */
    function Rest(): seq<T>
      reads this
    {
      LinkElems(next)
    }

    /** `iter()`: starts at the head. */
    constructor (list: List<T>)
      ensures next == list.head && Rest() == list.Elems()
    {
      next := list.head;
    }

    /** `next`: None, for good, once no node is left; otherwise the
        element of the next node, stepping to that node's `next`. */
    method Next() returns (r: Option<T>)
      modifies this
      ensures old(Rest()) == [] ==> r == None && Rest() == []
      ensures old(Rest()) != [] ==> r == Some(old(Rest())[0]) && Rest() == old(Rest())[1..]
    {
      if next.None? {
        return None;
      }
      var node := next.value;
      next := node.next;
      r := Some(node.elem);
    }
  }

  /** The test at src/third.rs:66-91: the heads seen while consing 1, 2, 3
      onto the empty list and then taking tails. */
  method Smoke() returns (heads: seq<Option<int>>)
    ensures heads == [None, None, Some(1), Some(3), Some(2), Some(1), None]
  {
    var list := New<int>();
    var a := list.Head();
    var b := list.Tail().Head();
    list := list.Cons(1);
    var c := list.Head();
    list := list.Cons(2).Cons(3);
    var d := list.Head();
    list := list.Tail();
    var e := list.Head();
    list := list.Tail();
    var f := list.Head();
    list := list.Tail();
    var g := list.Head();
    heads := [a, b, c, d, e, f, g];
  }

  /** The test at src/third.rs:94-105: an iterator over the empty list
      yields None, and one over `new().cons(1).cons(2).cons(3)` yields 3, 2,
      1, None. */
  method IterScenario() returns (items: seq<Option<int>>)
    ensures items == [None, Some(3), Some(2), Some(1), None]
  {
    var empty := new Iter(New<int>());
    var a := empty.Next();
    var it := new Iter(New<int>().Cons(1).Cons(2).Cons(3));
    var b := it.Next();
    var c := it.Next();
    var d := it.Next();
    var e := it.Next();
    items := [a, b, c, d, e];
  }
}
