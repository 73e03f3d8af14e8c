/** The three double-ended iterators of `LinkedList<T>`.

    `Iter` and `IterMut` hold a `front` handle, a `back` handle and a
    remaining count `len`, and never change the list's links; the count, not
    a comparison of the two handles, decides when they are exhausted.
    `IntoIter` owns the list and pops it from either end. */
module ProductionIter {
  import opened Core
  import opened ProductionList

  /** `Iter<'a, T>` (`LinkedList::iter`). The ghost field `lo` is the
      position of `front` in the list: `next` has yielded the nodes before
      it, and `next_back` the nodes from `lo + len` on. The list itself is
      borrowed and stays valid for the iterator's lifetime, so the methods
      take `list.Valid()` as a precondition. */
  class Iter<T> {
    var front: Node?<T>
    var back: Node?<T>
    var len: nat
    /** The list borrowed for the iterator's lifetime. */
    ghost const list: LinkedList<T>
    ghost var lo: nat

    /** The remaining window `[lo, lo + len)` lies inside the list, and
        `front`/`back` are its ends whenever it is not empty. */
    ghost predicate Valid()
      reads this, list
    {
      && lo + len <= |list.nodes|
      && (len > 0 ==> front == list.nodes[lo] && back == list.nodes[lo + len - 1])
    }

    /** The elements not yet yielded by either end. */
    ghost function Remaining(): seq<T>
      requires Valid() && list.Valid()
      reads this, list, list.nodes
    {
      list.Elems()[lo..lo + len]
    }

    constructor (list: LinkedList<T>)
      requires list.Valid()
      ensures Valid() && this.list == list
      ensures lo == 0 && len == list.len
      ensures Remaining() == list.Elems()
    {
      front := list.front;
      back := list.back;
      len := list.len;
      this.list := list;
      lo := 0;
    }

    /** `next()`: the element at the front of the window, which then
        shrinks by one from the front. */
    method Next() returns (r: Option<T>)
      requires Valid() && list.Valid()
      modifies this
      ensures Valid()
      ensures old(len) == 0 ==> r == None && len == 0 && lo == old(lo)
      ensures old(len) > 0 ==> && r == Some(list.Elems()[old(lo)])
                               && lo == old(lo) + 1
                               && len == old(len) - 1
    {
      if len == 0 {
        return None;
      }
      var node: Node<T> := front;
      assert LinkedAt(list.nodes, lo);
      ElemsOfAt(list.nodes, lo);
      len := len - 1;
      front := node.back;
      r := Some(node.elem);
      lo := lo + 1;
    }

    /** `next_back()`: the element at the back of the window, which then
        shrinks by one from the back. */
    method NextBack() returns (r: Option<T>)
      requires Valid() && list.Valid()
      modifies this
      ensures Valid() && lo == old(lo)
      ensures old(len) == 0 ==> r == None && len == 0
      ensures old(len) > 0 ==> && r == Some(list.Elems()[lo + old(len) - 1])
                               && len == old(len) - 1
    {
      if len == 0 {
        return None;
      }
      var node: Node<T> := back;
      assert LinkedAt(list.nodes, lo + len - 2);
      ElemsOfAt(list.nodes, lo + len - 1);
      len := len - 1;
      back := node.front;
      r := Some(node.elem);
    }

    /** `size_hint()`: exact bounds on what is left. */
    function SizeHint(): (r: (nat, Option<nat>))
      requires Valid() && list.Valid()
      reads this, list, list.nodes
      ensures r == (|Remaining()|, Some(|Remaining()|))
    {
      (len, Some(len))
    }

    /** `ExactSizeIterator::len()`. */
    function Len(): (n: nat)
      requires Valid() && list.Valid()
      reads this, list, list.nodes
      ensures n == |Remaining()|
    {
      len
    }
  }

  /** `IterMut<'a, T>` (`LinkedList::iter_mut`): like `Iter`, but it hands
      out the places holding the elements (the nodes) so that the caller
      may overwrite them; the links are never touched. */
  class IterMut<T> {
    var front: Node?<T>
    var back: Node?<T>
    var len: nat
    ghost const list: LinkedList<T>
    ghost var lo: nat

    ghost predicate Valid()
      reads this, list
    {
      && lo + len <= |list.nodes|
      && (len > 0 ==> front == list.nodes[lo] && back == list.nodes[lo + len - 1])
    }

    /** The places not yet handed out. */
    ghost function Remaining(): seq<Node<T>>
      requires Valid()
      reads this, list
    {
      list.nodes[lo..lo + len]
    }

    constructor (list: LinkedList<T>)
      requires list.Valid()
      ensures Valid() && this.list == list
      ensures lo == 0 && len == list.len
      ensures Remaining() == list.nodes
    {
      front := list.front;
      back := list.back;
      len := list.len;
      this.list := list;
      lo := 0;
    }

    method Next() returns (r: Option<Node<T>>)
      requires Valid() && list.Valid()
      modifies this
      ensures Valid()
      ensures old(len) == 0 ==> r == None && len == 0 && lo == old(lo)
      ensures old(len) > 0 ==> && r == Some(list.nodes[old(lo)])
                               && lo == old(lo) + 1
                               && len == old(len) - 1
    {
      if len == 0 {
        return None;
      }
      var node: Node<T> := front;
      assert LinkedAt(list.nodes, lo);
      len := len - 1;
      front := node.back;
      r := Some(node);
      lo := lo + 1;
    }

    method NextBack() returns (r: Option<Node<T>>)
      requires Valid() && list.Valid()
      modifies this
      ensures Valid() && lo == old(lo)
      ensures old(len) == 0 ==> r == None && len == 0
      ensures old(len) > 0 ==> && r == Some(list.nodes[lo + old(len) - 1])
                               && len == old(len) - 1
    {
      if len == 0 {
        return None;
      }
      var node: Node<T> := back;
      assert LinkedAt(list.nodes, lo + len - 2);
      len := len - 1;
      back := node.front;
      r := Some(node);
    }

    function SizeHint(): (r: (nat, Option<nat>))
      requires Valid()
      reads this, list
      ensures r == (|Remaining()|, Some(|Remaining()|))
    {
      (len, Some(len))
    }

    function Len(): (n: nat)
      requires Valid()
      reads this, list
      ensures n == |Remaining()|
    {
      len
    }
  }

  /** `IntoIter<T>` (`LinkedList::into_iter`): owns the list; `next` is
      `pop_front` and `next_back` is `pop_back`. */
  class IntoIter<T> {
    const list: LinkedList<T>

    /** `into_iter()`: the iterator takes ownership of the whole list. */
    constructor (list: LinkedList<T>)
      requires list.Valid()
      ensures this.list == list && this.list.Valid()
    {
      this.list := list;
    }

    method Next() returns (r: Option<T>)
      requires list.Valid()
      modifies list, list.nodes
      ensures list.Valid()
      ensures old(list.len) == 0 ==> r == None && list.Elems() == []
      ensures old(list.len) > 0 ==> r == Some(old(list.Elems())[0]) && list.Elems() == old(list.Elems())[1..]
    {
      assert LinkedAt(list.nodes, 0);
      r := list.PopFront();
    }

    method NextBack() returns (r: Option<T>)
      requires list.Valid()
      modifies list, list.nodes
      ensures list.Valid()
      ensures old(list.len) == 0 ==> r == None && list.Elems() == []
      ensures old(list.len) > 0 ==> && r == Some(old(list.Elems())[old(list.len) - 1])
                                    && list.Elems() == old(list.Elems())[..old(list.len) - 1]
    {
      assert LinkedAt(list.nodes, list.len - 2);
      r := list.PopBack();
    }

    /** `size_hint()`: the owned list's length, exactly. */
    function SizeHint(): (r: (nat, Option<nat>))
      requires list.Valid()
      reads this, list, list.nodes
      ensures r == (|list.Elems()|, Some(|list.Elems()|))
    {
      (list.len, Some(list.len))
    }

    /** `ExactSizeIterator::len()`. */
    function Len(): (n: nat)
      requires list.Valid()
      reads this, list, list.nodes
      ensures n == |list.Elems()|
    {
      list.len
    }
  }
}
