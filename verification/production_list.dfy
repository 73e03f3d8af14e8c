/** The production-quality doubly linked deque `LinkedList<T>`: a `front`
    handle, a `back` handle and a cached `len`, over heap nodes that each
    link to their neighbour towards the front and towards the back.

    Each node is a Dafny object; the ghost field `nodes` lists the nodes
    of a list from front to back, and `Valid()` is the invariant every
    operation keeps: the cached length is the number of nodes, the links
    between neighbours are symmetric, the end nodes have no outer link, and
    `front`/`back` are the end nodes (both null exactly when the list is
    empty). A node a pop removes simply leaves `nodes`. */
module ProductionList {
  import opened Core

  /** A heap node: the element and the links to its two neighbours. */
  class Node<T> {
    var front: Node?<T>
    var back: Node?<T>
    var elem: T

    constructor (elem: T)
      ensures this.front == null && this.back == null && this.elem == elem
    {
      this.front := null;
      this.back := null;
      this.elem := elem;
    }
  }

  /** The elements held by the nodes `ns`, in the same order. */
  ghost function ElemsOf<T>(ns: seq<Node<T>>): (s: seq<T>)
    reads ns`elem
    ensures |s| == |ns|
  {
    if ns == [] then [] else ElemsOf(ns[..|ns| - 1]) + [ns[|ns| - 1].elem]
  }

  /** Position `i` of the element sequence is the element of node `i`. */
  lemma {:induction false} ElemsOfAt<T>(ns: seq<Node<T>>, i: int)
    requires 0 <= i < |ns|
    ensures ElemsOf(ns)[i] == ns[i].elem
  {
    if i < |ns| - 1 {
      ElemsOfAt(ns[..|ns| - 1], i);
    }
  }

  /** The elements of a slice of the nodes are the same slice of the
      elements. */
  lemma {:induction false} ElemsOfSlice<T>(ns: seq<Node<T>>, a: int, b: int)
    requires 0 <= a <= b <= |ns|
    ensures ElemsOf(ns[a..b]) == ElemsOf(ns)[a..b]
  {
    forall k | 0 <= k < b - a
      ensures ElemsOf(ns[a..b])[k] == ElemsOf(ns)[a..b][k]
    {
      ElemsOfAt(ns[a..b], k);
      ElemsOfAt(ns, a + k);
    }
  }

  /** The elements of two chains put one after the other. */
  lemma {:induction false} ElemsOfAppend<T>(xs: seq<Node<T>>, ys: seq<Node<T>>)
    ensures ElemsOf(xs + ys) == ElemsOf(xs) + ElemsOf(ys)
  {
    forall k | 0 <= k < |xs| + |ys|
      ensures ElemsOf(xs + ys)[k] == (ElemsOf(xs) + ElemsOf(ys))[k]
    {
      ElemsOfAt(xs + ys, k);
      if k < |xs| {
        ElemsOfAt(xs, k);
      } else {
        ElemsOfAt(ys, k - |xs|);
      }
    }
  }

  /** The element sequence is read off the nodes one by one: whatever
      writes went to the nodes' `elem` fields, the elements are what the
      nodes hold now. */
  lemma ElemsOfIs<T>(ns: seq<Node<T>>, e: seq<T>)
    requires |e| == |ns| && forall i :: 0 <= i < |ns| ==> ns[i].elem == e[i]
    ensures ElemsOf(ns) == e
  {
    forall i | 0 <= i < |ns| ensures ElemsOf(ns)[i] == e[i] {
      ElemsOfAt(ns, i);
    }
  }

  /** The elements of `ns` do not change when no node's `elem` does. */
  twostate lemma {:induction false} ElemsOfUnchanged<T>(ns: seq<Node<T>>)
    requires forall i :: 0 <= i < |ns| ==> ns[i].elem == old(ns[i].elem)
    ensures ElemsOf(ns) == old(ElemsOf(ns))
  {
    if ns != [] {
      ElemsOfUnchanged(ns[..|ns| - 1]);
    }
  }

  /** The nodes at positions `i` and `i + 1` of `ns` (when both exist)
      link to each other: the first one's `back` is the second and the
      second one's `front` is the first. */
  ghost predicate LinkedAt<T>(ns: seq<Node<T>>, i: int)
    reads ns`front, ns`back
  {
    0 <= i < |ns| - 1 ==> ns[i].back == ns[i + 1] && ns[i + 1].front == ns[i]
  }

  /** The nodes at two different positions `i < j` of `ns` (when both
      exist) are different objects. */
  ghost predicate DistinctAt<T>(ns: seq<Node<T>>, i: int, j: int)
  {
    0 <= i < j < |ns| ==> ns[i] != ns[j]
  }

  /** No node occurs twice in `ns`. */
  ghost predicate Distinct<T>(ns: seq<Node<T>>)
  {
    forall i, j :: DistinctAt(ns, i, j)
  }

  /** Two sequences of distinct nodes with no node in common make one. */
  lemma DistinctAppend<T>(xs: seq<Node<T>>, ys: seq<Node<T>>)
    requires Distinct(xs) && Distinct(ys)
    requires forall x :: x in xs ==> x !in ys
    ensures Distinct(xs + ys)
  {
    var s := xs + ys;
    forall i, j | 0 <= i < j < |s| ensures DistinctAt(s, i, j) {
      if j < |xs| {
        assert DistinctAt(xs, i, j);
      } else if |xs| <= i {
        assert DistinctAt(ys, i - |xs|, j - |xs|);
      } else {
        assert s[i] in xs && s[j] in ys;
      }
    }
  }

  /** A slice of a sequence of distinct nodes has distinct nodes. */
  lemma DistinctSlice<T>(ns: seq<Node<T>>, a: int, b: int)
    requires Distinct(ns) && 0 <= a <= b <= |ns|
    ensures Distinct(ns[a..b])
  {
    forall i, j | 0 <= i < j < b - a ensures DistinctAt(ns[a..b], i, j) {
      assert DistinctAt(ns, a + i, a + j);
    }
  }

  /** `ns` is a well-formed chain: no node occurs twice, neighbours link to
      each other, and the two ends have no outer link. */
  ghost predicate Chained<T>(ns: seq<Node<T>>)
    reads ns`front, ns`back
  {
    && Distinct(ns)
    && (forall i :: LinkedAt(ns, i))
    && (|ns| > 0 ==> ns[0].front == null && ns[|ns| - 1].back == null)
  }

  /** Linking a new node `n` in after the last node of a chain gives a
      chain one longer, when no link changed but
      the old last node's `back` (now `n`) and `n`'s own. */
  twostate lemma ChainSnoc<T>(ns: seq<Node<T>>, new n: Node<T>)
    requires old(Chained(ns)) && n !in ns
    requires forall i :: 0 <= i < |ns| ==> ns[i].front == old(ns[i].front)
    requires forall i :: 0 <= i < |ns| ==> ns[i] == ns[|ns| - 1] || ns[i].back == old(ns[i].back)
    requires |ns| > 0 ==> ns[|ns| - 1].back == n && n.front == ns[|ns| - 1]
    requires |ns| == 0 ==> n.front == null
    requires n.back == null
    ensures Chained(ns + [n])
  {
    var s := ns + [n];
    DistinctAppend(ns, [n]);
    forall i | 0 <= i < |ns| - 1 ensures LinkedAt(s, i) {
      assert old(LinkedAt(ns, i)) && DistinctAt(ns, i, |ns| - 1);
    }
    assert LinkedAt(s, |ns| - 1);
  }

  /** Linking a new node `n` in before the first node of a chain gives a
      chain one longer, when no link changed but
      the old first node's `front` (now `n`) and `n`'s own. */
  twostate lemma ChainCons<T>(new n: Node<T>, ns: seq<Node<T>>)
    requires old(Chained(ns)) && n !in ns
    requires forall i :: 0 <= i < |ns| ==> ns[i].back == old(ns[i].back)
    requires forall i :: 0 <= i < |ns| ==> ns[i] == ns[0] || ns[i].front == old(ns[i].front)
    requires |ns| > 0 ==> ns[0].front == n && n.back == ns[0]
    requires |ns| == 0 ==> n.back == null
    requires n.front == null
    ensures Chained([n] + ns)
  {
    var s := [n] + ns;
    DistinctAppend([n], ns);
    forall i | 1 <= i < |ns| ensures LinkedAt(s, i) {
      assert old(LinkedAt(ns, i - 1)) && DistinctAt(ns, 0, i);
    }
    assert LinkedAt(s, 0);
  }

  /** Unlinking the first node of a chain leaves the rest a chain, when no
      link changed but the second node's `front` (now null) and, possibly,
      the first node's `back`. */
  twostate lemma ChainTail<T>(ns: seq<Node<T>>)
    requires old(Chained(ns)) && |ns| > 0
    requires forall i :: 0 <= i < |ns| ==> ns[i] == ns[0] || ns[i].back == old(ns[i].back)
    requires forall i :: 0 <= i < |ns| ==> (|ns| > 1 && ns[i] == ns[1]) || ns[i].front == old(ns[i].front)
    requires |ns| > 1 ==> ns[1].front == null
    ensures Chained(ns[1..])
  {
    var s := ns[1..];
    DistinctSlice(ns, 1, |ns|);
    assert s == ns[1..|ns|] && DistinctAt(ns, 0, |ns| - 1);
    forall i | 0 <= i < |s| - 1 ensures LinkedAt(s, i) {
      assert old(LinkedAt(ns, i + 1)) && DistinctAt(ns, 1, i + 2) && DistinctAt(ns, 0, i + 1);
    }
  }

  /** Unlinking the last node of a chain leaves the rest a chain, when no
      link changed but the last-but-one node's `back` (now null) and,
      possibly, the last node's `front`. */
  twostate lemma ChainInit<T>(ns: seq<Node<T>>)
    requires old(Chained(ns)) && |ns| > 0
    requires forall i :: 0 <= i < |ns| ==> ns[i] == ns[|ns| - 1] || ns[i].front == old(ns[i].front)
    requires forall i :: 0 <= i < |ns| ==> (|ns| > 1 && ns[i] == ns[|ns| - 2]) || ns[i].back == old(ns[i].back)
    requires |ns| > 1 ==> ns[|ns| - 2].back == null
    ensures Chained(ns[..|ns| - 1])
  {
    var s := ns[..|ns| - 1];
    DistinctSlice(ns, 0, |ns| - 1);
    assert DistinctAt(ns, 0, |ns| - 1);
    forall i | 0 <= i < |s| - 1 ensures LinkedAt(s, i) {
      assert old(LinkedAt(ns, i)) && DistinctAt(ns, i, |ns| - 2) && DistinctAt(ns, i + 1, |ns| - 1);
    }
  }

  /** The elements after linking `n` in at the back, when no element of
      `ns` changed. */
  twostate lemma ElemsSnoc<T>(ns: seq<Node<T>>, new n: Node<T>)
    requires forall i :: 0 <= i < |ns| ==> ns[i].elem == old(ns[i].elem)
    ensures ElemsOf(ns + [n]) == old(ElemsOf(ns)) + [n.elem]
  {
    ElemsOfAppend(ns, [n]);
    assert ElemsOf([n]) == [n.elem];
    ElemsOfUnchanged(ns);
  }

  /** The elements after linking `n` in at the front, when no element of
      `ns` changed. */
  twostate lemma ElemsCons<T>(new n: Node<T>, ns: seq<Node<T>>)
    requires forall i :: 0 <= i < |ns| ==> ns[i].elem == old(ns[i].elem)
    ensures ElemsOf([n] + ns) == [n.elem] + old(ElemsOf(ns))
  {
    ElemsOfAppend([n], ns);
    assert ElemsOf([n]) == [n.elem];
    ElemsOfUnchanged(ns);
  }

  /** The elements after unlinking the first node, when no element of
      `ns` changed. */
  twostate lemma ElemsTail<T>(ns: seq<Node<T>>)
    requires |ns| > 0
    requires forall i :: 0 <= i < |ns| ==> ns[i].elem == old(ns[i].elem)
    ensures ElemsOf(ns[1..]) == old(ElemsOf(ns))[1..]
  {
    ElemsOfUnchanged(ns);
    ElemsOfSlice(ns, 1, |ns|);
    assert ns[1..] == ns[1..|ns|];
  }

  /** The elements after unlinking the last node, when no element of
      `ns` changed. */
  twostate lemma ElemsInit<T>(ns: seq<Node<T>>)
    requires |ns| > 0
    requires forall i :: 0 <= i < |ns| ==> ns[i].elem == old(ns[i].elem)
    ensures ElemsOf(ns[..|ns| - 1]) == old(ElemsOf(ns))[..|ns| - 1]
  {
    ElemsOfUnchanged(ns);
    ElemsOfSlice(ns, 0, |ns| - 1);
  }

  class LinkedList<T> {
    var front: Node?<T>
    var back: Node?<T>
    var len: nat
    /** The nodes of the list, front to back. */
    ghost var nodes: seq<Node<T>>

    ghost predicate Valid()
      reads this, nodes`front, nodes`back
    {
      && len == |nodes|
      && Chained(nodes)
      && (len == 0 ==> front == null && back == null)
      && (len > 0 ==> front == nodes[0] && back == nodes[len - 1])
    }

    /** The front-to-back element sequence: the abstract value of the list. */
    ghost function Elems(): seq<T>
      reads this, nodes`elem
    {
      ElemsOf(nodes)
    }

    /** `LinkedList::new` (also `Default::default`). */
    constructor ()
      ensures Valid() && nodes == [] && Elems() == []
    {
      front := null;
      back := null;
      len := 0;
      nodes := [];
    }

    /** Neighbour links are symmetric: whenever a node's `back` is another
        node, that node's `front` is the first one, and the other way round. */
    lemma LinksSymmetric(a: Node<T>)
      requires Valid() && a in nodes
      ensures a.back != null ==> a.back in nodes && a.back.front == a
      ensures a.front != null ==> a.front in nodes && a.front.back == a
    {
      var i :| 0 <= i < |nodes| && nodes[i] == a;
      assert LinkedAt(nodes, i) && LinkedAt(nodes, i - 1);
      if a.back != null {
        assert a.back == nodes[i + 1];
      }
      if a.front != null {
        assert a.front == nodes[i - 1];
      }
    }

    method PushFront(elem: T)
      requires Valid()
      modifies this, front
      ensures Valid()
      ensures front != null && fresh(front) && nodes == [front] + old(nodes)
      ensures Elems() == [elem] + old(Elems())
      ensures len == old(len) + 1
      ensures old(len) > 0 ==> back == old(back)
    {
      var n := new Node(elem);
      if front != null {
        front.front := n;
        n.back := front;
      } else {
        back := n;
      }
      front := n;
      len := len + 1;
      ChainCons(n, nodes);
      ElemsCons(n, nodes);
      nodes := [n] + nodes;
    }

    method PushBack(elem: T)
      requires Valid()
      modifies this, back
      ensures Valid()
      ensures back != null && fresh(back) && nodes == old(nodes) + [back]
      ensures Elems() == old(Elems()) + [elem]
      ensures len == old(len) + 1
      ensures old(len) > 0 ==> front == old(front)
    {
      var n := new Node(elem);
      if back != null {
        back.back := n;
        n.front := back;
      } else {
        front := n;
      }
      back := n;
      len := len + 1;
      ChainSnoc(nodes, n);
      ElemsSnoc(nodes, n);
      nodes := nodes + [n];
    }

    method PopFront() returns (r: Option<T>)
      requires Valid()
      modifies this, if front == null then {} else {front.back}
      ensures Valid()
      ensures old(len) == 0 ==> r == None && nodes == [] && Elems() == []
      ensures old(len) > 0 ==> && r == Some(old(Elems())[0])
                               && nodes == old(nodes)[1..]
                               && Elems() == old(Elems())[1..]
      ensures len == if old(len) == 0 then 0 else old(len) - 1
      ensures old(len) > 1 ==> back == old(back)
    {
      if front == null {
        return None;
      }
      var node := front;
      ghost var ns := nodes;
      assert node == ns[0] && (|ns| > 1 ==> node.back == ns[1]) by {
        assert LinkedAt(ns, 0);
      }
      ElemsOfAt(ns, 0);
      r := Some(node.elem);
      front := node.back;
      if front != null {
        front.front := null;
      } else {
        back := null;
      }
      len := len - 1;
      ChainTail(ns);
      ElemsTail(ns);
      nodes := ns[1..];
    }

    method PopBack() returns (r: Option<T>)
      requires Valid()
      modifies this, if back == null then {} else {back.front}
      ensures Valid()
      ensures old(len) == 0 ==> r == None && nodes == [] && Elems() == []
      ensures old(len) > 0 ==> && r == Some(old(Elems())[old(len) - 1])
                               && nodes == old(nodes)[..old(len) - 1]
                               && Elems() == old(Elems())[..old(len) - 1]
      ensures len == if old(len) == 0 then 0 else old(len) - 1
      ensures old(len) > 1 ==> front == old(front)
    {
      if back == null {
        return None;
      }
      var node := back;
      ghost var ns := nodes;
      ghost var k := |ns| - 1;
      assert node == ns[k] && (k > 0 ==> node.front == ns[k - 1]) by {
        assert LinkedAt(ns, k - 1);
      }
      ElemsOfAt(ns, k);
      r := Some(node.elem);
      back := node.front;
      if back != null {
        back.back := null;
      } else {
        front := null;
      }
      len := len - 1;
      ChainInit(ns);
      ElemsInit(ns);
      nodes := ns[..k];
    }

    /** `front()`: the first element, if any. */
    function Front(): (r: Option<T>)
      requires Valid()
      reads this, nodes
      ensures r.None? <==> Elems() == []
      ensures r.Some? ==> r.value == Elems()[0]
    {
      if front == null then None else ElemsOfAt(nodes, 0); Some(front.elem)
    }

    /** `back()`: the last element, if any. */
    function Back(): (r: Option<T>)
      requires Valid()
      reads this, nodes
      ensures r.None? <==> Elems() == []
      ensures r.Some? ==> r.value == Elems()[|Elems()| - 1]
    {
      if back == null then None else ElemsOfAt(nodes, len - 1); Some(back.elem)
    }

    /** `front_mut()`: the place holding the first element; writing its
        `elem` changes the first element of the list in place. */
    function FrontMut(): (r: Option<Node<T>>)
      requires Valid()
      reads this, nodes
      ensures r.None? <==> nodes == []
      ensures r.Some? ==> r.value == nodes[0]
    {
      if front == null then None else Some(front as Node<T>)
    }

    /** `back_mut()`: the place holding the last element. */
    function BackMut(): (r: Option<Node<T>>)
      requires Valid()
      reads this, nodes
      ensures r.None? <==> nodes == []
      ensures r.Some? ==> r.value == nodes[|nodes| - 1]
    {
      if back == null then None else Some(back as Node<T>)
    }

    /** `len()`: the cached counter is the true number of elements. */
    function Len(): (n: nat)
      requires Valid()
      reads this, nodes
      ensures n == |Elems()|
    {
      len
    }

    /** `is_empty()`. */
    function IsEmpty(): (b: bool)
      requires Valid()
      reads this, nodes
      ensures b <==> Elems() == []
    {
      len == 0
    }

    /** `clear()`: pop from the front until a pop returns `None`. */
    method Clear()
      requires Valid()
      modifies this, nodes
      ensures Valid() && Elems() == [] && len == 0
    {
      ghost var k := 0;
      while true
        invariant Valid()
        invariant k <= |old(nodes)| && nodes == old(nodes)[k..]
        decreases len
      {
        DropStep(old(nodes), k);
        assert LinkedAt(nodes, 0);
        var r := PopFront();
        if r.None? {
          break;
        }
        k := k + 1;
      }
    }

    /** `Drop::drop`: the same pop-until-empty loop as `clear`, so every
        node leaves the list exactly once. */
    method Drop()
      requires Valid()
      modifies this, nodes
      ensures Valid() && Elems() == [] && len == 0
    {
      Clear();
    }

    /** One round of the `extend` loop: push `items[i]` at the back, with
        the loop's bookkeeping about the elements and the new nodes. */
    method ExtendStep(items: seq<T>, i: nat, ghost e0: seq<T>, ghost n0: seq<Node<T>>, ghost added: seq<Node<T>>)
      returns (ghost added': seq<Node<T>>)
      requires Valid() && i < |items|
      requires Elems() == e0 + items[..i] && nodes == n0 + added
      modifies this, back
      ensures Valid() && Elems() == e0 + items[..i + 1]
      ensures nodes == n0 + added' && added' == added + [back] && back != null && fresh(back)
    {
      PushBack(items[i]);
      added' := added + [back];
      AppendAssoc(n0, added, [back]);
      AppendAssoc(e0, items[..i], [items[i]]);
      PrefixStep(items, i);
    }

    /** `Extend::extend`: push every item at the back, in input order.
        `added` names the new nodes, all freshly allocated. */
    method Extend(items: seq<T>) returns (ghost added: seq<Node<T>>)
      requires Valid()
      modifies this, nodes
      ensures Valid()
      ensures Elems() == old(Elems()) + items
      ensures nodes == old(nodes) + added && |added| == |items| && fresh(added)
    {
      added := [];
      for i := 0 to |items|
        invariant Valid()
        invariant Elems() == old(Elems()) + items[..i]
        invariant nodes == old(nodes) + added && |added| == i
        invariant fresh(added)
      {
        added := ExtendStep(items, i, old(Elems()), old(nodes), added);
      }
    }

    /** `FromIterator::from_iter`: a new list holding `items` in order. */
    static method FromIter(items: seq<T>) returns (r: LinkedList<T>)
      ensures fresh(r) && r.Valid()
      ensures r.Elems() == items
      ensures fresh(r.nodes)
    {
      r := new LinkedList();
      var _ := r.Extend(items);
    }
  }

  /** A list none of whose objects changed keeps its invariant and its
      elements. */
  twostate lemma FrameValid<T>(l: LinkedList<T>)
    requires old(l.Valid()) && unchanged(l) && unchanged(old(l.nodes))
    ensures l.Valid() && l.Elems() == old(l.Elems())
  {
  }
}
