/** The singly linked nodes of the two queues of src/fifth.rs and
    src/sixth.rs. A node holds an element and a `next` link. A queue's ghost
    sequence of nodes runs from `head` to `tail` along the `next` links. */
module QueueNodes {

  class Node<T> {
    var elem: T
    var next: Node?<T>

    constructor (elem: T)
      ensures this.elem == elem && this.next == null
    {
      this.elem := elem;
      this.next := null;
    }
  }

  /** The elements held by the nodes `ns`, in the same order. */
  ghost function ElemsOf<T>(ns: seq<Node<T>>): (s: seq<T>)
    reads ns`elem
    ensures |s| == |ns|
  {
    if ns == [] then [] else ElemsOf(ns[..|ns| - 1]) + [ns[|ns| - 1].elem]
  }

  /** Position `i` of the element sequence is the element of node `i`. */
  lemma {:induction false} ElemsOfAt<T>(ns: seq<Node<T>>, i: int)
    requires 0 <= i < |ns|
    ensures ElemsOf(ns)[i] == ns[i].elem
  {
    if i < |ns| - 1 {
      ElemsOfAt(ns[..|ns| - 1], i);
    }
  }

  /** The element sequence of nodes whose elements did not change. */
  twostate lemma {:induction false} ElemsOfUnchanged<T>(ns: seq<Node<T>>)
    requires forall i :: 0 <= i < |ns| ==> ns[i].elem == old(ns[i].elem)
    ensures ElemsOf(ns) == old(ElemsOf(ns))
  {
    if ns != [] {
      ElemsOfUnchanged(ns[..|ns| - 1]);
    }
  }

  /** Dropping the first node drops the first element. */
  lemma {:induction false} ElemsOfTail<T>(ns: seq<Node<T>>)
    requires |ns| > 0
    ensures ElemsOf(ns[1..]) == ElemsOf(ns)[1..]
  {
    forall i | 0 <= i < |ns| - 1 ensures ElemsOf(ns[1..])[i] == ElemsOf(ns)[1..][i] {
      ElemsOfAt(ns[1..], i);
      ElemsOfAt(ns, i + 1);
    }
  }

  /** The node at position `i` of `ns` (when it is not the last) has the
      node at `i + 1` as its `next`. */
  ghost predicate NextAt<T>(ns: seq<Node<T>>, i: int)
    reads ns`next
  {
    0 <= i < |ns| - 1 ==> ns[i].next == ns[i + 1]
  }

  /** The nodes at two different positions `i < j` of `ns` (when both
      exist) are different objects. */
  ghost predicate DistinctAt<T>(ns: seq<Node<T>>, i: int, j: int)
  {
    0 <= i < j < |ns| ==> ns[i] != ns[j]
  }

  /** `ns` is a well-formed chain: no node occurs twice, each node's `next`
      is the node after it, and the last node's `next` is null. */
  ghost predicate Linked<T>(ns: seq<Node<T>>)
    reads ns`next
  {
    && (forall i, j :: DistinctAt(ns, i, j))
    && (forall i :: NextAt(ns, i))
    && (|ns| > 0 ==> ns[|ns| - 1].next == null)
  }

  /** Linking a new node `n` in after the last node of a chain gives a
      chain one longer, when no `next` link changed but the old last
      node's (now `n`). */
  twostate lemma LinkedSnoc<T>(ns: seq<Node<T>>, new n: Node<T>)
    requires old(Linked(ns)) && n !in ns
    requires forall i :: 0 <= i < |ns| ==> ns[i] == ns[|ns| - 1] || ns[i].next == old(ns[i].next)
    requires |ns| > 0 ==> ns[|ns| - 1].next == n
    requires n.next == null
    ensures Linked(ns + [n])
  {
    var s := ns + [n];
    forall i, j | 0 <= i < j < |s| ensures DistinctAt(s, i, j) {
      assert DistinctAt(ns, i, j);
    }
    forall i | 0 <= i < |s| - 1 ensures NextAt(s, i) {
      assert old(NextAt(ns, i)) && DistinctAt(ns, i, |ns| - 1);
    }
  }

  /** Dropping the first node of a chain leaves a chain, when no `next`
      link changed but, possibly, the first node's. */
  twostate lemma LinkedTail<T>(ns: seq<Node<T>>)
    requires old(Linked(ns)) && |ns| > 0
    requires forall i :: 0 <= i < |ns| ==> ns[i] == ns[0] || ns[i].next == old(ns[i].next)
    ensures Linked(ns[1..])
  {
    var s := ns[1..];
    forall i, j | 0 <= i < j < |s| ensures DistinctAt(s, i, j) {
      assert DistinctAt(ns, i + 1, j + 1);
    }
    forall i | 0 <= i < |s| - 1 ensures NextAt(s, i) {
      assert old(NextAt(ns, i + 1)) && DistinctAt(ns, 0, i + 1);
    }
    assert DistinctAt(ns, 0, |ns| - 1);
  }

  /** The elements after linking `n` in at the back, when no element of
      `ns` changed. */
  twostate lemma ElemsSnoc<T>(ns: seq<Node<T>>, new n: Node<T>)
    requires forall i :: 0 <= i < |ns| ==> ns[i].elem == old(ns[i].elem)
    ensures ElemsOf(ns + [n]) == old(ElemsOf(ns)) + [n.elem]
  {
    ElemsOfUnchanged(ns);
    assert (ns + [n])[..|ns|] == ns;
  }

  /** Writing the element of the first node alone changes the first
      element alone. */
  twostate lemma {:induction false} ElemsOfHeadUpdate<T>(ns: seq<Node<T>>)
    requires |ns| > 0
    requires forall i :: 0 < i < |ns| ==> ns[i].elem == old(ns[i].elem)
    ensures ElemsOf(ns) == old(ElemsOf(ns))[0 := ns[0].elem]
  {
    if |ns| > 1 {
      ElemsOfHeadUpdate(ns[..|ns| - 1]);
    }
  }
}
