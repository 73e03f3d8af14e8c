/** `CursorMut<'a, T>`: a cursor over a `LinkedList<T>` that it borrows
    mutably. It sits either on a node (`current` non-null) or on the
    "ghost" position between the back and the front (`current` null), and
    caches the index of the node it sits on.

    The ghost field `pos` is where the cursor really is: the position of
    `current` in the list's nodes, or `|nodes|` at the ghost. The cached
    `index` agrees with `pos` (`InSync()`) after every operation except
    `move_prev`, which adds 1 where it should subtract 1. */
module ProductionCursor {
  import opened Core
  import opened ProductionList

  /** No node of `q` is a node of `ns`. */
  ghost predicate Disjoint<T>(q: seq<Node<T>>, ns: seq<Node<T>>)
  {
    forall x :: x in q ==> x !in ns
  }

  /** Putting the distinct nodes `q`, none of which is in `p + s`, between
      `p` and `s` keeps all nodes distinct. */
  lemma DistinctSplice<T>(p: seq<Node<T>>, q: seq<Node<T>>, s: seq<Node<T>>)
    requires Distinct(p + s) && Distinct(q) && Disjoint(q, p + s)
    ensures Distinct(p + q + s)
  {
    var ns := p + q + s;
    var ps := p + s;
    forall i, j | 0 <= i < j < |ns| ensures DistinctAt(ns, i, j) {
      var a, b := |p|, |p| + |q|;
      if a <= i < b && a <= j < b {
        assert DistinctAt(q, i - a, j - a);
      } else if a <= i < b {
        assert ns[i] in q && ns[j] == ps[j - |q|];
      } else if a <= j < b {
        assert ns[j] in q && ns[i] == ps[i];
      } else {
        var i', j' := if i < a then i else i - |q|, if j < a then j else j - |q|;
        assert ns[i] == ps[i'] && ns[j] == ps[j'] && DistinctAt(ps, i', j');
      }
    }
  }

  /** The nodes before and from position `p` of a chain of distinct nodes
      have none in common. */
  lemma DisjointHalves<T>(ns: seq<Node<T>>, p: nat)
    requires Distinct(ns) && p <= |ns|
    ensures Disjoint(ns[..p], ns[p..])
  {
    forall x | x in ns[..p]
      ensures x !in ns[p..]
    {
      var i :| 0 <= i < p && ns[i] == x;
      forall j | 0 <= j < |ns| - p
        ensures ns[p..][j] != x
      {
        assert DistinctAt(ns, i, p + j);
      }
    }
  }

  /** Weaving the chain `q` in between the chains `p` and `s` (the two
      halves of one chain `p + s`) gives the chain `p + q + s`, when no
      link changed but the `front` of `q`'s first and `s`'s first node and
      the `back` of `q`'s last and `p`'s last node. */
  twostate lemma ChainSplice<T>(new p: seq<Node<T>>, new q: seq<Node<T>>, new s: seq<Node<T>>, ns: seq<Node<T>>)
    requires old(allocated(p)) && old(allocated(q)) && old(allocated(s))
    requires ns == p + q + s && |q| > 0
    requires old(Chained(p + s)) && old(Chained(q)) && Disjoint(q, p + s)
    requires forall i :: 0 <= i < |ns| ==>
      ns[i] == q[0] || (|s| > 0 && ns[i] == s[0]) || ns[i].front == old(ns[i].front)
    requires forall i :: 0 <= i < |ns| ==>
      ns[i] == q[|q| - 1] || (|p| > 0 && ns[i] == p[|p| - 1]) || ns[i].back == old(ns[i].back)
    requires q[0].front == (if |p| > 0 then p[|p| - 1] else null)
    requires q[|q| - 1].back == (if |s| > 0 then s[0] else null)
    requires |p| > 0 ==> p[|p| - 1].back == q[0]
    requires |s| > 0 ==> s[0].front == q[|q| - 1]
    ensures Chained(ns)
  {
    var ps := p + s;
    var a, b := |p|, |p| + |q|;
    DistinctSplice(p, q, s);
    assert q[0] in q && q[|q| - 1] in q;
    forall i | 0 <= i < |ns| - 1 ensures LinkedAt(ns, i) {
      if i < a - 1 {
        assert ns[i] == ps[i] && ns[i + 1] == ps[i + 1] && p[a - 1] == ps[a - 1];
        assert ps[i] in ps && ps[i + 1] in ps;
        assert old(LinkedAt(ps, i)) && DistinctAt(ps, i, a - 1);
        if |s| > 0 {
          assert s[0] == ps[a] && DistinctAt(ps, i + 1, a);
        }
      } else if i == a - 1 {
        assert ns[i] == p[a - 1] && ns[i + 1] == q[0];
      } else if i < b - 1 {
        assert ns[i] == q[i - a] && ns[i + 1] == q[i - a + 1];
        assert q[i - a] in q && q[i - a + 1] in q;
        assert old(LinkedAt(q, i - a)) && DistinctAt(q, i - a, |q| - 1) && DistinctAt(q, 0, i - a + 1);
        if a > 0 {
          assert p[a - 1] in ps;
        }
        if |s| > 0 {
          assert s[0] in ps;
        }
      } else if i == b - 1 {
        assert ns[i] == q[|q| - 1] && ns[i + 1] == s[0];
      } else {
        assert ns[i] == ps[i - |q|] && ns[i + 1] == ps[i - |q| + 1] && s[0] == ps[a];
        assert ps[i - |q|] in ps && ps[i - |q| + 1] in ps;
        assert old(LinkedAt(ps, i - |q|)) && DistinctAt(ps, a, i - |q| + 1);
        if a > 0 {
          assert p[a - 1] == ps[a - 1] && DistinctAt(ps, a - 1, i - |q|);
        }
      }
    }
    if a > 0 {
      assert ns[0] == ps[0] && ps[0] in ps && old(LinkedAt(ps, 0));
      if |s| > 0 {
        assert s[0] == ps[a] && DistinctAt(ps, 0, a);
      }
    } else {
      assert ns[0] == q[0];
    }
    if |s| > 0 {
      assert ns[|ns| - 1] == ps[|ps| - 1] && ps[|ps| - 1] in ps;
      if a > 0 {
        assert p[a - 1] == ps[a - 1] && DistinctAt(ps, a - 1, |ps| - 1);
      }
    } else {
      assert ns[|ns| - 1] == q[|q| - 1];
    }
  }

  /** Cutting the chain `ns == p + s` between `p` and `s` gives the two
      chains `p` and `s`, when no link changed but the `front` of `s`'s
      first node and the `back` of `p`'s last node (both now null). */
  twostate lemma ChainSplit<T>(ns: seq<Node<T>>, new p: seq<Node<T>>, new s: seq<Node<T>>)
    requires ns == p + s && |p| > 0 && |s| > 0 && old(Chained(ns))
    requires forall i :: 0 <= i < |ns| ==> ns[i] == s[0] || ns[i].front == old(ns[i].front)
    requires forall i :: 0 <= i < |ns| ==> ns[i] == p[|p| - 1] || ns[i].back == old(ns[i].back)
    requires s[0].front == null && p[|p| - 1].back == null
    ensures Chained(p) && Chained(s)
  {
    var k := |p|;
    assert p == ns[0..k] && s == ns[k..|ns|];
    DistinctSlice(ns, 0, k);
    DistinctSlice(ns, k, |ns|);
    forall i | 0 <= i < k - 1 ensures LinkedAt(p, i) {
      assert old(LinkedAt(ns, i)) && DistinctAt(ns, i, k - 1) && DistinctAt(ns, i + 1, k);
    }
    forall j | 0 <= j < |s| - 1 ensures LinkedAt(s, j) {
      assert old(LinkedAt(ns, k + j)) && DistinctAt(ns, k - 1, k + j) && DistinctAt(ns, k, k + j + 1);
    }
    assert DistinctAt(ns, 0, k) && DistinctAt(ns, k - 1, |ns| - 1);
  }

  /** The elements of the two halves of `ns == p + s` after a change that
      wrote no `elem`: the two halves of the old elements. */
  twostate lemma ElemsSplit<T>(ns: seq<Node<T>>, new p: seq<Node<T>>, new s: seq<Node<T>>)
    requires ns == p + s
    requires forall i :: 0 <= i < |ns| ==> ns[i].elem == old(ns[i].elem)
    ensures ElemsOf(p) == old(ElemsOf(ns))[..|p|]
    ensures ElemsOf(s) == old(ElemsOf(ns))[|p|..]
  {
    ElemsOfUnchanged(ns);
    ElemsOfAppend(p, s);
  }

  /** The elements of `p + q + s` after a change that wrote no `elem`. */
  twostate lemma ElemsSplice<T>(new p: seq<Node<T>>, new q: seq<Node<T>>, ns: seq<Node<T>>, new s: seq<Node<T>>)
    requires old(allocated(p)) && old(allocated(q)) && old(allocated(s)) && ns == p + q + s
    requires forall i :: 0 <= i < |p| ==> p[i].elem == old(p[i].elem)
    requires forall i :: 0 <= i < |q| ==> q[i].elem == old(q[i].elem)
    requires forall i :: 0 <= i < |s| ==> s[i].elem == old(s[i].elem)
    ensures ElemsOf(ns) == old(ElemsOf(p)) + old(ElemsOf(q)) + old(ElemsOf(s))
  {
    ElemsOfUnchanged(p);
    ElemsOfUnchanged(q);
    ElemsOfUnchanged(s);
    ElemsOfAppend(p, q);
    ElemsOfAppend(p + q, s);
  }

  /** Assigns the three fields of a `LinkedList` at once (the ghost node
      sequence with them); the fields describe a well-formed list. */
  method SetFields<T>(l: LinkedList<T>, front: Node?<T>, back: Node?<T>, len: nat,
                      ghost nodes: seq<Node<T>>, ghost elems: seq<T>)
    requires len == |nodes| && Chained(nodes) && ElemsOf(nodes) == elems
    requires len == 0 ==> front == null && back == null
    requires len > 0 ==> front == nodes[0] && back == nodes[len - 1]
    modifies l
    ensures l.Valid() && l.nodes == nodes && l.Elems() == elems
  {
    l.front, l.back, l.len, l.nodes := front, back, len, nodes;
  }

  /** Gives `list` the chain `nodes` and leaves `input` empty. */
  method Adopt<T>(list: LinkedList<T>, input: LinkedList<T>, front: Node?<T>, back: Node?<T>, len: nat,
                  ghost nodes: seq<Node<T>>, ghost elems: seq<T>)
    requires list != input && len == |nodes| && Chained(nodes) && ElemsOf(nodes) == elems
    requires len == 0 ==> front == null && back == null
    requires len > 0 ==> front == nodes[0] && back == nodes[len - 1]
    modifies list, input
    ensures list.Valid() && list.nodes == nodes && list.Elems() == elems
    ensures input.Valid() && input.nodes == []
  {
    input.front, input.back, input.len, input.nodes := null, null, 0, [];
    list.front, list.back, list.len, list.nodes := front, back, len, nodes;
  }

  /** The struct literal `LinkedList { front, back, len, _p }` for fields
      that describe a well-formed list. */
  method FromFields<T>(front: Node?<T>, back: Node?<T>, len: nat, ghost nodes: seq<Node<T>>, ghost elems: seq<T>)
    returns (l: LinkedList<T>)
    requires len == |nodes| && Chained(nodes) && ElemsOf(nodes) == elems
    requires len == 0 ==> front == null && back == null
    requires len > 0 ==> front == nodes[0] && back == nodes[len - 1]
    ensures fresh(l) && l.Valid() && l.nodes == nodes && l.Elems() == elems
  {
    l := new LinkedList();
    l.front, l.back, l.len, l.nodes := front, back, len, nodes;
  }

  /** The struct literal `LinkedList { front, back, len, _p }` for any
      fields at all, owning no nodes of its own. */
  method Literal<T>(front: Node?<T>, back: Node?<T>, len: nat) returns (l: LinkedList<T>)
    ensures fresh(l) && l.front == front && l.back == back && l.len == len && l.nodes == []
  {
    l := new LinkedList();
    l.front, l.back, l.len := front, back, len;
  }

  /** Breaks the links between `ns[k - 1]` and `ns[k]`, which leaves the
      chains `ns[..k]` and `ns[k..]` holding the two parts of the elements. */
  method Unlink<T>(ghost ns: seq<Node<T>>, previous: Node<T>, current: Node<T>, ghost k: nat)
    requires Chained(ns) && 0 < k < |ns| && previous == ns[k - 1] && current == ns[k]
    modifies previous, current
    ensures Chained(ns[..k]) && Chained(ns[k..])
    ensures ElemsOf(ns[..k]) == old(ElemsOf(ns))[..k] && ElemsOf(ns[k..]) == old(ElemsOf(ns))[k..]
  {
    assert ns == ns[..k] + ns[k..];
    current.front := null;
    previous.back := null;
    ChainSplit(ns, ns[..k], ns[k..]);
    ElemsSplit(ns, ns[..k], ns[k..]);
  }

  /** Cuts `list` before its node `current` at position `k > 0`: the
      nodes before it move into a new list, which is returned. */
  method CutBefore<T>(list: LinkedList<T>, current: Node<T>, k: nat) returns (out: LinkedList<T>)
    requires list.Valid() && 0 < k < |list.nodes| && current == list.nodes[k]
    modifies list, list.nodes
    ensures fresh(out) && out.Valid() && list.Valid()
    ensures out.nodes == old(list.nodes)[..k] && list.nodes == old(list.nodes)[k..]
    ensures out.Elems() == old(list.Elems())[..k] && list.Elems() == old(list.Elems())[k..]
  {
    ghost var ns, e := list.nodes, list.Elems();
    var previous := current.front;
    assert previous == ns[k - 1] && list.front == ns[0] && list.back == ns[|ns| - 1] by {
      assert LinkedAt(ns, k - 1);
    }
    var outputFront, newLen := list.front, list.len - k;
    Unlink(ns, previous, current, k);
    out := FromFields(outputFront, previous, k, ns[..k], e[..k]);
    SetFields(list, current, list.back, newLen, ns[k..], e[k..]);
  }

  /** `mem::replace(list, LinkedList::new())`: the whole list moves into a
      new one, which is returned, and `list` is left empty. */
  method TakeAll<T>(list: LinkedList<T>) returns (out: LinkedList<T>)
    requires list.Valid()
    modifies list
    ensures fresh(out) && out.Valid() && list.Valid()
    ensures out.nodes == old(list.nodes) && out.Elems() == old(list.Elems())
    ensures list.nodes == [] && list.Elems() == []
  {
    out := FromFields(list.front, list.back, list.len, list.nodes, list.Elems());
    SetFields(list, null, null, 0, [], []);
  }

  /** Links the chain `q` in between the two parts `ns[..k]` and `ns[k..]`
      of the chain `ns`: `prev` is the node at `k - 1` and `next` the node
      at `k`, when there are any. */
  method Weave<T>(ghost ns: seq<Node<T>>, ghost k: nat, ghost q: seq<Node<T>>,
                  prev: Node?<T>, first: Node<T>, last: Node<T>, next: Node?<T>, ghost e: seq<T>)
    requires Chained(ns) && Chained(q) && |q| > 0 && Disjoint(q, ns) && k <= |ns|
    requires e == ElemsOf(ns)[..k] + ElemsOf(q) + ElemsOf(ns)[k..]
    requires first == q[0] && last == q[|q| - 1]
    requires prev == (if k > 0 then ns[k - 1] else null)
    requires next == (if k < |ns| then ns[k] else null)
    modifies prev, first, last, next
    ensures Chained(ns[..k] + q + ns[k..])
    ensures ElemsOf(ns[..k] + q + ns[k..]) == e
  {
    ghost var p, s := ns[..k], ns[k..];
    assert ns == p + s;
    assert first in q && last in q;
    assert k > 0 ==> prev == ns[k - 1] && prev in ns;
    assert k < |ns| ==> next == ns[k] && next in ns;
    ElemsOfAppend(p, s);
    if prev != null {
      prev.back := first;
    }
    first.front := prev;
    last.back := next;
    if next != null {
      next.front := last;
    }
    ChainSplice(p, q, s, p + q + s);
    ElemsSplice(p, q, p + q + s, s);
  }

  /** Moves all nodes of the non-empty list `input` into `list` before
      position `k`, between `prev` (the node at `k - 1`, if any) and `next`
      (the node at `k`, if any), and leaves `input` empty. */
  method SpliceAt<T>(list: LinkedList<T>, input: LinkedList<T>, prev: Node?<T>, next: Node?<T>, ghost k: nat)
    requires list.Valid() && input.Valid() && list != input && input.len > 0
    requires Disjoint(input.nodes, list.nodes) && k <= |list.nodes|
    requires prev == (if k > 0 then list.nodes[k - 1] else null)
    requires next == (if k < |list.nodes| then list.nodes[k] else null)
    modifies list, list.nodes, input, input.nodes
    ensures list.Valid() && input.Valid() && input.nodes == []
    ensures list.nodes == old(list.nodes)[..k] + old(input.nodes) + old(list.nodes)[k..]
    ensures list.Elems() == old(list.Elems())[..k] + old(input.Elems()) + old(list.Elems())[k..]
  {
    ghost var ns, q := list.nodes, input.nodes;
    ghost var e := list.Elems()[..k] + input.Elems() + list.Elems()[k..];
    var inFront, inBack := input.front, input.back;
    var newFront := if prev == null then inFront else list.front;
    var newBack := if next == null then inBack else list.back;
    var newLen := list.len + input.len;
    Weave(ns, k, q, prev, inFront, inBack, next, e);
    Adopt(list, input, newFront, newBack, newLen, ns[..k] + q + ns[k..], e);
  }

  /** `mem::swap(list, input)` for an empty `list`: `list` takes over the
      nodes of `input`, which is left empty. */
  method SwapIntoEmpty<T>(list: LinkedList<T>, input: LinkedList<T>)
    requires list.Valid() && input.Valid() && list != input && list.len == 0
    modifies list, input
    ensures list.Valid() && input.Valid() && input.nodes == []
    ensures list.nodes == old(input.nodes) && list.Elems() == old(input.Elems())
  {
    Adopt(list, input, input.front, input.back, input.len, input.nodes, input.Elems());
  }

  /** `CursorMut<'a, T>` (`LinkedList::cursor_mut`). */
  class CursorMut<T> {
    var current: Node?<T>
    var index: Option<nat>
    /** The list borrowed mutably for the cursor's lifetime. */
    const list: LinkedList<T>
    /** Where the cursor is: `current`'s position, `|list.nodes|` at the ghost. */
    ghost var pos: nat

    /** `current` is the node at `pos` (null at the ghost), and `index` is
        present exactly when the cursor is on a node. */
    ghost predicate Valid()
      reads this, list
    {
      && pos <= |list.nodes|
      && (pos < |list.nodes| ==> current == list.nodes[pos])
      && (pos == |list.nodes| ==> current == null)
      && (index.Some? <==> current != null)
    }

    /** The cached index is the true position of `current`. */
    ghost predicate InSync()
      reads this, list
    {
      index == if pos < |list.nodes| then Some(pos) else None
    }

    /** `cursor_mut()`: the cursor starts at the ghost, with no index. */
    constructor (list: LinkedList<T>)
      requires list.Valid()
      ensures Valid() && InSync() && this.list == list
      ensures current == null && index == None && pos == |list.nodes|
    {
      current := null;
      index := None;
      this.list := list;
      pos := |list.nodes|;
    }

    /** `index()`: the cached index, `None` exactly at the ghost; while the
        cursor is in sync it is the position of the node the cursor is on
        (after `move_prev` as written it is whatever that drifted to). */
    function Index(): (r: Option<nat>)
      requires Valid()
      reads this, list
      ensures r.None? <==> current == null
      ensures InSync() && r.Some? ==> r.value < |list.nodes| && list.nodes[r.value] == current
    {
      index
    }

    /** `move_next()`: one step towards the back, from the back onto the
        ghost and from the ghost onto the front (an empty list keeps the
        cursor at the ghost); the position moves cyclically over the
        `|nodes| + 1` places. */
    method MoveNext()
      requires Valid() && list.Valid()
      modifies this
      ensures Valid()
      ensures old(pos) < |list.nodes| ==> pos == old(pos) + 1
      ensures old(pos) == |list.nodes| ==> pos == 0
      ensures old(current) != null && current != null ==> index == Some(old(index).value + 1)
      ensures old(InSync()) ==> InSync()
    {
      if current != null {
        assert LinkedAt(list.nodes, pos);
        current := current.back;
        if current != null {
          index := Some(index.value + 1);
        } else {
          index := None;
        }
        pos := pos + 1;
      } else if !list.IsEmpty() {
        current := list.front;
        index := Some(0);
        pos := 0;
      }
    }

    /** `move_prev()` as written: one step towards the front, from the
        front onto the ghost and from the ghost onto the back; the position
        moves cyclically backwards. Moving from one node to the previous
        one ADDS 1 to the index, so a cursor in sync before is two ahead
        after. */
    method MovePrev()
      requires Valid() && list.Valid()
      modifies this
      ensures Valid()
      ensures old(pos) > 0 ==> pos == old(pos) - 1
      ensures old(pos) == 0 ==> pos == |list.nodes|
      ensures old(current) != null && current != null ==> index == Some(old(index).value + 1)
      ensures old(current) == null && current != null ==> index == Some(|list.nodes| - 1)
      ensures old(InSync()) && old(current) != null && current != null ==> index == Some(pos + 2)
    {
      if current != null {
        assert LinkedAt(list.nodes, pos - 1);
        current := current.front;
        if current != null {
          index := Some(index.value + 1);
        } else {
          index := None;
        }
        pos := if pos == 0 then |list.nodes| else pos - 1;
      } else if !list.IsEmpty() {
        current := list.back;
        index := Some(list.len - 1);
        pos := |list.nodes| - 1;
      }
    }

    /** `move_prev()` with the index decremented, as the index's meaning
        requires: the cursor stays in sync. */
    method MovePrevCorrected()
      requires Valid() && list.Valid()
      modifies this
      ensures Valid()
      ensures old(pos) > 0 ==> pos == old(pos) - 1
      ensures old(pos) == 0 ==> pos == |list.nodes|
      ensures old(InSync()) ==> InSync()
    {
      if current != null {
        assert LinkedAt(list.nodes, pos - 1);
        current := current.front;
        if current != null {
          // A node with a predecessor has position at least 1, so on an
          // in-sync cursor the guard never fires; it only keeps the index a
          // `nat` for a cursor whose index has already drifted.
          index := Some(if index.value == 0 then 0 else index.value - 1);
        } else {
          index := None;
        }
        pos := if pos == 0 then |list.nodes| else pos - 1;
      } else if !list.IsEmpty() {
        current := list.back;
        index := Some(list.len - 1);
        pos := |list.nodes| - 1;
      }
    }

    /** `current()`: the place of the element the cursor is on; `None` at
        the ghost. */
    function Current(): (r: Option<Node<T>>)
      requires Valid()
      reads this, list
      ensures r.None? <==> pos == |list.nodes|
      ensures r.Some? ==> r.value == list.nodes[pos]
    {
      if current == null then None else Some(current as Node<T>)
    }

    /** `peek_next()`: the place of the next element towards the back;
        `None` at the back and, unlike a cyclic step, also at the ghost. */
    function PeekNext(): (r: Option<Node<T>>)
      requires Valid() && list.Valid()
      reads this, list, list.nodes
      ensures r.None? <==> pos + 1 >= |list.nodes|
      ensures r.Some? ==> r.value == list.nodes[pos + 1]
    {
      if current == null then None
      else assert LinkedAt(list.nodes, pos); if current.back == null then None else Some(current.back as Node<T>)
    }

    /** `peek_prev()`: the place of the previous element towards the
        front; `None` at the front and at the ghost. */
    function PeekPrev(): (r: Option<Node<T>>)
      requires Valid() && list.Valid()
      reads this, list, list.nodes
      ensures r.None? <==> pos == 0 || pos == |list.nodes|
      ensures r.Some? ==> r.value == list.nodes[pos - 1]
    {
      if current == null then None
      else assert LinkedAt(list.nodes, pos - 1); if current.front == null then None else Some(current.front as Node<T>)
    }
  
    /** `split_before()` as written: everything before the cursor moves
        into a new list, which is returned, and the cursor ends up at index
        0 of what remains. At the ghost the whole list moves out. On a node
        with a predecessor the chain is cut between the two. On the FRONT
        node, though, the returned list gets the cursor's own node as its
        `front`, with no `back` and length 0: it is not a valid list, and
        it aliases the node the cursor's list still owns. */
    method SplitBefore() returns (out: LinkedList<T>)
      requires Valid() && InSync() && list.Valid()
      modifies this, list, list.nodes
      ensures fresh(out) && Valid() && InSync() && list.Valid() && pos == 0
      ensures old(pos) == |old(list.nodes)| ==>
                out.Valid() && out.nodes == old(list.nodes) && out.Elems() == old(list.Elems()) &&
                list.nodes == []
      ensures 0 < old(pos) < |old(list.nodes)| ==>
                out.Valid() && out.nodes == old(list.nodes)[..old(pos)] &&
                out.Elems() == old(list.Elems())[..old(pos)] &&
                list.nodes == old(list.nodes)[old(pos)..] &&
                list.Elems() == old(list.Elems())[old(pos)..]
      ensures old(pos) == 0 < |old(list.nodes)| ==>
                list.nodes == old(list.nodes) && list.Elems() == old(list.Elems()) &&
                out.front == old(list.front) == current && out.back == null && out.len == 0 &&
                !out.Valid()
    {
      if current == null {
        pos := 0;
        out := TakeAll(list);
        return;
      }
      assert current == list.nodes[pos] && (pos > 0 ==> current.front == list.nodes[pos - 1]) && (pos == 0 ==> current.front == null) by {
        assert LinkedAt(list.nodes, pos - 1);
      }
      var k := index.value;
      index, pos := Some(0), 0;
      if current.front != null {
        out := CutBefore(list, current, k);
      } else {
        // `previous` is `None`: the links stay, and the returned list is the
        // literal with the list's `front`, no `back` and length `len - (len - 0)`.
        out := Literal(list.front, null, 0);
      }
    }

    /** `split_before()` as its documentation intends: the returned list
        holds exactly the elements before the cursor and the cursor's list
        the rest, in every position (nothing moves out on the front node). */
    method SplitBeforeCorrected() returns (out: LinkedList<T>)
      requires Valid() && InSync() && list.Valid()
      modifies this, list, list.nodes
      ensures fresh(out) && out.Valid() && Valid() && InSync() && list.Valid() && pos == 0
      ensures out.nodes == old(list.nodes)[..old(pos)] && list.nodes == old(list.nodes)[old(pos)..]
      ensures out.Elems() == old(list.Elems())[..old(pos)]
      ensures list.Elems() == old(list.Elems())[old(pos)..]
    {
      if current == null {
        pos := 0;
        out := TakeAll(list);
        return;
      }
      assert current == list.nodes[pos] && (pos > 0 ==> current.front == list.nodes[pos - 1]) && (pos == 0 ==> current.front == null) by {
        assert LinkedAt(list.nodes, pos - 1);
      }
      if current.front == null {
        out := new LinkedList();
        return;
      }
      var k := index.value;
      index, pos := Some(0), 0;
      out := CutBefore(list, current, k);
    }

    /** `splice_before(input)` as written: the nodes of `input` are moved
        into the list just before the cursor, which stays on its node (or
        at the ghost) with its index advanced past them, and `input` is left
        empty. An empty `input` changes nothing. Inserting between two
        nodes, or into an empty list at the ghost, works. The other two
        cases unwrap a link after taking it: on the node at index 0, and at
        the ghost of a non-empty list, the operation writes one link and
        then panics. */
    method SpliceBefore(input: LinkedList<T>) returns (r: Outcome<()>)
      requires Valid() && list.Valid() && input.Valid() && input != list
      requires Disjoint(input.nodes, list.nodes)
      modifies this, list, list.nodes, input, input.nodes
      ensures r.Panicked? <==>
                old(input.len) > 0 &&
                (if old(current) == null then old(list.len) > 0 else old(index) == Some(0) || old(pos) == 0)
      ensures r.Done? ==>
                Valid() && list.Valid() && input.Valid() && input.nodes == [] &&
                pos == old(pos) + |old(input.nodes)| &&
                list.nodes == old(list.nodes)[..old(pos)] + old(input.nodes) + old(list.nodes)[old(pos)..] &&
                list.Elems() == old(list.Elems())[..old(pos)] + old(input.Elems()) + old(list.Elems())[old(pos)..] &&
                (old(InSync()) ==> InSync())
      ensures r.Done? ==>
                current == old(current) &&
                index == (if old(current) == null then None else Some(old(index).value + old(input.len)))
      ensures old(input.len) > 0 && old(current) != null && old(index) == Some(0) ==>
                old(current).front == old(input.back) && input.back == null
      ensures old(input.len) > 0 && old(current) == null && old(list.len) > 0 ==>
                old(list.back).back == old(input.front) && input.front == null
    {
      if input.len == 0 {
        return Done(());
      }
      if current != null {
        if index == Some(0) {
          // appending at the front: `input.back` is taken, then unwrapped
          current.front := input.back;
          input.back := null;
          return Panicked;
        }
        assert current == list.nodes[pos] && current.front == (if pos > 0 then list.nodes[pos - 1] else null) by {
          assert LinkedAt(list.nodes, pos - 1);
        }
        var previous := current.front;
        if previous == null {
          // `(*current).front.unwrap()` on the front node
          return Panicked;
        }
        SpliceBetween(input, previous);
        return Done(());
      } else if list.back != null {
        // appending at the back: `input.front` is taken, then unwrapped
        list.back.back := input.front;
        input.front := null;
        return Panicked;
      } else {
        pos := |input.nodes|;
        SwapIntoEmpty(list, input);
        return Done(());
      }
    }

    /** The branch of `SpliceBefore` that works: the current node has a
        node before it, and the input's nodes go in between the two. */
    method SpliceBetween(input: LinkedList<T>, previous: Node<T>)
      requires Valid() && list.Valid() && input.Valid() && input != list
      requires Disjoint(input.nodes, list.nodes) && input.len != 0
      requires 0 < pos < |list.nodes| && current == list.nodes[pos] && previous == list.nodes[pos - 1]
      modifies this, list, list.nodes, input, input.nodes
      ensures Valid() && list.Valid() && input.Valid() && input.nodes == []
      ensures pos == old(pos) + |old(input.nodes)|
      ensures list.nodes == old(list.nodes)[..old(pos)] + old(input.nodes) + old(list.nodes)[old(pos)..]
      ensures list.Elems() == old(list.Elems())[..old(pos)] + old(input.Elems()) + old(list.Elems())[old(pos)..]
      ensures old(InSync()) ==> InSync()
      ensures current == old(current) && index == Some(old(index).value + old(input.len))
    {
      ghost var k, ns := pos, list.nodes;
      index, pos := Some(index.value + input.len), pos + |input.nodes|;
      SpliceAt(list, input, previous, current, k);
      assert list.nodes[pos] == ns[k];
    }

    /** `splice_before(input)` as evidently intended: at the front the
        input's nodes become the new front, and at the ghost they are
        appended at the back, so it never panics. */
    method SpliceBeforeCorrected(input: LinkedList<T>)
      requires Valid() && InSync() && list.Valid() && input.Valid() && input != list
      requires Disjoint(input.nodes, list.nodes)
      modifies this, list, list.nodes, input, input.nodes
      ensures Valid() && InSync() && list.Valid() && input.Valid() && input.nodes == []
      ensures pos == old(pos) + |old(input.nodes)|
      ensures list.nodes == old(list.nodes)[..old(pos)] + old(input.nodes) + old(list.nodes)[old(pos)..]
      ensures list.Elems() == old(list.Elems())[..old(pos)] + old(input.Elems()) + old(list.Elems())[old(pos)..]
    {
      if input.len == 0 {
        return;
      }
      if current != null {
        SpliceBeforeCurrent(input);
      } else {
        SpliceAtGhost(input);
      }
    }

    /** The branch of `SpliceBeforeCorrected` at the ghost: the input's
        nodes are appended after the last node, or become the whole list
        when it is empty. */
    method SpliceAtGhost(input: LinkedList<T>)
      requires Valid() && InSync() && list.Valid() && input.Valid() && input != list
      requires Disjoint(input.nodes, list.nodes) && input.len != 0 && current == null
      modifies this, list, list.nodes, input, input.nodes
      ensures Valid() && InSync() && list.Valid() && input.Valid() && input.nodes == []
      ensures pos == old(pos) + |old(input.nodes)|
      ensures list.nodes == old(list.nodes)[..old(pos)] + old(input.nodes) + old(list.nodes)[old(pos)..]
      ensures list.Elems() == old(list.Elems())[..old(pos)] + old(input.Elems()) + old(list.Elems())[old(pos)..]
    {
      var n := input.len;
      if list.back != null {
        SpliceAt(list, input, list.back, null, pos);
        pos := pos + n;
      } else {
        SwapIntoEmpty(list, input);
        pos := n;
      }
    }

    /** The branch of `SpliceBeforeCorrected` on a real node: the input's
        nodes go in between the current node and the one before it. */
    method SpliceBeforeCurrent(input: LinkedList<T>)
      requires Valid() && InSync() && list.Valid() && input.Valid() && input != list
      requires Disjoint(input.nodes, list.nodes) && input.len != 0 && current != null
      modifies this, list, list.nodes, input, input.nodes
      ensures Valid() && InSync() && list.Valid() && input.Valid() && input.nodes == []
      ensures pos == old(pos) + |old(input.nodes)|
      ensures list.nodes == old(list.nodes)[..old(pos)] + old(input.nodes) + old(list.nodes)[old(pos)..]
      ensures list.Elems() == old(list.Elems())[..old(pos)] + old(input.Elems()) + old(list.Elems())[old(pos)..]
    {
      ghost var k: int, ns := pos, list.nodes;
      var n := input.len;
      assert current == ns[k] && current.front == (if k > 0 then ns[k - 1] else null) by {
        assert LinkedAt(ns, k - 1);
      }
      var previous := if index == Some(0) then null else current.front;
      SpliceAt(list, input, previous, current, k);
      index, pos := Some(index.value + n), pos + n;
      assert list.nodes[pos] == ns[k];
    }
  }

  /** `split_before` followed by `splice_before` of what it returned gives
      back the original list, with the cursor on the node (or the ghost) it
      started on, for every position: the corrected operations are
      inverses. */
  method SplitThenSpliceBack<T>(cursor: CursorMut<T>)
    requires cursor.Valid() && cursor.InSync() && cursor.list.Valid()
    modifies cursor, cursor.list, cursor.list.nodes
    ensures cursor.Valid() && cursor.InSync() && cursor.list.Valid()
    ensures cursor.pos == old(cursor.pos)
    ensures cursor.list.nodes == old(cursor.list.nodes)
    ensures cursor.list.Elems() == old(cursor.list.Elems())
  {
    ghost var ns, e, p := cursor.list.nodes, cursor.list.Elems(), cursor.pos;
    DisjointHalves(ns, p);
    assert ns[..p] + ns[p..] == ns && e[..p] + e[p..] == e;
    var out := cursor.SplitBeforeCorrected();
    assert forall x :: x in out.nodes ==> x in ns;
    SpliceBack(cursor, out, ns[..p], ns[p..], e[..p], e[p..]);
  }

  /** The second half of the round trip: splicing `out`, split off before
      a cursor now at position 0, back in front of it. */
  method SpliceBack<T>(cursor: CursorMut<T>, out: LinkedList<T>, ghost front: seq<Node<T>>,
                       ghost rest: seq<Node<T>>, ghost frontE: seq<T>, ghost restE: seq<T>)
    requires cursor.Valid() && cursor.InSync() && cursor.list.Valid() && cursor.pos == 0
    requires out.Valid() && out != cursor.list && Disjoint(front, rest)
    requires out.nodes == front && out.Elems() == frontE
    requires cursor.list.nodes == rest && cursor.list.Elems() == restE
    modifies cursor, cursor.list, cursor.list.nodes, out, out.nodes
    ensures cursor.Valid() && cursor.InSync() && cursor.list.Valid()
    ensures cursor.pos == |front|
    ensures cursor.list.nodes == front + rest && cursor.list.Elems() == frontE + restE
  {
    cursor.SpliceBeforeCorrected(out);
    assert rest[..0] == [] && rest[0..] == rest;
    assert restE[..0] == [] && restE[0..] == restE;
  }
}
