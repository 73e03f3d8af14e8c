/** What `LinkedList<T>` derives from its front-to-back element sequence:
    `PartialEq`, `PartialOrd`, `Ord`, `Hash` and `Clone`.

    `eq`, `partial_cmp` and `cmp` are single expressions over the list's
    iterator; they are modelled as functions of `Elems()`, with the standard
    iterator comparisons written out as recursive functions on sequences.
    `hash` and `clone` are `for` loops over `iter()`, and stay loops. */
module ProductionTraits {
  import opened Core
  import opened ProductionList
  import opened ProductionIter

  /** `Iterator::eq`: walk both sequences in step and answer `false` at the
      first unequal pair or when exactly one of them runs out first. */
  function IterEq<T(==)>(s: seq<T>, t: seq<T>): (r: bool)
    ensures r <==> s == t
  {
    if s == [] then t == []
    else if t == [] then false
    else if s[0] != t[0] then false
    else
      var rest := IterEq(s[1..], t[1..]);
      assert s == [s[0]] + s[1..] && t == [t[0]] + t[1..];
      rest
  }

  /** `Iterator::partial_cmp`: the first pair whose comparison is not
      `Some(Equal)` decides; otherwise the shorter sequence is `Less`. */
  function LexPartialCmp<T>(s: seq<T>, t: seq<T>, cmp: (T, T) -> Option<Ordering>): Option<Ordering>
  {
    if s == [] then (if t == [] then Some(Equal) else Some(Less))
    else if t == [] then Some(Greater)
    else if cmp(s[0], t[0]) == Some(Equal) then LexPartialCmp(s[1..], t[1..], cmp)
    else cmp(s[0], t[0])
  }

  /** `Iterator::cmp`: the same walk with a total element order. */
  function LexCmp<T>(s: seq<T>, t: seq<T>, cmp: (T, T) -> Ordering): Ordering
  {
    if s == [] then (if t == [] then Equal else Less)
    else if t == [] then Greater
    else if cmp(s[0], t[0]) == Equal then LexCmp(s[1..], t[1..], cmp)
    else cmp(s[0], t[0])
  }

  /** An element order that is `Equal` exactly on equal elements. */
  ghost predicate EqualMeansSame<T(!new)>(cmp: (T, T) -> Ordering)
  {
    forall x: T, y: T :: cmp(x, y) == Equal <==> x == y
  }

  /** A partial element order that answers `Some(Equal)` exactly on equal
      elements. */
  ghost predicate PartialEqualMeansSame<T(!new)>(cmp: (T, T) -> Option<Ordering>)
  {
    forall x: T, y: T :: cmp(x, y) == Some(Equal) <==> x == y
  }

  /** An element order that flips when its operands are swapped. */
  ghost predicate Antisymmetric<T(!new)>(cmp: (T, T) -> Ordering)
  {
    forall x: T, y: T :: cmp(y, x) == cmp(x, y).Reverse()
  }

  /** With an element order that is `Equal` only on equal elements, the
      lexicographic order is `Equal` only on equal sequences. */
  lemma {:induction false} LexCmpEqual<T(!new)>(s: seq<T>, t: seq<T>, cmp: (T, T) -> Ordering)
    requires EqualMeansSame(cmp)
    ensures LexCmp(s, t, cmp) == Equal <==> s == t
  {
    if s != [] && t != [] && cmp(s[0], t[0]) == Equal {
      LexCmpEqual(s[1..], t[1..], cmp);
      assert s == [s[0]] + s[1..] && t == [t[0]] + t[1..];
    }
  }

  /** Swapping the operands reverses the lexicographic order. */
  lemma {:induction false} LexCmpReverse<T(!new)>(s: seq<T>, t: seq<T>, cmp: (T, T) -> Ordering)
    requires Antisymmetric(cmp)
    ensures LexCmp(t, s, cmp) == LexCmp(s, t, cmp).Reverse()
  {
    if s != [] && t != [] {
      assert cmp(t[0], s[0]) == cmp(s[0], t[0]).Reverse();
      if cmp(s[0], t[0]) == Equal {
        LexCmpReverse(s[1..], t[1..], cmp);
      }
    }
  }

  /** A proper prefix is `Less` than the longer sequence. */
  lemma {:induction false} LexCmpPrefix<T>(s: seq<T>, t: seq<T>, cmp: (T, T) -> Ordering)
    requires forall x: T :: cmp(x, x) == Equal
    requires |s| < |t| && s == t[..|s|]
    ensures LexCmp(s, t, cmp) == Less
  {
    if s != [] {
      assert s[0] == t[0];
      assert s[1..] == t[1..][..|s| - 1];
      LexCmpPrefix(s[1..], t[1..], cmp);
    }
  }

  /** The order is decided at the first position whose elements differ:
      everything before it compares `Equal`, and that pair's comparison is
      the answer. */
  lemma {:induction false} LexCmpDecided<T>(s: seq<T>, t: seq<T>, cmp: (T, T) -> Ordering, i: nat)
    requires i < |s| && i < |t|
    requires forall k :: 0 <= k < i ==> cmp(s[k], t[k]) == Equal
    requires cmp(s[i], t[i]) != Equal
    ensures LexCmp(s, t, cmp) == cmp(s[i], t[i])
  {
    if i > 0 {
      assert cmp(s[0], t[0]) == Equal;
      LexCmpDecided(s[1..], t[1..], cmp, i - 1);
    }
  }

  /** `partial_cmp` of an order that is total agrees with `cmp`: the
      element comparisons lifted to `Some` give `Some` of the total answer. */
  lemma {:induction false} LexPartialCmpOfTotal<T>(s: seq<T>, t: seq<T>, cmp: (T, T) -> Ordering)
    ensures LexPartialCmp(s, t, (x, y) => Some(cmp(x, y))) == Some(LexCmp(s, t, cmp))
  {
    if s != [] && t != [] && cmp(s[0], t[0]) == Equal {
      LexPartialCmpOfTotal(s[1..], t[1..], cmp);
    }
  }

  /** With a partial order that answers `Some(Equal)` exactly on equal
      elements, `partial_cmp` answers `Some(Equal)` exactly on equal
      sequences. */
  lemma {:induction false} LexPartialCmpEqual<T(!new)>(s: seq<T>, t: seq<T>, cmp: (T, T) -> Option<Ordering>)
    requires PartialEqualMeansSame(cmp)
    ensures LexPartialCmp(s, t, cmp) == Some(Equal) <==> s == t
  {
    if s != [] && t != [] && cmp(s[0], t[0]) == Some(Equal) {
      LexPartialCmpEqual(s[1..], t[1..], cmp);
      assert s == [s[0]] + s[1..] && t == [t[0]] + t[1..];
    }
  }

  /** With a partial order too, the first pair that does not compare
      `Some(Equal)` decides: an incomparable pair there makes the whole
      comparison `None`, however the later elements compare. */
  lemma {:induction false} LexPartialCmpDecided<T>(s: seq<T>, t: seq<T>, cmp: (T, T) -> Option<Ordering>, i: nat)
    requires i < |s| && i < |t|
    requires forall k :: 0 <= k < i ==> cmp(s[k], t[k]) == Some(Equal)
    requires cmp(s[i], t[i]) != Some(Equal)
    ensures LexPartialCmp(s, t, cmp) == cmp(s[i], t[i])
  {
    if i > 0 {
      assert cmp(s[0], t[0]) == Some(Equal);
      LexPartialCmpDecided(s[1..], t[1..], cmp, i - 1);
    }
  }

  /** With a partial order, a sequence whose elements all compare
      `Some(Equal)` (both ways) to the start of a longer one is `Less`
      than it, and the longer one is `Greater`. */
  lemma {:induction false} LexPartialCmpPrefix<T>(s: seq<T>, t: seq<T>, cmp: (T, T) -> Option<Ordering>)
    requires |s| < |t|
    requires forall k :: 0 <= k < |s| ==> cmp(s[k], t[k]) == Some(Equal) && cmp(t[k], s[k]) == Some(Equal)
    ensures LexPartialCmp(s, t, cmp) == Some(Less)
    ensures LexPartialCmp(t, s, cmp) == Some(Greater)
  {
    if s != [] {
      assert cmp(s[0], t[0]) == Some(Equal) && cmp(t[0], s[0]) == Some(Equal);
      LexPartialCmpPrefix(s[1..], t[1..], cmp);
    }
  }

  /** The operators `<`, `<=`, `>` and `>=` of `PartialOrd`, read off a
      `partial_cmp` answer: each is false on `None`. */
  predicate Lt(o: Option<Ordering>) { o == Some(Less) }
  predicate Le(o: Option<Ordering>) { o == Some(Less) || o == Some(Equal) }
  predicate Gt(o: Option<Ordering>) { o == Some(Greater) }
  predicate Ge(o: Option<Ordering>) { o == Some(Greater) || o == Some(Equal) }

  /** An `f64` as the NaN ordering test uses it: whole numbers and NaN,
      which compares to nothing, not even itself. */
  datatype Float = Num(x: int) | NaN

  /** `f64::partial_cmp`: `None` whenever either operand is NaN. */
  function FloatCmp(a: Float, b: Float): (r: Option<Ordering>)
    ensures r.None? <==> a.NaN? || b.NaN?
    ensures r == Some(Equal) <==> a.Num? && a == b
  {
    if a.NaN? || b.NaN? then None
    else if a.x < b.x then Some(Less)
    else if a.x == b.x then Some(Equal)
    else Some(Greater)
  }

  /** The assertions of `test_ord_nan`: a NaN before any difference makes
      every operator false, and a difference or a proper prefix before
      it decides. */
  lemma OrdNan()
    ensures var o := LexPartialCmp([NaN], [NaN], FloatCmp);
              !Lt(o) && !Gt(o) && !Le(o) && !Ge(o)
    ensures var o := LexPartialCmp([NaN], [Num(1)], FloatCmp);
              !Lt(o) && !Gt(o) && !Le(o) && !Ge(o)
    ensures var o := LexPartialCmp([Num(1), Num(2), NaN], [Num(1), Num(2), Num(3)], FloatCmp);
              !Lt(o) && !Gt(o) && !Le(o) && !Ge(o)
    ensures !Lt(LexPartialCmp([Num(1), Num(2), Num(4), Num(2)], [Num(1), Num(2), Num(3), Num(2)], FloatCmp))
    ensures var o := LexPartialCmp([Num(1), Num(2), Num(4), Num(2)], [Num(1)], FloatCmp);
              Gt(o) && !Le(o) && Ge(o)
  {
    var u, v := [Num(1), Num(2), NaN], [Num(1), Num(2), Num(3)];
    LexPartialCmpDecided(u, v, FloatCmp, 2);
    var s, t := [Num(1), Num(2), Num(4), Num(2)], [Num(1), Num(2), Num(3), Num(2)];
    LexPartialCmpDecided(s, t, FloatCmp, 2);
    LexPartialCmpPrefix([Num(1)], s, FloatCmp);
  }

  /** `PartialEq::eq`: equal lengths, then `iter().eq(other)`. */
  ghost function Eq<T>(a: LinkedList<T>, b: LinkedList<T>): (r: bool)
    requires a.Valid() && b.Valid()
    reads a, a.nodes, b, b.nodes
    ensures r <==> a.Elems() == b.Elems()
  {
    a.Len() == b.Len() && IterEq(a.Elems(), b.Elems())
  }

  /** `PartialOrd::partial_cmp`: `iter().partial_cmp(other)`. Equal lists
      compare `Some(Equal)` whenever the element order answers `Some(Equal)`
      only on equal elements. */
  ghost function PartialCmp<T(!new)>(a: LinkedList<T>, b: LinkedList<T>, cmp: (T, T) -> Option<Ordering>): (r: Option<Ordering>)
    requires a.Valid() && b.Valid()
    reads a, a.nodes, b, b.nodes
    ensures PartialEqualMeansSame(cmp) ==>
              (r == Some(Equal) <==> a.Elems() == b.Elems())
  {
    assert PartialEqualMeansSame(cmp) ==>
             (LexPartialCmp(a.Elems(), b.Elems(), cmp) == Some(Equal) <==> a.Elems() == b.Elems()) by {
      if PartialEqualMeansSame(cmp) {
        LexPartialCmpEqual(a.Elems(), b.Elems(), cmp);
      }
    }
    LexPartialCmp(a.Elems(), b.Elems(), cmp)
  }

  /** `Ord::cmp`: `iter().cmp(other)`. It agrees with `eq` whenever the
      element order does, and swapping the lists reverses it. */
  ghost function Cmp<T(!new)>(a: LinkedList<T>, b: LinkedList<T>, cmp: (T, T) -> Ordering): (r: Ordering)
    requires a.Valid() && b.Valid()
    reads a, a.nodes, b, b.nodes
    ensures EqualMeansSame(cmp) ==> (r == Equal <==> a.Elems() == b.Elems())
    ensures Antisymmetric(cmp) ==> LexCmp(b.Elems(), a.Elems(), cmp) == r.Reverse()
  {
    assert EqualMeansSame(cmp) ==> (LexCmp(a.Elems(), b.Elems(), cmp) == Equal <==> a.Elems() == b.Elems()) by {
      if EqualMeansSame(cmp) {
        LexCmpEqual(a.Elems(), b.Elems(), cmp);
      }
    }
    assert Antisymmetric(cmp) ==> LexCmp(b.Elems(), a.Elems(), cmp) == LexCmp(a.Elems(), b.Elems(), cmp).Reverse() by {
      if Antisymmetric(cmp) {
        LexCmpReverse(a.Elems(), b.Elems(), cmp);
      }
    }
    LexCmp(a.Elems(), b.Elems(), cmp)
  }

  /** What `hash` feeds to the hasher: the length, then each element. */
  datatype HashInput<T> = Length(n: nat) | Item(x: T)

  /** The hasher input for the elements alone, in order. */
  function ItemsFeed<T>(s: seq<T>): (r: seq<HashInput<T>>)
    ensures |r| == |s|
    ensures forall i :: 0 <= i < |s| ==> r[i] == Item(s[i])
  {
    if s == [] then [] else ItemsFeed(s[..|s| - 1]) + [Item(s[|s| - 1])]
  }

  /** Feeding one more element of `s` appends one item. */
  lemma ItemsFeedStep<T>(s: seq<T>, k: nat)
    requires k < |s|
    ensures ItemsFeed(s[..k + 1]) == ItemsFeed(s[..k]) + [Item(s[k])]
  {
    assert s[..k + 1][..k] == s[..k];
  }

  /** The whole hasher input for a list with elements `s`. */
  function HashFeed<T>(s: seq<T>): seq<HashInput<T>>
  {
    [Length(|s|)] + ItemsFeed(s)
  }

  /** The length prefix makes the hasher input self-delimiting: when the
      input for one list, followed by anything, equals the input for
      another followed by anything, the lists and the two tails are equal.
      (Without the length, `[1, 2]` then `[3]` and `[1]` then `[2, 3]`
      would feed the same items.) */
  lemma HashFeedUnambiguous<T>(s: seq<T>, t: seq<T>, x: seq<HashInput<T>>, y: seq<HashInput<T>>)
    requires HashFeed(s) + x == HashFeed(t) + y
    ensures s == t && x == y
  {
    assert (HashFeed(s) + x)[0] == Length(|s|);
    assert (HashFeed(t) + y)[0] == Length(|t|);
    var n := |s| + 1;
    assert HashFeed(s) == (HashFeed(s) + x)[..n];
    assert HashFeed(t) == (HashFeed(t) + y)[..n];
    assert x == (HashFeed(s) + x)[n..];
    assert y == (HashFeed(t) + y)[n..];
    forall i | 0 <= i < |s|
      ensures s[i] == t[i]
    {
      assert HashFeed(s)[i + 1] == Item(s[i]);
      assert HashFeed(t)[i + 1] == Item(t[i]);
    }
  }

  /** `Hash::hash`: the length, then each element from `iter()`. The
      hasher is modelled as the sequence of inputs it receives. */
  method Hash<T>(a: LinkedList<T>) returns (fed: seq<HashInput<T>>)
    requires a.Valid()
    ensures fed == HashFeed(a.Elems())
  {
    fed := [Length(a.Len())];
    ghost var e := a.Elems();
    var it := new Iter(a);
    while it.len > 0
      invariant it.Valid() && it.list == a && it.lo + it.len == |e|
      invariant fed == [Length(|e|)] + ItemsFeed(e[..it.lo])
      decreases it.len
    {
      ItemsFeedStep(e, it.lo);
      AppendAssoc([Length(|e|)], ItemsFeed(e[..it.lo]), [Item(e[it.lo])]);
      var x := it.Next();
      fed := fed + [Item(x.value)];
    }
    assert e[..it.lo] == e;
  }

  /** One round of the `clone` loop: take the next element from `it` and
      push it at the back of `r`, a list that shares no node with the one
      `it` walks. */
  method CloneStep<T>(it: Iter<T>, r: LinkedList<T>, ghost e: seq<T>)
    requires it.Valid() && it.list.Valid() && it.list.Elems() == e
    requires it.lo + it.len == |e| && it.len > 0
    requires r.Valid() && r.Elems() == e[..it.lo]
    requires r != it.list && (r.back == null || r.back !in it.list.nodes)
    modifies it, r, r.back
    ensures it.Valid() && it.lo + it.len == |e| && it.len == old(it.len) - 1
    ensures it.list.Valid() && it.list.Elems() == e
    ensures r.Valid() && r.Elems() == e[..it.lo]
    ensures r.back != null && fresh(r.back) && r.nodes == old(r.nodes) + [r.back]
    ensures r.back !in it.list.nodes
  {
    PrefixStep(e, it.lo);
    ghost var done := r.Elems();
    var x := it.Next();
    assert r.Elems() == done;
    r.PushBack(x.value);
    FrameValid(it.list);
  }

  /** `Clone::clone`: a new list, with `push_back` of each element of
      `iter()` in order; its nodes are all new. */
  method Clone<T>(a: LinkedList<T>) returns (r: LinkedList<T>)
    requires a.Valid()
    ensures fresh(r) && r.Valid() && fresh(r.nodes)
    ensures r.Elems() == a.Elems()
  {
    r := new LinkedList();
    var it := new Iter(a);
    ghost var e := a.Elems();
    while it.len > 0
      invariant fresh(it) && it.Valid() && it.list == a && it.lo + it.len == |e|
      invariant a.Valid() && a.Elems() == e
      invariant fresh(r) && r.Valid() && r.Elems() == e[..it.lo]
      invariant fresh(r.nodes)
      invariant r.back == null || r.back !in a.nodes
      decreases it.len
    {
      CloneStep(it, r, e);
    }
    assert e[..it.lo] == e;
  }
}
