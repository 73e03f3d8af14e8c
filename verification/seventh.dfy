/** The stack-allocated list of src/seventh.rs. A `List` is a frame holding
    `data` and a borrowed `prev` frame; `push` builds a frame on top of
    `prev` and hands it to a callback, so a chain of nested callbacks sees
    ever longer chains. Frames are never changed after they are built, so
    they are values; only the iterator changes state. The element type of
    the test is `i32`; the sums are taken over unbounded integers here. */
module Seventh {
  import opened Core

  datatype List<T> = List(data: T, prev: Option<List<T>>)

  /** The data met walking from `list` along `prev`, `list`'s own first. */
  function Chain<T>(list: List<T>): seq<T>
    decreases list
  {
    [list.data] + ChainFrom(list.prev)
  }

  /** The data met walking from `link` along `prev`; empty for None. */
  function ChainFrom<T>(link: Option<List<T>>): seq<T>
    decreases link
  {
    match link
    case None => []
    case Some(list) => Chain(list)
  }

  /** `List::push`: builds the frame whose data is `data` and whose `prev`
      is `prev`, and lends it to the callback for the callback's duration;
      whatever the callback returns is dropped, so the model returns the
      frame itself and the callback's body is written by the caller against
      it. Walking the frame gives `data` and then `prev`'s chain. */
  function Push<T>(prev: Option<List<T>>, data: T): (list: List<T>)
    ensures list.prev == prev
    ensures Chain(list) == [data] + ChainFrom(prev)
  {
    List(data, prev)
  }

  /** The sum of a sequence of integers. */
  function Total(s: seq<int>): int
  {
    if s == [] then 0 else s[0] + Total(s[1..])
  }

  /** `Iter<'a, T>` (`List::iter`): `next` is the frame still to be read. */
  class Iter<T> {
    var next: Option<List<T>>

    /** The data still to be yielded. */
    function Rest(): seq<T>
      reads this
    {
      ChainFrom(next)
    }

    /** `iter()`: starts at the frame itself, so the first item is its own
        data. */
    constructor (list: List<T>)
      ensures next == Some(list) && Rest() == Chain(list) && Rest()[0] == list.data
    {
      next := Some(list);
    }

    /** `next`: None once the walk has passed the oldest frame (whose `prev`
        is None); otherwise the next frame's data, stepping to its `prev`. */
    method Next() returns (r: Option<T>)
      modifies this
      ensures old(Rest()) == [] ==> r == None && Rest() == []
      ensures old(Rest()) != [] ==> r == Some(old(Rest())[0]) && Rest() == old(Rest())[1..]
    {
      if next.None? {
        return None;
      }
      var node := next.value;
      assert next == Some(node);
      assert ChainFrom(next) == Chain(node);
      assert Chain(node) == [node.data] + ChainFrom(node.prev);
      next := node.prev;
      r := Some(node.data);
    }
  }

  /** `list.iter().copied().sum()`: the loop drains a fresh iterator and
      adds up what it yields, which is the total of the chain. */
  method IterSum(list: List<int>) returns (sum: int)
    ensures sum == Total(Chain(list))
  {
    var it := new Iter(list);
    sum := 0;
    while true
      invariant sum + Total(it.Rest()) == Total(Chain(list))
      decreases |it.Rest()|
    {
      var item := it.Next();
      if item.None? {
        break;
      }
      sum := sum + item.value;
    }
  }

  /** The test at src/seventh.rs:36-48: three nested pushes, each callback
      summing the chain it is lent and making the next push. The sums seen
      are 3, 5 + 3 and 13 + 5 + 3. */
  method Elegance() returns (sums: seq<int>)
    ensures sums == [3, 8, 21]
  {
    var first := Push(None, 3);
    var a := IterSum(first);
    var second := Push(Some(first), 5);
    var b := IterSum(second);
    var third := Push(Some(second), 13);
    var c := IterSum(third);
    sums := [a, b, c];
  }
}
