/** Small value types shared by every list model: Rust's `Option` and
    `Ordering`, and the outcome of an operation that may panic part-way. */
module Core {

  /** `Option<T>` as returned by pops, peeks and iterators. */
  datatype Option<+T> = None | Some(value: T)

  /** `std::cmp::Ordering`. */
  datatype Ordering = Less | Equal | Greater {
    /** `Ordering::reverse`: the result of comparing the operands the other way round. */
    function Reverse(): (r: Ordering)
      ensures (r == Equal) <==> (this == Equal)
      ensures (r == Less) <==> (this == Greater)
    {
      match this
      case Less => Greater
      case Equal => Equal
      case Greater => Less
    }
  }

  /** Rust's `i32`, the element type of the stacks of src/first.rs and
      src/second.rs. */
  newtype i32 = x: int | -0x8000_0000 <= x < 0x8000_0000

  /** The result of an operation whose source contains an `unwrap` that can
      fail: either it ran to completion with a value, or it panicked. */
  datatype Outcome<+T> = Done(value: T) | Panicked

  // Small facts about sequences that the list proofs use as single steps.

  lemma AppendAssoc<A>(a: seq<A>, b: seq<A>, c: seq<A>)
    ensures (a + b) + c == a + (b + c)
  {
  }

  /** Extending a prefix of `s` by one element. */
  lemma PrefixStep<A>(s: seq<A>, i: nat)
    requires i < |s|
    ensures s[..i + 1] == s[..i] + [s[i]]
  {
  }

  /** Dropping one more element from a suffix of `s`. */
  lemma DropStep<A>(s: seq<A>, k: nat)
    requires k <= |s|
    ensures k < |s| ==> s[k..][1..] == s[k + 1..]
    ensures k + 1 < |s| ==> s[k..][1] in s
  {
  }
}
