/** The iterators of `vector_base<T>` (RawNamespace/vector/RawVector.hpp:49-114). Each wraps a raw
    pointer into the vector's buffer; here the pointer is the buffer `block` together with a slot
    number, which may lie outside the buffer (`rend()` sits at slot -1). Pointer subtraction and
    ordering are only defined between pointers into the same block, so those operations require it. */
module Iterators {
  import opened RawVector

  /** `IteratorBase<T>`: a forward iterator. */
  class IteratorBase<T> {
    const block: array<T>
    var ptr: int

    constructor (block: array<T>, ptr: int)
      ensures this.block == block && this.ptr == ptr
    {
      this.block := block;
      this.ptr := ptr;
    }

    /** `operator*`: the element the iterator points at. */
    function Deref(): (r: T)
      reads this, block
      requires 0 <= ptr < block.Length
      ensures r == block[ptr]
    {
      block[ptr]
    }

    /** `operator+=`: moves `n` slots toward the end. */
    method AddAssign(n: nat)
      modifies this
      ensures ptr == old(ptr) + n
    {
      ptr := ptr + n;
    }

    /** `operator-=`: moves `n` slots toward the front. */
    method SubAssign(n: nat)
      modifies this
      ensures ptr == old(ptr) - n
    {
      ptr := ptr - n;
    }

    /** `it + n`: a new iterator `n` slots further on. */
    method Plus(n: nat) returns (r: IteratorBase<T>)
      ensures fresh(r) && r.block == block && r.ptr == ptr + n
    {
      r := new IteratorBase(block, ptr + n);
    }

    /** `n + it`: the same as `it + n`. */
    static method PlusLeft(n: nat, it: IteratorBase<T>) returns (r: IteratorBase<T>)
      ensures fresh(r) && r.block == it.block && r.ptr == it.ptr + n
    {
      r := it.Plus(n);
    }

    /** `it - n`: a new iterator `n` slots back. */
    method Minus(n: nat) returns (r: IteratorBase<T>)
      ensures fresh(r) && r.block == block && r.ptr == ptr - n
    {
      r := new IteratorBase(block, ptr - n);
    }

    /** `it - other`: the pointer difference converted to `size_t`, so that an iterator before
        `other` yields a huge value rather than a negative one. */
    function Difference(other: IteratorBase<T>): (d: nat)
      reads this, other
      requires other.block == block
      ensures d < SIZE_MODULUS
      ensures 0 <= ptr - other.ptr < SIZE_MODULUS ==> d == ptr - other.ptr
      ensures ptr < other.ptr && 0 <= SIZE_MODULUS + ptr - other.ptr ==> d == SIZE_MODULUS + ptr - other.ptr
    {
      ToSize(ptr - other.ptr)
    }

    /** Prefix `++`. */
    method PreIncrement()
      modifies this
      ensures ptr == old(ptr) + 1
    {
      ptr := ptr + 1;
    }

    /** Postfix `++`: returns the old position and advances. */
    method PostIncrement() returns (before: IteratorBase<T>)
      modifies this
      ensures fresh(before) && before.block == block && before.ptr == old(ptr)
      ensures ptr == old(ptr) + 1
    {
      before := new IteratorBase(block, ptr);
      ptr := ptr + 1;
    }

    /** Prefix `--`. */
    method PreDecrement()
      modifies this
      ensures ptr == old(ptr) - 1
    {
      ptr := ptr - 1;
    }

    /** Postfix `--` as written at RawVector.hpp:73: it returns the old position and then
        ADVANCES, exactly like postfix `++`. */
    method PostDecrement() returns (before: IteratorBase<T>)
      modifies this
      ensures fresh(before) && before.block == block && before.ptr == old(ptr)
      ensures ptr == old(ptr) + 1
    {
      before := new IteratorBase(block, ptr);
      ptr := ptr + 1;
    }

    /** `operator==`: the same position, which within one block is `<=` both ways. */
    function Equal(other: IteratorBase<T>): (r: bool)
      reads this, other
      ensures other.block == block ==> (r <==> LessOrEqual(other) && other.LessOrEqual(this))
    {
      block == other.block && ptr == other.ptr
    }

    /** `operator!=`. */
    function NotEqual(other: IteratorBase<T>): (r: bool)
      reads this, other
      ensures r <==> !Equal(other)
    {
      block != other.block || ptr != other.ptr
    }

    /** `operator<`: `<=` without `==`. */
    function Less(other: IteratorBase<T>): (r: bool)
      reads this, other
      requires other.block == block
      ensures r <==> LessOrEqual(other) && !Equal(other)
    {
      ptr < other.ptr
    }

    /** `operator<=`: holds exactly when `other - *this`, as a `size_t`, does not wrap. */
    function LessOrEqual(other: IteratorBase<T>): (r: bool)
      reads this, other
      requires other.block == block
      ensures ptr - other.ptr < SIZE_MODULUS && other.ptr - ptr < SIZE_MODULUS ==> (r <==> other.Difference(this) == other.ptr - ptr)
    {
      ptr <= other.ptr
    }

    /** `operator>`: `<` with the operands exchanged. */
    function Greater(other: IteratorBase<T>): (r: bool)
      reads this, other
      requires other.block == block
      ensures r <==> other.Less(this)
    {
      ptr > other.ptr
    }

    /** `operator>=`: `<=` with the operands exchanged. */
    function GreaterOrEqual(other: IteratorBase<T>): (r: bool)
      reads this, other
      requires other.block == block
      ensures r <==> other.LessOrEqual(this)
    {
      ptr >= other.ptr
    }
  }

  /** `ReverseIterator<T>`: an iterator whose `++` steps toward slot 0. */
  class ReverseIterator<T> {
    const block: array<T>
    var it: int

    constructor (block: array<T>, it: int)
      ensures this.block == block && this.it == it
    {
      this.block := block;
      this.it := it;
    }

    /** `operator*`: the element the iterator points at. */
    function Deref(): (r: T)
      reads this, block
      requires 0 <= it < block.Length
      ensures r == block[it]
    {
      block[it]
    }

    /** `operator+=`: moves `n` steps along the reverse traversal, i.e. toward slot 0. */
    method AddAssign(n: nat)
      modifies this
      ensures it == old(it) - n
    {
      it := it - n;
    }

    /** `operator-=`: moves `n` steps back along the reverse traversal, toward the end. */
    method SubAssign(n: nat)
      modifies this
      ensures it == old(it) + n
    {
      it := it + n;
    }

    /** `rit + n`: a new iterator `n` steps further along the reverse traversal. */
    method Plus(n: nat) returns (r: ReverseIterator<T>)
      ensures fresh(r) && r.block == block && r.it == it - n
    {
      r := new ReverseIterator(block, it - n);
    }

    /** `n + rit` as written at RawVector.hpp:97: it is computed as `rit - n`, so it moves `n`
        steps the WRONG way, toward the end, unlike `rit + n`. */
    static method PlusLeft(n: nat, rit: ReverseIterator<T>) returns (r: ReverseIterator<T>)
      ensures fresh(r) && r.block == rit.block && r.it == rit.it + n
    {
      r := rit.Minus(n);
    }

    /** `rit - n`: a new iterator `n` steps back along the reverse traversal. */
    method Minus(n: nat) returns (r: ReverseIterator<T>)
      ensures fresh(r) && r.block == block && r.it == it + n
    {
      r := new ReverseIterator(block, it + n);
    }

    /** `a - b`: the number of reverse steps from `b` to `a`, `size_t(b.it - a.it)`. */
    function Difference(other: ReverseIterator<T>): (d: nat)
      reads this, other
      requires other.block == block
      ensures d < SIZE_MODULUS
      ensures 0 <= other.it - it < SIZE_MODULUS ==> d == other.it - it
      ensures other.it < it && 0 <= SIZE_MODULUS + other.it - it ==> d == SIZE_MODULUS + other.it - it
    {
      ToSize(other.it - it)
    }

    /** Prefix `++`: one slot toward slot 0. */
    method PreIncrement()
      modifies this
      ensures it == old(it) - 1
    {
      it := it - 1;
    }

    /** Postfix `++`: returns the old position and steps toward slot 0. */
    method PostIncrement() returns (before: ReverseIterator<T>)
      modifies this
      ensures fresh(before) && before.block == block && before.it == old(it)
      ensures it == old(it) - 1
    {
      before := new ReverseIterator(block, it);
      it := it - 1;
    }

    /** Prefix `--`: one slot toward the end. */
    method PreDecrement()
      modifies this
      ensures it == old(it) + 1
    {
      it := it + 1;
    }

    /** Postfix `--`: returns the old position and steps toward the end. */
    method PostDecrement() returns (before: ReverseIterator<T>)
      modifies this
      ensures fresh(before) && before.block == block && before.it == old(it)
      ensures it == old(it) + 1
    {
      before := new ReverseIterator(block, it);
      it := it + 1;
    }

    /** `operator==`: the same position, which within one block is `<=` both ways. */
    function Equal(other: ReverseIterator<T>): (r: bool)
      reads this, other
      ensures other.block == block ==> (r <==> LessOrEqual(other) && other.LessOrEqual(this))
    {
      block == other.block && it == other.it
    }

    /** `operator!=`. */
    function NotEqual(other: ReverseIterator<T>): (r: bool)
      reads this, other
      ensures r <==> !Equal(other)
    {
      block != other.block || it != other.it
    }

    /** `a < b` holds when `a` points at a HIGHER slot: ordering follows the reverse traversal.
        It is `<=` without `==`. */
    function Less(other: ReverseIterator<T>): (r: bool)
      reads this, other
      requires other.block == block
      ensures r <==> LessOrEqual(other) && !Equal(other)
    {
      it > other.it
    }

    /** `operator<=`: holds exactly when `other - *this`, as a `size_t`, does not wrap. */
    function LessOrEqual(other: ReverseIterator<T>): (r: bool)
      reads this, other
      requires other.block == block
      ensures it - other.it < SIZE_MODULUS && other.it - it < SIZE_MODULUS ==> (r <==> other.Difference(this) == it - other.it)
    {
      it >= other.it
    }

    /** `operator>`: `<` with the operands exchanged. */
    function Greater(other: ReverseIterator<T>): (r: bool)
      reads this, other
      requires other.block == block
      ensures r <==> other.Less(this)
    {
      it < other.it
    }

    /** `operator>=`: `<=` with the operands exchanged. */
    function GreaterOrEqual(other: ReverseIterator<T>): (r: bool)
      reads this, other
      requires other.block == block
      ensures r <==> other.LessOrEqual(this)
    {
      it <= other.it
    }
  }

  /** Forward iterators compare like the traversal visits them: between two slots of a forward
      walk, `<` holds exactly when the first is visited earlier, and `b - a` is the number of
      `++` steps from `a` to `b`. */
  lemma ForwardOrderFollowsTraversal<T>(a: IteratorBase<T>, b: IteratorBase<T>, first: int, last: int, i: nat, j: nat)
    requires a.block == b.block && first <= last
    requires i < |ForwardWalk(first, last)| && j < |ForwardWalk(first, last)|
    requires a.ptr == ForwardWalk(first, last)[i] && b.ptr == ForwardWalk(first, last)[j]
    requires last - first < SIZE_MODULUS
    ensures a.Less(b) <==> i < j
    ensures a.LessOrEqual(b) <==> i <= j
    ensures i <= j ==> b.Difference(a) == j - i
  {
  }

  /** Reverse iterators compare like the reverse traversal visits them: between two slots of a
      reverse walk, `<` holds exactly when the first is visited earlier, and `b - a` is the
      number of `++` steps from `a` to `b`. */
  lemma ReverseOrderFollowsTraversal<T>(a: ReverseIterator<T>, b: ReverseIterator<T>, first: int, last: int, i: nat, j: nat)
    requires a.block == b.block && last <= first
    requires i < |ReverseWalk(first, last)| && j < |ReverseWalk(first, last)|
    requires a.it == ReverseWalk(first, last)[i] && b.it == ReverseWalk(first, last)[j]
    requires first - last < SIZE_MODULUS
    ensures a.Less(b) <==> i < j
    ensures a.LessOrEqual(b) <==> i <= j
    ensures i <= j ==> b.Difference(a) == j - i
  {
  }

  /** `pos - begin()` is the slot number of `pos` for every position from `begin()` on, so that
      `end() - begin()` is the size and `begin() <= end()`. */
  lemma DistanceFromBegin<T>(begin: IteratorBase<T>, pos: IteratorBase<T>)
    requires begin.block == pos.block && begin.ptr == 0 && 0 <= pos.ptr < SIZE_MODULUS
    ensures pos.Difference(begin) == pos.ptr
    ensures begin.LessOrEqual(pos)
  {
  }
}
