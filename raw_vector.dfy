/** The contract shared by both backends of `raw::vector` (RawNamespace/vector/RawVector.hpp):
    the exceptions they throw, the doubling rule by which they grow, the sequence-level meaning
    of their structural operations, and the slots that forward and reverse traversal visit. */
module RawVector {

  /** `std::numeric_limits<size_t>::max()` on a 64-bit target. */
  const SIZE_MAX: nat := 0xFFFF_FFFF_FFFF_FFFF

  /** Number of distinct `size_t` values: conversions to `size_t` are taken modulo this. */
  const SIZE_MODULUS: nat := 0x1_0000_0000_0000_0000

  /** The two exceptions the container throws: `std::out_of_range` and `std::bad_alloc`. */
  datatype Error = OutOfRange | BadAlloc

  /** How an operation returning `void` ends: normally, or by throwing. */
  datatype Outcome = Done | Thrown(error: Error)

  /** How an operation returning a value ends: with the value, or by throwing. */
  datatype Result<T> = Ok(value: T) | Err(error: Error)

  datatype Option<T> = None | Some(value: T)

  /** `size_t(d)`: a (possibly negative) pointer difference converted to `size_t`. */
  function ToSize(d: int): (r: nat)
    ensures r < SIZE_MODULUS
    ensures 0 <= d < SIZE_MODULUS ==> r == d
    ensures d < 0 && 0 <= SIZE_MODULUS + d ==> r == SIZE_MODULUS + d
  {
    d % SIZE_MODULUS
  }

  // ---------------------------------------------------------------------------------------------
  // Growth
  // ---------------------------------------------------------------------------------------------

  function Pow2(k: nat): (p: nat)
    ensures p >= 1
  {
    if k == 0 then 1 else 2 * Pow2(k - 1)
  }

  /** The capacity at which `while (n >= capacity) capacity *= 2;` stops. */
  function Grow(capacity: nat, n: nat): (c: nat)
    requires capacity >= 1
    ensures c > n && c >= capacity
    ensures capacity > n ==> c == capacity
    decreases n + 1 - capacity
  {
    if n >= capacity then Grow(2 * capacity, n) else capacity
  }

  /** Growth only ever doubles: the result is `capacity` times a power of two. */
  lemma {:induction false} GrowIsDoubling(capacity: nat, n: nat) returns (k: nat)
    requires capacity >= 1
    ensures Grow(capacity, n) == capacity * Pow2(k)
    decreases n + 1 - capacity
  {
    if n >= capacity {
      var j := GrowIsDoubling(2 * capacity, n);
      k := j + 1;
      calc {
        Grow(capacity, n);
        Grow(2 * capacity, n);
        (2 * capacity) * Pow2(j);
        capacity * (2 * Pow2(j));
        capacity * Pow2(k);
      }
    } else {
      k := 0;
    }
  }

  /** Growth stops at the first doubling that exceeds `n`: no smaller multiple `capacity * 2^k`
      is large enough. */
  lemma {:induction false} GrowIsLeast(capacity: nat, n: nat, k: nat)
    requires capacity >= 1 && capacity * Pow2(k) > n
    ensures Grow(capacity, n) <= capacity * Pow2(k)
    decreases k
  {
    if n >= capacity {
      assert k != 0;
      calc {
        capacity * Pow2(k);
        capacity * (2 * Pow2(k - 1));
        (2 * capacity) * Pow2(k - 1);
      }
      GrowIsLeast(2 * capacity, n, k - 1);
    }
  }

  /** Starting from a capacity that is already too small, growth never reaches past `2 * n`;
      with `n <= SIZE_MAX / 2` the doubling therefore never overflows `size_t`. */
  lemma {:induction false} GrowAtMostTwice(capacity: nat, n: nat)
    requires 1 <= capacity <= n
    ensures Grow(capacity, n) <= 2 * n
    decreases n + 1 - capacity
  {
    if 2 * capacity <= n {
      GrowAtMostTwice(2 * capacity, n);
    }
  }

  /** The guard of `normalize_capacity(size_t)` (RawVectorNonTriv.hpp:57) keeps the doubled
      capacity within `size_t`. */
  lemma GrowFitsSizeT(capacity: nat, n: nat)
    requires capacity >= 1 && n <= SIZE_MAX / 2 && capacity <= SIZE_MAX
    ensures Grow(capacity, n) <= SIZE_MAX
  {
    if capacity <= n {
      GrowAtMostTwice(capacity, n);
    }
  }

  /** From a full buffer the doubling loop runs exactly once, so a single `capacity *= 2` (the
      copying `push_back` of the trivial backend) and the loop (its moving `push_back`) agree. */
  lemma GrowFromFull(capacity: nat)
    requires capacity >= 1
    ensures Grow(capacity, capacity) == 2 * capacity
  {
    assert Grow(capacity, capacity) == Grow(2 * capacity, capacity);
  }

  ghost predicate IsPowerOfTwo(p: nat) {
    exists k: nat :: p == Pow2(k)
  }

  /** Doubling from 1 yields the smallest power of two strictly greater than `n`. */
  lemma GrowFromOneIsNextPowerOfTwo(n: nat)
    ensures IsPowerOfTwo(Grow(1, n)) && Grow(1, n) > n
    ensures forall k: nat :: Pow2(k) > n ==> Grow(1, n) <= Pow2(k)
  {
    var k := GrowIsDoubling(1, n);
    assert Grow(1, n) == Pow2(k);
    forall j: nat | Pow2(j) > n
      ensures Grow(1, n) <= Pow2(j)
    {
      GrowIsLeast(1, n, j);
    }
  }

  // ---------------------------------------------------------------------------------------------
  // Sequence-level meaning of the structural operations
  // ---------------------------------------------------------------------------------------------

  /** Contents after `insert(i, v)`: `v` at `i`, the elements from `i` on one slot further. */
  function InsertAt<T>(s: seq<T>, i: nat, v: T): (r: seq<T>)
    requires i <= |s|
    ensures |r| == |s| + 1 && r[i] == v
    ensures forall k :: 0 <= k < i ==> r[k] == s[k]
    ensures forall k :: i < k < |r| ==> r[k] == s[k - 1]
  {
    s[..i] + [v] + s[i..]
  }

  /** Contents after `erase(i)`: the element at `i` gone, the later ones one slot earlier. */
  function RemoveAt<T>(s: seq<T>, i: nat): (r: seq<T>)
    requires i < |s|
    ensures |r| == |s| - 1
    ensures forall k :: 0 <= k < i ==> r[k] == s[k]
    ensures forall k :: i <= k < |r| ==> r[k] == s[k + 1]
  {
    s[..i] + s[i + 1..]
  }

  /** `insert(i, v)` followed by `erase(i)` restores the contents. */
  lemma RemoveAtInsertAt<T>(s: seq<T>, i: nat, v: T)
    requires i <= |s|
    ensures RemoveAt(InsertAt(s, i, v), i) == s
  {
    var r := RemoveAt(InsertAt(s, i, v), i);
    assert |r| == |s|;
    forall k | 0 <= k < |s| ensures r[k] == s[k] {
      if k >= i {
        assert r[k] == InsertAt(s, i, v)[k + 1];
      }
    }
  }

  /** `erase(i)` followed by re-inserting the erased element at `i` restores the contents. */
  lemma InsertAtRemoveAt<T>(s: seq<T>, i: nat)
    requires i < |s|
    ensures InsertAt(RemoveAt(s, i), i, s[i]) == s
  {
    var r := InsertAt(RemoveAt(s, i), i, s[i]);
    assert |r| == |s|;
    forall k | 0 <= k < |s| ensures r[k] == s[k] {
      if k > i {
        assert r[k] == RemoveAt(s, i)[k - 1];
      }
    }
  }

  /** `insert(i, v)` adds exactly one element, `v`, and removes none. */
  lemma InsertAtMultiset<T>(s: seq<T>, i: nat, v: T)
    requires i <= |s|
    ensures multiset(InsertAt(s, i, v)) == multiset(s) + multiset{v}
  {
    assert s == s[..i] + s[i..];
  }

  /** Contents after `insert(i, v[j])` on a block with room, as both backends write it: the
      argument is a reference to slot `j`, read only after the elements from `i` on have moved
      one slot up, so for `j > i` it names what slot `j` then holds, `s[j - 1]`. (In the
      non-trivial backend slot `i` itself then holds a moved-from object; for `j == i` this is
      the trivial backend's outcome.) */
  function InsertFromSlotAsWritten<T>(s: seq<T>, i: nat, j: nat): (r: seq<T>)
    requires i <= |s| && j < |s|
    ensures |r| == |s| + 1
    ensures r[i] == (if j <= i then s[j] else s[j - 1])
    ensures forall k :: 0 <= k < |r| && k != i ==> r[k] == InsertAt(s, i, s[j])[k]
  {
    var shifted := if i < |s| then s[..i + 1] + s[i..] else s;
    InsertAt(s, i, shifted[j])
  }

  /** As written, `insert(i, v[j])` with `j > i` inserts a second copy of the element before
      `v[j]`: when the two differ the outcome is not the intended `InsertAt(s, i, s[j])`. */
  lemma InsertFromSlotAsWrittenCopiesNeighbour<T>(s: seq<T>, i: nat, j: nat)
    requires i < j < |s|
    ensures multiset(InsertFromSlotAsWritten(s, i, j)) == multiset(s) + multiset{s[j - 1]}
    ensures s[j - 1] != s[j] ==> InsertFromSlotAsWritten(s, i, j) != InsertAt(s, i, s[j])
  {
    var shifted := s[..i + 1] + s[i..];
    assert shifted[j] == s[j - 1];
    assert InsertFromSlotAsWritten(s, i, j) == InsertAt(s, i, s[j - 1]);
    InsertAtMultiset(s, i, s[j - 1]);
    if s[j - 1] != s[j] {
      assert InsertFromSlotAsWritten(s, i, j)[i] != InsertAt(s, i, s[j])[i];
    }
  }

  /** `insert(i, v[j])` as intended, with `v[j]` read before anything moves: the vector gains
      exactly one copy of `v[j]`, at `i`, and an `erase(i)` undoes it. */
  lemma InsertFromSlotCorrected<T>(s: seq<T>, i: nat, j: nat)
    requires i <= |s| && j < |s|
    ensures InsertAt(s, i, s[j])[i] == s[j]
    ensures multiset(InsertAt(s, i, s[j])) == multiset(s) + multiset{s[j]}
    ensures RemoveAt(InsertAt(s, i, s[j]), i) == s
  {
    InsertAtMultiset(s, i, s[j]);
    RemoveAtInsertAt(s, i, s[j]);
  }

  /** Contents after `resize(n)` when new slots are filled with `fill`. */
  function Resized<T>(s: seq<T>, n: nat, fill: T): (r: seq<T>)
    ensures |r| == n
    ensures forall k :: 0 <= k < n && k < |s| ==> r[k] == s[k]
    ensures forall k :: |s| <= k < n ==> r[k] == fill
  {
    if n <= |s| then s[..n] else s + seq(n - |s|, _ => fill)
  }

  // ---------------------------------------------------------------------------------------------
  // Traversal
  // ---------------------------------------------------------------------------------------------

  /** Slots visited by `for (it = first; it != last; ++it)` with a forward iterator. */
  function ForwardWalk(first: int, last: int): (w: seq<int>)
    requires first <= last
    ensures |w| == last - first
    ensures forall k :: 0 <= k < |w| ==> w[k] == first + k
    decreases last - first
  {
    if first == last then [] else [first] + ForwardWalk(first + 1, last)
  }

  /** Slots visited by `for (it = first; it != last; ++it)` with a reverse iterator, whose `++`
      steps toward slot 0. */
  function ReverseWalk(first: int, last: int): (w: seq<int>)
    requires last <= first
    ensures |w| == first - last
    ensures forall k :: 0 <= k < |w| ==> w[k] == first - k
    decreases first - last
  {
    if first == last then [] else [first] + ReverseWalk(first - 1, last)
  }

  /** The elements found at the visited slots, in visiting order. */
  function Gather<T>(s: seq<T>, w: seq<int>): (r: seq<T>)
    requires forall k :: 0 <= k < |w| ==> 0 <= w[k] < |s|
    ensures |r| == |w|
    ensures forall k :: 0 <= k < |w| ==> r[k] == s[w[k]]
  {
    seq(|w|, k requires 0 <= k < |w| => s[w[k]])
  }

  /** The sequence read back to front. */
  function Reversed<T>(s: seq<T>): seq<T> {
    if s == [] then [] else Reversed(s[1..]) + [s[0]]
  }

  lemma {:induction false} ReversedAt<T>(s: seq<T>, k: nat)
    requires k < |s|
    ensures |Reversed(s)| == |s| && Reversed(s)[k] == s[|s| - 1 - k]
  {
    ReversedLength(s);
    if k < |s| - 1 {
      ReversedAt(s[1..], k);
    } else {
      ReversedLength(s[1..]);
    }
  }

  lemma {:induction false} ReversedLength<T>(s: seq<T>)
    ensures |Reversed(s)| == |s|
  {
    if s != [] {
      ReversedLength(s[1..]);
    }
  }

  /** Position of `end()`, one past the last element. */
  function EndIndex(size: nat): int {
    size
  }

  /** Position of `rend()`: one before slot 0 (`data - 1`). */
  const REndIndex: int := -1

  /** Position of `rbegin()` as written at RawVector.hpp:123: the last element, but slot 0 for an
      empty vector. */
  function RBeginAsWritten(size: nat): (r: int)
    ensures 0 <= r && r != REndIndex
    ensures size > 0 ==> r == size - 1
  {
    if size > 0 then size - 1 else 0
  }

  /** Position of `rbegin()` as evidently intended: one before `rend()` when the vector is empty,
      so that reverse traversal of an empty vector visits nothing. */
  function RBeginIndex(size: nat): (r: int)
    ensures size > 0 ==> r == RBeginAsWritten(size)
    ensures r - REndIndex == size
  {
    size - 1
  }

  /** `for (it = begin(); it != end(); ++it)` visits the elements in index order. */
  lemma ForwardTraversalInOrder<T>(s: seq<T>)
    ensures Gather(s, ForwardWalk(0, EndIndex(|s|))) == s
  {
    var r := Gather(s, ForwardWalk(0, EndIndex(|s|)));
    assert |r| == |s|;
    forall k | 0 <= k < |s| ensures r[k] == s[k] { }
  }

  /** `for (it = rbegin(); it != rend(); ++it)` visits the elements in reverse index order. */
  lemma ReverseTraversalReversed<T>(s: seq<T>)
    ensures Gather(s, ReverseWalk(RBeginIndex(|s|), REndIndex)) == Reversed(s)
  {
    var g := Gather(s, ReverseWalk(|s| - 1, -1));
    var rs := Reversed(s);
    ReversedLength(s);
    forall k | 0 <= k < |s| ensures g[k] == rs[k] {
      ReverseWalkGathersAt(s, k);
    }
    assert g == rs;
  }

  /** One position of the reverse traversal: its `k`-th element is the `k`-th of the reversal. */
  lemma ReverseWalkGathersAt<T>(s: seq<T>, k: nat)
    requires k < |s|
    ensures |Reversed(s)| == |s| && Gather(s, ReverseWalk(|s| - 1, -1))[k] == Reversed(s)[k]
  {
    ReversedAt(s, k);
  }

  /** With `rbegin()` as written, reverse traversal of an empty vector does not stop at once: it
      visits slot 0, which holds no element. */
  lemma EmptyReverseTraversalAsWritten()
    ensures ReverseWalk(RBeginAsWritten(0), REndIndex) == [0]
  {
    assert ReverseWalk(RBeginAsWritten(0), REndIndex) == [0] + ReverseWalk(-1, -1);
  }
}
