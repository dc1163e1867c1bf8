/** Call sequences a client of `raw::vector` performs, on both backends, with what the contracts of
    the operations guarantee about them: an insertion undone by an erasure, deep copies that do not
    share elements, `shrink_to_fit` settling after one call, the short scenarios of pushing,
    reserving, checked access and popping, and the balance of constructions and destructions over a
    non-trivial vector's lifetime. */
module Scenarios {
  import opened RawVector
  import opened Lifecycle
  import opened VectorTriv
  import opened VectorNonTriv
  import opened Iterators

  /** `insert(i, x)` followed by `erase(i)` restores the contents (trivial backend). */
  method TrivInsertThenErase<T>(v: VectorTriv<T>, i: nat, x: T)
    requires v.Valid() && i <= v.size && v.capacity >= 1
    modifies v, v.data
    ensures v.Valid() && v.Elements() == old(v.Elements())
  {
    var inserted := v.Insert(i, x);
    var erased := v.Erase(i);
    RemoveAtInsertAt(old(v.Elements()), i, x);
  }

  /** `insert(i, x)` followed by `erase(i)` restores the contents (non-trivial backend). */
  method NonTrivInsertThenErase<T>(v: VectorNonTriv<T>, i: nat, x: T)
    requires v.Valid() && i <= v.size && v.capacity >= 1
    modifies v, v.data
    ensures v.Valid() && v.Elements() == old(v.Elements())
  {
    var inserted := v.Insert(i, x);
    var erased := v.Erase(i);
    RemoveAtInsertAt(old(v.Elements()), i, x);
  }

  /** Pushing values and walking from `begin()` to `end()` yields them in insertion order; walking
      from `rbegin()` to `rend()` yields them in reverse. */
  method PushThenTraverse<T>(v: VectorTriv<T>, xs: seq<T>)
    requires v.Valid() && v.size == 0 && v.capacity >= 1
    modifies v, v.data
    ensures v.Valid()
    ensures Gather(v.Elements(), ForwardWalk(0, EndIndex(v.size))) == xs
    ensures Gather(v.Elements(), ReverseWalk(RBeginIndex(v.size), REndIndex)) == Reversed(xs)
  {
    for i := 0 to |xs|
      invariant v.Valid() && v.capacity >= 1 && v.Elements() == xs[..i]
      invariant v.data == old(v.data) || fresh(v.data)
    {
      v.PushBack(xs[i]);
      assert xs[..i + 1] == xs[..i] + [xs[i]];
    }
    assert v.Elements() == xs;
    ForwardTraversalInOrder(xs);
    ReverseTraversalReversed(xs);
  }

  /** `for (auto it = v.begin(); it != v.end(); ++it) out.push_back(*it);` reads the elements in
      index order, driven by the iterator's own `!=`, `*` and prefix `++`. */
  method IterateForward<T>(v: VectorTriv<T>) returns (out: seq<T>)
    requires v.Valid()
    ensures out == v.Elements()
  {
    var it := v.Begin();
    var e := v.End();
    out := [];
    while it.NotEqual(e)
      invariant it.block == v.data && e.block == v.data && e.ptr == v.size
      invariant 0 <= it.ptr <= v.size && out == v.Elements()[..it.ptr]
      decreases v.size - it.ptr
    {
      out := out + [it.Deref()];
      it.PreIncrement();
    }
  }

  /** `for (auto it = v.rbegin(); it != v.rend(); ++it) out.push_back(*it);` reads the elements
      back to front, driven by the reverse iterator's own `!=`, `*` and prefix `++`. */
  method IterateBackward<T>(v: VectorNonTriv<T>) returns (out: seq<T>)
    requires v.Valid()
    ensures out == Reversed(v.Elements())
  {
    var it := v.RBegin();
    var e := v.REnd();
    out := [];
    while it.NotEqual(e)
      invariant it.block == v.data && e.block == v.data && e.it == -1
      invariant -1 <= it.it < v.size && |out| == v.size - 1 - it.it
      invariant forall k :: 0 <= k < |out| ==> out[k] == v.Elements()[v.size - 1 - k]
      decreases it.it
    {
      out := out + [it.Deref()];
      it.PreIncrement();
    }
    ReversedLength(v.Elements());
    forall k | 0 <= k < |out| ensures out[k] == Reversed(v.Elements())[k] {
      ReversedAt(v.Elements(), k);
    }
  }

  /** `end() - begin()` is the number of elements. */
  method EndMinusBegin<T>(v: VectorNonTriv<T>) returns (d: nat)
    requires v.Valid() && v.size < SIZE_MODULUS
    ensures d == |v.Elements()|
  {
    var b := v.Begin();
    var e := v.End();
    DistanceFromBegin(b, e);
    d := e.Difference(b);
  }

  /** A copy made by the copy constructor shares no storage with the original: writing to the
      copy leaves the original as it was (non-trivial backend). */
  method NonTrivCopyIsIndependent<T>(v: VectorNonTriv<T>, x: T) returns (c: VectorNonTriv<T>)
    requires v.Valid() && v.size > 0
    ensures v.Elements() == old(v.Elements())
    ensures c.Valid() && c.Elements() == v.Elements()[0 := x]
  {
    c := new VectorNonTriv.CopyOf(v);
    c.Set(0, x);
  }

  /** The same for `copy()` on the trivial backend. */
  method TrivCopyIsIndependent<T>(v: VectorTriv<T>, x: T) returns (c: VectorTriv<T>)
    requires v.Valid() && v.size > 0
    ensures v.Elements() == old(v.Elements())
    ensures c.Valid() && c.Elements() == v.Elements()[0 := x]
  {
    c := v.Copy();
    c.Set(0, x);
  }

  /** On a non-empty vector `shrink_to_fit()` makes the capacity equal the size, and a second
      call changes nothing: the block it leaves is `first`. */
  method NonTrivShrinkTwice<T>(v: VectorNonTriv<T>) returns (first: array<T>)
    requires v.Valid() && v.size > 0
    modifies v
    ensures v.Valid() && v.Elements() == old(v.Elements())
    ensures v.capacity == v.size && v.data == first
  {
    v.ShrinkToFit();
    first := v.data;
    v.ShrinkToFit();
  }

  /** The same on the trivial backend: its extra guard against shrinking a one-slot block never
      applies to a non-empty vector that is not already tight. */
  method TrivShrinkTwice<T>(v: VectorTriv<T>) returns (first: array<T>)
    requires v.Valid() && v.size > 0
    modifies v
    ensures v.Valid() && v.Elements() == old(v.Elements())
    ensures v.capacity == v.size && v.data == first
  {
    v.ShrinkToFit();
    first := v.data;
    v.ShrinkToFit();
  }

  /** Starting empty, `push_back(1)`, `push_back(2)`, `push_back(3)` and then `erase(1)`. */
  method PushThreeEraseMiddle() returns (v: VectorTriv<int>, three: seq<int>)
    ensures v.Valid() && three == [1, 2, 3] && v.Elements() == [1, 3]
    ensures v.capacity == 4
  {
    v := new VectorTriv(0);
    v.PushBack(1);
    v.PushBack(2);
    v.PushBack(3);
    three := [v.Get(0), v.Get(1), v.Get(2)];
    var r := v.Erase(1);
  }

  /** `vector_triv(0)`, `reserve(5)`, then five `push_back`s: the reserved block of exactly 5
      slots takes them all without growing. */
  method TrivReserveThenPush(x: int) returns (v: VectorTriv<int>, reserved: array<int>)
    ensures v.Valid() && v.Elements() == [x, x, x, x, x]
    ensures v.capacity == 5 && v.data == reserved
  {
    v := new VectorTriv.WithSize(0, 0);
    v.Reserve(5);
    reserved := v.data;
    for i := 0 to 5
      invariant v.Valid() && v.capacity == 5 && v.data == reserved && v.Elements() == seq(i, _ => x)
    {
      v.PushBack(x);
      assert v.Elements() == seq(i + 1, _ => x);
    }
  }

  /** `vector_non_triv(0)`, `reserve(5)`, then five `push_back`s: reserve doubles past 5 to 8
      slots, which take all five without growing. */
  method NonTrivReserveThenPush<T>(x: T, dflt: T) returns (v: VectorNonTriv<T>, reserved: array<T>)
    ensures v.Valid() && v.Elements() == [x, x, x, x, x]
    ensures v.capacity == 8 && v.data == reserved
  {
    v := new VectorNonTriv.WithSize(0, dflt);
    var r := v.Reserve(5);
    reserved := v.data;
    for i := 0 to 5
      invariant v.Valid() && v.capacity == 8 && v.data == reserved && v.Elements() == seq(i, _ => x)
    {
      v.PushBack(x);
      assert v.Elements() == seq(i + 1, _ => x);
    }
  }

  /** `at(5)` on a vector of size 3 fails with `out_of_range`. */
  method AtPastEnd() returns (r: Result<int>)
    ensures r == Err(OutOfRange)
  {
    var v := new VectorTriv.WithSize(3, 0);
    r := v.At(5);
  }

  /** `pop_back()` on an empty vector fails with `out_of_range` and leaves it empty and usable:
      a `push_back` afterwards succeeds. */
  method PopEmptyThenPush<T>(dflt: T, x: T) returns (v: VectorNonTriv<T>, r: Outcome)
    ensures r == Thrown(OutOfRange)
    ensures v.Valid() && v.Elements() == [x] && v.capacity == 1
  {
    v := new VectorNonTriv(dflt);
    r := v.PopBack();
    v.PushBack(x);
  }

  /** Over a non-trivial vector's whole life, through growth, insertion, erasure, resizing and
      the destructor, every object constructed is destroyed exactly once. */
  method LifetimeBalances<T>(dflt: T, x: T, y: T) returns (v: VectorNonTriv<T>)
    ensures Vacant(v.live) && v.destroyed == v.constructed
  {
    v := new VectorNonTriv(dflt);
    v.PushBack(x);
    v.PushBack(y);
    v.PushBack(x);
    var inserted := v.Insert(1, y);
    var erased := v.Erase(0);
    v.Resize(7);
    v.Resize(2);
    v.Destroy();
  }
}
