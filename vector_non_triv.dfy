/** `raw::vector_non_triv<T>` (RawNamespace/vector/non-trvivial/RawVectorNonTriv.hpp): the backend
    for element types with real constructors and destructors. It places objects in raw `malloc`ed
    memory with placement `new`, relocates them one by one with move construction and destroys
    them explicitly.

    Besides the values, every vector carries the construction state of its block (`live`) and how
    many objects it has constructed and destroyed. Each step records its lifetime event with
    `Lifecycle.Apply`, whose precondition rejects an undefined step; `Valid` demands that exactly
    the first `size` slots are live and that every object constructed and not destroyed is one of
    them, so no object leaks and none is destroyed twice. */
module VectorNonTriv {
  import opened RawVector
  import opened Iterators
  import opened Lifecycle

  class VectorNonTriv<T> {
    /** The value `T()` produces. */
    const dflt: T
    /** The heap block; a moved-from vector's null block is an empty array. Slots at and beyond
        `size` hold raw memory, whatever their value here. */
    var data: array<T>
    var size: nat
    var capacity: nat
    ghost var live: Slots
    ghost var constructed: nat
    ghost var destroyed: nat

    ghost predicate Valid()
      reads this
    {
      && data.Length == capacity && size <= capacity
      && |live| == capacity && LiveExactly(live, size)
      && constructed == destroyed + size
    }

    /** The live elements, `data[0 .. size)`. */
    ghost function Elements(): seq<T>
      reads this, data
      requires Valid()
    {
      data[..size]
    }

    /** Default constructor (RawVectorNonTriv.hpp:115-121): one slot of raw memory, no element. */
    constructor (dflt: T)
      ensures Valid() && fresh(data)
      ensures Elements() == [] && capacity == 1
      ensures constructed == 0 && this.dflt == dflt
    {
      this.dflt := dflt;
      data := new T[1](_ => dflt);
      size, capacity := 0, 1;
      live := Unconstructed(1);
      constructed, destroyed := 0, 0;
    }

    /** `reserve_space()` (RawVectorNonTriv.hpp:87-97): doubles `capacity` until it exceeds `size`,
        allocates that many slots and default-constructs the first `size`. With capacity 0 the
        doubling never ends. */
    static method ReserveSpace(size: nat, capacity: nat, dflt: T) returns (block: array<T>, newCapacity: nat, ghost blockLive: Slots)
      requires capacity >= 1
      ensures fresh(block) && block.Length == newCapacity
      ensures newCapacity == Grow(capacity, size)
      ensures block[..size] == seq(size, _ => dflt)
      ensures |blockLive| == newCapacity && LiveExactly(blockLive, size)
    {
      newCapacity := capacity;
      while size >= newCapacity
        invariant newCapacity >= 1 && Grow(newCapacity, size) == Grow(capacity, size)
        decreases size - newCapacity
      {
        newCapacity := 2 * newCapacity;
      }
      block := new T[newCapacity](_ => dflt);
      blockLive := Unconstructed(newCapacity);
      for i := 0 to size
        invariant |blockLive| == newCapacity
        invariant forall k :: 0 <= k < newCapacity ==> (blockLive[k] <==> k < i)
        invariant forall k :: 0 <= k < i ==> block[k] == dflt
      {
        block[i] := dflt;
        blockLive := Apply(blockLive, ConstructAt(i));
      }
      assert block[..size] == seq(size, _ => dflt);
    }

    /** Size constructor `vector_non_triv(n)` (RawVectorNonTriv.hpp:132-147): `n` default-
        constructed elements in a block doubled from 1 until it exceeds `n`. */
    constructor WithSize(n: nat, dflt: T)
      ensures Valid() && fresh(data)
      ensures Elements() == seq(n, _ => dflt)
      ensures capacity == Grow(1, n)
      ensures constructed == n && this.dflt == dflt
    {
      this.dflt := dflt;
      var block, c, blockLive := ReserveSpace(n, 1, dflt);
      data, size, capacity := block, n, c;
      live := blockLive;
      constructed, destroyed := n, 0;
    }

    /** Copy constructor (RawVectorNonTriv.hpp:158-175): a block of `other`'s capacity in which
        each element is copy-constructed. */
    constructor CopyOf(other: VectorNonTriv<T>)
      requires other.Valid()
      ensures Valid() && fresh(data)
      ensures Elements() == other.Elements() && capacity == other.capacity
      ensures constructed == other.size && dflt == other.dflt
    {
      dflt := other.dflt;
      var block := new T[other.capacity](_ => other.dflt);
      ghost var blockLive := Unconstructed(other.capacity);
      for i := 0 to other.size
        invariant |blockLive| == other.capacity
        invariant forall k :: 0 <= k < other.capacity ==> (blockLive[k] <==> k < i)
        invariant block[..i] == other.data[..i]
      {
        block[i] := other.data[i];
        blockLive := Apply(blockLive, ConstructAt(i));
      }
      data, size, capacity := block, other.size, other.capacity;
      live := blockLive;
      constructed, destroyed := other.size, 0;
      new;
      assert Elements() == other.Elements();
    }

    /** Move constructor (RawVectorNonTriv.hpp:185-197): unlike the trivial backend it does not
        take over `other`'s block; it allocates one of the same capacity, move-constructs each
        element into it, destroys the original, frees `other`'s block and leaves `other`
        moved-from (null block, size 0, capacity 0). */
    constructor MoveFrom(other: VectorNonTriv<T>)
      requires other.Valid()
      modifies other
      ensures Valid() && fresh(data) && other.Valid()
      ensures Elements() == old(other.Elements()) && capacity == old(other.capacity)
      ensures other.size == 0 && other.capacity == 0
      ensures other.destroyed == old(other.constructed) && constructed == old(other.size)
      ensures dflt == other.dflt
    {
      dflt := other.dflt;
      var block := new T[other.capacity](_ => other.dflt);
      ghost var blockLive := Unconstructed(other.capacity);
      for i := 0 to other.size
        invariant other.data == old(other.data) && other.size == old(other.size)
        invariant other.capacity == old(other.capacity) && other.constructed == old(other.constructed)
        invariant other.data[..] == old(other.data[..])
        invariant |blockLive| == other.capacity && |other.live| == other.capacity
        invariant forall k :: 0 <= k < other.capacity ==> (blockLive[k] <==> k < i)
        invariant forall k :: 0 <= k < other.capacity ==> (other.live[k] <==> i <= k < other.size)
        invariant other.destroyed == old(other.destroyed) + i
        invariant block[..i] == other.data[..i]
      {
        block[i] := other.data[i];
        blockLive := Apply(blockLive, ConstructAt(i));
        other.live := Apply(other.live, DestroyAt(i));
        other.destroyed := other.destroyed + 1;
      }
      assert Vacant(other.live);
      data, size, capacity := block, other.size, other.capacity;
      live := blockLive;
      constructed, destroyed := other.size, 0;
      new;
      assert Elements() == old(other.Elements());
      other.data := new T[0];
      other.size, other.capacity := 0, 0;
      other.live := [];
    }

    /** Moves the elements into a fresh block of `newCapacity` slots: for each, move construction
        in the new block and destruction in the old one, which is then empty of objects and freed.
        This is the loop shared by both `normalize_capacity` overloads, `resize` and
        `shrink_to_fit` (RawVectorNonTriv.hpp:34-40). */
    method Relocate(newCapacity: nat)
      requires Valid() && size <= newCapacity
      modifies this
      ensures Valid() && fresh(data)
      ensures capacity == newCapacity && size == old(size) && Elements() == old(Elements())
      ensures constructed == old(constructed) + size && destroyed == old(destroyed) + size
    {
      var block := new T[newCapacity](_ => dflt);
      ghost var blockLive := Unconstructed(newCapacity);
      for i := 0 to size
        invariant data == old(data) && size == old(size) && capacity == old(capacity)
        invariant |blockLive| == newCapacity && |live| == capacity
        invariant forall k :: 0 <= k < newCapacity ==> (blockLive[k] <==> k < i)
        invariant forall k :: 0 <= k < capacity ==> (live[k] <==> i <= k < size)
        invariant block[..i] == data[..i]
        invariant constructed == old(constructed) + i && destroyed == old(destroyed) + i
      {
        block[i] := data[i];
        blockLive := Apply(blockLive, ConstructAt(i));
        constructed := constructed + 1;
        live := Apply(live, DestroyAt(i));
        destroyed := destroyed + 1;
      }
      assert Vacant(live);
      data, capacity := block, newCapacity;
      live := blockLive;
    }

    /** `normalize_capacity()` (RawVectorNonTriv.hpp:26-43): doubles `capacity` until it exceeds
        `size` and relocates. With capacity 0 the doubling never ends. */
    method NormalizeCapacity()
      requires Valid() && capacity >= 1
      modifies this
      ensures Valid() && fresh(data)
      ensures capacity == Grow(old(capacity), size) && size == old(size) && Elements() == old(Elements())
      ensures constructed == old(constructed) + size && destroyed == old(destroyed) + size
    {
      var c := capacity;
      while size >= c
        invariant c >= 1 && Grow(c, size) == Grow(capacity, size)
        decreases size - c
      {
        c := 2 * c;
      }
      Relocate(c);
    }

    /** `normalize_capacity(n)` (RawVectorNonTriv.hpp:56-75): `bad_alloc` when `n` exceeds half
        of `SIZE_MAX`; otherwise a capacity of 0 becomes 1, is doubled until it exceeds `n`, and
        the elements are relocated. */
    method NormalizeCapacityFor(n: nat) returns (r: Outcome)
      requires Valid()
      modifies this
      ensures Valid()
      ensures SIZE_MAX / 2 < n ==> r == Thrown(BadAlloc) && unchanged(this)
      ensures n <= SIZE_MAX / 2 ==>
                && r == Done && fresh(data)
                && capacity == Grow(if old(capacity) == 0 then 1 else old(capacity), n)
                && size == old(size) && Elements() == old(Elements())
    {
      if SIZE_MAX / 2 < n {
        return Thrown(BadAlloc);
      }
      var c := if capacity == 0 then 1 else capacity;
      ghost var start := c;
      while n >= c
        invariant c >= 1 && Grow(c, n) == Grow(start, n)
        decreases n - c
      {
        c := 2 * c;
      }
      Relocate(c);
      r := Done;
    }

    /** Copy assignment (RawVectorNonTriv.hpp:208-234): nothing when both share a block (self-
        assignment); otherwise destroys its own elements, frees its block, and copy-constructs
        `other`'s elements into a new block of `other`'s capacity. */
    method CopyAssign(other: VectorNonTriv<T>)
      requires Valid() && other.Valid()
      modifies this
      ensures Valid()
      ensures old(data) == other.data ==> unchanged(this)
      ensures old(data) != other.data ==>
                && fresh(data) && Elements() == other.Elements() && capacity == other.capacity
                && destroyed == old(destroyed) + old(size) && constructed == old(constructed) + other.size
    {
      if data == other.data {
        return;
      }
      for i := 0 to size
        invariant |live| == capacity && data == old(data) && size == old(size)
        invariant forall k :: 0 <= k < capacity ==> (live[k] <==> i <= k < size)
        invariant destroyed == old(destroyed) + i && constructed == old(constructed)
      {
        live := Apply(live, DestroyAt(i));
        destroyed := destroyed + 1;
      }
      assert Vacant(live);
      var block := new T[other.capacity](_ => dflt);
      ghost var blockLive := Unconstructed(other.capacity);
      for i := 0 to other.size
        invariant data == old(data) && destroyed == old(destroyed) + old(size)
        invariant |blockLive| == other.capacity
        invariant forall k :: 0 <= k < other.capacity ==> (blockLive[k] <==> k < i)
        invariant block[..i] == other.data[..i]
        invariant constructed == old(constructed) + i
      {
        block[i] := other.data[i];
        blockLive := Apply(blockLive, ConstructAt(i));
        constructed := constructed + 1;
      }
      data, size, capacity := block, other.size, other.capacity;
      live := blockLive;
      assert Elements() == other.Elements();
    }

    /** Move assignment (RawVectorNonTriv.hpp:244-264): nothing when both share a block;
        otherwise destroys its own elements, move-constructs `other`'s into a new block of
        `other`'s capacity, destroying each original, and leaves `other` moved-from. */
    method MoveAssign(other: VectorNonTriv<T>)
      requires Valid() && other.Valid()
      modifies this, other
      ensures Valid() && other.Valid()
      ensures old(data) == old(other.data) ==> unchanged(this) && unchanged(other)
      ensures old(data) != old(other.data) ==>
                && fresh(data) && Elements() == old(other.Elements()) && capacity == old(other.capacity)
                && other.size == 0 && other.capacity == 0
                && destroyed == old(destroyed) + old(size)
                && other.destroyed == old(other.constructed)
    {
      if data == other.data {
        return;
      }
      for i := 0 to size
        invariant |live| == capacity && data == old(data) && size == old(size)
        invariant forall k :: 0 <= k < capacity ==> (live[k] <==> i <= k < size)
        invariant destroyed == old(destroyed) + i && constructed == old(constructed)
        invariant unchanged(other)
      {
        live := Apply(live, DestroyAt(i));
        destroyed := destroyed + 1;
      }
      assert Vacant(live);
      var block := new T[other.capacity](_ => dflt);
      ghost var blockLive := Unconstructed(other.capacity);
      for i := 0 to other.size
        invariant data == old(data) && destroyed == old(destroyed) + old(size)
        invariant other.data == old(other.data) && other.size == old(other.size)
        invariant other.capacity == old(other.capacity) && other.constructed == old(other.constructed)
        invariant |blockLive| == other.capacity && |other.live| == other.capacity
        invariant forall k :: 0 <= k < other.capacity ==> (blockLive[k] <==> k < i)
        invariant forall k :: 0 <= k < other.capacity ==> (other.live[k] <==> i <= k < other.size)
        invariant block[..i] == other.data[..i]
        invariant constructed == old(constructed) + i && other.destroyed == old(other.destroyed) + i
      {
        block[i] := other.data[i];
        blockLive := Apply(blockLive, ConstructAt(i));
        constructed := constructed + 1;
        other.live := Apply(other.live, DestroyAt(i));
        other.destroyed := other.destroyed + 1;
      }
      assert Vacant(other.live);
      data, size, capacity := block, other.size, other.capacity;
      live := blockLive;
      assert Elements() == old(other.Elements());
      other.data := new T[0];
      other.size, other.capacity := 0, 0;
      other.live := [];
    }

    /** `push_back` (RawVectorNonTriv.hpp:276-289): relocates into a block of doubled capacity
        when full, then constructs `elem` in the next slot. With capacity 0 the doubling never
        ends. */
    method PushBack(elem: T)
      requires Valid() && capacity >= 1
      modifies this, data
      ensures data == old(data) || fresh(data)
      ensures Valid()
      ensures Elements() == old(Elements()) + [elem]
      ensures capacity == if old(size) < old(capacity) then old(capacity) else 2 * old(capacity)
      ensures old(size) < old(capacity) ==> data == old(data) && destroyed == old(destroyed)
    {
      if size >= capacity {
        NormalizeCapacity();
        GrowFromFull(old(capacity));
      }
      data[size] := elem;
      live := Apply(live, ConstructAt(size));
      constructed := constructed + 1;
      size := size + 1;
      assert Elements() == old(Elements()) + [elem];
    }

    /** `at(index)`: the element, or `out_of_range` when `index >= size`. */
    function At(index: nat): (r: Result<T>)
      reads this, data
      requires Valid()
      ensures index < size ==> r == Ok(Elements()[index])
      ensures index >= size ==> r == Err(OutOfRange)
    {
      if index >= size then Err(OutOfRange) else Ok(data[index])
    }

    /** Writing through the reference `at(index)` returns: an assignment to a live object. */
    method SetAt(index: nat, value: T) returns (r: Outcome)
      requires Valid()
      modifies data
      ensures Valid()
      ensures index < size ==> r == Done && Elements() == old(Elements())[index := value]
      ensures index >= size ==> r == Thrown(OutOfRange) && Elements() == old(Elements())
    {
      if index >= size {
        return Thrown(OutOfRange);
      }
      data[index] := value;
      r := Done;
      assert Elements() == old(Elements())[index := value];
    }

    /** `operator[]`: unchecked, so the caller must keep `index` below `size`. */
    function Get(index: nat): (r: T)
      reads this, data
      requires Valid() && index < size
      ensures r == Elements()[index]
    {
      data[index]
    }

    /** Writing through the reference `operator[]` returns. */
    method Set(index: nat, value: T)
      requires Valid() && index < size
      modifies data
      ensures Valid() && Elements() == old(Elements())[index := value]
    {
      data[index] := value;
      assert Elements() == old(Elements())[index := value];
    }

    /** `get_size()` (inherited): the number of elements. */
    function GetSize(): (n: nat)
      reads this
      requires Valid()
      ensures n <= capacity
    {
      size
    }

    /** `get_capacity()` (inherited): the number of slots in the block. */
    function GetCapacity(): (c: nat)
      reads this
      requires Valid()
      ensures c == data.Length && c >= size
    {
      capacity
    }

    /** `empty()`. */
    function Empty(): (r: bool)
      reads this, data
      requires Valid()
      ensures r <==> Elements() == []
    {
      size == 0
    }

    /** `resize(n)` (RawVectorNonTriv.hpp:328-351): shrinking destroys the tail; otherwise, even
        when `n == size`, the capacity doubles until it exceeds `n`, the elements are relocated
        and `[size, n)` is default-constructed. Growing from capacity 0 never ends. */
    method Resize(n: nat)
      requires Valid() && (n >= size ==> capacity >= 1)
      modifies this, data
      ensures Valid()
      ensures Elements() == Resized(old(Elements()), n, dflt)
      ensures n < old(size) ==> capacity == old(capacity) && data == old(data)
      ensures n < old(size) ==> destroyed == old(destroyed) + (old(size) - n)
      ensures n >= old(size) ==> fresh(data) && capacity == Grow(old(capacity), n) && capacity > n
    {
      if n < size {
        for i := n to size
          invariant |live| == capacity && data == old(data) && size == old(size) && capacity == old(capacity)
          invariant data[..] == old(data[..])
          invariant forall k :: 0 <= k < capacity ==> (live[k] <==> k < n || i <= k < size)
          invariant destroyed == old(destroyed) + (i - n) && constructed == old(constructed)
        {
          live := Apply(live, DestroyAt(i));
          destroyed := destroyed + 1;
        }
        size := n;
        assert Elements() == Resized(old(Elements()), n, dflt);
        return;
      }
      var c := capacity;
      while n >= c
        invariant c >= 1 && Grow(c, n) == Grow(capacity, n)
        decreases n - c
      {
        c := 2 * c;
      }
      Relocate(c);
      ghost var kept := Elements();
      for i := size to n
        invariant fresh(data) && data.Length == capacity && capacity == c && size == old(size)
        invariant |live| == capacity && constructed == destroyed + i
        invariant forall k :: 0 <= k < capacity ==> (live[k] <==> k < i)
        invariant data[..size] == kept
        invariant forall k :: size <= k < i ==> data[k] == dflt
      {
        data[i] := dflt;
        live := Apply(live, ConstructAt(i));
        constructed := constructed + 1;
      }
      size := n;
      assert Elements() == Resized(old(Elements()), n, dflt);
    }

    /** `reserve(n)` (RawVectorNonTriv.hpp:363-370): nothing when `n < capacity`; otherwise
        `normalize_capacity(n)`, so the capacity ends strictly above `n`, or `bad_alloc` when `n`
        exceeds half of `SIZE_MAX`. */
    method Reserve(n: nat) returns (r: Outcome)
      requires Valid()
      modifies this
      ensures Valid() && size == old(size) && Elements() == old(Elements())
      ensures n < old(capacity) ==> r == Done && unchanged(this)
      ensures old(capacity) <= n && SIZE_MAX / 2 < n ==> r == Thrown(BadAlloc) && unchanged(this)
      ensures old(capacity) <= n <= SIZE_MAX / 2 ==>
                r == Done && fresh(data) && capacity == Grow(if old(capacity) == 0 then 1 else old(capacity), n)
    {
      if n < capacity {
        return Done;
      }
      r := NormalizeCapacityFor(n);
    }

    /** `clear()` (RawVectorNonTriv.hpp:381-388): destroys every element and starts over with one
        slot of raw memory. */
    method Clear()
      requires Valid()
      modifies this
      ensures Valid() && fresh(data)
      ensures Elements() == [] && capacity == 1
      ensures destroyed == old(destroyed) + old(size) && constructed == old(constructed)
    {
      for i := 0 to size
        invariant |live| == capacity && data == old(data) && size == old(size)
        invariant forall k :: 0 <= k < capacity ==> (live[k] <==> i <= k < size)
        invariant destroyed == old(destroyed) + i && constructed == old(constructed)
      {
        live := Apply(live, DestroyAt(i));
        destroyed := destroyed + 1;
      }
      assert Vacant(live);
      data := new T[1](_ => dflt);
      size, capacity := 0, 1;
      live := Unconstructed(1);
    }

    /** `shrink_to_fit()` (RawVectorNonTriv.hpp:400-416): relocates into exactly `size` slots
        unless the vector is already tight or empty. */
    method ShrinkToFit()
      requires Valid()
      modifies this
      ensures Valid() && size == old(size) && Elements() == old(Elements())
      ensures if old(size) == old(capacity) || old(size) == 0
              then unchanged(this)
              else fresh(data) && capacity == size
    {
      if size == capacity || size == 0 {
        return;
      }
      Relocate(size);
    }

    /** `pop_back()` (RawVectorNonTriv.hpp:427-432): `out_of_range` when empty; otherwise destroys
        the last element. The block and capacity stay. */
    method PopBack() returns (r: Outcome)
      requires Valid()
      modifies this
      ensures Valid() && data == old(data) && capacity == old(capacity)
      ensures old(size) == 0 ==> r == Thrown(OutOfRange) && unchanged(this)
      ensures old(size) > 0 ==> r == Done && Elements() == old(Elements())[..old(size) - 1]
      ensures old(size) > 0 ==> destroyed == old(destroyed) + 1
    {
      if size == 0 {
        return Thrown(OutOfRange);
      }
      size := size - 1;
      live := Apply(live, DestroyAt(size));
      destroyed := destroyed + 1;
      r := Done;
    }

    /** `insert(index, value)` (RawVectorNonTriv.hpp:445-481): `out_of_range` when `index > size`;
        `push_back` when `index == size`; otherwise relocates a full block, move-constructs the
        last element one slot up, move-assigns the rest of `[index, size - 1)` one slot up from
        the back, and assigns `value` at `index`. */
    method Insert(index: nat, value: T) returns (r: Outcome)
      requires Valid() && (index <= size ==> capacity >= 1)
      modifies this, data
      ensures data == old(data) || fresh(data)
      ensures Valid()
      ensures index > old(size) ==> r == Thrown(OutOfRange) && unchanged(this) && unchanged(data)
      ensures index <= old(size) ==> r == Done && Elements() == InsertAt(old(Elements()), index, value)
      ensures index <= old(size) ==>
                capacity == if old(size) == old(capacity) then Grow(old(capacity), old(size)) else old(capacity)
      ensures old(size) < old(capacity) ==> data == old(data)
    {
      if index > size {
        return Thrown(OutOfRange);
      }
      if index == size {
        PushBack(value);
        assert InsertAt(old(Elements()), index, value) == old(Elements()) + [value];
        GrowFromFull(old(capacity));
        return Done;
      }
      if size == capacity {
        NormalizeCapacity();
      }
      ghost var s := Elements();
      OpenGap(index);
      data[index] := value;
      r := Done;
      assert Elements() == InsertAt(s, index, value);
    }

    /** The shift inside `insert` (RawVectorNonTriv.hpp:456-459): move-constructs the last element
        into the free slot after it, then move-assigns each of `[index, size - 1)` one slot up,
        from the back. The element at `index` stays, to be overwritten by the inserted value. */
    method OpenGap(index: nat)
      requires Valid() && index < size < capacity
      modifies this, data
      ensures Valid() && data == old(data) && capacity == old(capacity) && size == old(size) + 1
      ensures Elements() == InsertAt(old(Elements()), index, old(data[index]))
      ensures constructed == old(constructed) + 1 && destroyed == old(destroyed)
    {
      ghost var s := Elements();
      data[size] := data[size - 1];
      live := Apply(live, ConstructAt(size));
      constructed := constructed + 1;
      var i := size - 1;
      while i > index
        invariant index <= i <= size - 1
        invariant data == old(data) && size == old(size) && capacity == old(capacity)
        invariant constructed == old(constructed) + 1 && destroyed == old(destroyed)
        invariant |live| == capacity && LiveExactly(live, size + 1)
        invariant forall k :: 0 <= k <= i ==> data[k] == s[k]
        invariant forall k :: i < k <= size ==> data[k] == s[k - 1]
      {
        data[i] := data[i - 1];
        live := Apply(live, Event.MoveAssign(i, i - 1));
        i := i - 1;
      }
      size := size + 1;
      assert Elements() == InsertAt(s, index, s[index]);
    }

    /** `insert(pos, value)` (RawVectorNonTriv.hpp:482-522): the index is `pos - begin()` as a
        `size_t`; returns an iterator at that index into the (possibly new) block. */
    method InsertAtIterator(pos: IteratorBase<T>, value: T) returns (r: Result<IteratorBase<T>>)
      requires Valid() && pos.block == data
      requires ToSize(pos.ptr) <= size ==> capacity >= 1
      modifies this, data
      ensures data == old(data) || fresh(data)
      ensures Valid()
      ensures ToSize(pos.ptr) > old(size) ==> r == Err(OutOfRange) && unchanged(this) && unchanged(data)
      ensures ToSize(pos.ptr) <= old(size) ==>
                && Elements() == InsertAt(old(Elements()), ToSize(pos.ptr), value)
                && r.Ok? && fresh(r.value) && r.value.block == data && r.value.ptr == ToSize(pos.ptr)
      ensures ToSize(pos.ptr) <= old(size) ==>
                capacity == if old(size) == old(capacity) then Grow(old(capacity), old(size)) else old(capacity)
      ensures old(size) < old(capacity) ==> data == old(data)
    {
      var begin := Begin();
      var index := pos.Difference(begin);
      var outcome := Insert(index, value);
      if outcome.Thrown? {
        return Err(outcome.error);
      }
      var it := new IteratorBase(data, index);
      r := Ok(it);
    }

    /** `erase(index)` (RawVectorNonTriv.hpp:534-544), as evidently intended: `out_of_range` when
        `index >= size`; otherwise move-assigns each later element one slot down, which releases
        what the erased one held, and destroys the last slot. Its lifetime events are exactly
        `EraseCorrected`; the source's extra `~T()` on the erased slot first is recorded by
        `Lifecycle.EraseAsWrittenIsUndefined`. */
    method Erase(index: nat) returns (r: Outcome)
      requires Valid()
      modifies this, data
      ensures Valid() && capacity == old(capacity) && data == old(data)
      ensures index >= old(size) ==> r == Thrown(OutOfRange) && unchanged(this) && Elements() == old(Elements())
      ensures index < old(size) ==> r == Done && Elements() == RemoveAt(old(Elements()), index)
      ensures index < old(size) ==> Run(old(live), EraseCorrected(old(size), index)) == Some(live)
      ensures index < old(size) ==> destroyed == old(destroyed) + 1
    {
      if index >= size {
        return Thrown(OutOfRange);
      }
      for i := index to size - 1
        invariant live == old(live) && data == old(data) && size == old(size) && capacity == old(capacity)
        invariant constructed == old(constructed) && destroyed == old(destroyed)
        invariant forall k :: 0 <= k < index ==> data[k] == old(data[k])
        invariant forall k :: index <= k < i ==> data[k] == old(data[k + 1])
        invariant forall k :: i <= k < size ==> data[k] == old(data[k])
      {
        data[i] := data[i + 1];
        live := Apply(live, Event.MoveAssign(i, i + 1));
      }
      size := size - 1;
      live := Apply(live, DestroyAt(size));
      assert live == old(live)[size := false];
      destroyed := destroyed + 1;
      r := Done;
      EraseCorrectedIsDefined(old(live), old(size), index);
      assert Elements() == RemoveAt(old(Elements()), index);
    }

    /** `erase(pos)` (RawVectorNonTriv.hpp:546-559): erases at `pos - begin()` and returns `pos`
        itself, which now points at the element that followed. */
    method EraseAtIterator(pos: IteratorBase<T>) returns (r: Result<IteratorBase<T>>)
      requires Valid() && pos.block == data
      modifies this, data
      ensures Valid() && capacity == old(capacity) && data == old(data)
      ensures ToSize(pos.ptr) >= old(size) ==> r == Err(OutOfRange) && unchanged(this) && Elements() == old(Elements())
      ensures ToSize(pos.ptr) < old(size) ==> r == Ok(pos) && Elements() == RemoveAt(old(Elements()), ToSize(pos.ptr))
      ensures ToSize(pos.ptr) < old(size) ==> Run(old(live), EraseCorrected(old(size), ToSize(pos.ptr))) == Some(live)
      ensures ToSize(pos.ptr) < old(size) ==> destroyed == old(destroyed) + 1
    {
      var begin := Begin();
      var index := pos.Difference(begin);
      var outcome := Erase(index);
      if outcome.Thrown? {
        return Err(outcome.error);
      }
      r := Ok(pos);
    }

    /** `swap(other)` (RawVectorNonTriv.hpp:568-572): exchanges block, size and capacity, and
        with the block the objects in it. */
    method Swap(other: VectorNonTriv<T>)
      requires Valid() && other.Valid()
      modifies this, other
      ensures Valid() && other.Valid()
      ensures data == old(other.data) && size == old(other.size) && capacity == old(other.capacity)
      ensures other.data == old(data) && other.size == old(size) && other.capacity == old(capacity)
    {
      data, other.data := other.data, data;
      size, other.size := other.size, size;
      capacity, other.capacity := other.capacity, capacity;
      live, other.live := other.live, live;
      constructed, other.constructed := other.constructed, constructed;
      destroyed, other.destroyed := other.destroyed, destroyed;
    }

    /** The destructor `~vector_non_triv()` (RawVectorNonTriv.hpp:586): destroys every element,
        after which no object is left in the block and every object the vector constructed has
        been destroyed exactly once; the base destructor then frees the block. */
    method Destroy()
      requires Valid()
      modifies this
      ensures Vacant(live) && destroyed == constructed
      ensures data == old(data) && size == old(size) && capacity == old(capacity)
    {
      for i := 0 to size
        invariant |live| == capacity && data == old(data) && size == old(size) && capacity == old(capacity)
        invariant forall k :: 0 <= k < capacity ==> (live[k] <==> i <= k < size)
        invariant destroyed == old(destroyed) + i && constructed == old(constructed)
      {
        live := Apply(live, DestroyAt(i));
        destroyed := destroyed + 1;
      }
    }

    /** `begin()`: an iterator at slot 0. */
    method Begin() returns (it: IteratorBase<T>)
      ensures fresh(it) && it.block == data && it.ptr == 0
    {
      it := new IteratorBase(data, 0);
    }

    /** `end()`: an iterator one past the last element. */
    method End() returns (it: IteratorBase<T>)
      ensures fresh(it) && it.block == data && it.ptr == EndIndex(size)
    {
      it := new IteratorBase(data, EndIndex(size));
    }

    /** `rbegin()`: a reverse iterator at the last element (one before `rend()` when empty). */
    method RBegin() returns (it: ReverseIterator<T>)
      ensures fresh(it) && it.block == data && it.it == RBeginIndex(size)
    {
      it := new ReverseIterator(data, RBeginIndex(size));
    }

    /** `rend()`: a reverse iterator one before slot 0. */
    method REnd() returns (it: ReverseIterator<T>)
      ensures fresh(it) && it.block == data && it.it == REndIndex
    {
      it := new ReverseIterator(data, REndIndex);
    }

    /** `front()`: `*begin()`, the first element. */
    function Front(): (r: T)
      reads this, data
      requires Valid() && size > 0
      ensures r == Elements()[0]
    {
      data[0]
    }

    /** `back()`: `*rbegin()`, the last element. */
    function Back(): (r: T)
      reads this, data
      requires Valid() && size > 0
      ensures r == Elements()[|Elements()| - 1]
    {
      data[RBeginIndex(size)]
    }
  }
}
