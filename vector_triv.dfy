/** `raw::vector_triv<T>` (RawNamespace/vector/trivial/RawVectorTriv.hpp): the backend for
    trivially copyable element types. It grows its block with `realloc`, shifts with `memmove` and
    fills new slots with zero bytes. */
module VectorTriv {
  import opened RawVector
  import opened Iterators

  class VectorTriv<T> {
    /** The element whose bytes are all zero, as `memset(…, 0, …)` and `calloc` produce. */
    const zero: T
    /** The heap block; a moved-from vector's null block is an empty array. */
    var data: array<T>
    var size: nat
    var capacity: nat

    ghost predicate Valid()
      reads this
    {
      data.Length == capacity && size <= capacity
    }

    /** The live elements, `data[0 .. size)`. */
    ghost function Elements(): seq<T>
      reads this, data
      requires Valid()
    {
      data[..size]
    }

    /** Default constructor (RawVectorTriv.hpp:57-59 after `vector_base()`): a one-slot block,
        no elements. */
    constructor (zero: T)
      ensures Valid() && fresh(data)
      ensures Elements() == [] && capacity == 1
      ensures this.zero == zero
    {
      this.zero := zero;
      data := new T[1](_ => zero);
      size, capacity := 0, 1;
    }

    /** Size constructor `vector_triv(n)`: `n` zero elements in a block doubled from 1 until it
        exceeds `n`. */
    constructor WithSize(n: nat, zero: T)
      ensures Valid() && fresh(data)
      ensures Elements() == seq(n, _ => zero)
      ensures capacity == Grow(1, n)
      ensures this.zero == zero
    {
      this.zero := zero;
      var c := 1;
      while n >= c
        invariant c >= 1 && Grow(c, n) == Grow(1, n)
        decreases n - c
      {
        c := 2 * c;
      }
      data := new T[c](_ => zero);
      size, capacity := n, c;
      new;
      assert Elements() == seq(n, _ => zero);
    }

    /** Copy constructor: a zero-filled block of the same capacity (`calloc`) with the elements
        copied in (`memcpy`). */
    constructor CopyOf(other: VectorTriv<T>)
      requires other.Valid()
      ensures Valid() && fresh(data)
      ensures Elements() == other.Elements() && capacity == other.capacity
      ensures zero == other.zero
    {
      zero := other.zero;
      var block := new T[other.capacity](_ => other.zero);
      forall k | 0 <= k < other.size {
        block[k] := other.data[k];
      }
      data := block;
      size, capacity := other.size, other.capacity;
      new;
      assert Elements() == other.Elements();
    }

    /** Move constructor: takes over `other`'s block, size and capacity, and leaves `other`
        moved-from (null block, size 0, capacity 0). */
    constructor MoveFrom(other: VectorTriv<T>)
      requires other.Valid()
      modifies other
      ensures Valid() && other.Valid()
      ensures data == old(other.data) && size == old(other.size) && capacity == old(other.capacity)
      ensures other.size == 0 && other.capacity == 0
      ensures zero == other.zero
    {
      zero := other.zero;
      data, size, capacity := other.data, other.size, other.capacity;
      new;
      other.data := new T[0];
      other.size, other.capacity := 0, 0;
    }

    /** Copy assignment: nothing on self-assignment; otherwise a copy of `other`'s elements in a
        fresh zero-filled block of `other`'s capacity. */
    method CopyAssign(other: VectorTriv<T>)
      requires Valid() && other.Valid()
      modifies this
      ensures Valid()
      ensures other == this ==> unchanged(this)
      ensures other != this ==> fresh(data) && Elements() == old(other.Elements()) && capacity == old(other.capacity)
    {
      if other == this {
        return;
      }
      var block := new T[other.capacity](_ => zero);
      forall k | 0 <= k < other.size {
        block[k] := other.data[k];
      }
      data := block;
      size, capacity := other.size, other.capacity;
      assert Elements() == old(other.Elements());
    }

    /** Move assignment: nothing on self-assignment; otherwise frees its own block, takes over
        `other`'s, and leaves `other` moved-from. */
    method MoveAssign(other: VectorTriv<T>)
      requires Valid() && other.Valid()
      modifies this, other
      ensures Valid() && other.Valid()
      ensures other == this ==> unchanged(this)
      ensures other != this ==> data == old(other.data) && size == old(other.size) && capacity == old(other.capacity)
      ensures other != this ==> other.size == 0 && other.capacity == 0
    {
      if other != this {
        data, size, capacity := other.data, other.size, other.capacity;
        other.data := new T[0];
        other.size, other.capacity := 0, 0;
      }
    }

    /** `realloc(data, n * sizeof(T))`: a block of `n` slots whose slots below both lengths keep
        their contents. Slots beyond the old block are indeterminate; here they are zero. */
    method Realloc(n: nat)
      modifies this
      ensures fresh(data) && data.Length == n
      ensures forall k :: 0 <= k < n && k < old(data.Length) ==> data[k] == old(data[k])
      ensures size == old(size) && capacity == old(capacity)
    {
      var previous := data;
      data := new T[n](k reads previous => if 0 <= k < previous.Length then previous[k] else zero);
    }

    /** `normalize_capacity()` (RawVectorTriv.hpp:33-41): doubles `capacity` until it exceeds
        `size`, then reallocates. `resize` calls it with `size` already past the capacity, so it
        only asks that the block match the capacity. With capacity 0 the loop never ends. */
    method NormalizeCapacity()
      requires data.Length == capacity && capacity >= 1
      modifies this
      ensures fresh(data) && data.Length == capacity
      ensures capacity == Grow(old(capacity), size)
      ensures data[..old(capacity)] == old(data[..])
      ensures size == old(size)
    {
      while size >= capacity
        invariant capacity >= 1 && Grow(capacity, size) == Grow(old(capacity), size)
        invariant data == old(data) && size == old(size)
        decreases size - capacity
      {
        capacity := 2 * capacity;
      }
      Realloc(capacity);
    }

    /** `push_back` (RawVectorTriv.hpp:189-232): appends `elem`; when the block is full its
        capacity doubles first. The moving overload grows through `normalize_capacity`, which
        from a full block doubles exactly once too (`GrowFromFull`). With capacity 0 neither
        overload is defined. */
    method PushBack(elem: T)
      requires Valid() && capacity >= 1
      modifies this, data
      ensures data == old(data) || fresh(data)
      ensures Valid()
      ensures Elements() == old(Elements()) + [elem]
      ensures capacity == if old(size) < old(capacity) then old(capacity) else 2 * old(capacity)
      ensures old(size) < old(capacity) ==> data == old(data)
    {
      if capacity <= size {
        capacity := capacity * 2;
        Realloc(capacity);
      }
      data[size] := elem;
      size := size + 1;
      assert Elements() == old(Elements()) + [elem];
    }

    /** `at(index)`: the element, or `out_of_range` when `index >= size`. */
    function At(index: nat): (r: Result<T>)
      reads this, data
      requires Valid()
      ensures index < size ==> r == Ok(Elements()[index])
      ensures index >= size ==> r == Err(OutOfRange)
    {
      if index >= size then Err(OutOfRange) else Ok(data[index])
    }

    /** Writing through the reference `at(index)` returns. */
    method SetAt(index: nat, value: T) returns (r: Outcome)
      requires Valid()
      modifies data
      ensures Valid()
      ensures index < size ==> r == Done && Elements() == old(Elements())[index := value]
      ensures index >= size ==> r == Thrown(OutOfRange) && Elements() == old(Elements())
    {
      if index >= size {
        return Thrown(OutOfRange);
      }
      data[index] := value;
      r := Done;
      assert Elements() == old(Elements())[index := value];
    }

    /** `operator[]`: unchecked, so the caller must keep `index` below `size`. */
    function Get(index: nat): (r: T)
      reads this, data
      requires Valid() && index < size
      ensures r == Elements()[index]
    {
      data[index]
    }

    /** Writing through the reference `operator[]` returns. */
    method Set(index: nat, value: T)
      requires Valid() && index < size
      modifies data
      ensures Valid() && Elements() == old(Elements())[index := value]
    {
      data[index] := value;
      assert Elements() == old(Elements())[index := value];
    }

    /** `get_size()`: the number of elements. */
    function GetSize(): (n: nat)
      reads this
      requires Valid()
      ensures n <= capacity
    {
      size
    }

    /** `get_capacity()`: the number of slots in the block. */
    function GetCapacity(): (c: nat)
      reads this
      requires Valid()
      ensures c == data.Length && c >= size
    {
      capacity
    }

    /** `empty()`. */
    function Empty(): (r: bool)
      reads this, data
      requires Valid()
      ensures r <==> Elements() == []
    {
      size == 0
    }

    /** `resize(n)` (RawVectorTriv.hpp:286-296): shrinking only lowers `size`; growing doubles the
        capacity past `n`, reallocates, and zero-fills the new slots. Growing from capacity 0
        never ends. */
    method Resize(n: nat)
      requires Valid() && (n > size ==> capacity >= 1)
      modifies this, data
      ensures data == old(data) || fresh(data)
      ensures Valid()
      ensures Elements() == Resized(old(Elements()), n, zero)
      ensures n <= old(size) ==> capacity == old(capacity) && data == old(data)
      ensures n > old(size) ==> capacity == Grow(old(capacity), n) && capacity > n
    {
      if n <= size {
        size := n;
        return;
      }
      var oldSize := size;
      size := n;
      NormalizeCapacity();
      forall k | oldSize <= k < size {
        data[k] := zero;
      }
      assert Elements() == Resized(old(Elements()), n, zero);
    }

    /** `reserve(n)` (RawVectorTriv.hpp:307-328): nothing when `n <= capacity`; otherwise the
        block is reallocated to EXACTLY `n` slots. */
    method Reserve(n: nat)
      requires Valid()
      modifies this
      ensures Valid() && size == old(size) && Elements() == old(Elements())
      ensures capacity == if n <= old(capacity) then old(capacity) else n
      ensures n <= old(capacity) ==> data == old(data)
      ensures n > old(capacity) ==> fresh(data)
    {
      if n <= capacity {
        return;
      }
      Realloc(n);
      capacity := n;
      assert Elements() == old(Elements());
    }

    /** `clear()`: a new one-slot block, no elements. */
    method Clear()
      requires Valid()
      modifies this
      ensures Valid() && fresh(data)
      ensures Elements() == [] && capacity == 1
    {
      data := new T[1](_ => zero);
      size, capacity := 0, 1;
    }

    /** `shrink_to_fit()` (RawVectorTriv.hpp:356-375): reallocates down to `size` slots unless
        the vector is already tight, empty, or has a single slot. */
    method ShrinkToFit()
      requires Valid()
      modifies this
      ensures data == old(data) || fresh(data)
      ensures Valid() && size == old(size) && Elements() == old(Elements())
      ensures if old(size) != old(capacity) && old(size) != 0 && old(capacity) != 1
              then capacity == size
              else capacity == old(capacity) && data == old(data)
      ensures old(size) != 0 ==> capacity == size
    {
      if size != capacity && size != 0 && capacity != 1 {
        Realloc(size);
        capacity := size;
        assert Elements() == old(Elements());
      }
    }

    /** `pop_back()` (RawVectorTriv.hpp:386-391): `out_of_range` when empty; otherwise drops the
        last element, and when that empties the vector, replaces the block by a zeroed one-slot
        block. */
    method PopBack() returns (r: Outcome)
      requires Valid()
      modifies this
      ensures Valid()
      ensures old(size) == 0 ==> r == Thrown(OutOfRange) && unchanged(this)
      ensures old(size) > 0 ==> r == Done && Elements() == old(Elements())[..old(size) - 1]
      ensures old(size) > 1 ==> capacity == old(capacity) && data == old(data)
      ensures old(size) == 1 ==> capacity == 1 && fresh(data)
    {
      if size == 0 {
        return Thrown(OutOfRange);
      }
      size := size - 1;
      if size == 0 {
        data := new T[1](_ => zero);
        capacity := 1;
      }
      r := Done;
    }

    /** `insert(index, value)` (RawVectorTriv.hpp:404-426): `out_of_range` when `index > size`;
        otherwise grows a full block, shifts `[index, size)` one slot up (`memmove`) and stores
        `value` at `index`. With capacity 0 the growth never ends. */
    method Insert(index: nat, value: T) returns (r: Outcome)
      requires Valid() && (index <= size ==> capacity >= 1)
      modifies this, data
      ensures data == old(data) || fresh(data)
      ensures Valid()
      ensures index > old(size) ==> r == Thrown(OutOfRange) && unchanged(this) && unchanged(data)
      ensures index <= old(size) ==> r == Done && Elements() == InsertAt(old(Elements()), index, value)
      ensures index <= old(size) ==>
                capacity == if old(size) == old(capacity) then Grow(old(capacity), old(size)) else old(capacity)
      ensures old(size) < old(capacity) ==> data == old(data)
    {
      if index > size {
        return Thrown(OutOfRange);
      }
      if size == capacity {
        NormalizeCapacity();
      }
      forall k | index < k <= size {
        data[k] := data[k - 1];
      }
      data[index] := value;
      size := size + 1;
      r := Done;
      assert Elements() == InsertAt(old(Elements()), index, value);
    }

    /** `insert(pos, value)` (RawVectorTriv.hpp:428-456): the index is `pos - begin()` as a
        `size_t`; returns an iterator at that index into the (possibly new) block. */
    method InsertAtIterator(pos: IteratorBase<T>, value: T) returns (r: Result<IteratorBase<T>>)
      requires Valid() && pos.block == data
      requires ToSize(pos.ptr) <= size ==> capacity >= 1
      modifies this, data
      ensures data == old(data) || fresh(data)
      ensures Valid()
      ensures ToSize(pos.ptr) > old(size) ==> r == Err(OutOfRange) && unchanged(this) && unchanged(data)
      ensures ToSize(pos.ptr) <= old(size) ==>
                && Elements() == InsertAt(old(Elements()), ToSize(pos.ptr), value)
                && r.Ok? && fresh(r.value) && r.value.block == data && r.value.ptr == ToSize(pos.ptr)
      ensures ToSize(pos.ptr) <= old(size) ==>
                capacity == if old(size) == old(capacity) then Grow(old(capacity), old(size)) else old(capacity)
      ensures old(size) < old(capacity) ==> data == old(data)
    {
      var begin := Begin();
      var index := pos.Difference(begin);
      var outcome := Insert(index, value);
      if outcome.Thrown? {
        return Err(outcome.error);
      }
      var it := new IteratorBase(data, index);
      r := Ok(it);
    }

    /** `erase(index)` (RawVectorTriv.hpp:468-474): `out_of_range` when `index >= size`;
        otherwise shifts `(index, size)` one slot down (`memmove`). Capacity never changes. */
    method Erase(index: nat) returns (r: Outcome)
      requires Valid()
      modifies this, data
      ensures Valid() && capacity == old(capacity) && data == old(data)
      ensures index >= old(size) ==> r == Thrown(OutOfRange) && Elements() == old(Elements())
      ensures index < old(size) ==> r == Done && Elements() == RemoveAt(old(Elements()), index)
    {
      if index >= size {
        return Thrown(OutOfRange);
      }
      forall k | index <= k < size - 1 {
        data[k] := data[k + 1];
      }
      size := size - 1;
      r := Done;
      assert Elements() == RemoveAt(old(Elements()), index);
    }

    /** `erase(pos)` (RawVectorTriv.hpp:476-484): erases at `pos - begin()` and returns an
        iterator at the same index. */
    method EraseAtIterator(pos: IteratorBase<T>) returns (r: Result<IteratorBase<T>>)
      requires Valid() && pos.block == data
      modifies this, data
      ensures Valid() && capacity == old(capacity) && data == old(data)
      ensures ToSize(pos.ptr) >= old(size) ==> r == Err(OutOfRange) && Elements() == old(Elements())
      ensures ToSize(pos.ptr) < old(size) ==>
                && Elements() == RemoveAt(old(Elements()), ToSize(pos.ptr))
                && r.Ok? && fresh(r.value) && r.value.block == data && r.value.ptr == ToSize(pos.ptr)
    {
      var begin := Begin();
      var index := pos.Difference(begin);
      var outcome := Erase(index);
      if outcome.Thrown? {
        return Err(outcome.error);
      }
      var it := new IteratorBase(data, index);
      r := Ok(it);
    }

    /** `swap(other)`: exchanges block, size and capacity. */
    method Swap(other: VectorTriv<T>)
      requires Valid() && other.Valid()
      modifies this, other
      ensures Valid() && other.Valid()
      ensures data == old(other.data) && size == old(other.size) && capacity == old(other.capacity)
      ensures other.data == old(data) && other.size == old(size) && other.capacity == old(capacity)
    {
      data, other.data := other.data, data;
      size, other.size := other.size, size;
      capacity, other.capacity := other.capacity, capacity;
    }

    /** `copy()` (RawVectorTriv.hpp:506-511): a size-constructed vector, then `reserve(capacity)`,
        then the elements copied in. Its capacity is therefore the larger of the two, not always
        the original's. */
    method Copy() returns (r: VectorTriv<T>)
      requires Valid()
      ensures fresh(r) && fresh(r.data) && r.Valid()
      ensures r.Elements() == Elements()
      ensures r.capacity == if capacity <= Grow(1, size) then Grow(1, size) else capacity
    {
      r := new VectorTriv.WithSize(size, zero);
      r.Reserve(capacity);
      forall k | 0 <= k < size {
        r.data[k] := data[k];
      }
      assert r.Elements() == Elements();
    }

    /** `begin()`: an iterator at slot 0. */
    method Begin() returns (it: IteratorBase<T>)
      ensures fresh(it) && it.block == data && it.ptr == 0
    {
      it := new IteratorBase(data, 0);
    }

    /** `end()`: an iterator one past the last element. */
    method End() returns (it: IteratorBase<T>)
      ensures fresh(it) && it.block == data && it.ptr == EndIndex(size)
    {
      it := new IteratorBase(data, EndIndex(size));
    }

    /** `rbegin()`: a reverse iterator at the last element (one before `rend()` when empty). */
    method RBegin() returns (it: ReverseIterator<T>)
      ensures fresh(it) && it.block == data && it.it == RBeginIndex(size)
    {
      it := new ReverseIterator(data, RBeginIndex(size));
    }

    /** `rend()`: a reverse iterator one before slot 0. */
    method REnd() returns (it: ReverseIterator<T>)
      ensures fresh(it) && it.block == data && it.it == REndIndex
    {
      it := new ReverseIterator(data, REndIndex);
    }

    /** `front()`: `*begin()`, the first element. */
    function Front(): (r: T)
      reads this, data
      requires Valid() && size > 0
      ensures r == Elements()[0]
    {
      data[0]
    }

    /** `back()`: `*rbegin()`, the last element. */
    function Back(): (r: T)
      reads this, data
      requires Valid() && size > 0
      ensures r == Elements()[|Elements()| - 1]
    {
      data[RBeginIndex(size)]
    }
  }
}
