# raw::vector in Dafny

A model of `raw::vector`, the hand-written growable array of the RawNamespace library, with
proofs about it. The source has three parts, and each has a module here:

- **`vector_base<T>`** (`RawVector.hpp`) owns the `data`/`size`/`capacity` fields. It supplies
  the forward `IteratorBase` and the `ReverseIterator`, and `begin`/`end`/`rbegin`/`rend`/
  `front`/`back`.
  - Module `RawVector` (raw_vector.dfy) holds the contract both backends share:
    - the two exceptions (`out_of_range` and `bad_alloc`);
    - `size_t` conversion of pointer differences;
    - the doubling rule `while (n >= capacity) capacity *= 2;` as the function `Grow`, with its
      properties proved;
    - the sequence-level meaning of `insert`, `erase` and `resize`;
    - the slots a forward or reverse traversal visits.
  - Module `Iterators` (iterators.dfy) has the two iterator classes. Each holds the block it
    points into and a slot number, and its operators change that number in place.
- **`vector_triv<T>`** (`RawVectorTriv.hpp`) is the backend for bitwise-copyable types. It grows
  with `realloc`, shifts with `memmove` and fills with `memset`.
  - Module `VectorTriv` (vector_triv.dfy) has the class `VectorTriv<T>`. Its fields are an
    `array<T>` block plus `size` and `capacity`.
  - `realloc` becomes a fresh array that keeps the common prefix. `memmove` and `memset` become
    parallel array assignments.
- **`vector_non_triv<T>`** (`RawVectorNonTriv.hpp`) is the backend for types with real
  constructors and destructors.
  - Module `VectorNonTriv` (vector_non_triv.dfy) has the class `VectorNonTriv<T>`.
  - Each vector also carries ghost state: which slots of its block hold a live object, and how
    many objects it has constructed and destroyed.
  - Each placement `new`, `~T()` and move-assignment is recorded as an event of module
    `Lifecycle` (lifecycle.dfy). An event on a slot in the wrong state, such as destroying a
    dead object or assigning to one, fails its precondition.
  - The class invariant `Valid()` holds after every operation except the destructor
    (`Destroy`), which leaves no live slot. It says the live slots are exactly `[0, size)` and
    every constructed object not yet destroyed is one of them.
- Module `Scenarios` (scenarios.dfy) strings operations together as a client would, with what
  the contracts then guarantee:
  - `insert` undone by `erase`;
  - deep copies being independent;
  - `shrink_to_fit` settling after one call;
  - the push, reserve, checked-access and pop scenarios;
  - constructions and destructions balancing over a non-trivial vector's life.

Modelling choices:
- Elements are values. The copy and move overloads of `push_back` and `insert` therefore
  coincide, and one member models both.
- Arguments are values too. The source takes `const T&` / `T&&`, so an argument may refer into
  the vector itself (`v.insert(0, v[1])`), and the source reads it only after it has shifted or
  reallocated the block. The class members take the value as it was at the call. What the
  source does instead is recorded at sequence level by `RawVector.InsertFromSlotAsWritten`
  (see Findings and Left out).
- The value `memset(0)`/`calloc` produces (`zero`) and the value `T()` produces (`dflt`) are
  constants given at construction.
- A moved-from vector's null block is an empty array, with size 0 and capacity 0.
- Pointer iterators are a block plus a slot number. The index arguments of the iterator
  overloads are `pos - begin()` converted to `size_t`, as in the source.

Quirks of the source that the contracts keep, because the code does what they say:
- **Both zero-argument `normalize_capacity` loops never end at capacity 0.** This is the
  moved-from state. Every operation that reaches such a loop therefore requires `capacity >= 1`
  on exactly the inputs that reach it:
  - `PushBack` always requires it;
  - `Insert` requires it when `index <= size`;
  - `Resize` requires it when growing (trivial) or when `n >= size` (non-trivial).
  - The trivial copying `push_back` does allocate one slot when `data` is null, but it leaves
    capacity at 0. Its doubling then yields 0 and it calls `realloc(data, 0)`. If that returns
    a zero-byte block, the write overruns it. If it frees the block and returns null, the
    source frees the block a second time and throws `bad_alloc`.
- **The backends differ.**
  - Trivial `reserve(n)` sets capacity to exactly `n`. Non-trivial `reserve(n)` relocates even
    when `n == capacity`, and ends strictly above `n`.
  - Trivial `pop_back` to empty resets capacity to 1. Non-trivial `pop_back` leaves the block.
  - Non-trivial `resize` relocates even when `n == size`.
  - Non-trivial move construction relocates element by element instead of taking over the
    block.
- **Trivial `copy()` does not always keep the original's capacity.** It size-constructs and
  then reserves, so the capacity is the larger of `Grow(1, size)` and the original's.
- **Postfix `--` on `IteratorBase` advances** (`RawVector.hpp:73`).
- **`n + rit` moves a `ReverseIterator` the wrong way** (`RawVector.hpp:97`). It is computed as
  `rit - n`.
- **Comments that the code does not follow.** The model follows the code:
  - non-trivial `reserve` and `clear` construct no elements, although their comments say they
    do;
  - `reserve` in the non-trivial backend does not stop at "at least `n`".

## Model

| member | source | states |
|---|---|---|
| RawVector.ToSize | RawNamespace/vector/RawVector.hpp:67 | `size_t(d)` is `d` for a non-negative difference and `2^64 + d` for a negative one |
| RawVector.Grow | RawNamespace/vector/non-trvivial/RawVectorNonTriv.hpp:27 | the doubling loop ends with a capacity above `n`, never below the start, and does nothing when the capacity already exceeds `n` |
| RawVector.GrowIsDoubling | RawNamespace/vector/non-trvivial/RawVectorNonTriv.hpp:27 | the grown capacity is the starting capacity times a power of two |
| RawVector.GrowIsLeast | RawNamespace/vector/non-trvivial/RawVectorNonTriv.hpp:27 | no smaller doubling of the start exceeds `n`: growth stops at the first sufficient one |
| RawVector.GrowAtMostTwice | RawNamespace/vector/non-trvivial/RawVectorNonTriv.hpp:59 | from a capacity not above `n`, growth ends at most at `2n` |
| RawVector.GrowFitsSizeT | RawNamespace/vector/non-trvivial/RawVectorNonTriv.hpp:57-59 | under the `SIZE_MAX / 2` guard the doubled capacity fits in `size_t` |
| RawVector.GrowFromFull | RawNamespace/vector/trivial/RawVectorTriv.hpp:193-194 | from a full block the doubling loop doubles exactly once, so the single `capacity *= 2` of the copying `push_back` and the loop of the moving one agree |
| RawVector.GrowFromOneIsNextPowerOfTwo | RawNamespace/vector/trivial/RawVectorTriv.hpp:69-73 | the size constructor's capacity is the smallest power of two strictly greater than the size |
| RawVector.InsertAt | RawNamespace/vector/trivial/RawVectorTriv.hpp:411-413 | after inserting `v` at `i`: one longer, `v` at `i`, earlier elements in place, later ones one slot up |
| RawVector.RemoveAt | RawNamespace/vector/trivial/RawVectorTriv.hpp:472-473 | after erasing at `i`: one shorter, earlier elements in place, later ones one slot down |
| RawVector.RemoveAtInsertAt | RawNamespace/vector/trivial/RawVectorTriv.hpp:404-474 | erasing at `i` undoes inserting at `i` |
| RawVector.InsertAtRemoveAt | RawNamespace/vector/trivial/RawVectorTriv.hpp:404-474 | re-inserting the erased element at `i` undoes erasing at `i` |
| RawVector.InsertAtMultiset | RawNamespace/vector/trivial/RawVectorTriv.hpp:411-413 | `insert(i, v)` adds exactly one element, `v`, and removes none |
| RawVector.InsertFromSlotAsWritten | RawNamespace/vector/trivial/RawVectorTriv.hpp:411-412 | `insert(i, v[j])` on a block with room, as written: `v[j]` is read after the shift, so for `j > i` the inserted value is `s[j - 1]`; every other slot is as intended |
| RawVector.InsertFromSlotAsWrittenCopiesNeighbour | RawNamespace/vector/non-trvivial/RawVectorNonTriv.hpp:456-460 | as written, `insert(i, v[j])` with `j > i` adds a copy of `s[j - 1]`, and differs from the intended result whenever `s[j - 1] != s[j]` |
| RawVector.InsertFromSlotCorrected | RawNamespace/vector/trivial/RawVectorTriv.hpp:404-413 | with `v[j]` read before the shift, `insert(i, v[j])` adds exactly one copy of `v[j]`, at `i`, and `erase(i)` undoes it |
| RawVector.Resized | RawNamespace/vector/trivial/RawVectorTriv.hpp:286-296 | after resizing to `n`: length `n`, the old elements below `n` kept, new slots holding the fill value |
| RawVector.ForwardWalk | RawNamespace/vector/RawVector.hpp:69 | repeated `++` from `first` visits `first, first + 1, …` up to `last` |
| RawVector.ReverseWalk | RawNamespace/vector/RawVector.hpp:102 | repeated reverse `++` from `first` visits `first, first - 1, …` down to `last` |
| RawVector.RBeginAsWritten | RawNamespace/vector/RawVector.hpp:123 | as written, `rbegin()` is the last element of a non-empty vector and always a slot of the block, never `rend()` |
| RawVector.RBeginIndex | RawNamespace/vector/RawVector.hpp:123-124 | `rbegin()` is at the last element for a non-empty vector and always `size` reverse steps before `rend()` |
| RawVector.ForwardTraversalInOrder | RawNamespace/vector/RawVector.hpp:121-122 | iterating from `begin()` to `end()` yields the elements in index order |
| RawVector.ReverseTraversalReversed | RawNamespace/vector/RawVector.hpp:123-124 | iterating from `rbegin()` to `rend()` yields the elements in exactly reversed order |
| RawVector.EmptyReverseTraversalAsWritten | RawNamespace/vector/RawVector.hpp:123-124 | with `rbegin()` as written, reverse iteration over an empty vector visits slot 0 |
| Iterators.IteratorBase.constructor | RawNamespace/vector/RawVector.hpp:55 | the iterator points at the given slot of the given block |
| Iterators.IteratorBase.Deref | RawNamespace/vector/RawVector.hpp:57 | `*it` is the element in the slot it points at |
| Iterators.IteratorBase.AddAssign | RawNamespace/vector/RawVector.hpp:60 | `+= n` moves `n` slots toward the end |
| Iterators.IteratorBase.SubAssign | RawNamespace/vector/RawVector.hpp:61 | `-= n` moves `n` slots toward the front |
| Iterators.IteratorBase.Plus | RawNamespace/vector/RawVector.hpp:63 | `it + n` is a new iterator `n` slots further, in the same block |
| Iterators.IteratorBase.PlusLeft | RawNamespace/vector/RawVector.hpp:64 | `n + it` equals `it + n` |
| Iterators.IteratorBase.Minus | RawNamespace/vector/RawVector.hpp:66 | `it - n` is a new iterator `n` slots back |
| Iterators.IteratorBase.Difference | RawNamespace/vector/RawVector.hpp:67 | `a - b` is the slot distance as a `size_t`, wrapping when `a` precedes `b` |
| Iterators.IteratorBase.PreIncrement | RawNamespace/vector/RawVector.hpp:69 | prefix `++` advances one slot |
| Iterators.IteratorBase.PostIncrement | RawNamespace/vector/RawVector.hpp:70 | postfix `++` returns the old position and advances one slot |
| Iterators.IteratorBase.PreDecrement | RawNamespace/vector/RawVector.hpp:72 | prefix `--` retreats one slot |
| Iterators.IteratorBase.PostDecrement | RawNamespace/vector/RawVector.hpp:73 | postfix `--` returns the old position and, as written, advances one slot |
| Iterators.ReverseIterator.constructor | RawNamespace/vector/RawVector.hpp:88 | the reverse iterator points at the given slot of the given block |
| Iterators.ReverseIterator.Deref | RawNamespace/vector/RawVector.hpp:90 | `*rit` is the element in the slot it points at |
| Iterators.ReverseIterator.AddAssign | RawNamespace/vector/RawVector.hpp:93 | `+= n` moves `n` slots toward slot 0 |
| Iterators.ReverseIterator.SubAssign | RawNamespace/vector/RawVector.hpp:94 | `-= n` moves `n` slots toward the end |
| Iterators.ReverseIterator.Plus | RawNamespace/vector/RawVector.hpp:96 | `rit + n` is `n` slots nearer slot 0 |
| Iterators.ReverseIterator.PlusLeft | RawNamespace/vector/RawVector.hpp:97 | `n + rit`, computed as `rit - n`, is `n` slots nearer the end |
| Iterators.ReverseIterator.Minus | RawNamespace/vector/RawVector.hpp:99 | `rit - n` is `n` slots nearer the end |
| Iterators.ReverseIterator.Difference | RawNamespace/vector/RawVector.hpp:100 | `a - b` is `b.it - a.it` as a `size_t`, wrapping by `2^64` when `a` lies past `b` in reverse order |
| Iterators.ReverseIterator.PreIncrement | RawNamespace/vector/RawVector.hpp:102 | prefix `++` steps one slot toward slot 0 |
| Iterators.ReverseIterator.PostIncrement | RawNamespace/vector/RawVector.hpp:103 | postfix `++` returns the old position and steps toward slot 0 |
| Iterators.ReverseIterator.PreDecrement | RawNamespace/vector/RawVector.hpp:105 | prefix `--` steps one slot toward the end |
| Iterators.ReverseIterator.PostDecrement | RawNamespace/vector/RawVector.hpp:106 | postfix `--` returns the old position and steps toward the end |
| Iterators.IteratorBase.Equal | RawNamespace/vector/RawVector.hpp:75 | `==` within one block holds exactly when `<=` holds both ways |
| Iterators.IteratorBase.NotEqual | RawNamespace/vector/RawVector.hpp:76 | `!=` is the negation of `==` |
| Iterators.IteratorBase.Less | RawNamespace/vector/RawVector.hpp:77 | `<` is `<=` without `==` |
| Iterators.IteratorBase.Greater | RawNamespace/vector/RawVector.hpp:78 | `a > b` is `b < a` |
| Iterators.IteratorBase.LessOrEqual | RawNamespace/vector/RawVector.hpp:79 | `a <= b` holds exactly when `b - a` as a `size_t` does not wrap |
| Iterators.IteratorBase.GreaterOrEqual | RawNamespace/vector/RawVector.hpp:80 | `a >= b` is `b <= a` |
| Iterators.ReverseIterator.Equal | RawNamespace/vector/RawVector.hpp:108 | `==` within one block holds exactly when `<=` holds both ways |
| Iterators.ReverseIterator.NotEqual | RawNamespace/vector/RawVector.hpp:109 | `!=` is the negation of `==` |
| Iterators.ReverseIterator.Less | RawNamespace/vector/RawVector.hpp:110 | `<` (a higher slot) is `<=` without `==` |
| Iterators.ReverseIterator.Greater | RawNamespace/vector/RawVector.hpp:111 | `a > b` is `b < a` |
| Iterators.ReverseIterator.LessOrEqual | RawNamespace/vector/RawVector.hpp:112 | `a <= b` holds exactly when the reverse distance `b - a` as a `size_t` does not wrap |
| Iterators.ReverseIterator.GreaterOrEqual | RawNamespace/vector/RawVector.hpp:113 | `a >= b` is `b <= a` |
| Iterators.DistanceFromBegin | RawNamespace/vector/RawVector.hpp:67 | `pos - begin()` is the slot number of `pos`, so `end() - begin()` is the size, and `begin() <= pos` |
| Iterators.ForwardOrderFollowsTraversal | RawNamespace/vector/RawVector.hpp:77-80 | for slots of a forward walk, `<` and `<=` hold exactly when the first is visited no later, and `b - a` counts the `++` steps between them |
| Iterators.ReverseOrderFollowsTraversal | RawNamespace/vector/RawVector.hpp:110-113 | for slots of a reverse walk, the inverted `<` and `<=` hold exactly when the first is visited no later, and `b - a` counts the reverse steps between them |
| Lifecycle.Apply | RawNamespace/vector/non-trvivial/RawVectorNonTriv.hpp:35-36 | placement `new` makes a dead slot live, `~T()` makes a live slot dead, move-assignment between live slots changes no slot, and no other slot changes |
| Lifecycle.Unconstructed | RawNamespace/vector/non-trvivial/RawVectorNonTriv.hpp:29-32 | a freshly `malloc`ed block holds no live object |
| Lifecycle.ShiftsDown | RawNamespace/vector/non-trvivial/RawVectorNonTriv.hpp:539-541 | the erase loop is one move-assignment `data[i] = std::move(data[i + 1])` per slot of the range |
| Lifecycle.ShiftsDownKeepLive | RawNamespace/vector/non-trvivial/RawVectorNonTriv.hpp:539-541 | shifting among live slots is well defined and leaves every slot as it was |
| Lifecycle.ShiftsDownCountNothing | RawNamespace/vector/non-trvivial/RawVectorNonTriv.hpp:539-541 | shifting by assignment constructs and destroys nothing |
| Lifecycle.EraseCorrectedIsDefined | RawNamespace/vector/non-trvivial/RawVectorNonTriv.hpp:534-544 | `erase` without the early `~T()` is well defined, releases exactly the last slot and destroys one object |
| Lifecycle.EraseAsWrittenIsUndefined | RawNamespace/vector/non-trvivial/RawVectorNonTriv.hpp:534-544 | `erase` as written is undefined on every vector it accepts and destroys two objects to remove one |
| VectorTriv.VectorTriv.constructor | RawNamespace/vector/trivial/RawVectorTriv.hpp:57-59 | a new vector is empty with one slot |
| VectorTriv.VectorTriv.WithSize | RawNamespace/vector/trivial/RawVectorTriv.hpp:69-81 | `vector_triv(n)` holds `n` zeros in a block of `Grow(1, n)` slots |
| VectorTriv.VectorTriv.CopyOf | RawNamespace/vector/trivial/RawVectorTriv.hpp:92-108 | the copy has the same elements and capacity in a fresh block |
| VectorTriv.VectorTriv.MoveFrom | RawNamespace/vector/trivial/RawVectorTriv.hpp:117-125 | the new vector takes over the block, size and capacity, and the source is left with size 0 and capacity 0 |
| VectorTriv.VectorTriv.CopyAssign | RawNamespace/vector/trivial/RawVectorTriv.hpp:136-156 | self-assignment changes nothing; otherwise the elements and capacity of `other` in a fresh block |
| VectorTriv.VectorTriv.MoveAssign | RawNamespace/vector/trivial/RawVectorTriv.hpp:166-177 | self-assignment changes nothing; otherwise takes over `other`'s block, size and capacity and empties `other` to 0/0 |
| VectorTriv.VectorTriv.Realloc | RawNamespace/vector/trivial/RawVectorTriv.hpp:35 | `realloc` to `n` slots keeps every slot below both the old and the new length |
| VectorTriv.VectorTriv.NormalizeCapacity | RawNamespace/vector/trivial/RawVectorTriv.hpp:33-41 | capacity becomes `Grow(capacity, size)` and the old block's contents are kept |
| VectorTriv.VectorTriv.PushBack | RawNamespace/vector/trivial/RawVectorTriv.hpp:189-232 | contents become `old + [elem]`; capacity doubles exactly when the block was full, and the block stays otherwise |
| VectorTriv.VectorTriv.At | RawNamespace/vector/trivial/RawVectorTriv.hpp:242-254 | `at(i)` is element `i` when `i < size` and `out_of_range` exactly when `i >= size` |
| VectorTriv.VectorTriv.SetAt | RawNamespace/vector/trivial/RawVectorTriv.hpp:242-247 | writing through `at(i)` replaces element `i`, or throws `out_of_range` with nothing changed |
| VectorTriv.VectorTriv.Get | RawNamespace/vector/trivial/RawVectorTriv.hpp:256-262 | `v[i]` is element `i` |
| VectorTriv.VectorTriv.Set | RawNamespace/vector/trivial/RawVectorTriv.hpp:256-258 | writing through `v[i]` replaces element `i` only |
| VectorTriv.VectorTriv.GetSize | RawNamespace/vector/trivial/RawVectorTriv.hpp:270-272 | the size never exceeds the capacity |
| VectorTriv.VectorTriv.GetCapacity | RawNamespace/vector/trivial/RawVectorTriv.hpp:273-275 | the capacity is the block's length and at least the size |
| VectorTriv.VectorTriv.Empty | RawNamespace/vector/trivial/RawVectorTriv.hpp:514 | `empty()` holds exactly when there are no elements |
| VectorTriv.VectorTriv.Resize | RawNamespace/vector/trivial/RawVectorTriv.hpp:286-296 | contents become `Resized(old, n, 0)`; shrinking keeps block and capacity; growing leaves capacity `Grow(capacity, n) > n` |
| VectorTriv.VectorTriv.Reserve | RawNamespace/vector/trivial/RawVectorTriv.hpp:307-328 | contents unchanged; capacity becomes exactly `n` when `n` exceeds it, else nothing changes |
| VectorTriv.VectorTriv.Clear | RawNamespace/vector/trivial/RawVectorTriv.hpp:337-345 | no elements, a fresh one-slot block |
| VectorTriv.VectorTriv.ShrinkToFit | RawNamespace/vector/trivial/RawVectorTriv.hpp:356-375 | contents unchanged; capacity becomes the size in a block that is the old one or a fresh one, unless the vector is tight, empty or single-slot |
| VectorTriv.VectorTriv.PopBack | RawNamespace/vector/trivial/RawVectorTriv.hpp:386-391 | `out_of_range` with nothing changed on an empty vector; otherwise drops the last element, and a vector left empty gets a fresh one-slot block |
| VectorTriv.VectorTriv.Insert | RawNamespace/vector/trivial/RawVectorTriv.hpp:404-426 | `out_of_range` with nothing changed when `index > size`; otherwise contents become `InsertAt(old, index, value)`, growing only a full block and keeping the block when there is room |
| VectorTriv.VectorTriv.InsertAtIterator | RawNamespace/vector/trivial/RawVectorTriv.hpp:428-456 | `out_of_range` with nothing changed when `pos - begin() > size`; otherwise inserts at `pos - begin()` with `insert`'s capacity and block rules and returns an iterator at that index into the current block |
| VectorTriv.VectorTriv.Erase | RawNamespace/vector/trivial/RawVectorTriv.hpp:468-474 | `out_of_range` when `index >= size`; otherwise contents become `RemoveAt(old, index)`; block and capacity stay |
| VectorTriv.VectorTriv.EraseAtIterator | RawNamespace/vector/trivial/RawVectorTriv.hpp:476-484 | erases at `pos - begin()` and returns an iterator at the same index |
| VectorTriv.VectorTriv.Swap | RawNamespace/vector/trivial/RawVectorTriv.hpp:493-497 | block, size and capacity are exchanged |
| VectorTriv.VectorTriv.Copy | RawNamespace/vector/trivial/RawVectorTriv.hpp:506-511 | an independent vector with the same elements and capacity `max(Grow(1, size), capacity)` |
| VectorTriv.VectorTriv.Begin | RawNamespace/vector/RawVector.hpp:121 | `begin()` points at slot 0 of the block |
| VectorTriv.VectorTriv.End | RawNamespace/vector/RawVector.hpp:122 | `end()` points `size` slots in |
| VectorTriv.VectorTriv.RBegin | RawNamespace/vector/RawVector.hpp:123 | `rbegin()` points at the last element, one before `rend()` when empty |
| VectorTriv.VectorTriv.REnd | RawNamespace/vector/RawVector.hpp:124 | `rend()` points one before slot 0 |
| VectorTriv.VectorTriv.Front | RawNamespace/vector/RawVector.hpp:128 | `front()` is the first element |
| VectorTriv.VectorTriv.Back | RawNamespace/vector/RawVector.hpp:129 | `back()` is the last element |
| VectorNonTriv.VectorNonTriv.constructor | RawNamespace/vector/non-trvivial/RawVectorNonTriv.hpp:115-121 | a new vector is empty with one slot and has constructed nothing |
| VectorNonTriv.VectorNonTriv.ReserveSpace | RawNamespace/vector/non-trvivial/RawVectorNonTriv.hpp:87-97 | a block of `Grow(capacity, size)` slots whose first `size` are default-constructed and live, the rest raw |
| VectorNonTriv.VectorNonTriv.WithSize | RawNamespace/vector/non-trvivial/RawVectorNonTriv.hpp:132-147 | `vector_non_triv(n)` holds `n` default values in `Grow(1, n)` slots, having constructed `n` objects |
| VectorNonTriv.VectorNonTriv.CopyOf | RawNamespace/vector/non-trvivial/RawVectorNonTriv.hpp:158-175 | the copy has the same elements and capacity in a fresh block, each copy-constructed |
| VectorNonTriv.VectorNonTriv.MoveFrom | RawNamespace/vector/non-trvivial/RawVectorNonTriv.hpp:185-197 | the elements are moved into a fresh block of the same capacity; the source has destroyed all it constructed and is left at 0/0 |
| VectorNonTriv.VectorNonTriv.Relocate | RawNamespace/vector/non-trvivial/RawVectorNonTriv.hpp:34-40 | relocation moves every element into a fresh block in index order, constructing and destroying one object per element and leaving the old block with no live object |
| VectorNonTriv.VectorNonTriv.NormalizeCapacity | RawNamespace/vector/non-trvivial/RawVectorNonTriv.hpp:26-43 | capacity becomes `Grow(capacity, size)` and contents are preserved |
| VectorNonTriv.VectorNonTriv.NormalizeCapacityFor | RawNamespace/vector/non-trvivial/RawVectorNonTriv.hpp:56-75 | `bad_alloc` with nothing changed above `SIZE_MAX / 2`; otherwise capacity becomes `Grow(max(capacity, 1), n)` with contents preserved |
| VectorNonTriv.VectorNonTriv.CopyAssign | RawNamespace/vector/non-trvivial/RawVectorNonTriv.hpp:208-234 | nothing when the blocks coincide; otherwise its own elements destroyed and copies of `other`'s constructed in a fresh block of `other`'s capacity |
| VectorNonTriv.VectorNonTriv.MoveAssign | RawNamespace/vector/non-trvivial/RawVectorNonTriv.hpp:244-264 | nothing when the blocks coincide; otherwise its own elements destroyed, `other`'s moved into a fresh block, and `other` left at 0/0 with all its objects destroyed |
| VectorNonTriv.VectorNonTriv.PushBack | RawNamespace/vector/non-trvivial/RawVectorNonTriv.hpp:276-289 | contents become `old + [elem]`; the capacity doubles exactly when the block was full, and otherwise block and destructions stay |
| VectorNonTriv.VectorNonTriv.At | RawNamespace/vector/non-trvivial/RawVectorNonTriv.hpp:299-310 | `at(i)` is element `i` when `i < size` and `out_of_range` exactly when `i >= size` |
| VectorNonTriv.VectorNonTriv.SetAt | RawNamespace/vector/non-trvivial/RawVectorNonTriv.hpp:299-304 | writing through `at(i)` replaces element `i`, or throws `out_of_range` with nothing changed |
| VectorNonTriv.VectorNonTriv.Get | RawNamespace/vector/non-trvivial/RawVectorNonTriv.hpp:312-317 | `v[i]` is element `i` |
| VectorNonTriv.VectorNonTriv.Set | RawNamespace/vector/non-trvivial/RawVectorNonTriv.hpp:312-314 | writing through `v[i]` replaces element `i` only |
| VectorNonTriv.VectorNonTriv.GetSize | RawNamespace/vector/RawVector.hpp:39 | the size never exceeds the capacity |
| VectorNonTriv.VectorNonTriv.GetCapacity | RawNamespace/vector/RawVector.hpp:40 | the capacity is the block's length and at least the size |
| VectorNonTriv.VectorNonTriv.Empty | RawNamespace/vector/non-trvivial/RawVectorNonTriv.hpp:575 | `empty()` holds exactly when there are no elements |
| VectorNonTriv.VectorNonTriv.Resize | RawNamespace/vector/non-trvivial/RawVectorNonTriv.hpp:328-351 | contents become `Resized(old, n, T())`; shrinking destroys the dropped elements and keeps the block; otherwise a fresh block of `Grow(capacity, n) > n` slots |
| VectorNonTriv.VectorNonTriv.Reserve | RawNamespace/vector/non-trvivial/RawVectorNonTriv.hpp:363-370 | nothing when `n < capacity`; `bad_alloc` with nothing changed above `SIZE_MAX / 2`; otherwise capacity `Grow(max(capacity, 1), n) > n`, contents unchanged |
| VectorNonTriv.VectorNonTriv.Clear | RawNamespace/vector/non-trvivial/RawVectorNonTriv.hpp:381-388 | every element destroyed, no elements, a fresh one-slot block |
| VectorNonTriv.VectorNonTriv.ShrinkToFit | RawNamespace/vector/non-trvivial/RawVectorNonTriv.hpp:400-416 | nothing when tight or empty; otherwise contents relocated into exactly `size` slots |
| VectorNonTriv.VectorNonTriv.PopBack | RawNamespace/vector/non-trvivial/RawVectorNonTriv.hpp:427-432 | `out_of_range` with nothing changed when empty; otherwise the last element destroyed, block and capacity kept |
| VectorNonTriv.VectorNonTriv.Insert | RawNamespace/vector/non-trvivial/RawVectorNonTriv.hpp:445-481 | `out_of_range` with nothing changed when `index > size`; otherwise contents become `InsertAt(old, index, value)`, growing only a full block and keeping the block when there is room |
| VectorNonTriv.VectorNonTriv.OpenGap | RawNamespace/vector/non-trvivial/RawVectorNonTriv.hpp:456-459 | the last element is move-constructed one slot up and the rest shifted by assignment, giving `InsertAt(old, index, old[index])` with one construction |
| VectorNonTriv.VectorNonTriv.InsertAtIterator | RawNamespace/vector/non-trvivial/RawVectorNonTriv.hpp:482-522 | `out_of_range` with nothing changed when `pos - begin() > size`; otherwise inserts at `pos - begin()` with `insert`'s capacity and block rules and returns an iterator at that index into the current block |
| VectorNonTriv.VectorNonTriv.Erase | RawNamespace/vector/non-trvivial/RawVectorNonTriv.hpp:534-544 | `out_of_range` when `index >= size`; otherwise contents become `RemoveAt(old, index)` through exactly the lifetime events of the corrected erase, destroying one object |
| VectorNonTriv.VectorNonTriv.EraseAtIterator | RawNamespace/vector/non-trvivial/RawVectorNonTriv.hpp:546-559 | `out_of_range` with nothing changed when `pos - begin() >= size`; otherwise erases at `pos - begin()` through the corrected erase's lifetime events, destroying one object, and returns `pos` itself |
| VectorNonTriv.VectorNonTriv.Swap | RawNamespace/vector/non-trvivial/RawVectorNonTriv.hpp:568-572 | block, size and capacity are exchanged |
| VectorNonTriv.VectorNonTriv.Destroy | RawNamespace/vector/non-trvivial/RawVectorNonTriv.hpp:586 | after the destructor no object is left and every object constructed has been destroyed |
| VectorNonTriv.VectorNonTriv.Begin | RawNamespace/vector/RawVector.hpp:121 | `begin()` points at slot 0 of the block |
| VectorNonTriv.VectorNonTriv.End | RawNamespace/vector/RawVector.hpp:122 | `end()` points `size` slots in |
| VectorNonTriv.VectorNonTriv.RBegin | RawNamespace/vector/RawVector.hpp:123 | `rbegin()` points at the last element, one before `rend()` when empty |
| VectorNonTriv.VectorNonTriv.REnd | RawNamespace/vector/RawVector.hpp:124 | `rend()` points one before slot 0 |
| VectorNonTriv.VectorNonTriv.Front | RawNamespace/vector/RawVector.hpp:128 | `front()` is the first element |
| VectorNonTriv.VectorNonTriv.Back | RawNamespace/vector/RawVector.hpp:129 | `back()` is the last element |
| Scenarios.TrivInsertThenErase | RawNamespace/vector/trivial/RawVectorTriv.hpp:404-474 | `insert(i, x)` then `erase(i)` restores the contents |
| Scenarios.NonTrivInsertThenErase | RawNamespace/vector/non-trvivial/RawVectorNonTriv.hpp:445-544 | `insert(i, x)` then `erase(i)` restores the contents and keeps `Valid()`, through the corrected erase's lifetime events |
| Scenarios.PushThenTraverse | RawNamespace/vector/RawVector.hpp:121-124 | after pushing `xs`, forward iteration yields `xs` and reverse iteration its reverse |
| Scenarios.NonTrivCopyIsIndependent | RawNamespace/vector/non-trvivial/RawVectorNonTriv.hpp:158-175 | writing to a copy leaves the original unchanged |
| Scenarios.TrivCopyIsIndependent | RawNamespace/vector/trivial/RawVectorTriv.hpp:506-511 | writing to a `copy()` leaves the original unchanged |
| Scenarios.NonTrivShrinkTwice | RawNamespace/vector/non-trvivial/RawVectorNonTriv.hpp:400-416 | on a non-empty vector one `shrink_to_fit` makes capacity equal size and a second changes nothing |
| Scenarios.TrivShrinkTwice | RawNamespace/vector/trivial/RawVectorTriv.hpp:356-375 | on a non-empty vector one `shrink_to_fit` makes capacity equal size and a second changes nothing |
| Scenarios.PushThreeEraseMiddle | RawNamespace/vector/trivial/RawVectorTriv.hpp:189-211 | pushing 1, 2, 3 gives `[1, 2, 3]` in 4 slots; `erase(1)` leaves `[1, 3]` |
| Scenarios.TrivReserveThenPush | RawNamespace/vector/trivial/RawVectorTriv.hpp:307-328 | `vector_triv(0)`, `reserve(5)` and five pushes fill exactly 5 slots without reallocating |
| Scenarios.NonTrivReserveThenPush | RawNamespace/vector/non-trvivial/RawVectorNonTriv.hpp:363-370 | `vector_non_triv(0)`, `reserve(5)` and five pushes fit in the 8 reserved slots without relocating |
| Scenarios.AtPastEnd | RawNamespace/vector/trivial/RawVectorTriv.hpp:242-247 | `at(5)` on a vector of size 3 throws `out_of_range` |
| Scenarios.PopEmptyThenPush | RawNamespace/vector/non-trvivial/RawVectorNonTriv.hpp:427-432 | `pop_back()` on an empty vector throws `out_of_range`, and a later `push_back` works |
| Scenarios.LifetimeBalances | RawNamespace/vector/non-trvivial/RawVectorNonTriv.hpp:586 | through growth, insert, the corrected erase, resize and destruction, every constructed object is destroyed exactly once; with the source's erase it would not be (see Findings) |
| Scenarios.EndMinusBegin | RawNamespace/vector/RawVector.hpp:121-122 | `end() - begin()` is the number of elements |
| Scenarios.IterateForward | RawNamespace/vector/RawVector.hpp:57-76 | a loop from `begin()` to `end()` with the iterator's `!=`, `*` and `++` reads exactly the elements in index order |
| Scenarios.IterateBackward | RawNamespace/vector/RawVector.hpp:90-109 | a loop from `rbegin()` to `rend()` with the reverse iterator's `!=`, `*` and `++` reads exactly the elements in reverse order (with the corrected `rbegin()` when empty) |

## Left out

- **Allocation failure.**
  - `malloc`, `calloc` and `realloc` are taken to succeed. The `catch` blocks that clean up and
    rethrow after a failed allocation are therefore not modelled.
  - The one exception is the explicit `SIZE_MAX / 2` guard of the non-trivial
    `normalize_capacity(n)`, which is modelled as `BadAlloc`.
  - The trivial copy constructor's `calloc(0, …)` may return null for a moved-from source and
    throw. The model treats it as a zero-slot block.
- **Console output.** The logging in destructors and `catch` blocks is an observability side
  effect.
- **Outside the container.** None of these are part of this model:
  - type-trait selection (`trivial_check.hpp`, `vector_alias.hpp`) and `is_trivial()`;
  - virtual dispatch through the abstract base;
  - `RawBase.hpp`;
  - `Snake.cpp`.
  - The two backends are two separate classes. `Swap` exchanges with a vector of the same
    backend only, although the source's `vector_base<T>&` parameter would accept the other.
- **The base class's own state** (null block, size 0, capacity 1). The base is abstract and
  every backend constructor replaces that state at once, so each backend constructor models its
  own end state.
- **Repeated base members.** `begin`/`end`/`rbegin`/`rend`/`front`/`back` and the getters
  appear in each backend class, since Dafny classes without traits cannot inherit them. These
  have no model: `data_get()`, the `const_iterator`/`c…` variants and `operator->`. They are
  the same positions read-only.
- **Writes through references.** Writes through `front()`, `back()` and `*it` are not modelled.
  Writes through `at()` and `operator[]` are, as `SetAt` and `Set`.
- **Moved-from element values.** After a move the model keeps the value where the source
  leaves an unspecified moved-from object. That object is destroyed or overwritten before
  anything reads it.
- **Width of `size` and `capacity`.** They are unbounded naturals. Doubling past `2^63` and
  the byte-size overflow of `sizeof(T) * n` are not modelled. `GrowFitsSizeT` shows the guarded
  path stays in range.
- **Iterator invalidation.** An iterator passed to `insert`/`erase` must point into the
  current block. Stale iterators into a freed block, and pointer comparisons across blocks,
  are undefined in the source and excluded.
- **Freeing memory.** The non-trivial `Destroy` models destroying the elements. The base
  destructor's `free` is not modelled.
- **Self-assignment of two moved-from vectors.** `CopyAssign`/`MoveAssign` of the non-trivial
  backend compare blocks, as the source compares pointers. Two moved-from vectors share the
  null pointer in the source but hold distinct empty arrays here. Either way nothing
  observable changes.
- VectorTriv.VectorTriv.Realloc: fills slots beyond the old block with `zero`, where `realloc`
  leaves them indeterminate. No operation reads them before writing them.
- VectorTriv.VectorTriv.PushBack: requires `capacity >= 1`, because in the moved-from state
  both overloads misbehave:
  - the copying one doubles capacity 0 to 0 and calls `realloc(data, 0)`; it then either writes
    past a zero-byte block or, when `realloc` frees the block and returns null, frees it again
    and throws `bad_alloc`;
  - the moving one never returns.
- VectorTriv.VectorTriv.PushBack: treats an argument that refers into the same vector as a
  value. When the block is full, the source reads it after `realloc` may have moved the block.
- VectorNonTriv.VectorNonTriv.PushBack: treats an argument that refers into the same vector as
  a value. When the block is full, `normalize_capacity` has already destroyed and freed the
  referenced object before the source reads it, which is undefined behaviour.
- VectorTriv.VectorTriv.Insert: treats an argument that refers into the same vector as a value
  read at the call. The source reads it after the `memmove`, so `insert(i, v[j])` with `j > i`
  inserts `v[j - 1]` (see Findings, `RawVector.InsertFromSlotAsWritten`). After a growth the
  reference may dangle.
- VectorNonTriv.VectorNonTriv.Insert: the same as the trivial `Insert`. The source reads the
  argument after the shift loop, and after a relocation that has destroyed the referenced
  object.
- VectorTriv.VectorTriv.InsertAtIterator: the same as `Insert`, for the value argument.
- VectorNonTriv.VectorNonTriv.InsertAtIterator: the same as `Insert`, for the value argument.
- VectorNonTriv.VectorNonTriv.Erase: follows the corrected lifetime sequence (see Findings).
  Its values are those of the source. Its lifetime events are not: the source's extra
  destruction is recorded only by `Lifecycle.EraseAsWrittenIsUndefined`.
- VectorNonTriv.VectorNonTriv.EraseAtIterator: follows the corrected lifetime sequence, as
  `Erase` does. The source's iterator overload (RawVectorNonTriv.hpp:552-557) destroys the
  erased slot before assigning into it. That as-written behaviour is recorded only by
  `Lifecycle.EraseAsWrittenIsUndefined`.
- Scenarios.NonTrivInsertThenErase: its `Valid()` after `erase`, with the balance
  `constructed == destroyed + size`, holds through the corrected lifetime sequence. With the
  source's `erase`, the erase would assign into a destroyed object, or destroy the last one
  twice when `i` is the last index (`Lifecycle.EraseAsWrittenIsUndefined`).
- VectorTriv.VectorTriv.RBegin and VectorNonTriv.VectorNonTriv.RBegin: use the corrected
  position on an empty vector (see Findings). The as-written position is `RBeginAsWritten`.
- RawVector.RBeginIndex, RawVector.ReverseTraversalReversed, Scenarios.PushThenTraverse and Scenarios.IterateBackward:
  also rely on the corrected empty-vector position of `rbegin()`. For a non-empty vector it is
  the source's.
- Scenarios.LifetimeBalances: the balance holds through the corrected `erase`. With the
  source's `erase`, the `erase(0)` in the scenario would destroy two objects to remove one
  (`Lifecycle.EraseAsWrittenIsUndefined`).

## Findings

| source | as written | input that shows it | evidently intended | confidence | as-written member | corrected member |
|---|---|---|---|---|---|---|
| RawNamespace/vector/non-trvivial/RawVectorNonTriv.hpp:538-543 | `erase` destroys `data[index]`, then move-assigns `data[index + 1]` into the destroyed slot and finally destroys the last slot. When `index == size - 1` the same slot is destroyed twice. The iterator overload (552-557) does the same. | a vector of size 1, `erase(0)`: slot 0 is destroyed twice; size 2, `erase(0)`: assignment into a destroyed object | no early `~T()`: the move-assignments release the erased value, and only the vacated last slot is destroyed, one destruction per erase | high; not executed, proved on the model | Lifecycle.EraseAsWrittenIsUndefined | Lifecycle.EraseCorrectedIsDefined |
| RawNamespace/vector/trivial/RawVectorTriv.hpp:411-412 | `insert(index, value)` shifts the block with `memmove` before it reads `value`. The non-trivial backend does the same at RawVectorNonTriv.hpp:456-460, with move-construction and move-assignment. When `value` refers to a later element of the same vector, the read sees the element shifted into that slot. | `[a, b, c]` with room, `insert(0, v[1])`: gives `[a, a, b, c]` instead of `[b, a, b, c]` | the value as it was at the call, as `std::vector::insert` guarantees: copy it before shifting | medium; not executed, proved on the model | RawVector.InsertFromSlotAsWrittenCopiesNeighbour | RawVector.InsertFromSlotCorrected |
| RawNamespace/vector/RawVector.hpp:123-124 | `rbegin()` of an empty vector points at slot 0 while `rend()` points at slot -1, so they differ | an empty vector: the loop from `rbegin()` to `rend()` visits slot 0, which holds no element | `rbegin()` at `size - 1` in all cases, equal to `rend()` when empty | high; not executed, proved on the model | RawVector.EmptyReverseTraversalAsWritten | RawVector.ReverseTraversalReversed |
