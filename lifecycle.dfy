/** Object lifetimes in a raw buffer of the non-trivial backend
    (RawNamespace/vector/non-trvivial/RawVectorNonTriv.hpp). Each slot of an allocation either
    holds a constructed object or raw memory; placement `new` constructs, `~T()` destroys and
    move-assignment needs a live object on both sides. Any other use is undefined behaviour. */
module Lifecycle {
  import opened RawVector

  /** Construction state of the slots of one allocation: `true` where a live object sits. */
  type Slots = seq<bool>

  datatype Event =
    | ConstructAt(slot: nat)          // placement `new (data + slot) T(...)`
    | DestroyAt(slot: nat)            // `data[slot].~T()`
    | MoveAssign(dst: nat, src: nat)  // `data[dst] = std::move(data[src])`

  /** Whether `e` is well defined on `s`. */
  predicate Defined(s: Slots, e: Event) {
    match e
    case ConstructAt(i) => i < |s| && !s[i]
    case DestroyAt(i) => i < |s| && s[i]
    case MoveAssign(d, src) => d < |s| && src < |s| && s[d] && s[src]
  }

  /** The slots after a well-defined event. */
  function Apply(s: Slots, e: Event): (r: Slots)
    requires Defined(s, e)
    ensures |r| == |s|
    ensures forall k :: 0 <= k < |s| && !(e.ConstructAt? && k == e.slot) && !(e.DestroyAt? && k == e.slot) ==> r[k] == s[k]
    ensures e.ConstructAt? ==> r[e.slot]
    ensures e.DestroyAt? ==> !r[e.slot]
  {
    match e
    case ConstructAt(i) => s[i := true]
    case DestroyAt(i) => s[i := false]
    case MoveAssign(_, _) => s
  }

  /** Replays `es` from `s`; `None` as soon as one event is undefined. */
  function Run(s: Slots, es: seq<Event>): Option<Slots>
    decreases |es|
  {
    if es == [] then Some(s)
    else if Defined(s, es[0]) then Run(Apply(s, es[0]), es[1..])
    else None
  }

  function Destructions(es: seq<Event>): nat {
    if es == [] then 0 else (if es[0].DestroyAt? then 1 else 0) + Destructions(es[1..])
  }

  function Constructions(es: seq<Event>): nat {
    if es == [] then 0 else (if es[0].ConstructAt? then 1 else 0) + Constructions(es[1..])
  }

  /** Exactly the slots below `n` are live: the state of a vector of size `n`. */
  ghost predicate LiveExactly(s: Slots, n: nat) {
    forall k :: 0 <= k < |s| ==> (s[k] <==> k < n)
  }

  /** A freshly `malloc`ed block: no slot constructed. */
  function Unconstructed(n: nat): (s: Slots)
    ensures |s| == n && LiveExactly(s, 0)
  {
    seq(n, _ => false)
  }

  /** No live object left: the block may be freed without leaking. */
  ghost predicate Vacant(s: Slots) {
    forall k :: 0 <= k < |s| ==> !s[k]
  }

  // ---------------------------------------------------------------------------------------------
  // erase(index) (RawVectorNonTriv.hpp:534-544)
  // ---------------------------------------------------------------------------------------------

  /** `data[i] = std::move(data[i + 1])` for `i` from `lo` up to `hi - 1`. */
  function ShiftsDown(lo: nat, hi: nat): (es: seq<Event>)
    requires lo <= hi
    ensures |es| == hi - lo
    ensures forall k :: 0 <= k < |es| ==> es[k] == MoveAssign(lo + k, lo + k + 1)
    decreases hi - lo
  {
    if lo == hi then [] else [MoveAssign(lo, lo + 1)] + ShiftsDown(lo + 1, hi)
  }

  /** The lifetime events of `erase(index)` as written: destroy the erased object, move the later
      ones down INTO the destroyed slot, then destroy the last slot. */
  function EraseAsWritten(size: nat, index: nat): seq<Event>
    requires index < size
  {
    [DestroyAt(index)] + ShiftsDown(index, size - 1) + [DestroyAt(size - 1)]
  }

  /** The lifetime events of `erase(index)` as evidently intended: move the later objects down
      by assignment, which releases what the erased object held, then destroy the last slot. */
  function EraseCorrected(size: nat, index: nat): seq<Event>
    requires index < size
  {
    ShiftsDown(index, size - 1) + [DestroyAt(size - 1)]
  }

  lemma {:induction false} RunAppend(s: Slots, a: seq<Event>, b: seq<Event>)
    ensures Run(s, a + b) == (if Run(s, a).Some? then Run(Run(s, a).value, b) else None)
    decreases |a|
  {
    if a != [] {
      assert (a + b)[0] == a[0] && (a + b)[1..] == a[1..] + b;
      if Defined(s, a[0]) {
        RunAppend(Apply(s, a[0]), a[1..], b);
      }
    } else {
      assert a + b == b;
    }
  }

  lemma {:induction false} DestructionsAppend(a: seq<Event>, b: seq<Event>)
    ensures Destructions(a + b) == Destructions(a) + Destructions(b)
    ensures Constructions(a + b) == Constructions(a) + Constructions(b)
    decreases |a|
  {
    if a == [] {
      assert a + b == b;
    } else {
      assert (a + b)[0] == a[0] && (a + b)[1..] == a[1..] + b;
      DestructionsAppend(a[1..], b);
    }
  }

  /** Shifting among live slots is well defined and leaves the construction state alone. */
  lemma {:induction false} ShiftsDownKeepLive(s: Slots, lo: nat, hi: nat)
    requires lo <= hi < |s|
    requires forall k :: lo <= k <= hi ==> s[k]
    ensures Run(s, ShiftsDown(lo, hi)) == Some(s)
    decreases hi - lo
  {
    if lo < hi {
      var es := ShiftsDown(lo, hi);
      assert es[0] == MoveAssign(lo, lo + 1);
      assert es[1..] == ShiftsDown(lo + 1, hi);
      ShiftsDownKeepLive(s, lo + 1, hi);
    }
  }

  /** The corrected `erase` is well defined on a vector of size `size`, ends with only the last
      slot released, so that a vector of size `size - 1` remains, and destroys exactly one object. */
  lemma EraseCorrectedIsDefined(s: Slots, size: nat, index: nat)
    requires index < size <= |s| && LiveExactly(s, size)
    ensures Run(s, EraseCorrected(size, index)) == Some(s[size - 1 := false])
    ensures LiveExactly(s[size - 1 := false], size - 1)
    ensures Destructions(EraseCorrected(size, index)) == 1
    ensures Constructions(EraseCorrected(size, index)) == 0
  {
    var shifts := ShiftsDown(index, size - 1);
    ShiftsDownKeepLive(s, index, size - 1);
    ShiftsDownCountNothing(index, size - 1);
    RunAppend(s, shifts, [DestroyAt(size - 1)]);
    DestructionsAppend(shifts, [DestroyAt(size - 1)]);
    var last := [DestroyAt(size - 1)];
    assert last[1..] == [];
    assert Run(s, last) == Run(Apply(s, DestroyAt(size - 1)), []);
  }

  /** The `erase` as written is undefined on every vector it accepts: when a later element
      exists, it move-assigns into the slot it has just destroyed; when the erased element is the
      last one, it destroys that slot twice. It also destroys two objects to remove one. */
  lemma EraseAsWrittenIsUndefined(s: Slots, size: nat, index: nat)
    requires index < size <= |s| && LiveExactly(s, size)
    ensures Run(s, EraseAsWritten(size, index)) == None
    ensures Destructions(EraseAsWritten(size, index)) == 2
  {
    var es := EraseAsWritten(size, index);
    var shifts := ShiftsDown(index, size - 1);
    assert es == [DestroyAt(index)] + (shifts + [DestroyAt(size - 1)]);
    RunAppend(s, [DestroyAt(index)], shifts + [DestroyAt(size - 1)]);
    var s1 := Apply(s, DestroyAt(index));
    assert Run(s, [DestroyAt(index)]) == Run(s1, []);
    assert !s1[index];
    var rest := shifts + [DestroyAt(size - 1)];
    if index < size - 1 {
      assert rest[0] == MoveAssign(index, index + 1);
      assert !Defined(s1, rest[0]);
    } else {
      assert rest[0] == DestroyAt(index);
      assert !Defined(s1, rest[0]);
    }
    DestructionsAppend([DestroyAt(index)], rest);
    DestructionsAppend(shifts, [DestroyAt(size - 1)]);
    ShiftsDownCountNothing(index, size - 1);
    assert Destructions([DestroyAt(index)]) == 1;
    assert Destructions([DestroyAt(size - 1)]) == 1;
  }

  /** Shifting by assignment neither constructs nor destroys. */
  lemma {:induction false} ShiftsDownCountNothing(lo: nat, hi: nat)
    requires lo <= hi
    ensures Destructions(ShiftsDown(lo, hi)) == 0 && Constructions(ShiftsDown(lo, hi)) == 0
    decreases hi - lo
  {
    if lo < hi {
      var es := ShiftsDown(lo, hi);
      assert es[1..] == ShiftsDown(lo + 1, hi);
      ShiftsDownCountNothing(lo + 1, hi);
    }
  }
}
