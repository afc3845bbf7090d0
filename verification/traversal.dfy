/**
 `traversal_utilities` (include/msl/pointers/traversal_utilities.hpp): moving
 a `not_null<T*>` across a contiguous sequence of `T` objects.

 In strict mode the pointer is reinterpreted as a byte pointer and moved by
 `count * sizeof(T)` bytes; with strict mode disabled it is moved with
 ordinary element arithmetic. Both are modelled and shown to agree. The
 element count is the `count()` of a `quantity<T>`, which may be negative.
 */
module Traversal {
  import opened NotNulls

  /** A move of `n` elements of `size` bytes stays inside the sequence. */
  predicate InBounds(p: NotNull, n: int, size: nat)
  {
    p.Valid() && size > 0 && p.ptr + n * size > 0
  }

  /**
   `advance(p, n)` in strict mode: the byte pointer moves by
   `n.count() * sizeof(T)` bytes (elements of size one) and the result is
   laundered back into a `T*`.
   */
  function Advance(p: NotNull, n: int, size: nat): (r: NotNull)
    requires InBounds(p, n, size)
    ensures r.Valid()
    ensures r.ptr as int - p.ptr as int == n * size
  {
    var bytes := Convert(p);
    Convert(NotNulls.Add(bytes, n * size, 1))
  }

  /** `advance(p, n)` with strict mode disabled: plain `p + n.count()`. */
  function AdvanceLenient(p: NotNull, n: int, size: nat): (r: NotNull)
    requires InBounds(p, n, size)
    ensures r.Valid()
  {
    NotNulls.Add(p, n, size)
  }

  /** Both compilation modes reach the same address. */
  lemma AdvanceModesAgree(p: NotNull, n: int, size: nat)
    requires InBounds(p, n, size)
    ensures Advance(p, n, size) == AdvanceLenient(p, n, size)
  {
  }

  /** Two moves compose into one move by the sum. */
  lemma AdvanceAdditive(p: NotNull, a: int, b: int, size: nat)
    requires InBounds(p, a, size)
    requires InBounds(Advance(p, a, size), b, size)
    ensures InBounds(p, a + b, size)
    ensures Advance(Advance(p, a, size), b, size) == Advance(p, a + b, size)
  {
    assert (a + b) * size == a * size + b * size;
  }

  /** Advancing by zero leaves the pointer where it is. */
  lemma AdvanceZero(p: NotNull, size: nat)
    requires p.Valid() && size > 0
    ensures InBounds(p, 0, size) && Advance(p, 0, size) == p
  {
  }

  /** `next(p)`: `advance(p, 1)`. */
  function Next(p: NotNull, size: nat): (r: NotNull)
    requires p.Valid() && size > 0
    ensures r.Valid() && r.ptr == p.ptr + size
  {
    Advance(p, 1, size)
  }

  /** `previous(p)`: `advance(p, -1)`; the caller keeps it inside the sequence. */
  function Previous(p: NotNull, size: nat): (r: NotNull)
    requires p.Valid() && size > 0 && p.ptr > size
    ensures r.Valid() && r.ptr + size == p.ptr
  {
    Advance(p, -1, size)
  }

  /** `previous` undoes `next`, and `next` undoes `previous`. */
  lemma PreviousNext(p: NotNull, size: nat)
    requires p.Valid() && size > 0
    ensures Previous(Next(p, size), size) == p
    ensures p.ptr > size ==> Next(Previous(p, size), size) == p
  {
  }

  /** `next` agrees with the wrapper's own `++`. */
  lemma NextIsIncrement(p: NotNull, size: nat)
    requires p.Valid() && size > 0
    ensures Next(p, size) == Increment(p, size)
  {
  }

  /**
   `access_at_offset(p, offset)`: `*advance(p, offset)`. Memory is a map from
   addresses to the `T` objects stored there; the object must exist.
   */
  function AccessAtOffset<T>(mem: map<nat, T>, p: NotNull, offset: int, size: nat): (r: T)
    requires InBounds(p, offset, size)
    requires p.ptr + offset * size in mem
    ensures r == mem[p.ptr + offset * size]
  {
    mem[Advance(p, offset, size).ptr]
  }

  /** Reading at an offset is reading at offset zero from the advanced pointer. */
  lemma AccessAtOffsetShift<T>(mem: map<nat, T>, p: NotNull, offset: int, size: nat)
    requires InBounds(p, offset, size)
    requires p.ptr + offset * size in mem
    ensures InBounds(Advance(p, offset, size), 0, size)
    ensures AccessAtOffset(mem, p, offset, size)
         == AccessAtOffset(mem, Advance(p, offset, size), 0, size)
  {
  }
}
