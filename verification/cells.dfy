/**
 `cell` and `active_cell` (include/msl/cells/cell.hpp,
 include/msl/cells/active_cell.hpp): move-only fat pointers to storage for
 `T`, `T[]` or `T[N]` that is either still uninitialised (`cell`) or holds
 live objects (`active_cell`).

 Both templates store the same two things, an address and, for `T[]` only,
 a run-time length, so one `Handle` record serves for both; the operations
 that only an active cell offers live in `ActiveCells`. The template
 arguments become a `CellType` value.
 */
module Cells {
  import opened BitOps

  /** The three specialisations: `T`, `T[]` and `T[N]`. */
  datatype Shape = Single | Unbounded | Bounded(n: nat)

  /** The template arguments: the shape, `sizeof(T)`, `alignof(T)`, `Align`. */
  datatype CellType = CellType(shape: Shape, size: nat, elemAlign: nat, align: nat)
  {
    /**
     The types the template can be instantiated with, under the evident
     intent of its static assertions. C++ has no zero-length arrays.
     */
    predicate Admissible()
    {
      size > 0 && elemAlign > 0 && size % elemAlign == 0
      && (shape.Bounded? ==> shape.n > 0)
      && AlignmentAccepted(align, elemAlign)
    }
  }

  /**
   The intended static assertions on `Align`: not under-aligned for `T`,
   and a power of two, written as the usual `n != 0 && (n & (n-1)) == 0`.
   */
  predicate AlignmentAccepted(align: nat, elemAlign: nat)
  {
    align >= elemAlign && align > 0 && And(align, align - 1) == 0
  }

  /** The modulus of the 64-bit `std::size_t`. */
  const SizeModulus: nat := 0x1_0000_0000_0000_0000

  /** `Align - 1` on `std::size_t`, which wraps for `Align == 0`. */
  function SizeMinusOne(a: nat): (r: nat)
    requires a < SizeModulus
    ensures r < SizeModulus
    ensures (r + 1) % SizeModulus == a
  {
    if a == 0 then SizeModulus - 1 else a - 1
  }

  /** The static assertions as written: `(Align & (Align-1)) == Align`. */
  predicate AlignmentAcceptedAsWritten(align: nat, elemAlign: nat)
    requires align < SizeModulus
  {
    align >= elemAlign && And(align, SizeMinusOne(align)) == align
  }

  /** The intended test accepts exactly the powers of two not below `alignof(T)`. */
  lemma AlignmentAcceptedIffPowerOfTwo(align: nat, elemAlign: nat)
    ensures AlignmentAccepted(align, elemAlign) <==> align >= elemAlign && IsPowerOfTwo(align)
  {
    if align > 0 {
      ClearLowestBitIffPowerOfTwo(align);
    }
  }

  /**
   The written power-of-two test holds only for 0, so together with
   `Align >= alignof(T) >= 1` it rejects every instantiation, including the
   default `Align = alignof(T)`.
   */
  lemma AlignmentAsWrittenRejectsAll(align: nat, elemAlign: nat)
    requires align < SizeModulus && elemAlign > 0
    ensures And(align, SizeMinusOne(align)) == align <==> align == 0
    ensures !AlignmentAcceptedAsWritten(align, elemAlign)
  {
    if align == 0 {
      BitwiseZeroLeft(AndOp, SizeMinusOne(0));
    } else {
      ClearLowestBitBelow(align);
    }
  }

  /** A concrete witness: `cell<std::uint64_t>` has `Align == 8`, which the written test rejects. */
  lemma AlignmentAsWrittenRejectsEight()
    ensures AlignmentAccepted(8, 8)
    ensures !AlignmentAcceptedAsWritten(8, 8)
  {
    AlignmentAcceptedIffPowerOfTwo(8, 8);
    AlignmentAsWrittenRejectsAll(8, 8);
  }

  /** The stored state: `m_data`, and `m_length` for `T[]` (0 otherwise). */
  datatype Handle = Handle(data: nat, stored: nat)

  /** `data()` goes through `assume_aligned<Align>`, so the address is aligned. */
  predicate Valid(ct: CellType, h: Handle)
  {
    ct.Admissible() && h.data % ct.align == 0 && (!ct.shape.Unbounded? ==> h.stored == 0)
  }

  /** `length()`: 1 for `T`, the stored count for `T[]`, `N` for `T[N]`. */
  function Length(ct: CellType, h: Handle): nat
  {
    match ct.shape
    case Single => 1
    case Unbounded => h.stored
    case Bounded(n) => n
  }

  /** `size()`: `length().count() * size_of<T>()` bytes. */
  function Size(ct: CellType, h: Handle): nat
  {
    Length(ct, h) * ct.size
  }

  /** `data()`. */
  function Data(h: Handle): nat
  {
    h.data
  }

  /** `operator bool`: the data pointer is not null. */
  predicate AsBool(h: Handle)
  {
    h.data != 0
  }

  /**
   The default constructor: a null handle; for `T[]` the length is also
   zeroed (an unset `quantity` is 0). `T[N]` still reports `N`.
   */
  function Default(ct: CellType): (r: Handle)
    requires ct.Admissible()
    ensures Valid(ct, r) && !AsBool(r) && Data(r) == 0
    ensures ct.shape.Unbounded? ==> Length(ct, r) == 0 && Size(ct, r) == 0
    ensures ct.shape.Bounded? ==> Length(ct, r) == ct.shape.n
  {
    Handle(0, 0)
  }

  /**
   The constructor from `not_null<T*>` for `T` and `T[N]`: the address is
   non-null, and `data()` will assume it aligned.
   */
  function FromPointer(ct: CellType, p: nat): (r: Handle)
    requires ct.Admissible() && !ct.shape.Unbounded?
    requires p > 0 && p % ct.align == 0
    ensures Valid(ct, r) && AsBool(r) && Data(r) == p
    ensures Size(ct, r) == (if ct.shape.Single? then ct.size else ct.shape.n * ct.size)
  {
    Handle(p, 0)
  }

  /** The constructor of `T[]` from a `not_null` pointer and a length. */
  function FromPointerAndLength(ct: CellType, p: nat, length: nat): (r: Handle)
    requires ct.Admissible() && ct.shape.Unbounded?
    requires p > 0 && p % ct.align == 0
    ensures Valid(ct, r) && AsBool(r) && Data(r) == p
    ensures Length(ct, r) == length && Size(ct, r) == length * ct.size
  {
    Handle(p, length)
  }

  /**
   Equality: `T` and `T[N]` compare addresses only, `T[]` compares address
   and length. In every shape that is exactly "same address and same
   length", since the other two shapes fix the length in the type.
   */
  function Equal(ct: CellType, a: Handle, b: Handle): (r: bool)
    requires Valid(ct, a) && Valid(ct, b)
    ensures r <==> Data(a) == Data(b) && Length(ct, a) == Length(ct, b)
  {
    if ct.shape.Unbounded? then a.data == b.data && a.stored == b.stored
    else a.data == b.data
  }

  /** `operator!=`: the negation of `==`. */
  function NotEqual(ct: CellType, a: Handle, b: Handle): (r: bool)
    requires Valid(ct, a) && Valid(ct, b)
    ensures r <==> Data(a) != Data(b) || Length(ct, a) != Length(ct, b)
  {
    !Equal(ct, a, b)
  }

  /** Handle equality is exactly identity of the stored state. */
  lemma EqualIsIdentity(ct: CellType, a: Handle, b: Handle)
    requires Valid(ct, a) && Valid(ct, b)
    ensures Equal(ct, a, b) <==> a == b
  {
  }

  /**
   Move construction: the new handle takes the address (and the length for
   `T[]`); the source's address is nulled and its length left as it was.
   The pair is (new handle, moved-from source).
   */
  function Move(ct: CellType, source: Handle): (r: (Handle, Handle))
    requires Valid(ct, source)
    ensures Valid(ct, r.0) && Valid(ct, r.1)
    ensures Equal(ct, r.0, source) && Size(ct, r.0) == Size(ct, source)
    ensures !AsBool(r.1) && Length(ct, r.1) == Length(ct, source)
  {
    (source, source.(data := 0))
  }

  /**
   Move assignment: the same transfer; the target's previous address is
   simply overwritten, since a handle owns nothing it must release.
   */
  function MoveAssign(ct: CellType, target: Handle, source: Handle): (r: (Handle, Handle))
    requires Valid(ct, target) && Valid(ct, source)
    ensures r == Move(ct, source)
  {
    (source, source.(data := 0))
  }

  /**
   A moved-from `T[]` handle is null but still reports its old length, so it
   equals a default handle only if that length was 0; in the other shapes
   every moved-from handle equals the default one.
   */
  lemma MovedFromVersusDefault(ct: CellType, h: Handle)
    requires Valid(ct, h)
    ensures Equal(ct, Move(ct, h).1, Default(ct)) <==> (!ct.shape.Unbounded? || Length(ct, h) == 0)
  {
  }
}

/**
 The members only `active_cell` has: element access, iteration and
 dereference. Addresses are byte addresses, so element `i` sits at
 `data + i * sizeof(T)`.
 */
module ActiveCells {
  import opened Cells
  import Lifetime
  import BitOps

  /** The result of `at(idx)`: the element's address, or `std::out_of_range`. */
  datatype Access = Element(addr: nat) | OutOfRange

  /**
   The default constructor of `active_cell`: a null handle. Unlike `cell<T[]>`
   it leaves `m_length` of `active_cell<T[]>` default-initialised, so the
   length is whatever the storage held, passed in as `indeterminate`.
   */
  function Default(ct: CellType, indeterminate: nat): (r: Handle)
    requires ct.Admissible()
    ensures Valid(ct, r) && !AsBool(r) && Data(r) == 0
    ensures ct.shape.Unbounded? ==> Length(ct, r) == indeterminate
    ensures ct.shape.Bounded? ==> Length(ct, r) == ct.shape.n
    ensures Equal(ct, r, Cells.Default(ct)) <==> !ct.shape.Unbounded? || indeterminate == 0
  {
    if ct.shape.Unbounded? then Handle(0, indeterminate) else Handle(0, 0)
  }

  /**
   Two default-constructed `active_cell<T[]>` objects compare equal only when
   their indeterminate lengths happen to agree; in the other shapes they
   always do.
   */
  lemma DefaultsMayDiffer(ct: CellType, g1: nat, g2: nat)
    requires ct.Admissible()
    ensures Equal(ct, Default(ct, g1), Default(ct, g2)) <==> !ct.shape.Unbounded? || g1 == g2
  {
  }

  /**
   Move construction and move assignment of `active_cell`: the target takes
   the address and, for `T[]`, the length; the source is nulled and keeps its
   length. The target's previous objects are not destroyed. The pair is
   (target, moved-from source), the same transfer as for `cell`.
   */
  function Move(ct: CellType, source: Handle): (r: (Handle, Handle))
    requires Valid(ct, source)
    ensures r == Cells.Move(ct, source)
    ensures Equal(ct, r.0, source) && End(ct, r.0) == End(ct, source)
    ensures !AsBool(r.1) && Length(ct, r.1) == Length(ct, source)
  {
    (source, Handle(0, source.stored))
  }

  /** `begin()`: the data pointer. */
  function Begin(ct: CellType, h: Handle): nat
  {
    h.data
  }

  /** `end()`: `data + 1`, `data + m_length` or `data + N` elements. */
  function End(ct: CellType, h: Handle): nat
  {
    h.data + Length(ct, h) * ct.size
  }

  /** The iterator range spans exactly `size()` bytes, that is `length()` elements. */
  lemma EndMinusBegin(ct: CellType, h: Handle)
    requires Valid(ct, h)
    ensures End(ct, h) - Begin(ct, h) == Size(ct, h)
    ensures (End(ct, h) - Begin(ct, h)) / ct.size == Length(ct, h)
    ensures Begin(ct, h) == End(ct, h) <==> Length(ct, h) == 0
  {
    BitOps.DivModUnique(Length(ct, h) * ct.size, ct.size, Length(ct, h), 0);
    BitOps.Injective(Length(ct, h), 0, ct.size);
  }

  /** `operator->` and `operator*` on `active_cell<T>`: the asserted non-null address. */
  function Arrow(ct: CellType, h: Handle): (r: nat)
    requires Valid(ct, h) && ct.shape.Single?
    requires AsBool(h)
    ensures r > 0 && r == Begin(ct, h) && End(ct, h) == r + ct.size
  {
    h.data
  }

  /**
   `operator[](idx)` on `T[]` and `T[N]`: asserts `0 <= idx < length()` and a
   non-null address; the result is element `idx`.
   */
  function Index(ct: CellType, h: Handle, idx: int): (r: nat)
    requires Valid(ct, h) && !ct.shape.Single?
    requires 0 <= idx < Length(ct, h) && AsBool(h)
    ensures r == Lifetime.ElementAt(Data(h), ct.size, idx)
    ensures Begin(ct, h) <= r && r + ct.size <= End(ct, h)
  {
    BitOps.StrictlyBelow(idx, Length(ct, h), ct.size);
    h.data + idx * ct.size
  }

  /**
   `at(idx)`: asserts a non-null address, then throws `std::out_of_range`
   exactly when `idx < 0 || idx >= length()`; otherwise element `idx`.
   */
  function At(ct: CellType, h: Handle, idx: int): (r: Access)
    requires Valid(ct, h) && !ct.shape.Single?
    requires AsBool(h)
    ensures r.OutOfRange? <==> idx < 0 || idx >= Length(ct, h)
    ensures r.Element? ==> 0 <= idx < Length(ct, h) && r.addr == Index(ct, h, idx)
  {
    if idx < 0 || idx >= Length(ct, h) then OutOfRange
    else Element(h.data + idx * ct.size)
  }

  /** Distinct indices designate distinct, non-overlapping elements. */
  lemma IndexDisjoint(ct: CellType, h: Handle, i: int, j: int)
    requires Valid(ct, h) && !ct.shape.Single? && AsBool(h)
    requires 0 <= i < j < Length(ct, h)
    ensures Index(ct, h, i) + ct.size <= Index(ct, h, j)
  {
    BitOps.StrictlyBelow(i, j, ct.size);
  }

  /** The elements `operator[]` reaches are exactly those the iterators walk. */
  lemma IndexEnumeratesElements(ct: CellType, h: Handle)
    requires Valid(ct, h) && !ct.shape.Single? && AsBool(h)
    ensures forall i :: 0 <= i < Length(ct, h) ==>
      Lifetime.Elements(Begin(ct, h), ct.size, Length(ct, h))[i] == Index(ct, h, i)
  {
  }
}
