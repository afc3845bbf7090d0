/**
 `not_null<T>` for raw pointers (include/msl/pointers/not_null.hpp): a
 wrapper whose every factory guarantees the held address is not null.

 The wrapped pointer is an address; `0` is null. Pointer arithmetic moves
 by whole elements, so the element size is a parameter. `check_not_null`
 reports a null argument through the `not_null_contract` registry.
 */
module NotNulls {
  import Contracts

  /** A pointer known not to be null. Every factory below keeps `Valid()`. */
  datatype NotNull = NotNull(ptr: nat)
  {
    predicate Valid() { ptr != 0 }
  }

  /**
   `check_not_null(ptr, where)`: a null argument goes to
   `not_null_contract::violate`; anything else is wrapped.
   */
  function CheckNotNull(reg: Contracts.Registry, ptr: nat, where: Contracts.Location)
    : (r: Contracts.Checked<NotNull>)
    ensures r.Returned? <==> ptr != 0
    ensures r.Returned? ==> r.value.ptr == ptr && r.value.Valid()
    ensures r.Unwound? ==> r.how == Contracts.Violate(reg, Contracts.NotNullViolation(where))
  {
    if ptr == 0 then
      Contracts.Unwound(Contracts.Violate(reg, Contracts.NotNullViolation(where)))
    else
      Contracts.Returned(AssumeNotNull(ptr))
  }

  /** `assume_not_null(ptr)`: the caller promises `ptr` is not null. */
  function AssumeNotNull(ptr: nat): (r: NotNull)
    requires ptr != 0
    ensures r.Valid() && r.ptr == ptr
  {
    NotNull(ptr)
  }

  /** `get()` and `as_nullable()`: the held pointer, never null. */
  function Get(p: NotNull): (r: nat)
    requires p.Valid()
    ensures r != 0
    ensures AssumeNotNull(r) == p
  {
    p.ptr
  }

  /**
   `operator==(not_null, nullptr)` answers `false` without looking at the
   pointer; that is the same answer a comparison of the held pointer would give.
   */
  function EqualsNull(p: NotNull): (r: bool)
    requires p.Valid()
    ensures r <==> Get(p) == 0
  {
    false
  }

  /** `operator!=(not_null, nullptr)` answers `true` without looking. */
  function NotEqualsNull(p: NotNull): (r: bool)
    requires p.Valid()
    ensures r <==> Get(p) != 0
    ensures r == !EqualsNull(p)
  {
    true
  }

  /** `explicit operator bool`: always `true`, as for any non-null pointer. */
  function AsBool(p: NotNull): (r: bool)
    requires p.Valid()
    ensures r <==> Get(p) != 0
  {
    true
  }

  /** The six relational operators. */
  datatype Relation = Eq | Ne | Lt | Gt | Le | Ge

  /** A relational operator applied to two raw addresses. */
  predicate Holds(rel: Relation, x: nat, y: nat)
  {
    match rel
    case Eq => x == y
    case Ne => x != y
    case Lt => x < y
    case Gt => x > y
    case Le => x <= y
    case Ge => x >= y
  }

  /**
   Every comparison overload (`not_null` with `not_null`, with a raw pointer
   on either side) compares the held pointers. A raw operand is itself the
   address, so one function covers all three forms.
   */
  function Compare(rel: Relation, lhs: nat, rhs: nat): (r: bool)
    ensures rel == Eq ==> (r <==> lhs == rhs)
    ensures rel == Lt ==> (r <==> lhs < rhs)
    ensures rel == Ne ==> (r <==> lhs != rhs)
    ensures rel == Gt ==> (r <==> rhs < lhs)
    ensures rel == Le ==> (r <==> !(rhs < lhs))
    ensures rel == Ge ==> (r <==> !(lhs < rhs))
  {
    Holds(rel, lhs, rhs)
  }

  /**
   The dedicated `nullptr` overloads agree with the generic comparison of the
   held pointer against the null address.
   */
  lemma NullOverloadsAgree(p: NotNull)
    requires p.Valid()
    ensures EqualsNull(p) == Compare(Eq, Get(p), 0)
    ensures EqualsNull(p) == Compare(Eq, 0, Get(p))
    ensures NotEqualsNull(p) == Compare(Ne, Get(p), 0)
    ensures NotEqualsNull(p) == Compare(Ne, 0, Get(p))
  {
  }

  /**
   `p + n` and `n + p`: `assume_not_null(p.get() + n)`. The caller must stay
   inside the pointed-to array, so the result is not null.
   */
  function Add(p: NotNull, n: int, size: nat): (r: NotNull)
    requires p.Valid() && size > 0
    requires Get(p) + n * size > 0
    ensures r.Valid()
    ensures r.ptr as int == p.ptr as int + n * size
  {
    AssumeNotNull(Get(p) + n * size)
  }

  /** `p - n`: `assume_not_null(p.get() - n)`. */
  function Sub(p: NotNull, n: int, size: nat): (r: NotNull)
    requires p.Valid() && size > 0
    requires Get(p) - n * size > 0
    ensures r.Valid()
    ensures r.ptr as int == p.ptr as int - n * size
  {
    AssumeNotNull(Get(p) - n * size)
  }

  /**
   `lhs - rhs`: the element distance `lhs.get() - rhs.get()`. Both point into
   the same array, so the byte distance is a whole number of elements.
   */
  function Distance(lhs: NotNull, rhs: NotNull, size: nat): (r: int)
    requires lhs.Valid() && rhs.Valid() && size > 0
    requires (Get(lhs) - Get(rhs)) % size == 0
    ensures r * size == lhs.ptr as int - rhs.ptr as int
  {
    (Get(lhs) - Get(rhs)) / size
  }

  /** Adding the distance to the subtrahend gives back the minuend. */
  lemma AddDistance(lhs: NotNull, rhs: NotNull, size: nat)
    requires lhs.Valid() && rhs.Valid() && size > 0
    requires (Get(lhs) - Get(rhs)) % size == 0
    ensures Add(rhs, Distance(lhs, rhs, size), size) == lhs
  {
  }

  /** Subtracting undoes adding. */
  lemma SubAdd(p: NotNull, n: int, size: nat)
    requires p.Valid() && size > 0
    requires Get(p) + n * size > 0
    ensures Sub(Add(p, n, size), n, size) == p
    ensures (Get(Add(p, n, size)) - Get(p)) % size == 0
         && Distance(Add(p, n, size), p, size) == n
  {
    var q := Add(p, n, size);
    var d := Get(q) - Get(p);
    assert d == n * size;
    MulDiv(n, size);
    assert d / size == n;
  }

  /** Dividing a whole number of elements by the element size is exact. */
  lemma MulDiv(n: int, size: nat)
    requires size > 0
    ensures (n * size) / size == n && (n * size) % size == 0
  {
    var q, m := (n * size) / size, (n * size) % size;
    assert (n - q) * size == m;
    MulSign(n - q, size);
  }

  lemma MulSign(a: int, b: nat)
    requires b > 0
    ensures a >= 1 ==> a * b >= b
    ensures a <= -1 ==> a * b + b <= 0
  {
  }

  /** `++p`: moves one element forward. */
  function Increment(p: NotNull, size: nat): (r: NotNull)
    requires p.Valid() && size > 0
    ensures r.Valid() && r.ptr == p.ptr + size
  {
    Add(p, 1, size)
  }

  /** `--p`: moves one element back; the caller keeps it inside the array. */
  function Decrement(p: NotNull, size: nat): (r: NotNull)
    requires p.Valid() && size > 0 && p.ptr > size
    ensures r.Valid() && r.ptr + size == p.ptr
  {
    Sub(p, 1, size)
  }

  /**
   `p++` and `p--`: the pair is (value returned, value left in `p`). The
   returned copy is taken before the step.
   */
  function PostIncrement(p: NotNull, size: nat): (r: (NotNull, NotNull))
    requires p.Valid() && size > 0
    ensures r.0 == p && r.1 == Increment(p, size)
  {
    var copy := p;
    (copy, Increment(p, size))
  }

  function PostDecrement(p: NotNull, size: nat): (r: (NotNull, NotNull))
    requires p.Valid() && size > 0 && p.ptr > size
    ensures r.0 == p && r.1 == Decrement(p, size)
  {
    var copy := p;
    (copy, Decrement(p, size))
  }

  /** `+=` and `-=` step by `n` elements, exactly like `+` and `-`. */
  function AddAssign(p: NotNull, n: int, size: nat): (r: NotNull)
    requires p.Valid() && size > 0
    requires Get(p) + n * size > 0
    ensures r == Add(p, n, size)
  {
    NotNull(p.ptr + n * size)
  }

  function SubAssign(p: NotNull, n: int, size: nat): (r: NotNull)
    requires p.Valid() && size > 0
    requires Get(p) - n * size > 0
    ensures r == Sub(p, n, size)
  {
    NotNull(p.ptr - n * size)
  }

  /** Stepping forward then back, or back then forward, returns to `p`. */
  lemma StepInverse(p: NotNull, size: nat)
    requires p.Valid() && size > 0
    ensures Decrement(Increment(p, size), size) == p
    ensures p.ptr > size ==> Increment(Decrement(p, size), size) == p
  {
  }

  /**
   The converting constructor and converting assignment copy the held
   pointer (`m_pointer(other.as_nullable())`), so validity carries over.
   */
  function Convert(other: NotNull): (r: NotNull)
    requires other.Valid()
    ensures r.Valid()
    ensures Compare(Eq, Get(r), Get(other))
  {
    AssumeNotNull(Get(other))
  }

  /**
   With the default handler, `check_not_null(nullptr)` throws a violation
   carrying the call site; a non-null pointer passes through unchanged.
   */
  lemma CheckNotNullOutcomes(ptr: nat, where: Contracts.Location)
    ensures ptr == 0 ==>
      CheckNotNull(Contracts.NotNullRegistry(), ptr, where)
      == Contracts.Unwound(Contracts.Raised(Contracts.NotNullViolation(where)))
    ensures ptr != 0 ==>
      CheckNotNull(Contracts.NotNullRegistry(), ptr, where) == Contracts.Returned(AssumeNotNull(ptr))
  {
  }
}
