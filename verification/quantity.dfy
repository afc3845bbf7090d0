/**
 `quantity<T, Rep>` (include/msl/quantities/quantity.hpp): a count of `T`
 objects, where `T` is only a tag restricting what the count may be mixed
 with.

 A tag is modelled by its place in a single-inheritance hierarchy: the path
 of class identifiers from a root class down to it. `u` is derived from `t`
 (or is `t`) when `t`'s path is a prefix of `u`'s.

 Two quantities may be converted, added, subtracted or taken modulo one
 another when their tags are related in EITHER direction: the constraint
 `quantity_operable` accepts `derived_from<T,U> || derived_from<U,T>`, even
 though the class documentation says only a derived count may flow into a
 base one. The model follows the constraint.

 `Rep` is an unbounded integer, so overflow is not modelled; `/` and `%`
 truncate toward zero as C++ integers do.
 */
module Quantities {
  import opened CppIntegers

  /** A class: the identifiers from the root of its hierarchy down to it. */
  datatype Tag = Tag(path: seq<nat>)

  /** The only member, `m_value`; the tag is part of the type. */
  datatype Quantity = Quantity(tag: Tag, count: int)

  datatype Ordering = Less | Equivalent | Greater

  //----------------------------------------------------------------------------
  // Tags
  //----------------------------------------------------------------------------

  /** `std::derived_from<U, T>` for class tags: `U` is `T` or inherits from it. */
  predicate DerivedFrom(u: Tag, t: Tag)
  {
    t.path <= u.path
  }

  /** `detail::quantity_related_to<T, U>`. */
  predicate Related(t: Tag, u: Tag)
  {
    DerivedFrom(t, u) || DerivedFrom(u, t)
  }

  /**
   `detail::quantity_base_t<T, U>`: `T` when it is a base of `U`, else `U`.
   For related tags this is the more basic of the two.
   */
  function BaseTag(t: Tag, u: Tag): (b: Tag)
    ensures b == t || b == u
    ensures Related(t, u) ==> DerivedFrom(t, b) && DerivedFrom(u, b)
  {
    if DerivedFrom(u, t) then t else u
  }

  /** Relatedness does not depend on the order of the tags, nor does the base tag. */
  lemma RelatedSymmetric(t: Tag, u: Tag)
    ensures Related(t, u) <==> Related(u, t)
    ensures Related(t, u) ==> BaseTag(t, u) == BaseTag(u, t)
  {
    if DerivedFrom(u, t) && DerivedFrom(t, u) {
      assert t.path == u.path;
    }
  }

  /** Two classes whose paths fork are siblings: no operation mixes them. */
  lemma SiblingsUnrelated(parent: seq<nat>, a: nat, b: nat)
    requires a != b
    ensures !Related(Tag(parent + [a]), Tag(parent + [b]))
  {
    assert (parent + [a])[|parent|] == a;
    assert (parent + [b])[|parent|] == b;
  }

  //----------------------------------------------------------------------------
  // Construction
  //----------------------------------------------------------------------------

  /** `quantity{count}`: the count is stored as given. */
  function New(t: Tag, count: int): (q: Quantity)
    ensures q.tag == t && Count(q) == count
  {
    Quantity(t, count)
  }

  /**
   A value-initialised quantity (`quantity<T>{}`): the count is zero. The
   defaulted constructor leaves the count uninitialised when no initialiser
   is given; that case is not modelled.
   */
  function Default(t: Tag): (q: Quantity)
    ensures q.tag == t && EqualsCount(q, 0)
  {
    Quantity(t, 0)
  }

  /** `count()`. */
  function Count(q: Quantity): int
  {
    q.count
  }

  /**
   `zero()`, as intended: a zero count. The code asks `numeric_limits<T>`
   of the tag class for a `zero()` it does not have, so it cannot be
   instantiated; `min()` and `max()` likewise consult the tag instead of
   `Rep` and are left out with the other fixed-width bounds.
   */
  function Zero(t: Tag): (q: Quantity)
    ensures q.tag == t && Count(q) == 0
    ensures forall c :: Equal(Add(Quantity(t, c), q), Quantity(t, c))
  {
    Quantity(t, 0)
  }

  /**
   The converting constructor and converting assignment: the count of a
   quantity of a related tag, taken unchanged.
   */
  function Convert(q: Quantity, to: Tag): (r: Quantity)
    requires Related(to, q.tag)
    ensures r.tag == to && Equal(r, q)
  {
    Quantity(to, q.count)
  }

  /** Converting to a related tag and back gives the quantity back. */
  lemma ConvertRoundTrip(q: Quantity, to: Tag)
    requires Related(to, q.tag)
    ensures Related(q.tag, to)
    ensures Convert(Convert(q, to), q.tag) == q
  {
  }

  //----------------------------------------------------------------------------
  // Comparison
  //----------------------------------------------------------------------------

  /** `operator==` against a quantity of any tag: the counts are equal. */
  predicate Equal(a: Quantity, b: Quantity)
  {
    a.count == b.count
  }

  /** `operator==` against a raw integer. */
  predicate EqualsCount(a: Quantity, n: int)
  {
    a.count == n
  }

  /** `operator<=>` against a quantity of any tag: the counts, compared. */
  function Compare(a: Quantity, b: Quantity): (r: Ordering)
    ensures r == Equivalent <==> Equal(a, b)
    ensures r == Less <==> Count(a) < Count(b)
    ensures r == Greater <==> Count(b) < Count(a)
  {
    CompareCount(a, b.count)
  }

  /** `operator<=>` against a raw integer. */
  function CompareCount(a: Quantity, n: int): (r: Ordering)
    ensures r == Equivalent <==> EqualsCount(a, n)
    ensures r == Less <==> Count(a) < n
    ensures r == Greater <==> n < Count(a)
  {
    if a.count < n then Less else if a.count == n then Equivalent else Greater
  }

  /** Comparing the other way round reverses the ordering. */
  lemma CompareAntisymmetric(a: Quantity, b: Quantity)
    ensures Compare(a, b) == Less <==> Compare(b, a) == Greater
    ensures Compare(a, b) == Equivalent <==> Compare(b, a) == Equivalent
  {
  }

  /** Comparing with a quantity of any tag is comparing with its count. */
  lemma CompareAgreesWithCount(a: Quantity, b: Quantity)
    ensures Compare(a, b) == CompareCount(a, Count(b))
    ensures Equal(a, b) <==> EqualsCount(a, Count(b))
  {
  }

  //----------------------------------------------------------------------------
  // Arithmetic
  //----------------------------------------------------------------------------

  /** `lhs + rhs` of related quantities: the counts added, under the base tag. */
  function Add(a: Quantity, b: Quantity): (r: Quantity)
    ensures r.tag == BaseTag(a.tag, b.tag)
    ensures Count(r) - Count(b) == Count(a)
  {
    Quantity(BaseTag(a.tag, b.tag), a.count + b.count)
  }

  /** `lhs - rhs` of related quantities: the counts subtracted, under the base tag. */
  function Sub(a: Quantity, b: Quantity): (r: Quantity)
    ensures r.tag == BaseTag(a.tag, b.tag)
    ensures Count(r) + Count(b) == Count(a)
  {
    Quantity(BaseTag(a.tag, b.tag), a.count - b.count)
  }

  /** Subtracting what was added gives the count back, under the base tag. */
  lemma AddThenSub(a: Quantity, b: Quantity)
    requires Related(a.tag, b.tag)
    ensures Sub(Add(a, b), b) == Convert(a, BaseTag(a.tag, b.tag))
  {
    RelatedSymmetric(a.tag, b.tag);
    if DerivedFrom(b.tag, a.tag) && DerivedFrom(a.tag, b.tag) {
      assert a.tag.path == b.tag.path;
    }
  }

  /** Adding related quantities in either order gives the same quantity. */
  lemma AddCommutative(a: Quantity, b: Quantity)
    requires Related(a.tag, b.tag)
    ensures Add(a, b) == Add(b, a)
  {
    RelatedSymmetric(a.tag, b.tag);
  }

  /** Unary `+`: the quantity itself. */
  function Plus(q: Quantity): (r: Quantity)
    ensures r == q
  {
    q
  }

  /** Unary `-`: the count negated, same tag. */
  function Negate(q: Quantity): (r: Quantity)
    ensures r.tag == q.tag && Count(r) + Count(q) == 0
  {
    Quantity(q.tag, -q.count)
  }

  /** Prefix `++` and `--`. */
  function Increment(q: Quantity): (r: Quantity)
    ensures r.tag == q.tag && Compare(r, q) == Greater && Count(r) - 1 == Count(q)
  {
    Quantity(q.tag, q.count + 1)
  }

  function Decrement(q: Quantity): (r: Quantity)
    ensures r.tag == q.tag && Compare(r, q) == Less && Count(r) + 1 == Count(q)
  {
    Quantity(q.tag, q.count - 1)
  }

  lemma IncrementDecrementInverse(q: Quantity)
    ensures Decrement(Increment(q)) == q && Increment(Decrement(q)) == q
  {
  }

  /**
   Postfix `++` and `--`: the pair is (the quantity afterwards, the value of
   the expression), the latter being the old quantity.
   */
  function PostIncrement(q: Quantity): (r: (Quantity, Quantity))
    ensures r.1 == q && r.0.tag == q.tag && Count(r.0) == Count(r.1) + 1
  {
    (Increment(q), q)
  }

  function PostDecrement(q: Quantity): (r: (Quantity, Quantity))
    ensures r.1 == q && r.0.tag == q.tag && Count(r.0) == Count(r.1) - 1
  {
    (Decrement(q), q)
  }

  /** `+=` with a related quantity: the count grows by the other's, the tag stays. */
  function AddAssign(q: Quantity, rhs: Quantity): (r: Quantity)
    requires Related(q.tag, rhs.tag)
    ensures r.tag == q.tag && Equal(r, Add(q, rhs))
  {
    Quantity(q.tag, q.count + rhs.count)
  }

  /** `-=` with a related quantity. */
  function SubAssign(q: Quantity, rhs: Quantity): (r: Quantity)
    requires Related(q.tag, rhs.tag)
    ensures r.tag == q.tag && Equal(r, Sub(q, rhs))
  {
    Quantity(q.tag, q.count - rhs.count)
  }

  /** `+=` and `-=` with a raw count. */
  function AddAssignCount(q: Quantity, n: int): (r: Quantity)
    ensures r.tag == q.tag && Count(r) - n == Count(q)
  {
    Quantity(q.tag, q.count + n)
  }

  function SubAssignCount(q: Quantity, n: int): (r: Quantity)
    ensures r.tag == q.tag && Count(r) + n == Count(q)
  {
    Quantity(q.tag, q.count - n)
  }

  /** When the right-hand tag derives from the left one, `q += rhs` is `q + rhs`. */
  lemma AddAssignIsAdd(q: Quantity, rhs: Quantity)
    requires DerivedFrom(rhs.tag, q.tag)
    ensures AddAssign(q, rhs) == Add(q, rhs)
    ensures SubAssign(q, rhs) == Sub(q, rhs)
  {
  }

  /** `q * k`, `k * q` and `*=`: the count scaled, same tag. */
  function ScalarMul(q: Quantity, k: int): (r: Quantity)
    ensures r.tag == q.tag
    ensures k != 0 ==> ScalarDiv(r, k) == q
  {
    var r := Quantity(q.tag, q.count * k);
    if k == 0 then r
    else
      TruncDivUnique(q.count * k, k, q.count, 0);
      r
  }

  /** `q / k` and `/=`: the count divided, truncating toward zero. */
  function ScalarDiv(q: Quantity, k: int): (r: Quantity)
    requires k != 0
    ensures r.tag == q.tag
    ensures Abs(Count(r)) == Quotient(Abs(Count(q)), Abs(k))
  {
    Quantity(q.tag, TruncDiv(q.count, k))
  }

  /** `q % k`, and `%=` with a raw count as intended (`m_value %= rhs`). */
  function ScalarMod(q: Quantity, k: int): (r: Quantity)
    requires k != 0
    ensures r.tag == q.tag
    ensures Abs(Count(r)) < Abs(k)
    ensures Count(r) != 0 ==> (Count(r) < 0 <==> Count(q) < 0)
  {
    Quantity(q.tag, TruncMod(q.count, k))
  }

  /** `q / k * k + q % k` recomposes `q`. */
  lemma ScalarDivMod(q: Quantity, k: int)
    requires k != 0
    ensures Add(ScalarMul(ScalarDiv(q, k), k), ScalarMod(q, k)) == q
  {
  }

  /** `lhs % rhs` of related quantities: the remainder of the counts, under the base tag. */
  function Mod(a: Quantity, b: Quantity): (r: Quantity)
    requires Count(b) != 0
    ensures r.tag == BaseTag(a.tag, b.tag)
    ensures Abs(Count(r)) < Abs(Count(b))
    ensures Count(r) != 0 ==> (Count(r) < 0 <==> Count(a) < 0)
  {
    Quantity(BaseTag(a.tag, b.tag), TruncMod(a.count, b.count))
  }

  /**
   `%=` with a related quantity, as intended (`m_value %= rhs.count()`). The
   code has the bodies of the two `%=` overloads exchanged, so neither can
   be instantiated.
   */
  function ModAssign(q: Quantity, rhs: Quantity): (r: Quantity)
    requires Related(q.tag, rhs.tag) && Count(rhs) != 0
    ensures r.tag == q.tag
    ensures Equal(r, Mod(q, rhs)) && Equal(r, ScalarMod(q, Count(rhs)))
  {
    Quantity(q.tag, TruncMod(q.count, rhs.count))
  }

  //----------------------------------------------------------------------------
  // Pointers
  //----------------------------------------------------------------------------

  /**
   `p + q` and `q + p` for a `T*` and a `quantity<T>`: the pointer advanced
   by `count()` elements, i.e. `count() * sizeof(T)` bytes. Addresses are
   unbounded integers.
   */
  function PointerAdd(p: int, q: Quantity, size: nat): (r: int)
    requires size > 0
    ensures r - p == Count(q) * size
  {
    p + q.count * size
  }

  /** `p - q`: the pointer moved back by `count()` elements. */
  function PointerSub(p: int, q: Quantity, size: nat): (r: int)
    requires size > 0
    ensures p - r == Count(q) * size
  {
    p - q.count * size
  }

  /** Moving forward then back by the same quantity restores the pointer. */
  lemma PointerRoundTrip(p: int, q: Quantity, size: nat)
    requires size > 0
    ensures PointerSub(PointerAdd(p, q, size), q, size) == p
  {
  }

  /** Advancing by a sum is advancing by each part in turn. */
  lemma PointerAddSum(p: int, a: Quantity, b: Quantity, size: nat)
    requires size > 0
    ensures PointerAdd(p, Add(a, b), size) == PointerAdd(PointerAdd(p, a, size), b, size)
  {
    assert (a.count + b.count) * size == a.count * size + b.count * size;
  }
}
