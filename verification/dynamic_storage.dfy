/**
 `dynamic_storage<T, N, Sentinel>` (include/msl/utilities/dynamic_storage.hpp):
 an integral value known either at compile time or at run time. When `N`
 differs from `Sentinel` the value is the constant `N` and nothing is stored
 (the static variant); when `N == Sentinel` the value is stored (the dynamic
 variant). The sentinel defaults to the largest value of `T`.
 */
module DynamicStorage {
  import opened BitOps

  /** An integral type `T`, by width and signedness. */
  datatype IntType = IntType(bits: nat, signed: bool)
  {
    predicate Valid()
    {
      bits > 0
    }

    /** `std::numeric_limits<T>::min()`. */
    function Min(): int
      requires Valid()
    {
      if signed then 0 - Pow2(bits - 1) as int else 0
    }

    /** `std::numeric_limits<T>::max()`. */
    function Max(): int
      requires Valid()
    {
      if signed then Pow2(bits - 1) - 1 else Pow2(bits) - 1
    }

    predicate Contains(v: int)
      requires Valid()
    {
      Min() <= v <= Max()
    }
  }

  /** `std::size_t`, taken as 64 bits wide. */
  const SizeT: IntType := IntType(64, false)

  /** The template arguments of one `dynamic_storage` specialisation. */
  datatype Params = Params(t: IntType, n: int, sentinel: int)
  {
    predicate Valid()
    {
      t.Valid() && t.Contains(n) && t.Contains(sentinel)
    }
  }

  /** `dynamic_storage_sentinel<T>`: the largest value of `T`. */
  function DefaultSentinel(t: IntType): (s: int)
    requires t.Valid()
    ensures t.Contains(s) && forall v :: t.Contains(v) ==> v <= s
  {
    t.Max()
  }

  /** The parameters `<T, N>` with the default sentinel. */
  function WithDefaultSentinel(t: IntType, n: int): (p: Params)
    requires t.Valid() && t.Contains(n)
    ensures p.Valid() && p.n == n
    ensures IsStaticValue(p) <==> n != t.Max()
  {
    Params(t, n, DefaultSentinel(t))
  }

  /** `is_static_value`: which of the two class templates is selected. */
  predicate IsStaticValue(p: Params)
  {
    p.n != p.sentinel
  }

  /** `sentinel`: the static member is `Sentinel`, or `N` in the dynamic variant. */
  function Sentinel(p: Params): (s: int)
    ensures s == p.sentinel
    ensures !IsStaticValue(p) ==> s == p.n
  {
    if IsStaticValue(p) then p.sentinel else p.n
  }

  /** An object: the static variant has no member, the dynamic one stores `m_value`. */
  datatype Storage = Static | Dynamic(value: int)

  /** The object matches the variant its parameters select. */
  predicate Valid(p: Params, s: Storage)
  {
    p.Valid() && (IsStaticValue(p) <==> s.Static?)
    && (s.Dynamic? ==> p.t.Contains(s.value))
  }

  /**
   `dynamic_storage(n)`. The static variant asserts `n == N` and stores
   nothing; the dynamic variant stores `n`.
   */
  function Construct(p: Params, n: int): (s: Storage)
    requires p.Valid() && p.t.Contains(n)
    requires IsStaticValue(p) ==> n == p.n
    ensures Valid(p, s) && Value(p, s) == n
  {
    if IsStaticValue(p) then Static else Dynamic(n)
  }

  /** The defaulted constructor, which only the static variant has. */
  function DefaultConstruct(p: Params): (s: Storage)
    requires p.Valid() && IsStaticValue(p)
    ensures Valid(p, s) && Value(p, s) == p.n
  {
    Static
  }

  /** `value()`: `N` in the static variant, the stored value in the dynamic one. */
  function Value(p: Params, s: Storage): (v: int)
    requires Valid(p, s)
    ensures p.t.Contains(v)
    ensures IsStaticValue(p) ==> v == p.n
  {
    match s
    case Static => p.n
    case Dynamic(v) => v
  }

  /** The defaulted `operator==`: memberwise, so every static object equals every other. */
  predicate Equal(a: Storage, b: Storage)
  {
    a == b
  }

  /** The defaulted `operator<=>`: no members compare equivalent; else the stored values. */
  function Compare(a: Storage, b: Storage): (r: int)
    requires a.Static? == b.Static?
    ensures r == 0 <==> Equal(a, b)
    ensures a.Dynamic? ==> (r < 0 <==> a.value < b.value)
  {
    match (a, b)
    case (Static, _) => 0
    case (Dynamic(x), Dynamic(y)) => if x < y then -1 else if x == y then 0 else 1
  }

  /** Two objects of one specialisation are equal exactly when their values are. */
  lemma EqualIffSameValue(p: Params, a: Storage, b: Storage)
    requires Valid(p, a) && Valid(p, b)
    ensures Equal(a, b) <==> Value(p, a) == Value(p, b)
    ensures Compare(a, b) < 0 <==> Value(p, a) < Value(p, b)
  {
  }

  /** Constructing from a value and reading it back is the identity. */
  lemma ConstructValueRoundTrip(p: Params, s: Storage)
    requires Valid(p, s)
    ensures Construct(p, Value(p, s)) == s
  {
  }

  /** `dynamic_size<N>` is dynamic exactly when `N` is the largest `size_t`. */
  lemma DynamicSizeSentinel(n: int)
    requires SizeT.Contains(n)
    ensures !IsStaticValue(WithDefaultSentinel(SizeT, n)) <==> n == 0xFFFF_FFFF_FFFF_FFFF
  {
    assert SizeT.Max() == 0xFFFF_FFFF_FFFF_FFFF by {
      Pow2Value64();
    }
  }

  lemma Pow2Value64()
    ensures Pow2(64) == 0x1_0000_0000_0000_0000
  {
    assert Pow2(1) == 2;
    Pow2Add(1, 1);
    Pow2Add(2, 2);
    Pow2Add(4, 4);
    Pow2Add(8, 8);
    Pow2Add(16, 16);
    Pow2Add(32, 32);
  }

  lemma {:induction false} Pow2Add(a: nat, b: nat)
    ensures Pow2(a + b) == Pow2(a) * Pow2(b)
    decreases a
  {
    if a > 0 {
      Pow2Add(a - 1, b);
      assert Pow2(a + b) == 2 * Pow2(a - 1 + b);
    }
  }
}
