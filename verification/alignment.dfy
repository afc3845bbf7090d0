/**
 The `alignment` quantity (include/msl/quantities/alignment.hpp): a byte
 boundary that is always a power of two. The checked factory reports an
 invalid boundary through the alignment contract registry.
 */
module Alignments {
  import opened BitOps
  import Contracts

  /**
   An alignment boundary in bytes. Only the factories below build one, and
   each keeps `Valid()`.
   */
  datatype Alignment = Alignment(value: nat)
  {
    predicate Valid() { IsValid(value) }
  }

  /** `alignment::is_valid`: `std::has_single_bit`, i.e. exactly one bit set. */
  predicate IsValid(n: nat)
  {
    PopCount(n) == 1
  }

  /** A valid boundary is a power of two, and so at least one. */
  lemma ValidIsPowerOfTwo(n: nat)
    ensures IsValid(n) <==> IsPowerOfTwo(n)
    ensures IsValid(n) ==> n >= 1 && Pow2(Log2(n)) == n
  {
    SingleBitIffPowerOfTwo(n);
  }

  /** `alignment::min_default()`: `alignof(char)`, which is 1. */
  function MinDefault(): (a: Alignment)
    ensures a.Valid() && a.value == 1
    ensures forall n :: IsValid(n) ==> a.value <= n
  {
    assert PopCount(1) == 1;
    forall n | IsValid(n) ensures 1 <= n {
      ValidIsPowerOfTwo(n);
    }
    Alignment(1)
  }

  /**
   `alignment::max_default()`: `alignof(std::max_align_t)`, a property of the
   platform and therefore a parameter here.
   */
  function MaxDefault(alignofMaxAlignT: nat): (a: Alignment)
    requires IsValid(alignofMaxAlignT)
    ensures a.Valid() && a.value == alignofMaxAlignT
  {
    Alignment(alignofMaxAlignT)
  }

  /** `alignment::of<T>()`: `alignof(T)`, which C++ guarantees is a power of two. */
  function Of(alignofT: nat): (a: Alignment)
    requires IsValid(alignofT)
    ensures a.Valid() && a.value == alignofT
  {
    Alignment(alignofT)
  }

  /** The default constructor delegates to `min_default()`. */
  function Default(): (a: Alignment)
    ensures a == MinDefault()
    ensures a.Valid() && a.value == 1
  {
    MinDefault()
  }

  /**
   `alignment::at_boundary(element_type n, where)`: a valid `n` becomes an
   alignment; an invalid one is handed to `alignment_contract::violate`, with
   the caller's location, and that never returns normally.
   */
  function AtBoundary(reg: Contracts.Registry, n: nat, where: Contracts.Location)
    : (r: Contracts.Checked<Alignment>)
    ensures r.Returned? <==> IsValid(n)
    ensures r.Returned? ==> r.value.value == n && r.value.Valid()
    ensures r.Unwound? ==>
      r.how == Contracts.Violate(reg, Contracts.AlignmentViolation(n, where))
  {
    if !IsValid(n) then
      Contracts.Unwound(Contracts.Violate(reg, Contracts.AlignmentViolation(n, where)))
    else
      Contracts.Returned(Alignment(n))
  }

  /**
   The location `source_location::current()` takes as a default argument at
   the forwarding call inside `at_boundary(element_type::rep, where)`,
   identified by its line in include/msl/quantities/alignment.hpp.
   */
  const RepForwardSite: Contracts.Location := 405

  /**
   The location the default argument takes at the forwarding call inside
   `assume_at_boundary(element_type::rep)`.
   */
  const AssumeRepForwardSite: Contracts.Location := 433

  /**
   `alignment::at_boundary(element_type::rep n, where)`: forwards to the
   `element_type` overload WITHOUT its `where`, so a violation reports the
   forwarding call's own location and the caller's is lost.
   */
  function AtBoundaryRep(reg: Contracts.Registry, n: nat, where: Contracts.Location)
    : (r: Contracts.Checked<Alignment>)
    ensures r.Returned? <==> IsValid(n)
    ensures r.Returned? ==> r.value.value == n
    ensures r.Unwound? ==>
      r.how == Contracts.Violate(reg, Contracts.AlignmentViolation(n, RepForwardSite))
  {
    AtBoundary(reg, n, RepForwardSite)
  }

  /** The rep overload gives the same outcome whatever location its caller passes. */
  lemma AtBoundaryRepDropsLocation(reg: Contracts.Registry, n: nat, w1: Contracts.Location, w2: Contracts.Location)
    ensures AtBoundaryRep(reg, n, w1) == AtBoundaryRep(reg, n, w2)
    ensures Contracts.Get(reg) == Contracts.DefaultHandler && !IsValid(n) ==>
      AtBoundaryRep(reg, n, w1) == Contracts.Unwound(Contracts.Raised(Contracts.AlignmentViolation(n, RepForwardSite)))
  {
  }

  /**
   `alignment::at_boundary<N>()`: the compile-time form. The `static_assert`
   becomes a precondition.
   */
  function StaticAtBoundary(n: nat): (a: Alignment)
    requires IsValid(n)
    ensures a.Valid() && a.value == n
  {
    Alignment(n)
  }

  /**
   `alignment::assume_at_boundary(element_type)`: the caller promises the
   boundary is valid (`MSL_ASSERT`).
   */
  function AssumeAtBoundary(n: nat): (a: Alignment)
    requires IsValid(n)
    ensures a.Valid() && a.value == n
  {
    Alignment(n)
  }

  /**
   `alignment::assume_at_boundary(element_type::rep)`: despite its name this
   overload forwards to the checked `at_boundary`, from inside a `noexcept`
   function. A handler that throws therefore ends the program with
   `std::terminate`; nothing the handler raises reaches the caller.
   */
  function AssumeAtBoundaryRep(reg: Contracts.Registry, n: nat)
    : (r: Contracts.Checked<Alignment>)
    ensures r.Returned? <==> IsValid(n)
    ensures IsValid(n) ==> r == Contracts.Returned(AssumeAtBoundary(n))
    ensures r.Unwound? ==> r.how == Contracts.ThroughNoexcept(
      Contracts.Violate(reg, Contracts.AlignmentViolation(n, AssumeRepForwardSite)))
    ensures r.Unwound? ==> !r.how.Raised? && !r.how.CustomRaised?
    ensures !IsValid(n) && Contracts.Get(reg) == Contracts.DefaultHandler ==>
      r == Contracts.Unwound(Contracts.Terminated)
  {
    match AtBoundary(reg, n, AssumeRepForwardSite)
    case Returned(a) => Contracts.Returned(a)
    case Unwound(u) => Contracts.Unwound(Contracts.ThroughNoexcept(u))
  }

  /**
   The defaulted `<=>`: alignments order by boundary value. The result is
   negative, zero or positive.
   */
  function Compare(a: Alignment, b: Alignment): (c: int)
    ensures c == 0 <==> a == b
    ensures c < 0 <==> a.value < b.value
    ensures c > 0 <==> a.value > b.value
  {
    if a.value < b.value then -1 else if a.value == b.value then 0 else 1
  }

  /**
   Before any handler is installed, an invalid boundary calls a null handler;
   once the default is installed the same call throws a violation carrying
   the request.
   */
  lemma InvalidBoundaryOutcomes(n: nat, where: Contracts.Location)
    requires !IsValid(n)
    ensures AtBoundary(Contracts.AlignmentRegistry(), n, where)
         == Contracts.Unwound(Contracts.NullCall)
    ensures AtBoundary(Contracts.Set(Contracts.AlignmentRegistry(), Contracts.NullHandler).0, n, where)
         == Contracts.Unwound(Contracts.Raised(Contracts.AlignmentViolation(n, where)))
  {
  }
}
