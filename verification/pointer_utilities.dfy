/**
 Address alignment queries and adjustments
 (include/msl/pointers/pointer_utilities.hpp).

 Each routine reads the address as a `uintptr_t`, builds the mask
 `boundary - 1` and combines it with `&` or `& ~`. The model keeps those
 masks and proves what they compute. Addresses are naturals; `0` is null.
 */
module PointerUtilities {
  import opened BitOps
  import opened Alignments
  import Contracts

  /** The width of `uintptr_t`; `std::countr_zero(0)` returns it. */
  const AddressBits: nat := 64

  /** The masks built from a valid boundary compute remainders. */
  lemma BoundaryMask(x: nat, a: Alignment)
    requires a.Valid()
    ensures a.value >= 1
    ensures And(x, a.value - 1) == x % a.value
    ensures AndNot(x, a.value - 1) == x - x % a.value
  {
    ValidIsPowerOfTwo(a.value);
    LowMask(x, Log2(a.value));
  }

  /** `is_aligned(p, align)`: `(address & (boundary - 1)) == 0`. */
  function IsAligned(address: nat, a: Alignment): (r: bool)
    requires a.Valid()
    ensures r <==> address % a.value == 0
  {
    BoundaryMask(address, a);
    And(address, a.value - 1) == 0
  }

  /** `align_high(p, align)`: `(address + boundary - 1) & ~(boundary - 1)`. */
  function AlignHigh(address: nat, a: Alignment): (r: nat)
    requires a.Valid()
    ensures r % a.value == 0
    ensures address <= r < address + a.value
    ensures address % a.value == 0 ==> r == address
  {
    BoundaryMask(address + a.value - 1, a);
    RoundDown(address + a.value - 1, a.value);
    AlignedPlus(address, a.value, a.value - 1);
    AndNot(address + a.value - 1, a.value - 1)
  }

  /**
   `offset_align_high(p, align, offset)`: the first address at or above `p`
   at which `offset` further bytes land on the boundary.
   */
  function OffsetAlignHigh(address: nat, a: Alignment, offset: nat): (r: nat)
    requires a.Valid()
    ensures (r + offset) % a.value == 0
    ensures address <= r < address + a.value
  {
    var padded := address + a.value - 1 + offset;
    BoundaryMask(padded, a);
    RoundDown(padded, a.value);
    AndNot(padded, a.value - 1) - offset
  }

  /** `align_low(p, align)`: `address & ~(boundary - 1)`. */
  function AlignLow(address: nat, a: Alignment): (r: nat)
    requires a.Valid()
    ensures r % a.value == 0
    ensures r <= address < r + a.value
    ensures address % a.value == 0 ==> r == address
  {
    BoundaryMask(address, a);
    RoundDown(address, a.value);
    AndNot(address, a.value - 1)
  }

  /**
   `offset_align_low(p, align, offset)`: `align_low(p, align) - offset`. The
   unsigned subtraction must not wrap, which the source's
   `address >= new_address` assertion catches.
   */
  function OffsetAlignLow(address: nat, a: Alignment, offset: nat): (r: nat)
    requires a.Valid()
    requires offset <= AlignLow(address, a)
    ensures r <= address
    ensures (r + offset) % a.value == 0
    ensures address < r + offset + a.value
  {
    AlignLow(address, a) - offset
  }

  /** No aligned address lies between `p` and `align_high(p)`. */
  lemma AlignHighIsLeast(address: nat, a: Alignment, q: nat)
    requires a.Valid()
    requires address <= q && q % a.value == 0
    ensures AlignHigh(address, a) <= q
  {
    var r := AlignHigh(address, a);
    if q < r {
      MultiplesApart(q, r, a.value);
    }
  }

  /** No aligned address lies between `align_low(p)` and `p`. */
  lemma AlignLowIsGreatest(address: nat, a: Alignment, q: nat)
    requires a.Valid()
    requires q <= address && q % a.value == 0
    ensures q <= AlignLow(address, a)
  {
    var r := AlignLow(address, a);
    if r < q {
      MultiplesApart(r, q, a.value);
    }
  }

  /** `std::countr_zero` on a `uintptr_t`, including the all-zero word. */
  function CountrZeroWord(address: nat): nat
  {
    if address == 0 then AddressBits else CountrZero(address)
  }

  /**
   `alignment_of(p)` as written: it passes the trailing-zero COUNT to the
   integer overload of `assume_at_boundary`, which is the checked
   `at_boundary`. The exponent is treated as if it were the boundary. Both
   functions are `noexcept`, so a violation whose handler throws terminates.
   */
  function AlignmentOfAsWritten(reg: Contracts.Registry, address: nat)
    : (r: Contracts.Checked<Alignment>)
    ensures r.Returned? <==> IsValid(CountrZeroWord(address))
    ensures r.Returned? ==> r.value.value == CountrZeroWord(address)
    ensures r.Unwound? ==> !r.how.Raised? && !r.how.CustomRaised?
    ensures !IsValid(CountrZeroWord(address)) && Contracts.Get(reg) == Contracts.DefaultHandler ==>
      r == Contracts.Unwound(Contracts.Terminated)
  {
    AssumeAtBoundaryRep(reg, CountrZeroWord(address))
  }

  /**
   `alignment_of(p)` as intended: the largest boundary the address sits on,
   2 to the power of its trailing-zero count.
   */
  function AlignmentOf(address: nat): (r: Alignment)
    requires address > 0
    ensures r.Valid()
    ensures IsAligned(address, r)
    ensures r.value <= address
  {
    var k := CountrZero(address);
    TrailingPowerFacts(address, k);
    Alignment(Pow2(k))
  }

  lemma TrailingPowerFacts(address: nat, k: nat)
    requires address > 0 && address % Pow2(k) == 0
    ensures IsValid(Pow2(k))
    ensures Pow2(k) <= address
  {
    Pow2IsPowerOfTwo(k);
    ValidIsPowerOfTwo(Pow2(k));
    if address < Pow2(k) {
      DivModUnique(address, Pow2(k), 0, address);
    }
  }

  /** The intended `alignment_of` is the greatest: twice it no longer divides. */
  lemma AlignmentOfIsGreatest(address: nat)
    requires address > 0
    ensures address % (2 * AlignmentOf(address).value) != 0
  {
    var p := Pow2(CountrZero(address));
    assert AlignmentOf(address).value == p;
    EvenMultipleQuotient(address, p);
  }

  /** A multiple of `2 * p` holds an even number of `p`. */
  lemma EvenMultipleQuotient(x: nat, p: nat)
    requires p > 0
    ensures x % (2 * p) == 0 ==> (x / p) % 2 == 0
  {
    if x % (2 * p) == 0 {
      var m := x / (2 * p);
      assert x == m * (2 * p);
      assert x == (2 * m) * p;
      DivModUnique(x, p, 2 * m, 0);
    }
  }

  /**
   Finding: the as-written `alignment_of` rejects address 8 (trailing-zero
   count 3 is no power of two), which with the default handler terminates the
   program, and reports boundary 2 for address 4, while the intended function
   reports 8 and 4.
   */
  lemma AlignmentOfDiscrepancy(reg: Contracts.Registry)
    ensures AlignmentOfAsWritten(reg, 8).Unwound?
    ensures Contracts.Get(reg) == Contracts.DefaultHandler ==>
      AlignmentOfAsWritten(reg, 8) == Contracts.Unwound(Contracts.Terminated)
    ensures AlignmentOf(8).value == 8
    ensures AlignmentOfAsWritten(reg, 4) == Contracts.Returned(Alignment(2))
    ensures AlignmentOf(4).value == 4
  {
    TrailingZerosOfSmall();
    assert PopCount(3) == 2 by {
      assert PopCount(3) == 1 + PopCount(1) == 1 + 1 + PopCount(0);
    }
    assert PopCount(2) == 1 by {
      assert PopCount(2) == 0 + PopCount(1);
    }
  }

  lemma TrailingZerosOfSmall()
    ensures CountrZeroWord(8) == 3 && Pow2(3) == 8
    ensures CountrZeroWord(4) == 2 && Pow2(2) == 4
  {
    assert CountrZero(1) == 0;
    assert CountrZero(2) == 1 + CountrZero(1);
    assert CountrZero(4) == 1 + CountrZero(2);
    assert CountrZero(8) == 1 + CountrZero(4);
  }
}
