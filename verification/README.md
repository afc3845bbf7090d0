# MSL memory substrate in Dafny

A model of the core of MSL, a C++20 library of low-level memory building
blocks. The model has four layers.

- **Object lifetime.** `lifetime_utilities` and its older twin
  `uninitialized_storage` construct arrays in raw storage and roll back on a
  throwing constructor. `cell_activator` moves storage between the
  uninitialised `cell` and the live `active_cell`.
  - Constructors and destructors are observed as a trace of `Construct`,
    `Fail` and `Destroy` events.
  - Whether a constructor throws is decided by an oracle, the set of failing
    element indices.
- **Handles.** `cell`, `active_cell`, `not_null`, `tagged_ptr` and
  `memory_block`.
  - Addresses are natural numbers and null is `0`.
  - `sizeof(T)` and `alignof(T)` are positive parameters.
- **Address arithmetic.**
  - `alignment`;
  - `pointer_utilities`, including align-high and align-low with and
    without an offset;
  - `traversal_utilities`;
  - the unit-carrying counts `digital_quantity` and `quantity`;
  - `dynamic_storage`.
- **Bookkeeping state machines.**
  - a reserved `virtual_memory` region, with the operating system observed as
    a list of calls;
  - `intrusive_pointer_stack`, a LIFO threaded through the memory it stores;
  - the two contract-violation handler registries.

Bitwise operations on addresses (`&`, `|`, `&~`, `std::has_single_bit`,
`std::countr_zero`) are defined on natural numbers in `BitOps` and proved to
agree with division and remainder by powers of two. C++'s truncating `/` and
`%` are defined in `CppIntegers`. A `digital_quantity` denotes a real number
of bytes, `count * num / den`, and every operation on it is stated against
that amount.

## Where the model departs from the code

Where the code does not compile, the model follows its evident intent:

- `cell_activator.hpp` asserts on an undeclared `p` in every activation. Its
  `T[N]` overloads build an `active_cell<T[]>` for an `active_cell<T[N]>`
  result, and its array `deactivate` overloads are declared to return
  `cell<T>`. The model asserts on the consumed cell and returns the shape it
  was given.
- `uninitialized_storage.hpp:235` computes `last` from `result` before
  `result` is declared. The model uses `first + n`.
- `quantity::min`, `max` and `zero` (`quantity.hpp:447-469`) ask
  `std::numeric_limits` about the tag `T` rather than about `Rep`. The model's
  `Quantities.Zero` is the zero count.
- The two `%=` overloads of `quantity` (`quantity.hpp:660-680`) take the
  remainder of the wrong operand. `Quantities.ModAssign` is the remainder of
  `*this` by the right-hand side.
- The `<=>` operator of `tagged_ptr` is declared to return `bool`. The model
  returns the three-way result.

Some behaviour is merely surprising, and the model does what the code does:

- `memory_block::contains` accepts the end address, and an empty block
  contains its own address.
- `virtual_memory::release` makes no operating-system call and leaves
  `pages()` unchanged.
- `tagged_ptr::tag(t)` ORs the new bits into the old tag and never clears one.
- The alignment handler registry starts out null, so a violation before any
  `set_violation_handler` calls a null function pointer.
- `alignment::assume_at_boundary(element_type::rep)` forwards to the checked
  `at_boundary` from inside a `noexcept` function. A handler that throws
  therefore ends the program with `std::terminate`. `alignment_of` reaches it
  the same way.
- `alignment::at_boundary(element_type::rep, where)` forwards without its
  `where`. A violation then reports the location of the forwarding call in
  the header, not the caller's.
- The default constructor of `active_cell<T[]>` leaves its length
  uninitialised, where `cell<T[]>` zeroes it. Equality and move of
  `active_cell` (active_cell.hpp:977-1023 and 544-571, 681-722) are the same
  relations as for `cell`, so `Cells.Equal` and `Cells.NotEqual` serve both.
- `quantity_operable` (`quantity.hpp:64-71`) admits a base-to-derived
  conversion as well as derived-to-base. The class documentation mentions
  only the latter; the model follows the constraint.
- A default-constructed `quantity` holds an indeterminate count unless it is
  value-initialised. `Quantities.Default` models the value-initialised form.
- `uninitialized_storage::construct_array_at` has no `n == 0` guard, so it
  needs `n >= 1`. It also runs destructors even for trivially destructible
  types, and it asserts no alignment.
- `cell_activator::activate_array` therefore needs a non-empty cell.
- The older `include/msl/utilities/digital_quantity.hpp` has the same
  semantics as `include/msl/quantities/digital_quantity.hpp`. One model
  covers both:
  - conversion constructor at 121-124 and 572-580;
  - common type at 502-527;
  - cast at 945-957;
  - comparisons at 858-939;
  - rounding at 983-1032;
  - byte-pointer arithmetic at 1248-1283.
- `std::ratio` keeps its fraction in lowest terms; `DigitalQuantities.Ratio`
  is not reduced. Every contract there is stated on the amount
  `count * num / den`, which is the same for a ratio and its reduced form.

## Model

| member | source | states |
|---|---|---|
| Contracts.AlignmentRegistry | src/msl/quantities/alignment.cpp:34 | the alignment registry starts with a null handler |
| Contracts.NotNullRegistry | src/msl/pointers/not_null.cpp:18-20 | the not-null registry starts with the default handler |
| Contracts.Set | src/msl/quantities/alignment.cpp:90-97 | returns the previously installed handler; installs the given handler, or the default one for null; never leaves a null handler installed |
| Contracts.Violate | src/msl/quantities/alignment.cpp:73-82 | never returns normally: the default handler raises the violation, a custom handler throws or returns into an abort, a null handler is undefined |
| Contracts.ThroughNoexcept | include/msl/quantities/alignment.hpp:231 | at a `noexcept` boundary any exception becomes `std::terminate`; an abort or null call passes unchanged; no exception leaves |
| Contracts.SetRestore | src/msl/pointers/not_null.cpp:69-76 | putting back the handler `set` returned restores the registry, except that a null handler comes back as the default |
| Alignments.ValidIsPowerOfTwo | include/msl/quantities/alignment.hpp:440-452 | `has_single_bit(n)` holds exactly for powers of two, so a valid boundary is at least 1 |
| Alignments.MinDefault | include/msl/quantities/alignment.hpp:362-369 | the boundary 1, which is valid and no greater than any valid boundary |
| Alignments.MaxDefault | include/msl/quantities/alignment.hpp:371-378 | the platform's `alignof(max_align_t)` as a valid boundary |
| Alignments.Of | include/msl/quantities/alignment.hpp:380-388 | `alignof(T)` as a valid boundary |
| Alignments.Default | include/msl/quantities/alignment.hpp:458-464 | the default constructor equals `min_default()`, boundary 1 |
| Alignments.AtBoundary | include/msl/quantities/alignment.hpp:390-399 | returns exactly when `n` is valid, holding `n`; otherwise unwinds as `alignment_contract::violate` does with the request and the caller's location |
| Alignments.AtBoundaryRep | include/msl/quantities/alignment.hpp:401-406 | returns exactly when `n` is valid; otherwise unwinds as `violate` does with the request and the forwarding call's location |
| Alignments.AtBoundaryRepDropsLocation | include/msl/quantities/alignment.hpp:401-406 | the outcome does not depend on the caller's `where`; with the default handler the violation carries the header's location |
| Alignments.StaticAtBoundary | include/msl/quantities/alignment.hpp:408-418 | the compile-time factory holds `N` once its static assertion holds |
| Alignments.AssumeAtBoundary | include/msl/quantities/alignment.hpp:420-427 | under its asserted precondition, holds `n` |
| Alignments.AssumeAtBoundaryRep | include/msl/quantities/alignment.hpp:429-434 | returns exactly for a valid `n`, as the unchecked form does; an invalid `n` calls the handler, and since the function is `noexcept` a thrown violation terminates: no exception reaches the caller |
| Alignments.Compare | include/msl/quantities/alignment.hpp:285-286 | the defaulted ordering follows the boundary value in all three cases |
| Alignments.InvalidBoundaryOutcomes | src/msl/quantities/alignment.cpp:34-97 | before any `set` an invalid boundary calls a null handler; after `set(nullptr)` it raises a violation carrying the request |
| BitOps.SingleBitIffPowerOfTwo | include/msl/quantities/alignment.hpp:448-452 | one set bit exactly for powers of two |
| BitOps.ClearLowestBitIffPowerOfTwo | include/msl/cells/cell.hpp:107-110 | `n & (n - 1) == 0` for positive `n` exactly when `n` is a power of two |
| PointerUtilities.IsAligned | include/msl/pointers/pointer_utilities.hpp:141-149 | the mask test holds exactly when the address is a multiple of the boundary |
| PointerUtilities.AlignHigh | include/msl/pointers/pointer_utilities.hpp:164-181 | aligned, at or above the address and less than one boundary above; an aligned address is a fixed point |
| PointerUtilities.AlignHighIsLeast | include/msl/pointers/pointer_utilities.hpp:164-181 | no aligned address lies between the address and `align_high` |
| PointerUtilities.OffsetAlignHigh | include/msl/pointers/pointer_utilities.hpp:183-202 | result plus offset is aligned, within one boundary at or above the address |
| PointerUtilities.AlignLow | include/msl/pointers/pointer_utilities.hpp:204-220 | aligned, at or below the address and within one boundary of it; an aligned address is a fixed point |
| PointerUtilities.AlignLowIsGreatest | include/msl/pointers/pointer_utilities.hpp:204-220 | no aligned address lies between `align_low` and the address |
| PointerUtilities.OffsetAlignLow | include/msl/pointers/pointer_utilities.hpp:222-240 | with `align_low` at least the offset (no unsigned wrap), the result is at or below the address and result plus offset is aligned |
| PointerUtilities.AlignmentOfAsWritten | include/msl/pointers/pointer_utilities.hpp:151-158 | as written: returns only when the trailing-zero COUNT is itself a valid boundary, and then holds that count; otherwise no exception escapes, and with the default handler the program terminates |
| PointerUtilities.AlignmentOf | include/msl/pointers/pointer_utilities.hpp:151-158 | as intended: a valid boundary the address sits on, no larger than the address |
| PointerUtilities.AlignmentOfIsGreatest | include/msl/pointers/pointer_utilities.hpp:151-158 | twice the intended alignment no longer divides the address |
| PointerUtilities.AlignmentOfDiscrepancy | include/msl/pointers/pointer_utilities.hpp:151-158 | address 8 makes the written code violate its contract, terminating under the default handler, and address 4 yields boundary 2, where the intent gives 8 and 4 |
| NotNulls.CheckNotNull | include/msl/pointers/not_null.hpp:896-905 | returns exactly for a non-null pointer, wrapping it unchanged; a null one unwinds through `not_null_contract::violate` |
| NotNulls.CheckNotNullOutcomes | src/msl/pointers/not_null.cpp:11-20 | with the initial registry a null pointer raises a violation carrying the location, a non-null one is wrapped |
| NotNulls.AssumeNotNull | include/msl/pointers/not_null.hpp:907-914 | wraps a non-null pointer unchanged |
| NotNulls.Get | include/msl/pointers/not_null.hpp:756-762 | never null, and wrapping it again gives back the same `not_null` |
| NotNulls.EqualsNull | include/msl/pointers/not_null.hpp:960-976 | `== nullptr` compares the held pointer with null, hence is always false |
| NotNulls.NotEqualsNull | include/msl/pointers/not_null.hpp:1000-1016 | `!= nullptr` is the negation of `== nullptr` |
| NotNulls.AsBool | include/msl/pointers/not_null.hpp:764-770 | truthiness agrees with the held pointer being non-null |
| NotNulls.Compare | include/msl/pointers/not_null.hpp:976-1134 | each of the six relations delegates to the underlying pointers, with `>`, `<=`, `>=` derived from `<` |
| NotNulls.NullOverloadsAgree | include/msl/pointers/not_null.hpp:960-1016 | the null comparisons in either operand order agree with comparing the held pointer to 0 |
| NotNulls.Add | include/msl/pointers/not_null.hpp:920-936 | moves the pointer by `n` elements |
| NotNulls.Sub | include/msl/pointers/not_null.hpp:938-945 | moves the pointer back by `n` elements |
| NotNulls.Distance | include/msl/pointers/not_null.hpp:947-954 | the element distance times the element size is the byte difference |
| NotNulls.AddDistance | include/msl/pointers/not_null.hpp:920-954 | `rhs + (lhs - rhs) == lhs` |
| NotNulls.SubAdd | include/msl/pointers/not_null.hpp:920-954 | `(p + n) - n == p` and `(p + n) - p == n` |
| NotNulls.Increment | include/msl/pointers/not_null.hpp:812-820 | moves one element forward |
| NotNulls.Decrement | include/msl/pointers/not_null.hpp:833-841 | moves one element back |
| NotNulls.PostIncrement | include/msl/pointers/not_null.hpp:822-831 | returns the old value and leaves the incremented one |
| NotNulls.PostDecrement | include/msl/pointers/not_null.hpp:843-852 | returns the old value and leaves the decremented one |
| NotNulls.AddAssign | include/msl/pointers/not_null.hpp:854-862 | `p += n` equals `p + n` |
| NotNulls.SubAssign | include/msl/pointers/not_null.hpp:864-872 | `p -= n` equals `p - n` |
| NotNulls.StepInverse | include/msl/pointers/not_null.hpp:812-852 | decrement undoes increment and increment undoes decrement |
| NotNulls.Convert | include/msl/pointers/not_null.hpp:706-750 | a converting construction or assignment keeps the pointer |
| Traversal.Advance | include/msl/pointers/traversal_utilities.hpp:127-147 | the address moves by `n * sizeof(T)` bytes |
| Traversal.AdvanceLenient | include/msl/pointers/traversal_utilities.hpp:131-133 | the non-strict form yields a non-null pointer |
| Traversal.AdvanceModesAgree | include/msl/pointers/traversal_utilities.hpp:127-147 | strict and non-strict modes reach the same address |
| Traversal.AdvanceAdditive | include/msl/pointers/traversal_utilities.hpp:127-147 | advancing by `a` then `b` is advancing by `a + b` |
| Traversal.AdvanceZero | include/msl/pointers/traversal_utilities.hpp:127-147 | advancing by zero is the identity |
| Traversal.Next | include/msl/pointers/traversal_utilities.hpp:149-155 | one element forward |
| Traversal.Previous | include/msl/pointers/traversal_utilities.hpp:157-163 | one element back |
| Traversal.PreviousNext | include/msl/pointers/traversal_utilities.hpp:149-163 | `previous(next(p)) == p`, and the converse inside the sequence |
| Traversal.NextIsIncrement | include/msl/pointers/traversal_utilities.hpp:149-155 | `next` agrees with `not_null`'s `++` |
| Traversal.AccessAtOffset | include/msl/pointers/traversal_utilities.hpp:165-171 | reads the object stored `offset` elements on |
| Traversal.AccessAtOffsetShift | include/msl/pointers/traversal_utilities.hpp:165-171 | reading at an offset is reading at offset zero of the advanced pointer |
| TaggedPointers.TagMask | include/msl/pointers/tagged_ptr.hpp:258 | the mask is `2^Bits - 1` |
| TaggedPointers.Get | include/msl/pointers/tagged_ptr.hpp:350-367 | the pointer part is aligned to `2^Bits` and no more than the word |
| TaggedPointers.Tag | include/msl/pointers/tagged_ptr.hpp:369-375 | the tag is below `2^Bits` and pointer plus tag is the word |
| TaggedPointers.Compose | include/msl/pointers/tagged_ptr.hpp:300-312 | an aligned pointer and a small tag come back out of the word they make |
| TaggedPointers.Decompose | include/msl/pointers/tagged_ptr.hpp:350-375 | every word is its pointer plus its tag |
| TaggedPointers.FromPointer | include/msl/pointers/tagged_ptr.hpp:288-298 | holds the pointer with tag 0 |
| TaggedPointers.Null | include/msl/pointers/tagged_ptr.hpp:270-286 | default and `nullptr` construction give a null pointer with tag 0 |
| TaggedPointers.FromPointerAndTag | include/msl/pointers/tagged_ptr.hpp:300-312 | holds the pointer and the tag masked to `Bits` bits |
| TaggedPointers.Convert | include/msl/pointers/tagged_ptr.hpp:314-324 | the converting constructor keeps pointer and tag |
| TaggedPointers.AsBool | include/msl/pointers/tagged_ptr.hpp:377-383 | truthiness holds exactly when the pointer part is non-null |
| TaggedPointers.SetTag | include/msl/pointers/tagged_ptr.hpp:389-395 | keeps the pointer; the new tag is the old tag OR the masked argument, so no old or new bit is lost |
| TaggedPointers.SetTagTruncates | include/msl/pointers/tagged_ptr.hpp:389-395 | with two tag bits, `tag(0b110)` on a fresh pointer gives tag `0b10` |
| TaggedPointers.SetTagTwice | include/msl/pointers/tagged_ptr.hpp:389-395 | two `tag` calls equal one call with the OR of their masked arguments |
| TaggedPointers.Reset | include/msl/pointers/tagged_ptr.hpp:399-411 | `reset(p)` and assignment from `p` replace the pointer and keep the tag |
| TaggedPointers.ResetNull | include/msl/pointers/tagged_ptr.hpp:413-421 | `reset(nullptr)` and assignment from `nullptr` null the pointer, keep the tag, and make it falsy |
| TaggedPointers.ResetWithTag | include/msl/pointers/tagged_ptr.hpp:423-450 | `reset(p, tag)` is construction from `p` and `tag` |
| TaggedPointers.Deref | include/msl/pointers/tagged_ptr.hpp:452-468 | dereferences the word with the tag stripped |
| TaggedPointers.Index | include/msl/pointers/tagged_ptr.hpp:470-479 | indexes from the word with the tag stripped |
| TaggedPointers.Equal | include/msl/pointers/tagged_ptr.hpp:483-500 | equal exactly when the words are equal, that is pointer and tag both |
| TaggedPointers.EqualsNull | include/msl/pointers/tagged_ptr.hpp:502-512 | `== nullptr` exactly when the word is 0: null pointer and tag 0 |
| TaggedPointers.TaggedNullIsNotNullptr | include/msl/pointers/tagged_ptr.hpp:502-512 | a null pointer with tag 1 is falsy but not `== nullptr` |
| TaggedPointers.Compare | include/msl/pointers/tagged_ptr.hpp:516-534 | pointer-then-tag order is the order of the words |
| TaggedPointers.WordOrder | include/msl/pointers/tagged_ptr.hpp:516-534 | a smaller pointer part means a smaller word, whatever the tags |
| TaggedPointers.CompareNull | include/msl/pointers/tagged_ptr.hpp:536-551 | comparing with `nullptr` orders the word against 0 |
| MemoryBlocks.FromRange | include/msl/blocks/memory_block.hpp:258-265 | records exactly the start and end addresses |
| MemoryBlocks.FromRangeSentinel | include/msl/blocks/memory_block.hpp:239-256 | the iterator-and-sentinel form is the range from start to start plus distance |
| MemoryBlocks.FromPointerAndLength | include/msl/blocks/memory_block.hpp:276-284 | starts at `p`, ends at `p + length`, has size `length`, is non-empty exactly when `length > 0` |
| MemoryBlocks.NullBlock | include/msl/blocks/memory_block.hpp:289-305 | null begin and end, empty, equal to `nullblock` |
| MemoryBlocks.Size | include/msl/blocks/memory_block.hpp:310-323 | end minus begin, zero exactly when empty |
| MemoryBlocks.EqualsNullBlock | include/msl/blocks/memory_block.hpp:407-413 | `== nullblock` exactly when empty |
| MemoryBlocks.EmptyEqualsNullBlock | include/msl/blocks/memory_block.hpp:407-413 | any empty block compares equal to `nullblock` though its address need not be null |
| MemoryBlocks.ContainsBounds | include/msl/blocks/memory_block.hpp:328-341 | `contains(p)` is `begin <= p <= end`: both ends count, and an empty block contains its own address |
| MemoryBlocks.Patterned | include/msl/blocks/memory_block.hpp:379-406 | the pattern fill touches no address outside the memory's domain |
| MemoryBlocks.Fill | include/msl/blocks/memory_block.hpp:371-377 | every byte of `[begin, end)` becomes the value and nothing else changes; same as a one-byte pattern |
| MemoryBlocks.FillPattern | include/msl/blocks/memory_block.hpp:379-406 | the byte at offset `i` becomes the pattern element at `i` modulo the pattern length and nothing else changes; an empty block accepts an empty pattern and stays unchanged |
| MemoryBlocks.FillIsSingleBytePattern | include/msl/blocks/memory_block.hpp:371-406 | filling with one value is the pattern fill with that single byte |
| Lifetime.ConstructAt | include/msl/pointers/lifetime_utilities.hpp:194-204 | on an aligned address constructs once there and returns that address, or fails and rethrows |
| Lifetime.DestroyAt | include/msl/pointers/lifetime_utilities.hpp:247-257 | destroys the one object, or nothing for a trivially destructible type |
| Lifetime.DestroyRange | include/msl/pointers/lifetime_utilities.hpp:274-287 | destroys each address in forward order, or nothing for a trivially destructible type |
| Lifetime.DestroyArrayAt | include/msl/pointers/lifetime_utilities.hpp:259-270 | destroys each of the `n` elements exactly once in forward order, or nothing for a trivial type |
| Lifetime.DestroysEachOnce | include/msl/pointers/lifetime_utilities.hpp:259-287 | each element below `n` is destroyed once, no other address is |
| Lifetime.ConstructArrayImpl | include/msl/pointers/lifetime_utilities.hpp:325-380 | on an aligned address, constructs elements 0, 1, … in order until the first failure; on failure at `k` destroys `k-1 … 0` and rethrows; otherwise returns element 0 |
| Lifetime.ConstructArrayAt | include/msl/pointers/lifetime_utilities.hpp:206-212 | the default-construct overload runs the array routine, which requires `n != 0` |
| Lifetime.ConstructArrayAtCopy | include/msl/pointers/lifetime_utilities.hpp:214-227 | with `n == 0` constructs nothing and returns the address, aligned or not; otherwise, on an aligned address, copies into each element with rollback |
| Lifetime.ConstructFromTupleAt | include/msl/pointers/lifetime_utilities.hpp:230-241 | constructs once from the tuple's elements in order, as `construct_at` does |
| Lifetime.ConstructsOnce | include/msl/pointers/lifetime_utilities.hpp:341-366 | the forward loop constructs each element below `k` once and no other |
| Lifetime.RollbackDestroysEachOnce | include/msl/pointers/lifetime_utilities.hpp:367-376 | the rollback destroys each element below the failing one exactly once, and none at or above it |
| Lifetime.RollbackDescends | include/msl/pointers/lifetime_utilities.hpp:367-376 | the rollback destroys in strictly decreasing address order |
| Lifetime.FailedTraceBalanced | include/msl/pointers/lifetime_utilities.hpp:341-379 | after a failure at `k`, each element below `k` is constructed and destroyed once, `k` fails once, and nothing above `k` is touched |
| Lifetime.NoFailureSameTrace | include/msl/pointers/lifetime_utilities.hpp:349-366 | without a failure the throwing and non-throwing branches produce the same trace |
| UninitializedStorage.ConstructAt | include/msl/utilities/uninitialized_storage.hpp:154-159 | constructs once at `p` and returns `p`, or fails and rethrows; no alignment check |
| UninitializedStorage.ConstructArrayAt | include/msl/utilities/uninitialized_storage.hpp:161-166 | needs `n >= 1`; constructs in order with the same rollback, never skipping destructors |
| UninitializedStorage.ConstructArrayAtCopy | include/msl/utilities/uninitialized_storage.hpp:168-173 | as above, copying into each element, with no `n == 0` guard |
| UninitializedStorage.ConstructFromTupleAt | include/msl/utilities/uninitialized_storage.hpp:176-184 | constructs once from the tuple's elements |
| UninitializedStorage.DestroyAt | include/msl/utilities/uninitialized_storage.hpp:190-194 | destroys exactly the object at `p` |
| UninitializedStorage.DestroyArrayAt | include/msl/utilities/uninitialized_storage.hpp:196-213 | destroys `[p, p+n)` in forward order, each element once |
| Cells.SizeMinusOne | include/msl/cells/cell.hpp:107-110 | `Align - 1` in `size_t`, wrapping for 0 |
| Cells.AlignmentAcceptedIffPowerOfTwo | include/msl/cells/cell.hpp:102-110 | the intended static checks accept exactly powers of two no smaller than `alignof(T)` |
| Cells.AlignmentAsWrittenRejectsAll | include/msl/cells/cell.hpp:107-110 | as written, `(Align & (Align-1)) == Align` holds only for 0, so every alignment is rejected |
| Cells.AlignmentAsWrittenRejectsEight | include/msl/cells/cell.hpp:107-110 | alignment 8 for an 8-aligned `T` is accepted by the intent and rejected as written |
| Cells.Default | include/msl/cells/cell.hpp:450-456 | null and falsy; length 0 for `T[]`, `N` for `T[N]` |
| Cells.FromPointer | include/msl/cells/cell.hpp:466-472 | `data() == p`, truthy, byte size `sizeof(T)` or `N * sizeof(T)` |
| Cells.FromPointerAndLength | include/msl/cells/cell.hpp:544-560 | `data() == p`, length as given, byte size `length * sizeof(T)` |
| Cells.Equal | include/msl/cells/cell.hpp:692-738 | equal exactly when data and length agree; length only varies for `T[]` |
| Cells.NotEqual | include/msl/cells/cell.hpp:692-738 | the negation of equality |
| Cells.EqualIsIdentity | include/msl/cells/cell.hpp:692-738 | equality of handles of one type is equality of the records |
| Cells.Move | include/msl/cells/cell.hpp:458-464 | the target takes data and size; the source becomes null and keeps its length |
| Cells.MoveAssign | include/msl/cells/cell.hpp:476-484 | move assignment leaves the same pair as move construction |
| Cells.MovedFromVersusDefault | include/msl/cells/cell.hpp:535-543 | a moved-from cell equals a default one exactly when its length is that of a default one |
| ActiveCells.Default | include/msl/cells/active_cell.hpp:673-678 | null and falsy; for `T[]` the length is the indeterminate value left in storage, so it equals a default `cell` only when that value is 0 |
| ActiveCells.DefaultsMayDiffer | include/msl/cells/active_cell.hpp:673-678 | two default `active_cell<T[]>` objects are equal only when their indeterminate lengths agree |
| ActiveCells.Move | include/msl/cells/active_cell.hpp:681-722 | the same transfer as for `cell`: the target takes address and length, the source is nulled and keeps its length, `end()` is kept |
| ActiveCells.EndMinusBegin | include/msl/cells/active_cell.hpp:632-662 | `end() - begin()` is the byte size, that is `length()` elements |
| ActiveCells.Arrow | include/msl/cells/active_cell.hpp:577-591 | requires non-null data and yields the one object's address |
| ActiveCells.Index | include/msl/cells/active_cell.hpp:728-737 | requires `0 <= idx < length` and non-null data, and yields element `idx`, inside `[begin, end)` |
| ActiveCells.At | include/msl/cells/active_cell.hpp:739-752 | raises `out_of_range` exactly when `idx < 0` or `idx >= length`, else yields `operator[](idx)` |
| ActiveCells.IndexDisjoint | include/msl/cells/active_cell.hpp:728-737 | distinct indices give non-overlapping elements |
| ActiveCells.IndexEnumeratesElements | include/msl/cells/active_cell.hpp:792-822 | iterating `[begin, end)` visits exactly `operator[](0)`, … in order |
| CellActivator.Activate | include/msl/cells/cell_activator.hpp:139-155 | constructs once at `c.data()`; on success the result has `c`'s data and `c` is nulled, on failure `c` is unchanged |
| CellActivator.ActivateArray | include/msl/cells/cell_activator.hpp:157-250 | constructs `length()` elements with rollback, by default or by copy; succeeds exactly when none fails, then nulls `c`; else `c` is unchanged |
| CellActivator.Deactivate | include/msl/cells/cell_activator.hpp:256-283 | destroys each element once in order and returns a cell with the same data and length |
| CellActivator.ActivateThenDeactivate | include/msl/cells/cell_activator.hpp:157-283 | activation followed by deactivation constructs and destroys every element exactly once |
| CellActivator.RoundTripBalanced | include/msl/cells/cell_activator.hpp:164-271 | in the joined trace every element has one construction, one destruction and no failure |
| VirtualMemory.ReserveRegion | src/msl/memory/virtual_memory.cpp:42-48 | one reserve call; the region holds the backend's address and `k` pages, and is empty exactly when `k == 0` |
| VirtualMemory.PageAt | src/msl/memory/virtual_memory.cpp:86-92 | page `n` is a block of one page size at `data + n * page_size` |
| VirtualMemory.PagesTile | src/msl/memory/virtual_memory.cpp:86-92 | each page ends where the next starts, and the last ends at `data + size_in_bytes()` |
| VirtualMemory.At | src/msl/memory/virtual_memory.cpp:94-104 | raises `out_of_range` exactly when `n >= pages()`, else equals `operator[](n)` |
| VirtualMemory.PageToIndex | include/msl/memory/virtual_memory.hpp:290-299 | for a page-aligned offset, the index whose page starts at the block |
| VirtualMemory.PageToIndexInverse | include/msl/memory/virtual_memory.hpp:290-299 | `page_to_index` inverts `operator[]` |
| VirtualMemory.CommitIndex | src/msl/memory/virtual_memory.cpp:110-120 | one commit of one page at `data + n * page_size`, no bounds check, returns that page |
| VirtualMemory.DecommitIndex | src/msl/memory/virtual_memory.cpp:122-128 | one decommit of one page at the same address |
| VirtualMemory.CommitPage | include/msl/memory/virtual_memory.hpp:257-261 | commits the page's own address through the index form and returns that page |
| VirtualMemory.DecommitPage | include/msl/memory/virtual_memory.hpp:263-267 | decommits the page's own address through the index form |
| VirtualMemory.ReleaseOwnership | include/msl/memory/virtual_memory.hpp:269-274 | returns the old data, nulls it, keeps `pages()`, and the destructor then calls nothing |
| VirtualMemory.Swap | include/msl/memory/virtual_memory.hpp:276-284 | exchanges data and page counts |
| VirtualMemory.SwapInvolution | include/msl/memory/virtual_memory.hpp:276-284 | swapping twice restores both regions |
| VirtualMemory.Destructor | src/msl/memory/virtual_memory.cpp:64-69 | releases data and pages exactly when data is non-null, and makes no call otherwise |
| VirtualMemory.MoveConstruct | src/msl/memory/virtual_memory.cpp:54-60 | the target takes the region; the source keeps its page count with null data, so its destructor calls nothing |
| VirtualMemory.MoveAssign | src/msl/memory/virtual_memory.cpp:73-80 | the target takes the source; the temporary's destructor releases the target's old reservation |
| VirtualMemory.MoveAssignReleasesEachOnce | src/msl/memory/virtual_memory.cpp:73-80 | over a move assignment and both destructors, each reservation is released exactly once |
| VirtualMemory.MoveAssignSelf | src/msl/memory/virtual_memory.cpp:73-80 | self move assignment changes nothing and calls nothing |
| IntrusiveStacks.New | include/msl/pointers/intrusive_pointer_stack.hpp:129 | a new stack is empty, `peek()` is null and its chain has no node |
| IntrusiveStacks.EmptyIffNoNodes | include/msl/pointers/intrusive_pointer_stack.hpp:192-197 | `empty()` exactly when the chain has no node |
| IntrusiveStacks.Push | include/msl/pointers/intrusive_pointer_stack.hpp:150-156 | stores the old head in the word at `p`, makes `p` the head, leaves every other word |
| IntrusiveStacks.PushExtendsChain | include/msl/pointers/intrusive_pointer_stack.hpp:150-156 | pushing a fresh node puts it at the front of the chain, so the size grows by one |
| IntrusiveStacks.Pop | include/msl/pointers/intrusive_pointer_stack.hpp:158-168 | as intended: the new head is the word stored at the old head |
| IntrusiveStacks.PopShortensChain | include/msl/pointers/intrusive_pointer_stack.hpp:158-168 | popping a non-empty stack drops exactly the first node, so the size shrinks by one |
| IntrusiveStacks.PushThenPop | include/msl/pointers/intrusive_pointer_stack.hpp:150-168 | pop undoes push |
| IntrusiveStacks.PopAsWritten | include/msl/pointers/intrusive_pointer_stack.hpp:158-168 | as written: the new head is the word stored at the address stored at the old head |
| IntrusiveStacks.PopAsWrittenSkipsNode | include/msl/pointers/intrusive_pointer_stack.hpp:164-167 | after pushing `a` then `b`, the written pop leaves an empty stack where the intent leaves `a` |
| IntrusiveStacks.Reset | include/msl/pointers/intrusive_pointer_stack.hpp:170-175 | back to the empty stack |
| IntrusiveStacks.MoveConstruct | include/msl/pointers/intrusive_pointer_stack.hpp:138-144 | the new stack takes the head and the source is empty |
| IntrusiveStacks.Size | src/msl/pointers/intrusive_pointer_stack.cpp:50-65 | as intended: the number of nodes on the chain, zero exactly for an empty stack |
| IntrusiveStacks.Contains | src/msl/pointers/intrusive_pointer_stack.cpp:30-44 | as intended: true exactly when `p` is on the chain; the head is always found |
| IntrusiveStacks.TraversalAsWrittenSkipsNode | src/msl/pointers/intrusive_pointer_stack.cpp:37-61 | on the chain `b -> a` the written `size()` gives 1 and `contains(a)` gives false |
| CppIntegers.TruncDiv | include/msl/quantities/quantity.hpp:772-779 | C++ `/`: the magnitude of the quotient is the quotient of the magnitudes, and a non-zero quotient is negative exactly when the operands' signs differ |
| CppIntegers.TruncMod | include/msl/quantities/quantity.hpp:781-788 | C++ `%`: quotient times divisor plus remainder is the dividend; the remainder is smaller than the divisor and never has the opposite sign to the dividend |
| CppIntegers.TruncDivUnique | include/msl/quantities/quantity.hpp:772-788 | any quotient and remainder with those properties are the truncated ones |
| DigitalQuantities.Gcd | include/msl/quantities/digital_quantity.hpp:494-497 | a positive common divisor |
| DigitalQuantities.GcdGreatest | include/msl/quantities/digital_quantity.hpp:494-497 | every common divisor divides it |
| DigitalQuantities.GcdCommutative | include/msl/quantities/digital_quantity.hpp:494-497 | symmetric in its arguments |
| DigitalQuantities.GcdSelf | include/msl/quantities/digital_quantity.hpp:494-497 | `gcd(x, x) == x` |
| DigitalQuantities.Lcm | include/msl/quantities/digital_quantity.hpp:499-500 | a positive common multiple |
| DigitalQuantities.LcmCommutative | include/msl/quantities/digital_quantity.hpp:499-500 | symmetric in its arguments |
| DigitalQuantities.LcmSelf | include/msl/quantities/digital_quantity.hpp:499-500 | `lcm(x, x) == x` |
| DigitalQuantities.CommonBase | include/msl/quantities/digital_quantity.hpp:506-517 | a valid ratio that both bases convert into losslessly |
| DigitalQuantities.CommonBaseSelf | include/msl/quantities/digital_quantity.hpp:506-517 | the common base of a base with itself is that base |
| DigitalQuantities.CommonBaseSymmetric | include/msl/quantities/digital_quantity.hpp:506-517 | the common base does not depend on operand order |
| DigitalQuantities.LosslessWhenDivides | include/msl/quantities/digital_quantity.hpp:124-126 | a conversion is lossless when the target's numerator divides the source's and the source's denominator divides the target's |
| DigitalQuantities.Convert | include/msl/quantities/digital_quantity.hpp:563-572 | the implicit conversion keeps the amount of memory exactly |
| DigitalQuantities.Cast | include/msl/quantities/digital_quantity.hpp:880-894 | the truncating cast lands within one target unit of the amount, toward zero |
| DigitalQuantities.CastExact | include/msl/quantities/digital_quantity.hpp:880-894 | an amount the target unit represents exactly is cast to that count |
| DigitalQuantities.CastLossless | include/msl/quantities/digital_quantity.hpp:880-894 | where the implicit conversion exists, the cast agrees with it |
| DigitalQuantities.ConvertThenCastBack | include/msl/quantities/digital_quantity.hpp:563-894 | a lossless conversion followed by a cast back is the identity |
| DigitalQuantities.Zero | include/msl/quantities/digital_quantity.hpp:527-548 | the amount 0 in the given unit |
| DigitalQuantities.One | include/msl/quantities/digital_quantity.hpp:556-560 | one unit |
| DigitalQuantities.Add | include/msl/quantities/digital_quantity.hpp:720-735 | the sum of the amounts, in the common base |
| DigitalQuantities.Sub | include/msl/quantities/digital_quantity.hpp:737-752 | the difference of the amounts, in the common base |
| DigitalQuantities.Negate | include/msl/quantities/digital_quantity.hpp:576-595 | the negated amount in the same unit |
| DigitalQuantities.Plus | include/msl/quantities/digital_quantity.hpp:576-595 | unary `+` keeps the amount |
| DigitalQuantities.SubIsAddNegate | include/msl/quantities/digital_quantity.hpp:720-752 | `a - b == a + (-b)` |
| DigitalQuantities.AddAssign | include/msl/quantities/digital_quantity.hpp:642-700 | `+=` with a same-unit operand equals `+` |
| DigitalQuantities.SubAssign | include/msl/quantities/digital_quantity.hpp:642-700 | `-=` with a same-unit operand equals `-` |
| DigitalQuantities.Increment | include/msl/quantities/digital_quantity.hpp:597-640 | one unit more |
| DigitalQuantities.Decrement | include/msl/quantities/digital_quantity.hpp:597-640 | one unit less |
| DigitalQuantities.IncrementThenDecrement | include/msl/quantities/digital_quantity.hpp:597-640 | `++` and `--` undo each other |
| DigitalQuantities.PostIncrement | include/msl/quantities/digital_quantity.hpp:597-640 | returns the old value and leaves one unit more |
| DigitalQuantities.PostDecrement | include/msl/quantities/digital_quantity.hpp:597-640 | returns the old value and leaves one unit less |
| DigitalQuantities.ScalarMul | include/msl/quantities/digital_quantity.hpp:755-779 | the amount times the scalar |
| DigitalQuantities.ScalarDiv | include/msl/quantities/digital_quantity.hpp:781-810 | keeps the unit; the count's magnitude is the magnitude of the count divided by that of the scalar, rounded down |
| DigitalQuantities.ScalarMod | include/msl/quantities/digital_quantity.hpp:812-843 | a remainder smaller than the scalar, with the sign of the count |
| DigitalQuantities.ScalarDivMod | include/msl/quantities/digital_quantity.hpp:781-843 | `(q / k) * k + q % k == q` |
| DigitalQuantities.QuantityDiv | include/msl/quantities/digital_quantity.hpp:781-810 | the quotient times the divisor plus the remainder is the dividend's amount |
| DigitalQuantities.QuantityMod | include/msl/quantities/digital_quantity.hpp:812-843 | the remainder is smaller in magnitude than the divisor and has the dividend's sign |
| DigitalQuantities.Compare | include/msl/quantities/digital_quantity.hpp:862-874 | orders by amount in all three cases |
| DigitalQuantities.EqualIffSameAmount | include/msl/quantities/digital_quantity.hpp:847-860 | `==` exactly when the amounts are equal, and then `<=>` is equivalent |
| DigitalQuantities.OneByteIsEightBits | include/msl/quantities/digital_quantity.hpp:223-252 | one byte equals eight bits and exceeds seven |
| DigitalQuantities.Difference | include/msl/quantities/digital_quantity.hpp:898-917 | the absolute difference of the amounts, never negative, in the common base |
| DigitalQuantities.DifferenceSymmetric | include/msl/quantities/digital_quantity.hpp:898-917 | `difference(a, b) == difference(b, a)` |
| DigitalQuantities.Floor | include/msl/quantities/digital_quantity.hpp:920-931 | the greatest target count at or below the amount |
| DigitalQuantities.Ceil | include/msl/quantities/digital_quantity.hpp:933-944 | the least target count at or above the amount |
| DigitalQuantities.FloorCeilBracket | include/msl/quantities/digital_quantity.hpp:920-944 | floor ≤ amount ≤ ceil, they differ by at most one count, and coincide exactly on an exact amount |
| DigitalQuantities.Round | include/msl/quantities/digital_quantity.hpp:946-972 | the nearer of floor and floor + 1; a tie goes up when floor + 1 is positive; within half a unit |
| DigitalQuantities.AbsQ | include/msl/quantities/digital_quantity.hpp:975-981 | the absolute amount in the same unit |
| DigitalQuantities.AbsIsDifferenceFromZero | include/msl/quantities/digital_quantity.hpp:898-981 | `abs(q)` is `difference(q, 0)` |
| DigitalQuantities.BytePointerAdd | include/msl/quantities/digital_quantity.hpp:1188-1220 | a byte pointer moves forward by the quantity's byte amount |
| DigitalQuantities.BytePointerSub | include/msl/quantities/digital_quantity.hpp:1188-1220 | a byte pointer moves back by the quantity's byte amount |
| DigitalQuantities.BytePointerRoundTrip | include/msl/quantities/digital_quantity.hpp:1188-1220 | subtracting the offset after adding it restores the pointer |
| Quantities.BaseTag | include/msl/quantities/quantity.hpp:46-56 | one of the two tags, an ancestor of both when they are related |
| Quantities.RelatedSymmetric | include/msl/quantities/quantity.hpp:58-71 | relatedness and the base tag do not depend on operand order |
| Quantities.SiblingsUnrelated | include/msl/quantities/quantity.hpp:58-62 | two distinct children of one class are not related |
| Quantities.New | include/msl/quantities/quantity.hpp:475-482 | `quantity(c).count() == c` |
| Quantities.Default | include/msl/quantities/quantity.hpp:202 | a value-initialised quantity equals the count 0 |
| Quantities.Zero | include/msl/quantities/quantity.hpp:465-469 | as intended: the count 0, an identity for `+` |
| Quantities.Convert | include/msl/quantities/quantity.hpp:484-492 | between related tags only, keeping the count |
| Quantities.ConvertRoundTrip | include/msl/quantities/quantity.hpp:484-492 | converting there and back gives the original |
| Quantities.Compare | include/msl/quantities/quantity.hpp:690-726 | across any tags, orders by count; equivalent exactly when equal |
| Quantities.CompareCount | include/msl/quantities/quantity.hpp:690-726 | against a raw integer, orders by count |
| Quantities.CompareAntisymmetric | include/msl/quantities/quantity.hpp:710-726 | swapping the operands reverses the order |
| Quantities.CompareAgreesWithCount | include/msl/quantities/quantity.hpp:690-726 | comparing with a quantity is comparing with its count |
| Quantities.Add | include/msl/quantities/quantity.hpp:732-741 | adds counts, tagged with the base tag |
| Quantities.Sub | include/msl/quantities/quantity.hpp:743-752 | subtracts counts, tagged with the base tag |
| Quantities.AddThenSub | include/msl/quantities/quantity.hpp:732-752 | `(a + b) - b` is `a` converted to the base tag |
| Quantities.AddCommutative | include/msl/quantities/quantity.hpp:732-741 | `a + b == b + a` |
| Quantities.Plus | include/msl/quantities/quantity.hpp:532-538 | unary `+` is the identity |
| Quantities.Negate | include/msl/quantities/quantity.hpp:540-546 | negates the count |
| Quantities.Increment | include/msl/quantities/quantity.hpp:552-560 | one more, comparing greater |
| Quantities.Decrement | include/msl/quantities/quantity.hpp:570-578 | one less, comparing less |
| Quantities.IncrementDecrementInverse | include/msl/quantities/quantity.hpp:552-588 | `++` and `--` undo each other |
| Quantities.PostIncrement | include/msl/quantities/quantity.hpp:561-569 | returns the old value and leaves the count one higher |
| Quantities.PostDecrement | include/msl/quantities/quantity.hpp:579-588 | returns the old value and leaves the count one lower |
| Quantities.AddAssign | include/msl/quantities/quantity.hpp:594-613 | `+=` keeps its tag and equals `+` in count |
| Quantities.SubAssign | include/msl/quantities/quantity.hpp:616-635 | `-=` keeps its tag and equals `-` in count |
| Quantities.AddAssignCount | include/msl/quantities/quantity.hpp:594-613 | `+=` with a raw count adds it |
| Quantities.SubAssignCount | include/msl/quantities/quantity.hpp:616-635 | `-=` with a raw count subtracts it |
| Quantities.AddAssignIsAdd | include/msl/quantities/quantity.hpp:594-635 | when the operand's tag derives from the target's, `+=` and `-=` equal `+` and `-` exactly |
| Quantities.ScalarMul | include/msl/quantities/quantity.hpp:754-770 | keeps the tag, and dividing by a non-zero scalar undoes it |
| Quantities.ScalarDiv | include/msl/quantities/quantity.hpp:772-779 | keeps the tag; the count's magnitude is the magnitude of the count divided by that of the scalar, rounded down |
| Quantities.ScalarMod | include/msl/quantities/quantity.hpp:781-788 | a remainder smaller than the scalar, with the sign of the count |
| Quantities.ScalarDivMod | include/msl/quantities/quantity.hpp:754-788 | `(q / k) * k + q % k == q` |
| Quantities.Mod | include/msl/quantities/quantity.hpp:790-799 | the remainder of the counts, smaller than the divisor, with the dividend's sign, under the base tag |
| Quantities.ModAssign | include/msl/quantities/quantity.hpp:660-680 | as intended: `%=` leaves `*this % rhs` under the target's tag |
| Quantities.PointerAdd | include/msl/quantities/quantity.hpp:805-829 | the pointer moves by count elements |
| Quantities.PointerSub | include/msl/quantities/quantity.hpp:831-853 | the pointer moves back by count elements |
| Quantities.PointerRoundTrip | include/msl/quantities/quantity.hpp:805-853 | subtracting after adding restores the pointer |
| Quantities.PointerAddSum | include/msl/quantities/quantity.hpp:805-829 | adding `a + b` is adding `a` then `b` |
| DynamicStorage.DefaultSentinel | include/msl/utilities/dynamic_storage.hpp:42-44 | the default sentinel is the greatest value of `T` |
| DynamicStorage.WithDefaultSentinel | include/msl/utilities/dynamic_storage.hpp:54 | with the default sentinel, the storage is static exactly when `N` is not the maximum |
| DynamicStorage.Sentinel | include/msl/utilities/dynamic_storage.hpp:71 | the `sentinel` member is the sentinel, which is `N` in the dynamic variant |
| DynamicStorage.Construct | include/msl/utilities/dynamic_storage.hpp:189-225 | the static variant asserts `n == N`; either way `value()` then returns `n` |
| DynamicStorage.DefaultConstruct | include/msl/utilities/dynamic_storage.hpp:78 | a default static storage has value `N` |
| DynamicStorage.Value | include/msl/utilities/dynamic_storage.hpp:202-237 | `N` in the static variant, a value of `T` in both |
| DynamicStorage.Compare | include/msl/utilities/dynamic_storage.hpp:89-90 | zero exactly when equal; between dynamic objects ordered by stored value |
| DynamicStorage.EqualIffSameValue | include/msl/utilities/dynamic_storage.hpp:143-144 | memberwise equality and ordering agree with the values |
| DynamicStorage.ConstructValueRoundTrip | include/msl/utilities/dynamic_storage.hpp:189-237 | constructing from `value()` gives back the same object |
| DynamicStorage.DynamicSizeSentinel | include/msl/utilities/dynamic_storage.hpp:42-44 | with a 64-bit `size_t`, the default-sentinel storage is dynamic exactly for `N == 2^64 - 1` |

## Left out

- The operating-system backends under `src/msl/memory/posix`, `win32` and
  `default`. The address `reserve` obtains and the page size are parameters.
  `virtual_memory_commit` is taken to return the address it is given.
  `virtual_memory_page_size` is not modelled.
- `include/msl/allocator.hpp`: an unimplemented facade that does not
  compile.
- Concept headers (`pointer_like`, `nullable_pointer`, `traversable_pointer`):
  compile-time predicates with no run-time behaviour.
- Compiler glue (`intrinsics.hpp`, `assert.hpp`, `attributes.hpp`,
  `source_location.hpp`) and the thin wrappers `address.hpp`,
  `address_io.hpp` and `unaligned_utilities.hpp`.
- `std::launder` and the byte-pointer detour in `advance`. They do not change
  the address.
- Atomicity of the handler registries: the atomic exchange is a sequential
  update.
- Exception message texts. A violation carries only the request and the
  location.
- Fixed-width integers:
  - `quantity` and `digital_quantity` counts are unbounded, so `Rep`
    overflow and the `min()`/`max()` limits are not modelled;
  - `size_t` is taken as 64 bits wide for `dynamic_storage` and cells;
  - `tagged_ptr`'s `1u << Bits` needs `Bits < 32`, and the model requires it.
- Tags with several base classes: a tag has one ancestry path.
- Cross-alignment and fixed-to-dynamic conversions between cell types, and
  `rbegin`/`rend`.
- IntrusiveStacks.SizeAsWritten, IntrusiveStacks.ContainsAsWritten: a
  `fuel` bound stops the walk. The written loops need not terminate, and the
  model does not state what happens past the bound.
- DigitalQuantities.ScalarDiv: states the magnitude of the truncated
  quotient and not its sign. The body computes it with `CppIntegers.TruncDiv`,
  whose contract fixes the sign.
- Quantities.ScalarDiv: states the magnitude only, for the same reason.
- DynamicStorage.Compare: defined only for two objects of one variant,
  since the source compares objects of one specialisation.

## Findings

| source | as written | input that shows it | evidently intended | confidence | as-written member | corrected member |
|---|---|---|---|---|---|---|
| include/msl/pointers/intrusive_pointer_stack.hpp:164-167 | `pop` loads the head's link and then sets the head to `*result`, the word stored at the next node | push `a`, then `b`, then pop: the head becomes null instead of `a` | the head becomes the link stored at the old head | high, not executed | IntrusiveStacks.PopAsWrittenSkipsNode | IntrusiveStacks.PushThenPop |
| src/msl/pointers/intrusive_pointer_stack.cpp:37-61 | `contains` and `size` step from a node to `*next`, skipping a node per step | the chain `b -> a`: `size()` gives 1 and `contains(a)` gives false | follow each link once | high, not executed | IntrusiveStacks.TraversalAsWrittenSkipsNode | IntrusiveStacks.Size |
| include/msl/pointers/pointer_utilities.hpp:151-158 | `alignment_of` passes the trailing-zero count, an exponent, as the boundary | address 8 violates the contract, and the default handler's exception terminates the `noexcept` function; address 4 gives 2 | boundary `2^countr_zero(p)` | high, not executed | PointerUtilities.AlignmentOfDiscrepancy | PointerUtilities.AlignmentOfIsGreatest |
| include/msl/cells/cell.hpp:107-110 | the power-of-two check is `(Align & (Align-1)) == Align` | `Align == 8` for an 8-aligned `T` is rejected | `(Align & (Align-1)) == 0` with `Align > 0` | high, not executed | Cells.AlignmentAsWrittenRejectsEight | Cells.AlignmentAcceptedIffPowerOfTwo |
