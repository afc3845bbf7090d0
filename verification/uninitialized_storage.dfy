/**
 `uninitialized_storage` (include/msl/utilities/uninitialized_storage.hpp),
 the older revision of `lifetime_utilities` that `cell_activator` calls.

 The construction loop and its rollback are the same algorithm, so the
 array routines run `Lifetime.ConstructArrayImpl`. What differs is what the
 older revision leaves out: it asserts no alignment, has no `n == 0` guard in
 either array overload, and never skips destructors for trivially
 destructible types.

 Line 235 of the header computes `last` from `result` before `result` is
 declared, which does not compile; the evident intent `first + n` is modelled.
 */
module UninitializedStorage {
  import opened Lifetime

  /** The older revision runs every destructor, trivial or not. */
  function AlwaysDestroys(t: TypeTraits): (u: TypeTraits)
    ensures u.Valid() == t.Valid() && !u.triviallyDestructible
    ensures u.size == t.size && u.nothrowConstructible == t.nothrowConstructible
  {
    t.(triviallyDestructible := false)
  }

  /** The same type with a one-byte alignment: nothing here checks alignment. */
  function Unaligned(t: TypeTraits): (u: TypeTraits)
    requires t.Valid()
    ensures u.Valid() && u.size == t.size && u.align == 1
    ensures u.nothrowConstructible == t.nothrowConstructible
    ensures !u.triviallyDestructible
  {
    AlwaysDestroys(t).(align := 1)
  }

  /**
   `construct_at<T>(p, args...)`: placement `new` at `p`; the result is `p`
   viewed as a `T*`.
   */
  method ConstructAt(t: TypeTraits, p: nat, args: seq<int>, fails: bool)
    returns (trace: seq<Event>, out: Outcome)
    requires t.Valid() && p > 0
    requires t.nothrowConstructible ==> !fails
    ensures !fails ==> trace == [Construct(p, args)] && out == Constructed(p)
    ensures fails ==> trace == [Fail(p)] && out == Rethrown(0)
  {
    trace, out := Lifetime.ConstructAt(Unaligned(t), p, args, fails);
  }

  /**
   `construct_array_at(p, n)`. There is no `n == 0` guard: element 0 is always
   constructed, so `n >= 1` is required.
   */
  method ConstructArrayAt(t: TypeTraits, p: nat, n: nat, fails: set<nat>)
    returns (trace: seq<Event>, out: Outcome)
    requires t.Valid() && p > 0 && n >= 1
    requires t.nothrowConstructible ==> FirstFailure(fails, n) == n
    ensures trace == ArrayTrace(p, t.size, n, [], false, fails)
    ensures out == ArrayOutcome(p, n, fails)
  {
    trace, out := ConstructArrayImpl(Unaligned(t), p, n, [], fails);
  }

  /** `construct_array_at(p, n, copy)`: as above, copy-constructing each element. */
  method ConstructArrayAtCopy(t: TypeTraits, p: nat, n: nat, copy: int, fails: set<nat>)
    returns (trace: seq<Event>, out: Outcome)
    requires t.Valid() && p > 0 && n >= 1
    requires t.nothrowConstructible ==> FirstFailure(fails, n) == n
    ensures trace == ArrayTrace(p, t.size, n, [copy], false, fails)
    ensures out == ArrayOutcome(p, n, fails)
  {
    trace, out := ConstructArrayImpl(Unaligned(t), p, n, [copy], fails);
  }

  /** `construct_from_tuple_at(p, tuple)`: the tuple's elements as arguments. */
  method ConstructFromTupleAt(t: TypeTraits, p: nat, tuple: seq<int>, fails: bool)
    returns (trace: seq<Event>, out: Outcome)
    requires t.Valid() && p > 0
    requires t.nothrowConstructible ==> !fails
    ensures !fails ==> trace == [Construct(p, tuple)] && out == Constructed(p)
    ensures fails ==> trace == [Fail(p)] && out == Rethrown(0)
  {
    trace, out := Lifetime.ConstructFromTupleAt(Unaligned(t), p, tuple, fails);
  }

  /** `destroy_at(p)`: `p->~T()`, exactly the one object at `p`. */
  method DestroyAt(p: nat) returns (trace: seq<Event>)
    requires p > 0
    ensures trace == [Destroy(p)]
  {
    trace := DestroyRange([p], false);
  }

  /** `destroy_array_at(p, n)`: `destroy_range(p, p + n)`, in forward order. */
  method DestroyArrayAt(t: TypeTraits, p: nat, n: nat) returns (trace: seq<Event>)
    requires t.Valid() && p > 0
    ensures trace == Destroys(Elements(p, t.size, n))
    ensures forall i :: 0 <= i < n ==> Occurrences(trace, Destroy(ElementAt(p, t.size, i))) == 1
  {
    trace := DestroyRange(Elements(p, t.size, n), false);
    assert trace == Destroys(Elements(p, t.size, n));
    forall i | 0 <= i < n
      ensures Occurrences(trace, Destroy(ElementAt(p, t.size, i))) == 1
    {
      DestroysEachOnce(p, t.size, n, i);
    }
  }
}
