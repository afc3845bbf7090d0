/**
 Object lifetime in raw storage: `lifetime_utilities`
 (include/msl/pointers/lifetime_utilities.hpp).

 Constructors and destructors are observed as an event trace. Whether a
 constructor throws is decided by an oracle: the set of element indices whose
 construction fails. The properties of `T` that the source asks about at
 compile time (`sizeof`, `alignof`, nothrow construction, trivial
 destruction) are a `TypeTraits` value.
 */
module Lifetime {
  import BitOps

  /** What a constructor or destructor call did, and at which address. */
  datatype Event =
    | Construct(addr: nat, args: seq<int>)   // a constructor ran to completion
    | Fail(addr: nat)                        // a constructor threw
    | Destroy(addr: nat)                     // a destructor ran

  /** How an array construction ended. */
  datatype Outcome =
    | Constructed(first: nat)   // every element built; the pointer to element 0
    | Rethrown(index: nat)      // the exception from element `index` propagated

  /** The compile-time facts about `T` that the routines consult. */
  datatype TypeTraits = TypeTraits(
    size: nat,                     // sizeof(T)
    align: nat,                    // alignof(T)
    nothrowConstructible: bool,    // is_nothrow_constructible_v<T, Args...>
    triviallyDestructible: bool)   // is_trivially_destructible_v<T>
  {
    /** C++ guarantees a positive size that is a multiple of the alignment. */
    predicate Valid() { size > 0 && align > 0 && size % align == 0 }
  }

  /** Element `i` of an array of `size`-byte objects starting at `p`. */
  function ElementAt(p: nat, size: nat, i: nat): nat
  {
    p + i * size
  }

  /** The addresses of elements `0, 1, …, n-1`. */
  function Elements(p: nat, size: nat, n: nat): seq<nat>
  {
    seq(n, i requires 0 <= i < n => ElementAt(p, size, i))
  }

  /** The addresses of elements `n-1, …, 1, 0`, as a reverse iterator walks them. */
  function Reversed(p: nat, size: nat, n: nat): seq<nat>
  {
    seq(n, j requires 0 <= j < n => ElementAt(p, size, n - 1 - j))
  }

  /** One construction event per address, in order. */
  function Constructs(addrs: seq<nat>, args: seq<int>): seq<Event>
  {
    seq(|addrs|, i requires 0 <= i < |addrs| => Construct(addrs[i], args))
  }

  /** One destruction event per address, in order. */
  function Destroys(addrs: seq<nat>): seq<Event>
  {
    seq(|addrs|, i requires 0 <= i < |addrs| => Destroy(addrs[i]))
  }

  /** The index of the first element whose construction fails, or `n`. */
  function FirstFailure(fails: set<nat>, n: nat): (k: nat)
    ensures k <= n
    ensures k < n ==> k in fails
    ensures forall i :: 0 <= i < k ==> i !in fails
  {
    FirstFailureFrom(fails, 0, n)
  }

  function FirstFailureFrom(fails: set<nat>, from: nat, n: nat): (k: nat)
    requires from <= n
    ensures from <= k <= n
    ensures k < n ==> k in fails
    ensures forall i :: from <= i < k ==> i !in fails
    decreases n - from
  {
    if from == n || from in fails then from else FirstFailureFrom(fails, from + 1, n)
  }

  /**
   The trace `construct_array_at_impl` produces: elements constructed in
   forward order up to the first failure; on a failure at `k`, the elements
   `k-1, …, 0` destroyed in that order (unless `T` is trivially destructible).
   */
  function ArrayTrace(p: nat, size: nat, n: nat, args: seq<int>, trivial: bool, fails: set<nat>): seq<Event>
  {
    var k := FirstFailure(fails, n);
    if k == n then Constructs(Elements(p, size, n), args)
    else Constructs(Elements(p, size, k), args) + [Fail(ElementAt(p, size, k))]
         + (if trivial then [] else Destroys(Reversed(p, size, k)))
  }

  /** The outcome matching `ArrayTrace`. */
  function ArrayOutcome(p: nat, n: nat, fails: set<nat>): Outcome
  {
    var k := FirstFailure(fails, n);
    if k == n then Constructed(p) else Rethrown(k)
  }

  /**
   `construct_at<T>(p, args...)`: the address must be aligned for `T`; the
   object is built at `p` and `p` is returned.
   */
  method ConstructAt(t: TypeTraits, p: nat, args: seq<int>, fails: bool)
    returns (trace: seq<Event>, out: Outcome)
    requires t.Valid() && p > 0 && p % t.align == 0
    requires t.nothrowConstructible ==> !fails
    ensures !fails ==> trace == [Construct(p, args)] && out == Constructed(p)
    ensures fails ==> trace == [Fail(p)] && out == Rethrown(0)
  {
    if fails {
      trace, out := [Fail(p)], Rethrown(0);
    } else {
      trace, out := [Construct(p, args)], Constructed(p);
    }
  }

  /**
   `destroy_range(first, last)`: one destructor per element, in iterator order;
   nothing for a trivially destructible type.
   */
  method DestroyRange(addrs: seq<nat>, trivial: bool) returns (trace: seq<Event>)
    ensures trivial ==> trace == []
    ensures !trivial ==> |trace| == |addrs|
    ensures !trivial ==> forall i :: 0 <= i < |addrs| ==> trace[i] == Destroy(addrs[i])
  {
    trace := [];
    if !trivial {
      var it := 0;
      while it != |addrs|
        invariant 0 <= it <= |addrs|
        invariant |trace| == it
        invariant forall i :: 0 <= i < it ==> trace[i] == Destroy(addrs[i])
      {
        trace := trace + [Destroy(addrs[it])];
        it := it + 1;
      }
    }
  }

  /** `destroy_at(p)`: the one object at `p`, unless destruction is trivial. */
  method DestroyAt(t: TypeTraits, p: nat) returns (trace: seq<Event>)
    requires p > 0
    ensures t.triviallyDestructible ==> trace == []
    ensures !t.triviallyDestructible ==> trace == [Destroy(p)]
  {
    trace := DestroyRange([p], t.triviallyDestructible);
  }

  /** `destroy_array_at(p, n)`: `destroy_range(p, p + n)`, elements in forward order. */
  method DestroyArrayAt(t: TypeTraits, p: nat, n: nat) returns (trace: seq<Event>)
    requires t.Valid() && p > 0
    ensures t.triviallyDestructible ==> trace == []
    ensures !t.triviallyDestructible ==> trace == Destroys(Elements(p, t.size, n))
    ensures !t.triviallyDestructible ==>
      forall i :: 0 <= i < n ==> Occurrences(trace, Destroy(ElementAt(p, t.size, i))) == 1
  {
    trace := DestroyRange(Elements(p, t.size, n), t.triviallyDestructible);
    if !t.triviallyDestructible {
      assert trace == Destroys(Elements(p, t.size, n));
      forall i | 0 <= i < n
        ensures Occurrences(trace, Destroy(ElementAt(p, t.size, i))) == 1
      {
        DestroysEachOnce(p, t.size, n, i);
      }
    }
  }

  /**
   `construct_array_at_impl(p, n, args...)`. Element 0 is built first, outside
   the `try`; the remaining elements follow one pointer step at a time until
   the step reaches `first + n`. A failure inside the loop destroys what was
   built, walking back from the failing element to the first, and rethrows.
   For a nothrow-constructible `T` the loop runs without the `try`.
   Every element goes through `construct_at`, which asserts that element's
   alignment; as `sizeof(T)` is a multiple of `alignof(T)`, that is the
   alignment of `p`, required here once.
   */
  method ConstructArrayImpl(t: TypeTraits, p: nat, n: nat, args: seq<int>, fails: set<nat>)
    returns (trace: seq<Event>, out: Outcome)
    requires t.Valid() && p > 0 && p % t.align == 0
    requires n != 0
    requires t.nothrowConstructible ==> FirstFailure(fails, n) == n
    ensures trace == ArrayTrace(p, t.size, n, args, t.triviallyDestructible, fails)
    ensures out == ArrayOutcome(p, n, fails)
  {
    var size := t.size;
    var first := p;
    var last := ElementAt(p, size, n);
    if 0 in fails {
      trace, out := [Fail(first)], Rethrown(0);
      return;
    }
    trace := [Construct(first, args)];
    var result := first;
    var current := result + size;
    var i := 1;
    if t.nothrowConstructible {
      while current != last
        invariant 1 <= i <= n && current == ElementAt(p, size, i)
        invariant trace == Constructs(Elements(p, size, i), args)
        decreases n - i
      {
        BitOps.StepBelow(i, n, size);
        trace := trace + [Construct(current, args)];
        current, i := current + size, i + 1;
        assert Elements(p, size, i) == Elements(p, size, i - 1) + [ElementAt(p, size, i - 1)];
      }
      BitOps.Injective(i, n, size);
    } else {
      while current != last
        invariant 1 <= i <= n && current == ElementAt(p, size, i)
        invariant trace == Constructs(Elements(p, size, i), args)
        invariant forall j :: 0 <= j < i ==> j !in fails
        decreases n - i
      {
        BitOps.StepBelow(i, n, size);
        if i in fails {
          trace := trace + [Fail(current)];
          var rollback := DestroyRange(Reversed(first, size, i), t.triviallyDestructible);
          trace := trace + rollback;
          out := Rethrown(i);
          FirstFailureIs(fails, n, i);
          return;
        }
        trace := trace + [Construct(current, args)];
        current, i := current + size, i + 1;
        assert Elements(p, size, i) == Elements(p, size, i - 1) + [ElementAt(p, size, i - 1)];
      }
      BitOps.Injective(i, n, size);
    }
    NoFailureBelow(fails, n);
    out := Constructed(result);
  }

  /** The first failure is the failing index no earlier index precedes. */
  lemma FirstFailureIs(fails: set<nat>, n: nat, k: nat)
    requires k < n && k in fails
    requires forall j :: 0 <= j < k ==> j !in fails
    ensures FirstFailure(fails, n) == k
  {
  }

  lemma NoFailureBelow(fails: set<nat>, n: nat)
    requires forall j :: 0 <= j < n ==> j !in fails
    ensures FirstFailure(fails, n) == n
  {
  }

  /**
   `construct_array_at(p, n)`, default-constructing each element. The
   implementation asserts `n != 0`, so an empty array is a precondition
   violation here.
   */
  method ConstructArrayAt(t: TypeTraits, p: nat, n: nat, fails: set<nat>)
    returns (trace: seq<Event>, out: Outcome)
    requires t.Valid() && p > 0 && p % t.align == 0
    requires n != 0
    requires t.nothrowConstructible ==> FirstFailure(fails, n) == n
    ensures trace == ArrayTrace(p, t.size, n, [], t.triviallyDestructible, fails)
    ensures out == ArrayOutcome(p, n, fails)
  {
    trace, out := ConstructArrayImpl(t, p, n, [], fails);
  }

  /**
   `construct_array_at(p, n, copy)`: with `n == 0` nothing is constructed and
   `p` comes back unchanged, before any alignment is asserted; otherwise
   every element is copy-constructed.
   */
  method ConstructArrayAtCopy(t: TypeTraits, p: nat, n: nat, copy: int, fails: set<nat>)
    returns (trace: seq<Event>, out: Outcome)
    requires t.Valid() && p > 0 && (n > 0 ==> p % t.align == 0)
    requires t.nothrowConstructible ==> FirstFailure(fails, n) == n
    ensures n == 0 ==> trace == [] && out == Constructed(p)
    ensures n != 0 ==> trace == ArrayTrace(p, t.size, n, [copy], t.triviallyDestructible, fails)
    ensures out == ArrayOutcome(p, n, fails)
  {
    if n == 0 {
      trace, out := [], Constructed(p);
      return;
    }
    trace, out := ConstructArrayImpl(t, p, n, [copy], fails);
  }

  /**
   `construct_from_tuple_at(p, tuple)`: `construct_at(p, get<0>(tuple), …,
   get<N-1>(tuple))`, the tuple's elements as arguments in positional order.
   */
  method ConstructFromTupleAt(t: TypeTraits, p: nat, tuple: seq<int>, fails: bool)
    returns (trace: seq<Event>, out: Outcome)
    requires t.Valid() && p > 0 && p % t.align == 0
    requires t.nothrowConstructible ==> !fails
    ensures !fails ==> trace == [Construct(p, tuple)] && out == Constructed(p)
    ensures fails ==> trace == [Fail(p)] && out == Rethrown(0)
  {
    var unpacked := seq(|tuple|, idx requires 0 <= idx < |tuple| => tuple[idx]);
    assert unpacked == tuple;
    trace, out := ConstructAt(t, p, unpacked, fails);
  }

  // ---------------------------------------------------------------------------
  // Properties of the traces
  // ---------------------------------------------------------------------------

  /** How many times an event occurs in a trace. */
  function Occurrences(trace: seq<Event>, e: Event): nat
  {
    multiset(trace)[e]
  }

  /**
   The rollback after a failure at `k` destroys elements `k-1, …, 0`: each
   index below `k` exactly once, in strictly decreasing address order, and
   nothing at or beyond `k`.
   */
  lemma {:induction false} RollbackDestroysEachOnce(p: nat, size: nat, k: nat, i: nat)
    requires size > 0
    ensures i < k ==> Occurrences(Destroys(Reversed(p, size, k)), Destroy(ElementAt(p, size, i))) == 1
    ensures i >= k ==> Occurrences(Destroys(Reversed(p, size, k)), Destroy(ElementAt(p, size, i))) == 0
  {
    if k > 0 {
      var rest := Destroys(Reversed(p, size, k - 1));
      assert Destroys(Reversed(p, size, k)) == [Destroy(ElementAt(p, size, k - 1))] + rest;
      RollbackDestroysEachOnce(p, size, k - 1, i);
      if i != k - 1 {
        BitOps.Injective(i, k - 1, size);
      }
    }
  }

  lemma RollbackDescends(p: nat, size: nat, k: nat, a: nat, b: nat)
    requires size > 0 && a < b < k
    ensures Destroys(Reversed(p, size, k))[a].addr > Destroys(Reversed(p, size, k))[b].addr
  {
    assert Reversed(p, size, k)[a] == ElementAt(p, size, k - 1 - a);
    assert Reversed(p, size, k)[b] == ElementAt(p, size, k - 1 - b);
    BitOps.StrictlyBelow(k - 1 - b, k - 1 - a, size);
  }

  /**
   Every element constructed before a failure is destroyed again: in the
   trace of a failed array construction, each index below the failing one is
   constructed once and destroyed once, the failing element is attempted once
   and never destroyed, and no later element is touched.
   */
  lemma {:induction false} FailedTraceBalanced(p: nat, size: nat, n: nat, args: seq<int>, fails: set<nat>, i: nat)
    requires size > 0
    requires FirstFailure(fails, n) < n
    ensures var k := FirstFailure(fails, n);
            var trace := ArrayTrace(p, size, n, args, false, fails);
            var a := ElementAt(p, size, i);
            && (i < k ==>
                  Occurrences(trace, Construct(a, args)) == 1 && Occurrences(trace, Destroy(a)) == 1)
            && (i == k ==>
                  Occurrences(trace, Fail(a)) == 1 && Occurrences(trace, Construct(a, args)) == 0
                  && Occurrences(trace, Destroy(a)) == 0)
            && (i > k ==>
                  Occurrences(trace, Construct(a, args)) == 0 && Occurrences(trace, Fail(a)) == 0
                  && Occurrences(trace, Destroy(a)) == 0)
  {
    var k := FirstFailure(fails, n);
    var a := ElementAt(p, size, i);
    var built := Constructs(Elements(p, size, k), args);
    var rollback := Destroys(Reversed(p, size, k));
    assert ArrayTrace(p, size, n, args, false, fails) == built + [Fail(ElementAt(p, size, k))] + rollback;
    ConstructsOnce(p, size, k, args, i);
    RollbackDestroysEachOnce(p, size, k, i);
    NoDestroyInConstructs(Elements(p, size, k), args, a);
    NoOtherInDestroys(Reversed(p, size, k), a, args);
    if i != k {
      BitOps.Injective(i, k, size);
    }
  }

  /** A forward construction run builds each element below `k` once. */
  lemma {:induction false} ConstructsOnce(p: nat, size: nat, k: nat, args: seq<int>, i: nat)
    requires size > 0
    ensures Occurrences(Constructs(Elements(p, size, k), args), Construct(ElementAt(p, size, i), args))
         == if i < k then 1 else 0
    ensures Occurrences(Constructs(Elements(p, size, k), args), Fail(ElementAt(p, size, i))) == 0
  {
    if k > 0 {
      assert Elements(p, size, k) == Elements(p, size, k - 1) + [ElementAt(p, size, k - 1)];
      assert Constructs(Elements(p, size, k), args)
          == Constructs(Elements(p, size, k - 1), args) + [Construct(ElementAt(p, size, k - 1), args)];
      ConstructsOnce(p, size, k - 1, args, i);
      if i != k - 1 {
        BitOps.Injective(i, k - 1, size);
      }
    }
  }

  /** A forward destruction run destroys each element below `n` once. */
  lemma {:induction false} DestroysEachOnce(p: nat, size: nat, n: nat, i: nat)
    requires size > 0
    ensures Occurrences(Destroys(Elements(p, size, n)), Destroy(ElementAt(p, size, i)))
         == if i < n then 1 else 0
  {
    if n > 0 {
      assert Elements(p, size, n) == Elements(p, size, n - 1) + [ElementAt(p, size, n - 1)];
      assert Destroys(Elements(p, size, n))
          == Destroys(Elements(p, size, n - 1)) + [Destroy(ElementAt(p, size, n - 1))];
      DestroysEachOnce(p, size, n - 1, i);
      if i != n - 1 {
        BitOps.Injective(i, n - 1, size);
      }
    }
  }

  lemma NoDestroyInConstructs(addrs: seq<nat>, args: seq<int>, a: nat)
    ensures Occurrences(Constructs(addrs, args), Destroy(a)) == 0
  {
    assert Destroy(a) !in Constructs(addrs, args);
  }

  lemma NoOtherInDestroys(addrs: seq<nat>, a: nat, args: seq<int>)
    ensures Occurrences(Destroys(addrs), Construct(a, args)) == 0
    ensures Occurrences(Destroys(addrs), Fail(a)) == 0
  {
    assert Construct(a, args) !in Destroys(addrs);
    assert Fail(a) !in Destroys(addrs);
  }

  /**
   Without a failure the array trace is the plain forward construction, so
   the no-throw branch (which has no rollback) and the throwing branch agree.
   */
  lemma NoFailureSameTrace(p: nat, size: nat, n: nat, args: seq<int>, fails: set<nat>)
    requires FirstFailure(fails, n) == n
    ensures ArrayTrace(p, size, n, args, false, fails) == ArrayTrace(p, size, n, args, true, {})
    ensures ArrayTrace(p, size, n, args, true, fails) == Constructs(Elements(p, size, n), args)
  {
    NoFailureBelow({}, n);
  }
}
