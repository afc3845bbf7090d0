/**
 `cell_activator` (include/msl/cells/cell_activator.hpp): the only way from a
 `cell` to an `active_cell` and back. Activation constructs objects into the
 cell's storage through `uninitialized_storage` and only then nulls the
 consumed cell, so a throwing constructor leaves the cell as it was.
 Deactivation destroys the objects and hands back a cell over the same
 storage.

 The header does not compile as written: every activation asserts on an
 undeclared `p`, the `T[N]` overloads build an `active_cell<T[]>` for an
 `active_cell<T[N]>` result, and the array `deactivate` overloads are
 declared to return `cell<T>`. The evident intent is modelled: the assertion
 is on the consumed cell, and each overload returns the shape it was given.
 */
module CellActivator {
  import opened Cells
  import opened Lifetime
  import UninitializedStorage

  /** How an activation ended. */
  datatype Activation =
    | Activated(active: Handle)   // the new active cell
    | Threw(index: nat)           // the constructor of element `index` threw

  /**
   The facts about `T` that construction consults; `nothrow` is the
   `noexcept` condition of the overload (`is_nothrow_..._constructible_v`).
   */
  function Traits(ct: CellType, nothrow: bool): (t: TypeTraits)
    requires ct.Admissible()
    ensures t.Valid() && t.size == ct.size && t.nothrowConstructible == nothrow
  {
    TypeTraits(ct.size, ct.elemAlign, nothrow, false)
  }

  /**
   `activate(c, args...)` for a scalar cell: one `T` is built at
   `c.data()`. On success the result points there and `c` is left null; if
   the constructor throws, the exception propagates and `c` is untouched.
   */
  method Activate(ct: CellType, c: Handle, args: seq<int>, nothrow: bool, fails: bool)
    returns (trace: seq<Event>, r: Activation, rest: Handle)
    requires Valid(ct, c) && ct.shape.Single?
    requires AsBool(c)
    requires nothrow ==> !fails
    ensures !fails ==> trace == [Construct(Data(c), args)]
    ensures fails ==> trace == [Fail(Data(c))]
    ensures r.Activated? <==> !fails
    ensures r.Activated? ==> Valid(ct, r.active) && Equal(ct, r.active, c) && rest == Default(ct)
    ensures r.Threw? ==> r.index == 0 && rest == c
  {
    var out;
    trace, out := UninitializedStorage.ConstructAt(Traits(ct, nothrow), c.data, args, fails);
    if out.Rethrown? {
      r, rest := Threw(out.index), c;
    } else {
      r, rest := Activated(Handle(out.first, 0)), Default(ct);
    }
  }

  /** What each array element is constructed from. */
  datatype Source = DefaultInit | CopyOf(value: int)
  {
    /** The constructor arguments the source passes to every element. */
    function Args(): seq<int>
    {
      match this
      case DefaultInit => []
      case CopyOf(v) => [v]
    }
  }

  /**
   The shared body of the `activate_array` overloads for `T[]` and `T[N]`:
   `length()` elements (the stored count, or `N`) are built at `c.data()`.
   The older construction routine has no empty-array guard, so the cell must
   not be empty.
   */
  method ActivateArray(ct: CellType, c: Handle, from: Source, nothrow: bool, fails: set<nat>)
    returns (trace: seq<Event>, r: Activation, rest: Handle)
    requires Valid(ct, c) && !ct.shape.Single?
    requires AsBool(c) && Length(ct, c) >= 1
    requires nothrow ==> FirstFailure(fails, Length(ct, c)) == Length(ct, c)
    ensures trace == ArrayTrace(Data(c), ct.size, Length(ct, c), from.Args(), false, fails)
    ensures r.Activated? <==> FirstFailure(fails, Length(ct, c)) == Length(ct, c)
    ensures r.Activated? ==> Valid(ct, r.active) && Equal(ct, r.active, c) && rest == Default(ct)
    ensures r.Threw? ==> r.index == FirstFailure(fails, Length(ct, c)) && rest == c
  {
    var out;
    match from {
      case DefaultInit =>
        trace, out := UninitializedStorage.ConstructArrayAt(Traits(ct, nothrow), c.data, Length(ct, c), fails);
      case CopyOf(v) =>
        trace, out := UninitializedStorage.ConstructArrayAtCopy(Traits(ct, nothrow), c.data, Length(ct, c), v, fails);
    }
    if out.Rethrown? {
      r, rest := Threw(out.index), c;
    } else {
      r, rest := Activated(Handle(out.first, c.stored)), Default(ct);
    }
  }

  /**
   `deactivate(c)`: destroys the one object, or `length()` elements in
   forward order, and returns a cell over the same address and length.
   Destroying through a null handle would be undefined, so `c` is non-null.
   */
  method Deactivate(ct: CellType, a: Handle) returns (trace: seq<Event>, c: Handle)
    requires Valid(ct, a) && AsBool(a)
    ensures trace == Destroys(Elements(Data(a), ct.size, Length(ct, a)))
    ensures forall i :: 0 <= i < Length(ct, a) ==>
      Occurrences(trace, Destroy(ElementAt(Data(a), ct.size, i))) == 1
    ensures Valid(ct, c) && Equal(ct, c, a)
  {
    if ct.shape.Single? {
      trace := UninitializedStorage.DestroyAt(a.data);
      assert Elements(a.data, ct.size, 1) == [a.data];
      DestroysEachOnce(a.data, ct.size, 1, 0);
    } else {
      trace := UninitializedStorage.DestroyArrayAt(Traits(ct, true), a.data, Length(ct, a));
    }
    c := a;
  }

  /**
   Activating an array cell and deactivating the result: when no constructor
   throws, every element sees exactly one construction and one destruction
   and no failed construction.
   */
  method ActivateThenDeactivate(ct: CellType, c: Handle, from: Source, nothrow: bool, fails: set<nat>)
    returns (trace: seq<Event>, cell: Handle)
    requires Valid(ct, c) && !ct.shape.Single?
    requires AsBool(c) && Length(ct, c) >= 1
    requires FirstFailure(fails, Length(ct, c)) == Length(ct, c)
    ensures forall i :: 0 <= i < Length(ct, c) ==>
      var e := ElementAt(Data(c), ct.size, i);
      Occurrences(trace, Construct(e, from.Args())) == 1
      && Occurrences(trace, Destroy(e)) == 1
      && Occurrences(trace, Fail(e)) == 0
    ensures Valid(ct, cell) && Equal(ct, cell, c)
  {
    var built, r, rest := ActivateArray(ct, c, from, nothrow, fails);
    var destroyed;
    destroyed, cell := Deactivate(ct, r.active);
    trace := built + destroyed;
    forall i | 0 <= i < Length(ct, c)
      ensures var e := ElementAt(Data(c), ct.size, i);
        Occurrences(trace, Construct(e, from.Args())) == 1
        && Occurrences(trace, Destroy(e)) == 1
        && Occurrences(trace, Fail(e)) == 0
    {
      RoundTripBalanced(Data(c), ct.size, Length(ct, c), from.Args(), fails, i);
    }
  }

  /**
   A construction run that met no failure, followed by a forward destruction
   run over the same elements, is balanced element by element.
   */
  lemma RoundTripBalanced(p: nat, size: nat, n: nat, args: seq<int>, fails: set<nat>, i: nat)
    requires size > 0 && i < n
    requires FirstFailure(fails, n) == n
    ensures var t := ArrayTrace(p, size, n, args, false, fails) + Destroys(Elements(p, size, n));
      var e := ElementAt(p, size, i);
      Occurrences(t, Construct(e, args)) == 1 && Occurrences(t, Destroy(e)) == 1
      && Occurrences(t, Fail(e)) == 0
  {
    var e := ElementAt(p, size, i);
    var built := Constructs(Elements(p, size, n), args);
    var destroyed := Destroys(Elements(p, size, n));
    NoFailureSameTrace(p, size, n, args, fails);
    assert multiset(built + destroyed) == multiset(built) + multiset(destroyed);
    ConstructsOnce(p, size, n, args, i);
    DestroysEachOnce(p, size, n, i);
    NoDestroyInConstructs(Elements(p, size, n), args, e);
    NoOtherInDestroys(Elements(p, size, n), e, args);
  }
}
