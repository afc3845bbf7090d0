/**
 The two contract-violation handler registries: `alignment_contract`
 (src/msl/quantities/alignment.cpp) and `not_null_contract`
 (src/msl/pointers/not_null.cpp).

 Each registry is one global cell holding a function pointer. `set` swaps a
 new handler in and hands back the old one; `violate` calls whatever is
 installed and, should that call come back, aborts. The atomic exchange is
 modelled as a plain sequential update.
 */
module Contracts {

  /** A `source_location`, reduced to an identifier. */
  type Location = nat

  /** What a user-supplied handler does when it is called. */
  datatype Behaviour = Throws | Returns

  /** A value of the `violation_handler` function-pointer type. */
  datatype Handler =
    | NullHandler                              // the zero-initialised pointer
    | DefaultHandler                           // the library's own `default_handler`
    | Custom(id: nat, behaviour: Behaviour)    // anything a caller installs

  /** The exception object a default handler throws. */
  datatype Violation =
    | AlignmentViolation(request: nat, where: Location)
    | NotNullViolation(where: Location)

  /**
   How a call that violates a contract ends. There is no constructor for
   "returned normally": `violate` is `[[noreturn]]`.
   */
  datatype Unwind =
    | Raised(violation: Violation)   // the default handler threw
    | CustomRaised(id: nat)          // a custom handler threw
    | Aborted                        // the handler returned, then `std::abort`
    | NullCall                       // a null handler was invoked: undefined behaviour
    | Terminated                     // an exception reached a `noexcept` boundary

  /**
   How an unwinding ends once it meets a `noexcept` function: an exception
   cannot leave it, so `std::terminate` is called instead; an abort or a
   null call happens before anything reaches the boundary.
   */
  function ThroughNoexcept(u: Unwind): (r: Unwind)
    ensures r == Terminated <==> u.Raised? || u.CustomRaised? || u == Terminated
    ensures !r.Raised? && !r.CustomRaised?
    ensures r != Terminated ==> r == u
  {
    match u
    case Raised(_) => Terminated
    case CustomRaised(_) => Terminated
    case _ => u
  }

  /** Either the value an operation returns, or how it unwound instead. */
  datatype Checked<T> = Returned(value: T) | Unwound(how: Unwind)

  /** One registry: the handler currently installed. */
  datatype Registry = Registry(installed: Handler)

  /** `alignment_contract`'s registry before any `set`: zero-initialised. */
  function AlignmentRegistry(): (r: Registry)
    ensures Get(r) == NullHandler
  {
    Registry(NullHandler)
  }

  /** `not_null_contract`'s registry before any `set`: the default handler. */
  function NotNullRegistry(): (r: Registry)
    ensures Get(r) == DefaultHandler
  {
    Registry(DefaultHandler)
  }

  /** `get_violation_handler` */
  function Get(reg: Registry): Handler
  {
    reg.installed
  }

  /**
   `set_violation_handler(h)`: installs `h`, or the default handler when `h`
   is null, and returns the previously installed handler.
   */
  function Set(reg: Registry, h: Handler): (r: (Registry, Handler))
    ensures r.1 == Get(reg)
    ensures h != NullHandler ==> Get(r.0) == h
    ensures h == NullHandler ==> Get(r.0) == DefaultHandler
    ensures Get(r.0) != NullHandler
  {
    if h == NullHandler then (Registry(DefaultHandler), reg.installed)
    else (Registry(h), reg.installed)
  }

  /**
   `violate`: invokes the installed handler with the violation and aborts if
   that handler returns.
   */
  function Violate(reg: Registry, v: Violation): (r: Unwind)
    ensures Get(reg) == DefaultHandler <==> r == Raised(v)
    ensures Get(reg) == NullHandler <==> r == NullCall
    ensures r == Aborted <==> Get(reg).Custom? && Get(reg).behaviour == Returns
    ensures r.CustomRaised? <==> Get(reg).Custom? && Get(reg).behaviour == Throws
    ensures r.CustomRaised? ==> r.id == Get(reg).id
    ensures r != Terminated
  {
    match reg.installed
    case NullHandler => NullCall
    case DefaultHandler => Raised(v)
    case Custom(id, Throws) => CustomRaised(id)
    case Custom(_, Returns) => Aborted
  }

  /**
   Putting back the handler that `set` returned restores the registry, except
   that a null handler cannot be put back: `set(nullptr)` installs the default.
   */
  lemma SetRestore(reg: Registry, h: Handler)
    ensures var (reg', previous) := Set(reg, h);
            var (reg'', back) := Set(reg', previous);
            (Get(reg) != NullHandler ==> reg'' == reg)
            && (Get(reg) == NullHandler ==> Get(reg'') == DefaultHandler)
            && (h != NullHandler ==> back == h)
  {
  }
}
