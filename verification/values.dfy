/** Shared vocabulary of the three scheduler variants: optional values, the closed
    universe of task results, and the errors the library throws. */
module Values {

  /** `Optional<T>` / `std::optional<T>`. */
  datatype Option<+T> = None | Some(value: T)

  /** The results a task can produce. Templates over the result type are replaced by one
      closed datatype; `VoidResult` is the unit value a `Task<void>` yields inside the
      result tuples of `All` and `Any`. */
  datatype Value =
    | VoidResult
    | Int(i: int)
    | Tuple(items: seq<Value>)
    | Opt(o: Option<Value>)

  /** Logic errors the library raises itself (`throw Error{...}` / `std::runtime_error`). */
  datatype Fault =
    | NotCompleted          // result read before the body produced one
    | ResultTakenTwice      // Core.hpp promise: a second value() call
    | NotInitialized        // backend operation without a live backend instance
    | AlreadyInitialized    // a second backend instance
    | RemoveRunning         // CoTaskLib.hpp / CoTask.hpp: unregistering the running task
    | InitTimingYield       // CoTaskLib.hpp: co_yield FrameTiming::Init
    | TooDeeplyNested       // CoTask.hpp: nest level above the maximum
    | NullTask              // CoTask.hpp: registering a null task
    | SourceTakenTwice      // TaskFinishSource::result() after it was consumed
    | SourceEmpty           // TaskFinishSource::result() without a result
    | ExecutorInconsistent  // OrderedExecutor consistency checks

  /** Anything a call can throw: a library fault, a failure raised by a task body, or a
      failure raised by a user callback. */
  datatype Exn =
    | Logic(fault: Fault)
    | BodyFailure(code: int)
    | CallbackFailure(tag: nat)

  /** A call that either returns a value or throws. */
  datatype Result<+T> = Ok(value: T) | Err(error: Exn)

  /** The first of two pending exceptions, as kept by a loop that remembers only the
      earliest one. */
  function FirstOf(a: Option<Exn>, b: Option<Exn>): (r: Option<Exn>)
    ensures a.Some? ==> r == a
    ensures a.None? ==> r == b
  {
    if a.Some? then a else b
  }
}
