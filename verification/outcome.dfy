/** Outcomes of include expansion.

    The transformer has three distinguishable outcomes: success, a missing
    fragment that a later build pass may still resolve (the retryable
    IncompleteElementException), and fatal errors (BuilderException, and the
    errors the model gives to the source's null dereferences and to
    unbounded recursion on cyclic fragments).
 */
module Outcome {

  /** The fatal errors of one expansion. */
  datatype BuildError =
    | DuplicateVariable(variable: string)          // two declarations of one name at one include site
    | MissingAttribute(element: string, attr: string) // a required attribute is absent
    | DepthExceeded                                // the recursion bound ran out (cyclic fragments)

  /** Result of an expansion step; failure-compatible so that `:-` propagates
      the first failure, as an exception aborts the whole Java call. */
  datatype Result<+T> =
    | Ok(value: T)
    | Deferred(refid: string)   // fragment not registered yet: retry the statement later
    | Fatal(error: BuildError)  // authoring error: do not retry
  {
    predicate IsFailure() {
      !Ok?
    }

    function PropagateFailure<U>(): Result<U>
      requires !Ok?
    {
      if Deferred? then Deferred(refid) else Fatal(error)
    }

    function Extract(): T
      requires Ok?
    {
      value
    }
  }
}
