/** Failure-compatible wrappers for the exceptions the tree library raises.
    The library raises a Python `KeyError`, with the messages the
    constructors below keep apart, or an `AttributeError` where an operation
    asks the empty sentinel for an attribute it lacks. */
module Results {

  /** The errors raised by the tree operations. */
  datatype Error =
    | DeleteMissing(entry: int)        // sentinel `delete`: "KeyError: <entry>"
    | EntryNotFound(entry: int)        // `_search`: "Entry <entry> not found."
    | PredecessorNotFound(entry: int)  // `pred`: "Predecessor of <entry> not found."
    | SuccessorNotFound(entry: int)    // `succ`: "Successor of <entry> not found."
    | MissingAttribute                 // the empty sentinel lacks the attribute asked for

  datatype Option<+T> = None | Some(value: T)

  datatype Result<+T> = Ok(value: T) | Err(error: Error) {

    predicate IsFailure() {
      Err?
    }

    function PropagateFailure<U>(): Result<U>
      requires Err?
    {
      Err(error)
    }

    function Extract(): T
      requires Ok?
    {
      value
    }
  }
}
