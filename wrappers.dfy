/** Option and Result, the two failure-carrying wrappers the model uses for
    Python's `None` returns and for the exceptions the source raises. */
module Wrappers {

  datatype Option<+T> = None | Some(value: T) {
    predicate IsFailure() { None? }

    function PropagateFailure<U>(): Option<U>
      requires None?
    {
      None
    }

    function Extract(): T
      requires Some?
    {
      value
    }
  }

  /** What the Python code raises. `Unsupported` is the `NotImplementedError`
      of the term builders; the others are the built-in exceptions the code
      runs into on inputs it does not guard against; `SolverError` is what
      cvc5 raises on a term it refuses, an n-ary operator given fewer than
      two children. */
  datatype Failure =
    | Unsupported(what: string)
    | SolverError(what: string)
    | IndexError(what: string)
    | KeyError(key: string)
    | AttributeError(what: string)

  datatype Result<+T> = Ok(value: T) | Err(error: Failure) {
    predicate IsFailure() { Err? }

    function PropagateFailure<U>(): Result<U>
      requires Err?
    {
      Err(error)
    }

    function Extract(): T
      requires Ok?
    {
      value
    }
  }
}
