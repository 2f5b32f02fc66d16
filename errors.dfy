/** Optional values, results, and the ways a compilation can fail. */
module Errors {

  datatype Option<T> = None | Some(value: T)
  {
    predicate IsFailure() {
      None?
    }

    function PropagateFailure<U>(): Option<U>
      requires None?
    {
      None
    }

    function Extract(): T
      requires Some?
    {
      value
    }
  }

  /** The Python exception classes that can escape from a compilation, and
      the panic of a Rust arm that is not written yet. */
  datatype ErrorKind =
    | ParseError      // the grammar rejects the pattern
    | CompileError    // the pattern is well-formed but meaningless
    | ValueError      // a malformed argument reached an IR constructor
    | TypeError       // a call with an unexpected keyword argument
    | AssertionError  // an `assert` in the source failed
    | AttributeError  // an object lacks the method that was called
    | KeyError        // a dictionary has no entry under the key looked up
    | Unimplemented   // a Rust `todo!()` was reached

  datatype Result<T> = Ok(value: T) | Err(kind: ErrorKind, message: string)
  {
    predicate IsFailure() {
      Err?
    }

    function PropagateFailure<U>(): Result<U>
      requires Err?
    {
      Err(kind, message)
    }

    function Extract(): T
      requires Ok?
    {
      value
    }
  }
}
