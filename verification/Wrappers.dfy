/** Results of operations that may throw. The four errors are the exception classes of
    src/errors/errors.h; their messages and positions are not part of the model. */
module Wrappers {

  datatype Option<+T> = None | Some(value: T)

  datatype Error = SecurityError | RuntimeError | LexerError | ParserError

  datatype Result<+T> = Ok(value: T) | Err(error: Error) {
    predicate IsFailure() { Err? }

    function PropagateFailure<U>(): Result<U>
      requires Err?
    {
      Err(error)
    }

    function Extract(): T
      requires Ok?
    {
      value
    }
  }
}
