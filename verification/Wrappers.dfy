/** Optional values, results that may be an exception, and the larger of two numbers: what the
  * other modules have in common.
  */
module Wrappers {

  datatype Option<+T> = None | Some(value: T)

  // The exceptions that the modelled functions throw
  datatype Error =
    | FunctionExpected
    | UnknownFreeVariable
    | WrongNumberOfParameters
    | IllFormedDeclaration
    | LooseParameters
    | EmptyDeclaration

  datatype Result<+T> = Ok(result: T) | Err(error: Error)
  {
    predicate IsFailure() {
      Err?
    }

    function PropagateFailure<U>(): (r: Result<U>)
      requires Err?
    {
      Err(error)
    }

    function Extract(): T
      requires Ok?
    {
      result
    }
  }

  function Larger(a: nat, b: nat): nat {
    if a >= b then a else b
  }
}
