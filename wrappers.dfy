/** Option and Result values, and the exceptions the modelled code can raise. */
module Wrappers {

  datatype Option<+T> = None | Some(value: T)

  /** The reason a JsonException is raised by the converter. */
  datatype JsonFailure =
    | ExpectedStartObject      // the value of an extensible object is not an object
    | PrematureEnd             // the reader ran out of tokens
    | ExpectedPropertyName     // a member name was expected
    | DescriptorNotString      // the type descriptor member does not hold a string
    | ExpectedValue            // an unknown member holds no value token

  datatype Error =
    | JsonException(failure: JsonFailure)
    | ArgumentException
    | ArgumentNullException
    | InvalidOperationException
    | NullReferenceException
    | InvalidCastException
    | NotSupportedException

  datatype Result<+T> = Ok(value: T) | Err(error: Error) {
    predicate IsFailure() { Err? }

    function PropagateFailure<U>(): Result<U>
      requires Err?
    {
      Err(error)
    }

    function Extract(): T
      requires Ok?
    {
      value
    }
  }
}
