/// Shared value wrappers: optional values, and results standing in for the
/// .NET exceptions the solutions throw.
module Wrappers {

  datatype Option<T> = None | Some(value: T)

  /// The kinds of exception the modelled code raises (or that the .NET
  /// library calls it makes raise on its behalf).
  datatype Error =
    | ArgumentOutOfRange      // an index or count outside its valid range
    | IndexOutOfRange         // array or list indexing past the end
    | KeyNotFound             // dictionary lookup of a missing key
    | InvalidOperation        // First/Single/Max on an unsuitable sequence, or an explicit guard
    | NullReference           // dereferencing an absent value
    | Argument                // an ArgumentException thrown by the solution itself
    | DivideByZero            // integer division or remainder by zero

  datatype Result<T> = Success(value: T) | Failure(error: Error)
  {
    predicate IsFailure() { Failure? }

    function PropagateFailure<U>(): Result<U>
      requires Failure?
    {
      Failure(error)
    }

    function Extract(): T
      requires Success?
    {
      value
    }
  }
}
