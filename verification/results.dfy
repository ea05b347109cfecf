/**
 * Outcomes of YashoDB operations.  Every Java exception the core can throw
 * becomes an `Error` value; an operation that can fail returns a `Result`
 * (a `Result<()>` when the Java method returns nothing).
 */
module Results {

  datatype Error =
    | Usage             // DBUseException: the operation does not apply to this kind of view
    | Format            // DBFormatException: a walk met a byte that is not a chain tag
    | Access            // DBAccessException: an IOException (end of file, bad seek, oversized string)
    | IllegalState      // IllegalStateException
    | IllegalArgument   // IllegalArgumentException (bad index, bad key, bad value)
    | Runtime           // RuntimeException raised by the engine itself
    | NullPointer       // NullPointerException reached through a missing filter
    | IndexOutOfBounds  // IndexOutOfBoundsException / ArrayIndexOutOfBoundsException
    | NegativeSize      // NegativeArraySizeException (a negative key length on disk)
    | NumberFormat      // NumberFormatException from Long.parseLong
    | Json              // JSONException from the parser
    | ValueType         // ValueTypeException from the typed getters
    | BackwardLink      // a chain link that does not move forward: the model stops instead of seeking back
    | ClassCast         // ClassCastException: appending to a filter that takes no inner filter

  datatype Result<+T> = Ok(value: T) | Err(error: Error)
  {
    predicate IsFailure() { Err? }
    function PropagateFailure<U>(): Result<U> requires Err? { Err(error) }
    function Extract(): T requires Ok? { value }
  }

  datatype Option<+T> = None | Some(value: T)
}
