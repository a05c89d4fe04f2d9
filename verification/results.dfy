/** Option and Result types used across the model.

    The C# code signals failures by throwing from the .NET string and regex
    calls it makes; a throw aborts the whole save. The model returns `Err` with
    the call that would have thrown instead.
 */
module Results {

  datatype Option<+T> = None | Some(value: T)

  /** The .NET calls whose checks the save step can trip. */
  datatype Failure =
    | IndexOfStartOutOfRange    // String.IndexOf(value, startIndex) with startIndex > Length
    | MatchWindowOutOfRange     // Regex.Match(input, beginning, length): beginning or length outside the input
    | ScanPastEnd               // Regex.Match scanning a window that runs past the end of the input
    | InsertIndexOutOfRange     // String.Insert(startIndex, value) with startIndex > Length
    | SubstringOutOfRange       // String.Substring(startIndex, length) outside the string

  /** A result that `:-` can propagate: an `Err` aborts the caller with the same failure. */
  datatype Result<+T> = Ok(value: T) | Err(failure: Failure) {

    predicate IsFailure() {
      Err?
    }

    function PropagateFailure<U>(): (r: Result<U>)
      requires Err?
    {
      Err(failure)
    }

    function Extract(): (v: T)
      requires Ok?
    {
      value
    }
  }
}
