/** Results and errors shared by every part of the model. */
module Wrappers {

  datatype Option<+T> = None | Some(value: T)

  /** The Python exceptions the modelled code can raise. */
  datatype Error =
    | KeyError(key: string)           // a missing column, config key or index label
    | TypeError                       // an operation applied to a value of the wrong type
    | AttributeError                  // a string method called on a value that is not a string
    | ValueError                      // e.g. `list.index` finding nothing, `pd.concat` of nothing
    | IndexError                      // indexing past the end of a sequence
    | UnsupportedFileType(name: string) // `UnsupportedFileTypeException`

  datatype Result<+T> = Ok(value: T) | Err(error: Error) {
    predicate IsFailure() { Err? }
    function PropagateFailure<U>(): Result<U>
      requires Err?
    {
      Err(error)
    }
    function Extract(): T
      requires Ok?
    {
      value
    }
  }

  /**
   * A method that raises instead of returning reports `Some(error)`;
   * `failure` tells the same story as the specification's `r`.
   */
  predicate Reports<T>(failure: Option<Error>, r: Result<T>)
  {
    (failure.None? <==> r.Ok?) && (r.Err? ==> failure == Some(r.error))
  }
}
