/** Shared vocabulary of the model: the exceptions the scripts can raise and
    the wrappers that carry them. */
module Base {

  /** The Python exceptions that the modelled code can raise on bad input. */
  datatype Error =
    | IndexError            // a list or index position that does not exist
    | KeyError(key: string) // a dictionary or set lookup that fails
    | TypeError             // '[!]' + a number, or a string compared with a number
    | AttributeError        // a lookup on a configuration entry that is None

  /** Either the value a Python call returns or the exception it raises. */
  datatype Result<T> = Ok(value: T) | Err(error: Error)

  datatype Option<T> = None | Some(value: T)

  /** No element occurs twice. */
  ghost predicate NoDup<T>(s: seq<T>) {
    forall i, j :: 0 <= i < j < |s| ==> s[i] != s[j]
  }
}
