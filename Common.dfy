/** Small failure-carrying datatypes shared by all modules. */
module Common {

  datatype Option<+T> = None | Some(value: T)

  /** The .NET exceptions that the modelled code can raise. */
  datatype Exception =
    | ArgumentOutOfRange   // index or duration out of range
    | ArgumentNull         // a null dictionary key
    | DuplicateKey         // Dictionary.Add of a key already present
    | InvalidCast          // an explicit cast that does not hold
    | MissingMethod        // Activator.CreateInstance found no matching constructor
    | IndexOutOfRange      // array index past the end

  datatype Result<+T> = Ok(value: T) | Err(error: Exception)
}
