/** Optional values (Java's null) and results of operations that can throw. */
module Wrappers {

  datatype Option<+T> = None | Some(value: T)

  /** The runtime exceptions the decoder can raise. */
  datatype Error =
    | NullPointer             // a lookup table had no entry for a code
    | ArrayIndexOutOfBounds   // a split produced too few parts
    | StringIndexOutOfBounds  // a substring of an empty part

  datatype Result<+T> = Ok(value: T) | Err(error: Error)
}
