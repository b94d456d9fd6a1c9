/** The optional value (a C# nullable or null reference) and the outcome of a call
 *  that may end with an exception instead of returning. */
module Wrappers {
  datatype Option<T> = None | Some(value: T)

  /** A call either returns a value or is aborted by an exception carrying a message
   *  (for instance the store refusing a row that breaks one of its unique indexes). */
  datatype Call<T> = Returns(value: T) | Throws(error: string)
}
