/** Failure values shared by the cipher library.  The exceptions the library
    raises itself, and the KeyError of a failed dict lookup, become a
    `Failure`; a division by zero or an index error is excluded by a
    precondition instead. */
module Results {

  /** The three kinds of failure the model reports. */
  datatype CipherError =
    | InvalidKey                // bad Rail Fence row count or Permutation key
    | LookupFailure(c: char)    // Substitution: `c` is missing from the table
    | LengthMismatch            // xor on operands of different lengths

  /** A slot that may still be empty (Python's `None` placeholder). */
  datatype Option<+T> = None | Some(value: T)

  datatype Result<+T> = Success(value: T) | Failure(error: CipherError)
}
