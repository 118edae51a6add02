/** Failure outcomes of the container classes, and values that may be `nullptr`.
    The C++ code throws `IndexOutOfRange` (an index outside 0..size-1, or a slot
    that was never assigned) and `std::bad_array_new_length` (a negative size);
    here these are values returned to the caller. */
module Outcomes {

  datatype Error = IndexOutOfRange | BadArrayNewLength

  /** A value, or the exception that the C++ operation throws instead. */
  datatype Result<+T> = Ok(value: T) | Err(error: Error)

  /** The outcome of an operation that returns nothing on success. */
  datatype Outcome = Pass | Fail(error: Error)

  /** A node reference that may be `nullptr`. */
  datatype Option<T> = None | Some(value: T)
}
