/** Small wrapper types shared by the routine interpreter and the container. */
module Basics {

  /** Rust's `Option`: the tail offset of the last exit jump, the value a routine call returns. */
  datatype Option<T> = None | Some(value: T)

  /** The two ways a user-facing operation of the list can fail. */
  datatype Fault =
    | OutOfBounds   // `check_index`: the index is not below the current length
    | Overflow      // the index does not fit the routine's 32-bit argument

  /** The outcome of an operation that returns a value. */
  datatype Result<T> = Ok(value: T) | Err(fault: Fault)

  /** The outcome of an operation that returns nothing. */
  datatype Outcome = Pass | Fail(fault: Fault)

  /** Largest value of a Rust `i32`. */
  const I32Max: nat := 0x7FFF_FFFF
}
