/** Outcomes of decoding, and values read from the front of a buffer. */
module Parsing {
  import opened Ber

  datatype Result<+T, +E> = Ok(value: T) | Err(error: E) {
    predicate IsFailure() {
      Err?
    }

    function PropagateFailure<U>(): Result<U, E>
      requires Err?
    {
      Err(error)
    }

    function Extract(): T
      requires Ok?
    {
      value
    }
  }

  /** A value and the part of the buffer still to be read. */
  datatype Parsed<+T> = Parsed(value: T, rest: Octets)
}
