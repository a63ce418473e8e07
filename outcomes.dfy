/** The exceptions the engine raises, as values. */
module Outcomes {

  datatype Error =
    | InvalidRange       // secure_next_int with min > max
    | RootNotFound       // get_prim_root after its 50 attempts
    | EntropyExhausted   // the supplied entropy stream ran out (the real source never does)
    | NotInvertible      // Python's pow(x, -1, q) raises: x has no inverse mod q
    | IndexOutOfRange    // a list index past the end raises IndexError

  datatype Result<T> = Ok(value: T) | Err(error: Error)
}
