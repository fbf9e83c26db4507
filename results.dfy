/** Error outcomes of the solver, one per exception that the modelled part of
    the script can raise, and a failure-compatible Result type so that stages
    compose with `:-`. */
module Results {

  /** The causes of failure, in the order the pipeline can meet them. */
  datatype Error =
    | InsufficientData    // fewer than nine numeric tokens in the input text
    | SingularSystem      // the coefficient matrix has determinant zero
    | NonIntegral         // Cramer's rule gives a non-integral p or q
    | PrimesMismatch      // the recovered p * q differs from N
    | ZeroModulus         // three-argument pow with modulus 0
    | NotInvertible       // negative exponent and the base has no inverse
    | NegativeUnsigned    // to_bytes of a negative integer
    | TooBigToConvert     // to_bytes of an integer that needs more bytes than given

  datatype Result<+T> = Ok(value: T) | Err(error: Error) {

    predicate IsFailure() {
      Err?
    }

    function PropagateFailure<U>(): Result<U>
      requires Err?
    {
      Err(error)
    }

    function Extract(): T
      requires Ok?
    {
      value
    }
  }
}
