/** Exceptions of the Java source as values, and the usual Option/Result wrappers. */
module Results {

  /** The runtime exceptions the modelled code can raise. */
  datatype Error =
    | InvalidArraySize          // Matrix(double[], int, int) with values.length != rows * cols
    | OutOfBound                // Matrix.get / Matrix.set outside the matrix
    | SizeMismatch              // a shape check of a Matrix operation
    | DivisionByZero            // ArithmeticException of `i % batches` with batches == 0
    | NotLabelFile              // assertMagicNumber(2049, ...)
    | NotImageFile              // assertMagicNumber(2051, ...)
    | MagicMismatch(expected: int, found: int)
    | BufferUnderflow           // ByteBuffer.get / getInt past the end
    | NegativeArraySize         // new int[n] with n < 0
    | IndexOutOfRange           // ArrayIndexOutOfBoundsException of a Java array access

  datatype Option<+T> = None | Some(value: T)

  datatype Result<+T> = Success(value: T) | Failure(error: Error) {
    predicate IsFailure() { Failure? }
    function PropagateFailure<U>(): Result<U> requires Failure? { Failure(error) }
    function Extract(): T requires Success? { value }
  }

  /** The outcome of a `void` method that may throw. */
  datatype Outcome = Pass | Fail(error: Error) {
    predicate IsFailure() { Fail? }
    function PropagateFailure(): Outcome requires Fail? { this }
  }
}
