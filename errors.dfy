/** Failure kinds raised by the geometry kernel, and the two wrappers that
    carry them back to the caller in place of a C++ exception. */
module Errors {

  /** One constructor per error code declared in the library. */
  datatype ErrorCode =
    | RangeError          // assignment to a bounded scalar outside [min, max]
    | Overflow            // matrix dimensions beyond the fixed capacity
    | InvalidIndex        // matrix access outside the live rows/columns
    | CantRemoveDim       // removing the last remaining row or column
    | NotInvertible       // inverse of a singular or non-square matrix
    | NotSquare           // square-only operation on a non-square matrix
    | Incompatible        // element-wise operation on different shapes
    | InvalidMirrorArgs   // mirror line given by two coincident points

  /** The value an operation returns, or the error it raises. */
  datatype Result<T> = Ok(value: T) | Err(error: ErrorCode)

  /** The outcome of an operation that returns nothing (a C++ `void`). */
  datatype Outcome = Pass | Fail(error: ErrorCode)
}
