/** Failure-carrying values used throughout the model: a Java `null` becomes
    `None`, a thrown exception becomes `Failure` or `Fail`. */
module Wrappers {

  datatype Option<+T> = None | Some(value: T)

  datatype Result<+T, +E> = Success(value: T) | Failure(error: E)

  /** The outcome of a check that either passes or raises. */
  datatype Outcome<+E> = Pass | Fail(error: E)
}

/** The exceptions the modelled Java code can raise. */
module Errors {

  datatype Error =
    | NullPointer        // java.lang.NullPointerException
    | IndexOutOfBounds   // ArrayIndexOutOfBoundsException from SAP's own bound check
    | VertexRejected     // the graph library refuses a vertex id outside [0, V)
    | IllegalArgument    // java.lang.IllegalArgumentException
}
