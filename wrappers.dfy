/** Option and Result, the failure-compatible wrappers used throughout the codec,
    and the codec's error kinds. */
module Wrappers {

  datatype Option<+T> = None | Some(value: T)

  datatype Result<+T, +E> = Success(value: T) | Failure(error: E) {
    predicate IsFailure() {
      Failure?
    }

    function PropagateFailure<U>(): Result<U, E>
      requires Failure?
    {
      Failure(error)
    }

    function Extract(): T
      requires Success?
    {
      value
    }
  }
}

/** The failures the codec distinguishes. */
module Errors {

  datatype Error =
    | TagMismatch      // error.ASN1TagError: the wire tag is not the expected one
    | Malformed        // error.ASN1Error: any other invalid encoding, or an unencodable value
    | SchemaError      // TypeError, AttributeError, NotImplementedError, or the KeyError of a misdeclared defined_by: a schema used in a way it does not support
    | InvalidArgument  // ValueError, KeyError, IndexError: a bad argument to an operation

  /** ASN1TagError is a subclass of ASN1Error: an `except ASN1Error` catches both. */
  predicate IsAsn1Error(e: Error) {
    e.TagMismatch? || e.Malformed?
  }
}
