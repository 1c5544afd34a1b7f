/**
 * The exceptions of the configuration engine, one constructor per kind of
 * failure, and the result type that carries them. The Java class that each
 * constructor stands for is named beside it.
 */
module Errors {
  import opened Values

  /** The message a validator puts into the ValidationException it throws. */
  datatype Message =
    | SizeConstraint(min: int, max: int)     // "Failed to meet the size constraints, min: %d max: %d"
    | AboveMaximum(value: Value, max: int)   // "<value> is greater than the maximum value <max>"
    | Described(text: string)                // any other validator's own message

  datatype Error =
    | NotInitialized                                         // ConfigNotInitializedException
    | InvalidKey(key: string)                                // InvalidKeyException, carrying the key
    | NotAValidValue(value: Value)                           // IllegalArgumentException: a validator returned false
    | ValidationFailed(path: string, value: Value, file: string, message: Message)
                                                             // IllegalArgumentException wrapping a ValidationException
    | CannotConvert(path: string, value: Value, file: string)
                                                             // IllegalArgumentException: the codec could not decode
    | FieldRejects(value: Value)                             // IllegalArgumentException from reflective Field.set
    | MissingNode(key: string)                               // IllegalStateException "<key> is null in the configuration tree"
    | NotASection(key: string)                               // IllegalStateException "<node> is not a section node"
    | NotAValue(key: string)                                 // IllegalStateException "<node> is not a value node"
    | UnableToSet(key: string)                               // IllegalStateException "Unable to set value in <class> for <key>"
    | NoRoot(path: string)                                   // IllegalStateException "Could not find root node for <path>"
    | ClassCast                                              // ClassCastException
    | NullPointer                                            // NullPointerException
    | IndexOutOfBounds                                       // ArrayIndexOutOfBoundsException
    | UnrecognizedKey(key: string)                           // legacy RuntimeException "<key> is not a recognized key, ..."
    | CannotSetValue(key: string, value: Value)              // legacy RuntimeException "<value> could not be set as the value for <key>"
    | PathLedToSection                                       // legacy RuntimeException "Path led to a SectionNode not a ValueNode"

  /** The outcome of an operation that may throw. */
  datatype Result<+T> = Ok(value: T) | Err(error: Error)
}
