/**
 Error kinds and the failure-compatible result type shared by the codec,
 the buffers and the class registry. Every exception the modelled Java code
 throws becomes one `Error` value; nothing is thrown or caught.
 */
module Results {

  datatype Error =
    // WriteBuffer would need more chunks than its configured maximum.
    | CapacityExceeded
    // positionToMark was given an offset outside the retained data.
    | InvalidMark
    // A variable-length integer did not terminate within its maximum width.
    | MalformedVarint
    // The input ended before a requested decode could complete.
    | EndOfData
    // A string unit whose lead byte is not a 1-, 2- or 3-byte form.
    | MalformedChar
    // A string whose decoded character count is negative.
    | MalformedString
    // Registry: a null class was passed.
    | NullType
    // Registry: a null serializer was passed.
    | NullSerializer
    // Registry: the serializer already belongs to another Kryo instance.
    | ForeignSerializer
    // Registry: lookup of a class that was never registered.
    | UnregisteredClass
    // Registry: lookup of a class id that was never assigned.
    | UnregisteredClassId
    // Registry: every 16-bit class id other than the null sentinel is in use.
    | ClassIdsExhausted
    // EnumSerializer: the class has no enum constants.
    | NotAnEnum
    // EnumSerializer: the decoded ordinal is not an index of the constants.
    | InvalidOrdinal

  datatype Result<+T> = Ok(value: T) | Err(error: Error) {

    predicate IsFailure() {
      Err?
    }

    function PropagateFailure<U>(): Result<U>
      requires Err?
    {
      Err(error)
    }

    function Extract(): T
      requires Ok?
    {
      value
    }
  }

  /** Java's nullable references. */
  datatype Option<+T> = None | Some(value: T)
}
