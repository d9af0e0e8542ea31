/**
 * The closed set of failures the codec raises (src/ProtobjError.ts). Only the
 * kind of each failure is modelled; the message strings are not.
 */
module ProtobjErrors {

  datatype ProtobjError =
    | TruncatedMessage
    | MisreportedSize
    | NegativeSize
    | MalformedVarint
    | InvalidTag
    | InvalidEndTag
    | InvalidWireType
    | RecursionLimitExceeded
    | SizeLimitExceeded
      // not a ProtobjError in the source: the RangeError that `new Array(n)`
      // throws for a negative length in readArray
    | InvalidArrayLength
      // not a ProtobjError either: the Error that reset throws for a negative length
    | NegativeLength

  /** The outcome of a read: a value, or the error the source throws. */
  datatype Result<+T> = Ok(value: T) | Err(error: ProtobjError)
}
