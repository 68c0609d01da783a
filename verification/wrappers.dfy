/** Failure-compatible result type and the error taxonomy of the reader.

    Every exception the Python reader can raise on the modelled paths is a
    constructor of `Error`; the comment on each names the Python exception
    class it stands for.
 */
module Wrappers {

  datatype Option<+T> = None | Some(value: T)

  datatype Error =
    // IndexError: `fp.read(1)[0]` on an exhausted stream
    | EndOfStream
    // ValueError raised by the variable-length integer codec
    | VarIntOutOfRange       // encode: value < 0 or > 2^31-1
    | VarIntTruncated        // decode: continuation chain longer than the input
    | VarIntTooLarge         // decode: five-byte value above 2^31-1
    | VarIntMalformed        // decode: fifth byte has bit 7 set
    // ValueError raised by a primitive constructor given bytes of the wrong length
    | WrongByteCount
    // ValueError raised by an IntEnum constructor given an unknown tag
    | UnknownEnumValue
    // ValueError raised by Primitive.get_class for a tag without a class
    | NoPrimitiveClass
    // ValueError raised by Decimal.convert for text that fails Decimal.verify
    | InvalidDecimal
    // ValueError raised by String.convert when the prefix disagrees with the length
    | StringLengthMismatch
    // ValueError raised by read_binary_array / array readers
    | InvalidRank
    | InvalidLength
    // ValueError raised by build_class
    | MemberCountMismatch
    | ConflictingClass
    // ValueError raised by read_class_instance / read_class_with_id
    | MemberExpectedValue
    | NonClassMetadata
    // ValueError raised by Library.parse_string
    | BadLibraryOptions
    // ValueError raised by `len()` of a NullReferenceMultiple with a negative count
    | NegativeLength
    // InvalidExtraInfoValue (a ValueError) raised by ExtraTypeInfo.check
    | InvalidExtraInfo
    // IOError raised by read_header
    | BadHeaderRecord
    | BadVersion
    // KeyError: duplicate stream object id, or a missing dictionary key
    | DuplicateObjectId
    | MissingKey
    // IndexError: a list index past the end of the list
    | IndexOutOfRange
    // NotImplementedError: a record tag whose dispatch slot is empty
    | RecordNotImplemented
    // TypeError: calling an empty dispatch slot, iterating a missing member list,
    // a keyword clash in Library(...), an unexpected extra-info value on write,
    // or `ord` applied to an integer inside Decimal.round
    | TypeError
    // RuntimeError raised by the Library.id setter
    | LibraryIdAlreadySet
    // InvalidReferenceError raised by resolve_references in strict mode
    | InvalidReference
    // UnicodeDecodeError: a Char whose lead byte announces more bytes than remain
    | UnicodeDecode
    // OverflowError raised by int.to_bytes for a value outside the field width
    | Overflow
    // Decimal.round beyond its early exit, which is not part of this model
    | RoundingNotModelled

  datatype Result<+T> = Ok(value: T) | Err(error: Error) {

    predicate IsFailure() {
      Err?
    }

    function PropagateFailure<U>(): Result<U>
      requires Err?
    {
      Err(error)
    }

    function Extract(): T
      requires Ok?
    {
      value
    }
  }

  datatype Outcome = Pass | Fail(error: Error) {

    predicate IsFailure() {
      Fail?
    }

    function PropagateFailure<U>(): Result<U>
      requires Fail?
    {
      Err(error)
    }
  }

  /** Returns `Fail(e)` unless `condition` holds. */
  function Need(condition: bool, e: Error): (r: Outcome)
  {
    if condition then Pass else Fail(e)
  }
}
