/** Failures of the font reader: one constructor per cause of an exception in the reader. */
module Errors {

  datatype FontError =
    /** A read or an array index past the bounds of its buffer (IndexOutOfRangeException,
        or ArgumentOutOfRangeException from the ASCII decoder). */
    | OutOfBounds
    /** NotSupportedException: the sfnt version, a head/hhea version (major * 65536 + minor)
        or the head magic number is not the expected one; carries the value that was read. */
    | NotSupported(value: int)
    /** FontException: a rangeShift/searchRange cross-check failed. */
    | Malformed
    /** KeyNotFoundException on the table dictionary. */
    | MissingTable(tag: string)
    /** KeyNotFoundException on the character-code-to-glyph dictionary. */
    | KeyNotFound(code: int)
    /** ArgumentException from Dictionary.Add on a tag already present. */
    | DuplicateTable(tag: string)
    /** ArgumentException from Dictionary.Add on a character code already present. */
    | DuplicateCode(code: int)
    /** DivideByZeroException (unitsPerEm of zero). */
    | DivideByZero
    /** OverflowException from allocating an array of negative length. */
    | NegativeArraySize
    /** NullReferenceException on an empty glyph slot. */
    | NullReference

  datatype Option<+T> = None | Some(value: T)

  /** A value, or the exception that ended the computation. Usable with `:-`. */
  datatype Result<+T> = Ok(value: T) | Err(error: FontError) {
    predicate IsFailure() {
      Err?
    }

    function PropagateFailure<U>(): Result<U>
      requires Err?
    {
      Err(error)
    }

    function Extract(): T
      requires Ok?
    {
      value
    }
  }

  /** Completion of a step that returns nothing, or the exception that ended it. Usable with `:-`. */
  datatype Outcome = Pass | Fail(error: FontError) {
    predicate IsFailure() {
      Fail?
    }

    function PropagateFailure(): Outcome
      requires Fail?
    {
      this
    }
  }

  /** The outcome of a computation, forgetting its value. */
  function OutcomeOf<T>(r: Result<T>): (o: Outcome)
    ensures o.Pass? <==> r.Ok?
    ensures r.Err? ==> o.error == r.error
  {
    match r
    case Ok(_) => Pass
    case Err(e) => Fail(e)
  }
}
