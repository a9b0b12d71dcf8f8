/** Failure-carrying results and the error conditions of the exchange layer. */
module Wrappers {

  /** The exceptions the worker library raises, one constructor per distinct condition. */
  datatype Error =
    | EndOfFile            // cursor access past the end of a read-only store
    | FileNotMapped        // remap of a store that has no open file
    | OpenFailed           // a read-only open of a file that does not exist
    | InvalidStringLength  // a string length above the largest Java int
    | InvalidMapLength     // a map entry count above the largest Java int
    | InvalidValueLength   // a binary value length above the largest Java int
    | NegativeLength       // a negative length handed to an array allocation
    | ArrayOverrun         // a native copy of more bytes than the Java array holds (undefined in the source)
    | UnknownType          // a column type code outside the catalogue
    | TypeMismatch         // an accessor used on a column of another type
    | NotNullable          // a null stored into a column without a null store
    | IndexOutOfRange      // a row index outside [0, size)
    | OutsideMapping       // a positional access past the mapped bytes (undefined in the native store)
    | InvalidSize          // a negative row count given to setSize
    | InvalidColumnCount   // a column count outside [0, largest Java int]
    | InvalidTableCount    // a table count outside [0, largest Java int]
    | UnsupportedVersion   // a control-file version other than 1 or 2
    | MissingControlFile   // no control-file path configured
    | ArithmeticError      // a decimal that is not an exact 64-bit count of 1/10000ths

  datatype Option<+T> = None | Some(value: T)

  datatype Result<+T> = Ok(value: T) | Err(error: Error) {
    predicate IsFailure() { Err? }
    function PropagateFailure<U>(): Result<U>
      requires Err?
    {
      Err(error)
    }
    function Extract(): T
      requires Ok?
    {
      value
    }
  }

  datatype Outcome = Pass | Fail(error: Error) {
    predicate IsFailure() { Fail? }
    function PropagateFailure(): Outcome
      requires Fail?
    {
      this
    }
  }
}
