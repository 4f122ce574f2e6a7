/**
 * The exceptions the converter can raise, a failure-compatible result type
 * that carries one of them, and an option type.  Every Python `raise` on
 * the modelled paths becomes an `Err` value instead.
 */
module Errors {

  datatype Error =
    /** `Exception(f"Unrecognised file type: {filename}")` from `get_converter` */
    | UnrecognisedFileType(message: string)
    /** `open(path)` on a path the file store does not hold */
    | FileNotFound(path: string)
    /** `open(path, "w")` on a path the file store refuses to write */
    | PermissionDenied(path: string)
    /** `d[0]` on an empty list */
    | IndexOutOfRange
    /** `d[0]` on a dict: `KeyError(0)` */
    | KeyNotFound
    /** DictWriter's `ValueError("dict contains fields not in fieldnames: ...")` */
    | FieldsNotInFieldnames(wrong: set<string>)
    /** `csv.Error` raised by the csv reader */
    | CsvReaderError(message: string)
    /** a data record whose width differs from the header's; DictReader would
        fill in `None` keys or values, which the string-record model excludes */
    | RaggedRow(record: nat)
    /** `raise NotImplemented` raises a TypeError, since NotImplemented is not an exception */
    | NotAnException
    /** a failure reported by a library codec the model treats as opaque */
    | LibraryError(message: string)

  datatype Result<+T> = Ok(value: T) | Err(error: Error) {

    predicate IsFailure() {
      Err?
    }

    function PropagateFailure<U>(): Result<U>
      requires Err?
    {
      Err(error)
    }

    function Extract(): T
      requires Ok?
    {
      value
    }
  }

  /** A value that may be absent: a failed lookup or a text that does not parse. */
  datatype Option<+T> = None | Some(value: T) {

    predicate IsFailure() {
      None?
    }

    function PropagateFailure<U>(): Option<U>
      requires None?
    {
      None
    }

    function Extract(): T
      requires Some?
    {
      value
    }
  }
}
