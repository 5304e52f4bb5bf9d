/** The error values the pipeline passes around: per-field validation errors, the
    entries of an error report, and thrown exceptions. */
module Errors {
  import opened Wrappers
  import opened Json

  /** `{ field, message }`. The field is usually a column or property name; it is
      `undefined` when the schema error names no property. */
  datatype FieldError = FieldError(field: Value, message: string)

  /** A thrown (or promise-rejected) value: an `Error` instance, whose own `cause`
      property is present only when it was constructed with one, or any other
      value, such as a response body. */
  datatype Thrown =
    | Error(name: string, message: string, cause: Option<Value>)
    | Plain(value: Value)

  /** `error.message` */
  function MessageOf(t: Thrown): Value {
    match t
    case Error(_, message, _) => Str(message)
    case Plain(v) => if v.Obj? then Get(v.fields, "message") else Undefined
  }

  /** `error.hasOwnProperty(key)` for the two properties the submitter inspects. */
  predicate HasOwn(t: Thrown, key: string) {
    match t
    case Error(_, _, cause) => key == "cause" && cause.Some?
    case Plain(v) => v.Obj? && key in v.fields
  }

  /** One element of an error report. */
  datatype ErrorEntry =
      /** `{ row, errors }`: the errors found on one spreadsheet row */
    | RowEntry(row: Value, errors: seq<FieldError>)
      /** `{ manifestId, errors }`: the errors found on one manifest's handler set */
    | IdEntry(manifestId: string, errors: seq<FieldError>)
      /** `{ field, message }`: a batch-level error with no row and no errors array */
    | NoteEntry(field: string, message: string)
      /** a caught exception returned in place of a list of entries */
    | Caught(thrown: Thrown)

  /** The entry has an `errors` array. */
  predicate CarriesErrors(e: ErrorEntry) {
    e.RowEntry? || e.IdEntry?
  }

  /** `entry.row` */
  function RowOf(e: ErrorEntry): Value {
    if e.RowEntry? then e.row else Undefined
  }
}
