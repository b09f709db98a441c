/** Option and Result for the values the source leaves undefined or throws,
    and the two shapes a thrown JavaScript value can take. */
module Results {

  datatype Option<+T> = None | Some(value: T)

  datatype Result<+T, +E> = Ok(value: T) | Err(error: E)

  /** A thrown value: an `Error` object (it has a `message`) or anything else. */
  datatype Thrown = ErrorValue(message: string) | OtherValue(text: string)

  /** `error instanceof Error ? error.message : fallback`, the catch blocks of App.tsx. */
  function MessageOr(e: Thrown, fallback: string): (m: string)
    ensures e.ErrorValue? ==> m == e.message
    ensures e.OtherValue? ==> m == fallback
  {
    match e
    case ErrorValue(message) => message
    case OtherValue(_) => fallback
  }

  /** `error instanceof Error ? error.message : String(error)`. */
  function Describe(e: Thrown): string
  {
    match e
    case ErrorValue(message) => message
    case OtherValue(text) => text
  }
}
