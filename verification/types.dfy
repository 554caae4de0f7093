/** Shared vocabulary of the question store: identifiers, keys, values and
    the errors its operations report. */
module Types {

  /** One byte of an identifier. */
  newtype byte = b: int | 0 <= b < 256

  /** An opaque identifier (`utils.ID`, a byte slice). */
  type ID = seq<byte>

  /** The external name of a question (`model.Key`). */
  type Key = string

  /** The payload of a question (`model.Value`). */
  type Value = string

  /** The error texts the core produces. The aggregate's refusal and the
      service's tombstone check use the same text, "question deleted". */
  datatype Error =
    | QuestionDeleted   // "question deleted"
    | QuestionNotFound  // "question not found"
    | KeyAlreadyExist   // "key already exist"

  /** A value or the error that replaced it. */
  datatype Result<T> = Success(value: T) | Failure(error: Error)
}
