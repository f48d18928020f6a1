/** The optional-value and value-or-error datatypes shared by the mail-queue modules. */
module Wrappers {

  /** An optional value; `None` stands for a field that is absent, `null` or `undefined`. */
  datatype Option<+T> = None | Some(value: T)

  /** Either a value or the reason it could not be produced. */
  datatype Result<+R, +E> = Success(value: R) | Failure(error: E)
}
