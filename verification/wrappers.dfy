/** Failure-carrying result types shared by the ledger modules. */
module Wrappers {

  /** A value that may be absent (a JavaScript `undefined`, a failed fetch, a missing body field). */
  datatype Option<+T> = None | Some(value: T)

  /** Either a value or the reason an operation refused to produce one. */
  datatype Result<+T, +E> = Success(value: T) | Failure(error: E)

  /** Why a ledger operation refused its input (each one an HTTP 400 or a thrown "Invalid block"). */
  datatype Error =
    | InvalidBlock
    | NoFileUploaded
    | InvalidNodeUrl
    | MissingDocumentId
}
