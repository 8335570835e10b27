/** The errors the core throws, by their JavaScript class. */
module Errors {

  /** Every variant carries `error.message`. */
  datatype DomainError =
    | PlainError(message: string)          // new Error(CODE): validation failures, translated at the boundary
    | InvariantError(message: string)      // what DomainErrorTranslator produces (HTTP 400)
    | NotFoundError(message: string)       // HTTP 404
    | AuthorizationError(message: string)  // HTTP 403
    | TypeError(message: string)           // property access on undefined
    | DatabaseError(message: string)       // a fault raised by the storage engine

  const ForbiddenMessage: string := "Anda tidak berhak mengakses resource ini"
  const DuplicateKeyMessage: string := "duplicate key value violates unique constraint"
}
