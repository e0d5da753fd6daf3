/** The exceptions the services raise, and the shape of a service call that
    runs inside a transaction. */
module Errors {
  import opened Wrappers

  /** One rejected field of a request body: the field and its constraint's message. */
  datatype FieldError = FieldError(field: string, message: string)

  /** What a service or controller call can throw. */
  datatype Error =
    | NotFound(message: string)            // ResourceNotFoundException
    | IllegalArgument(message: string)     // IllegalArgumentException
    | InvalidBody(errors: seq<FieldError>) // MethodArgumentNotValidException from @Valid
    | Unexpected(detail: Option<string>)   // any other exception (its message may be null)

  /** The effect of one transactional call: the store it leaves behind and
      what it returned or raised. */
  datatype Txn<S, T> = Txn(store: S, result: Result<T, Error>)
}
