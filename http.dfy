/** What a FastAPI handler sends back: a JSON body or an `HTTPException`. */
module Http {

  /** An `HTTPException`: a status code and its `detail` message. */
  datatype HttpError = HttpError(code: nat, detail: string)

  /** The outcome of a request handler. */
  datatype Response<+T> = Ok(value: T) | Fail(error: HttpError) {
    predicate FailsWith(code: nat) {
      Fail? && error.code == code
    }
  }

  const BadRequest: nat := 400
  const Unauthorized: nat := 401
  const NotFound: nat := 404
  const ServerError: nat := 500

  /** FastAPI's answer to an exception that no handler turned into an `HTTPException`. */
  const InternalServerError := HttpError(ServerError, "Internal Server Error")
}
