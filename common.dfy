/** Outcome wrappers shared by both variants of the endpoint. */
module Wrappers {

  /** A value or the error that replaced it. */
  datatype Result<+T, +E> = Success(value: T) | Failure(error: E)
}

/** The HTTP error responses the endpoint can produce. */
module Http {

  /** Status of the response when the declared total marks do not match the questions. */
  const BadRequest: int := 400

  /** Status of the response when the upstream completion call or its reply fails. */
  const ServerError: int := 500

  /** An HTTP error response: its status code and its `detail` text. */
  datatype HttpError = HttpError(status: int, detail: string)
}
