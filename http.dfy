/** The outcomes a handler can answer with, reduced to what the callers can
    observe: a status code and the single message of the `errors.message`
    list, or a successful value. */
module Http {

  const Created: nat := 201

  /** A rejected request: `{"errors": {"message": [message]}}` with `status`. */
  datatype Failure = Failure(status: nat, message: string)

  const Unauthorized := Failure(401, "Unauthorized")
  const ContactNotFound := Failure(404, "Contact not found")

  /** A handler's answer: the `data` of a successful response, or a failure. */
  datatype Result<+T> = Success(value: T) | Fail(failure: Failure)
}
