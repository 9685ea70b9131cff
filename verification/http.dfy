/** What the controllers see of the transport: request body fields, which may be
    absent, and the status/body pairs they answer with. */
module Http {
  import opened Wrappers

  const StatusOk := 200
  const StatusCreated := 201
  const StatusBadRequest := 400
  const StatusUnauthorized := 401
  const StatusNotFound := 404

  /** The body Express sends for `res.sendStatus(400)`. */
  const BadRequestText := "Bad Request"

  /** JavaScript truthiness of a string-valued body field: `!field` holds for
      an absent field (undefined) and for the empty string. */
  predicate Truthy(field: Option<string>) {
    field.Some? && field.value != ""
  }

  /** A response: a status with a JSON body, or an error status with its message. */
  datatype Response<+T> = Ok(code: int, body: T) | Error(code: int, message: string)
}
