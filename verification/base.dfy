/** Identifiers, optional values and request outcomes shared by the whole model. */
module Base {

  /** Primary keys of the three stored record kinds (auto-incremented by the database). */
  type UserId = nat
  type BookId = nat
  type TradeId = nat

  /** A nullable value (a nullable foreign key, an absent request field). */
  datatype Option<+T> = None | Some(value: T)

  /** What a request or a model operation produces: a value, or the reason it failed. */
  datatype Result<+T, +E> = Ok(value: T) | Err(error: E)

  /** How a failed request is answered, by HTTP status class:
      400 for serializer validation, 403 for an explicit ownership refusal,
      404 when the addressed record cannot be found, 500 for an exception
      escaping from the model layer (a Django ValidationError raised in save). */
  datatype ApiError<+R> =
    | BadRequest(reason: R)
    | Forbidden(reason: R)
    | NotFound(reason: R)
    | ServerError(reason: R)
}
