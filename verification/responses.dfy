/** HTTP replies and the outcome of a request against the store. */
module Responses {
  import opened Schema

  const StatusOk: int := 200
  const StatusCreated: int := 201
  const StatusBadRequest: int := 400
  const StatusNotFound: int := 404
  const StatusInternal: int := 500

  /** The generic message every unexpected failure reports. */
  const InternalErrorMessage: string := "Erro interno do servidor"

  /** A JSON reply body: data, `{ error }` or `{ message }`. */
  datatype Body<T> = Json(value: T) | Error(error: string) | Message(message: string)

  datatype Reply<T> = Reply(status: int, body: Body<T>)

  /** A request's reply together with the store it leaves behind. */
  datatype Step<T> = Step(reply: Reply<T>, store: Store)

  function InternalError<T>(): Reply<T> {
    Reply(StatusInternal, Error(InternalErrorMessage))
  }
}
