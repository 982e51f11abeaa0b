/** Outcomes shared by the request validator and the todo handlers. */
module Results {

  /** A value that may be absent: a JSON field that was not sent, for one. */
  datatype Option<+T> = None | Some(value: T)

  /** What a handler answers with. `NotFound` stands for the handlers'
      `HTTPException(404)`; `ValidationError` for the 422 answer the web
      framework gives when a path parameter or the request body breaks a
      declared constraint, before the handler body runs. */
  datatype Result<+T> = Ok(value: T) | NotFound | ValidationError
}
