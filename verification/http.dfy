/** What a handler writes back: a status code, a body and the `Location` header. */
module Http {
  import opened Store

  const StatusOK: int := 200
  const StatusFound: int := 302
  const StatusBadRequest: int := 400
  const StatusNotFound: int := 404
  const StatusConflict: int := 409
  const StatusInternalServerError: int := 500

  /** The validator rule a request field failed. */
  datatype Rule = Required | Url

  /** The response body.
      - `OkBody`: `response.OK()`, carrying the alias for a save; an empty alias is omitted
        from the JSON (`omitempty`), which is what the delete handler sends.
      - `ErrorBody`: `response.Error(message)`.
      - `ValidationBody`: `response.ValidationError` for the field and rule that failed; its
        wording ("field URL is a required field", "field URL is not a valid URL") comes from
        the `response` package, which is not part of this model.
      - `RedirectBody`: what `http.Redirect` writes; not JSON. */
  datatype Body =
    | OkBody(alias: string)
    | ErrorBody(error: string)
    | ValidationBody(field: string, rule: Rule)
    | RedirectBody

  /** A response; `location` is the `Location` header, "" when the header is absent. */
  datatype Response = Response(status: int, body: Body, location: string)

  /** A handler's response together with the store calls it made, in order. */
  datatype Exchange = Exchange(response: Response, calls: seq<Call>)

  /** A handler's response together with the store's state after the request. */
  datatype Served<S> = Served(response: Response, state: S)

  /** `render.Status(status)` then `render.JSON(response.Error(message))`. */
  function Failure(status: int, message: string): Response {
    Response(status, ErrorBody(message), "")
  }
}
