/** The save handler (`POST /url`): decode, validate, choose the alias, insert, answer. */
module SaveHandler {
  import opened Results
  import opened Store
  import opened Http
  import Sqlite

  /** Length of a generated alias. */
  const AliasLength: nat := 6

  /** The JSON request body `{"url": ..., "alias": ...}`; a missing alias decodes as "". */
  datatype Request = Request(url: string, alias: string)

  /** What `render.DecodeJSON` made of the request body. */
  datatype Decoded = Decoded(request: Request) | Undecodable

  /** What the handler does before the store is involved. */
  datatype Step = Respond(response: Response) | Save(url: string, alias: string)

  /** The `validate:"required,url"` tag on the URL field: the first rule that fails, if any.
      `isURL` stands for the validator library's `url` rule. */
  function Validate(req: Request, isURL: string -> bool): (failed: Option<Rule>)
    ensures failed.None? <==> req.url != "" && isURL(req.url)
    ensures failed == Some(Required) <==> req.url == ""
  {
    if req.url == "" then Some(Required)
    else if !isURL(req.url) then Some(Url)
    else None
  }

  /** The alias stored: the requested one, or `randomString(AliasLength)` when it is empty. */
  function AliasFor(req: Request, randomString: nat -> string): (alias: string)
    ensures req.alias != "" ==> alias == req.alias
    ensures req.alias == "" ==> alias == randomString(AliasLength)
  {
    if req.alias == "" then randomString(AliasLength) else req.alias
  }

  /** Decoding and validation: a request that fails either is answered with 400 at once. */
  function Plan(body: Decoded, isURL: string -> bool, randomString: nat -> string): (step: Step)
    ensures step.Save? <==> body.Decoded? && Validate(body.request, isURL).None?
    ensures step.Save? ==> step.url == body.request.url
    ensures step.Save? && body.request.alias != "" ==> step.alias == body.request.alias
    ensures step.Save? && body.request.alias == "" ==> step.alias == randomString(AliasLength)
    ensures step.Respond? ==> step.response.status == StatusBadRequest && step.response.location == ""
    ensures body.Undecodable? ==> step == Respond(Failure(StatusBadRequest, "failed to decode request"))
    ensures body.Decoded? && Validate(body.request, isURL).Some? ==>
              step.response.body == ValidationBody("URL", Validate(body.request, isURL).value)
  {
    match body
    case Undecodable => Respond(Failure(StatusBadRequest, "failed to decode request"))
    case Decoded(req) =>
      match Validate(req, isURL)
      case Some(rule) => Respond(Response(StatusBadRequest, ValidationBody("URL", rule), ""))
      case None => Save(req.url, AliasFor(req, randomString))
  }

  /** The answer to `SaveURL(url, alias)`'s result. */
  function Reply(alias: string, result: Result<int, Error>): (r: Response)
    ensures r.status == StatusOK <==> result.Ok?
    ensures r.status == StatusConflict <==> result == Err(ErrURLExist)
    ensures r.status == StatusInternalServerError <==> result.Err? && result.error != ErrURLExist
    ensures r.status == StatusOK ==> r.body == OkBody(alias)
    ensures r.status == StatusConflict ==> r.body == ErrorBody("url already exists")
    ensures r.status == StatusInternalServerError ==> r.body == ErrorBody("failed to add url")
    ensures r.location == ""
  {
    match result
    case Err(ErrURLExist) => Failure(StatusConflict, "url already exists")
    case Err(_) => Failure(StatusInternalServerError, "failed to add url")
    case Ok(_) => Response(StatusOK, OkBody(alias), "")
  }

  /** The handler `New` returns, run against any URLSaver `saver`: the response and the calls
      it made to the saver. */
  function Handle(body: Decoded, isURL: string -> bool, randomString: nat -> string,
                  saver: (string, string) -> Result<int, Error>): (x: Exchange)
    ensures |x.calls| <= 1
    ensures x.calls == [] <==> body.Undecodable? || Validate(body.request, isURL).Some?
    ensures x.calls == [] <==> x.response.status == StatusBadRequest
    ensures x.calls != [] ==>
              x.calls == [SaveCall(body.request.url, AliasFor(body.request, randomString))]
    ensures x.calls != [] ==> var c := x.calls[0];
              && (x.response.status == StatusOK <==> saver(c.url, c.alias).Ok?)
              && (x.response.status == StatusConflict <==> saver(c.url, c.alias) == Err(ErrURLExist))
              && (x.response.body.OkBody? ==> x.response.body.alias == c.alias)
    ensures x.response.location == ""
  {
    match Plan(body, isURL, randomString)
    case Respond(response) => Exchange(response, [])
    case Save(url, alias) => Exchange(Reply(alias, saver(url, alias)), [SaveCall(url, alias)])
  }

  /** The handler wired to the SQLite store: the response and the table afterwards. */
  function Serve(t: Sqlite.Table, body: Decoded, isURL: string -> bool, randomString: nat -> string,
                 exec: Sqlite.Health, insertId: Sqlite.Health): (s: Served<Sqlite.Table>)
    ensures s.response ==
              Handle(body, isURL, randomString,
                     (url, alias) => Sqlite.SaveURL(t, url, alias, exec, insertId).result).response
    ensures Plan(body, isURL, randomString).Respond? ==> s.state == t
    ensures s.response.status == StatusConflict ==> s.state == t
    ensures exec.Failing? ==> s.state == t
    ensures s.response.status == StatusOK ==>
              && s.response.body.OkBody?
              && s.state.rows == t.rows + [Sqlite.Row(Sqlite.NextRowId(t.rows), s.response.body.alias, body.request.url)]
    ensures s.state == t ||
              (&& body.Decoded?
               && s.state.rows == t.rows + [Sqlite.Row(Sqlite.NextRowId(t.rows), AliasFor(body.request, randomString), body.request.url)])
    ensures Sqlite.Valid(t) ==> Sqlite.Valid(s.state)
  {
    match Plan(body, isURL, randomString)
    case Respond(response) => Served(response, t)
    case Save(url, alias) =>
      var saved := Sqlite.SaveURL(t, url, alias, exec, insertId);
      Served(Reply(alias, saved.result), saved.table)
  }
}
