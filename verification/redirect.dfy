/** The redirect handler (`GET /{alias}`): guard, look up, redirect. */
module RedirectHandler {
  import opened Results
  import opened Store
  import opened Http
  import Sqlite

  /** What the handler does before the store is involved. */
  datatype Step = Respond(response: Response) | Get(alias: string)

  /** The empty-alias guard: an empty path alias is answered with 400 at once. */
  function Plan(alias: string): (step: Step)
    ensures step.Get? <==> alias != ""
    ensures step.Get? ==> step.alias == alias
    ensures step.Respond? ==> step.response == Failure(StatusBadRequest, "invalid request")
  {
    if alias == "" then Respond(Failure(StatusBadRequest, "invalid request")) else Get(alias)
  }

  /** The answer to `GetURL(alias)`'s result: a 302 to the stored URL, or an error. */
  function Reply(result: Result<string, Error>): (r: Response)
    ensures r.status == StatusFound <==> result.Ok?
    ensures result.Ok? ==> r.location == result.value && r.body == RedirectBody
    ensures r.status == StatusNotFound <==> result == Err(ErrURLNotFound)
    ensures r.status == StatusNotFound ==> r.body == ErrorBody("not found")
    ensures r.status == StatusInternalServerError <==> result.Err? && result.error != ErrURLNotFound
    ensures r.status == StatusInternalServerError ==> r.body == ErrorBody("failed to get url")
    ensures result.Err? ==> r.location == ""
  {
    match result
    case Err(ErrURLNotFound) => Failure(StatusNotFound, "not found")
    case Err(_) => Failure(StatusInternalServerError, "failed to get url")
    case Ok(url) => Response(StatusFound, RedirectBody, url)
  }

  /** The handler `New` returns, run against any URLGetter `getter`. */
  function Handle(alias: string, getter: string -> Result<string, Error>): (x: Exchange)
    ensures alias == "" ==> x == Exchange(Failure(StatusBadRequest, "invalid request"), [])
    ensures alias != "" ==> x.calls == [GetCall(alias)]
    ensures x.response.status == StatusFound <==> alias != "" && getter(alias).Ok?
    ensures x.response.status == StatusFound ==> x.response.location == getter(alias).value
    ensures x.response.status == StatusNotFound <==> alias != "" && getter(alias) == Err(ErrURLNotFound)
  {
    match Plan(alias)
    case Respond(response) => Exchange(response, [])
    case Get(a) => Exchange(Reply(getter(a)), [GetCall(a)])
  }

  /** The handler wired to the SQLite store. It only reads: the table is left as it was. */
  function Serve(t: Sqlite.Table, alias: string, exec: Sqlite.Health): (s: Served<Sqlite.Table>)
    ensures s.response == Handle(alias, a => Sqlite.GetURL(t, a, exec)).response
    ensures s.state == t
  {
    match Plan(alias)
    case Respond(response) => Served(response, t)
    case Get(a) => Served(Reply(Sqlite.GetURL(t, a, exec)), t)
  }
}
