/** The delete handler (`DELETE /url/{alias}`): guard, delete, acknowledge. */
module DeleteHandler {
  import opened Results
  import opened Store
  import opened Http
  import Sqlite

  /** What the handler does before the store is involved. */
  datatype Step = Respond(response: Response) | Delete(alias: string)

  /** The empty-alias guard: an empty path alias is answered with 400 at once. */
  function Plan(alias: string): (step: Step)
    ensures step.Delete? <==> alias != ""
    ensures step.Delete? ==> step.alias == alias
    ensures step.Respond? ==> step.response == Failure(StatusBadRequest, "invalid request")
  {
    if alias == "" then Respond(Failure(StatusBadRequest, "invalid request")) else Delete(alias)
  }

  /** The answer to `DeleteURL(alias)`'s error. */
  function Reply(result: Outcome<Error>): (r: Response)
    ensures r.status == StatusOK <==> result.Pass?
    ensures r.status == StatusOK ==> r.body == OkBody("")
    ensures r.status == StatusNotFound <==> result == Fail(ErrURLNotFound)
    ensures r.status == StatusNotFound ==> r.body == ErrorBody("not found")
    ensures r.status == StatusInternalServerError <==> result.Fail? && result.error != ErrURLNotFound
    ensures r.status == StatusInternalServerError ==> r.body == ErrorBody("failed to delete url")
    ensures r.location == ""
  {
    match result
    case Fail(ErrURLNotFound) => Failure(StatusNotFound, "not found")
    case Fail(_) => Failure(StatusInternalServerError, "failed to delete url")
    case Pass => Response(StatusOK, OkBody(""), "")
  }

  /** The handler `New` returns, run against any URLDeleter `deleter`. */
  function Handle(alias: string, deleter: string -> Outcome<Error>): (x: Exchange)
    ensures alias == "" ==> x == Exchange(Failure(StatusBadRequest, "invalid request"), [])
    ensures alias != "" ==> x.calls == [DeleteCall(alias)]
    ensures x.response.status == StatusOK <==> alias != "" && deleter(alias).Pass?
    ensures x.response.status == StatusNotFound <==> alias != "" && deleter(alias) == Fail(ErrURLNotFound)
  {
    match Plan(alias)
    case Respond(response) => Exchange(response, [])
    case Delete(a) => Exchange(Reply(deleter(a)), [DeleteCall(a)])
  }

  /** The handler wired to the SQLite store. */
  function Serve(t: Sqlite.Table, alias: string, exec: Sqlite.Health): (s: Served<Sqlite.Table>)
    ensures s.response == Handle(alias, a => Sqlite.DeleteURL(t, a, exec).result).response
    ensures alias == "" || exec.Failing? ==> s.state == t
    ensures alias != "" && exec.Healthy? ==>
              && (forall row :: row in s.state.rows ==> row.alias != alias)
              && (forall row :: row in t.rows && row.alias != alias ==> row in s.state.rows)
    ensures s.response.status != StatusNotFound
    ensures Sqlite.Valid(t) ==> Sqlite.Valid(s.state)
  {
    match Plan(alias)
    case Respond(response) => Served(response, t)
    case Delete(a) =>
      var deleted := Sqlite.DeleteURL(t, a, exec);
      Served(Reply(deleted.result), deleted.table)
  }
}
