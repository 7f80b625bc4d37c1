/** The three handlers composed with the SQLite store, request after request: the flows the
    end-to-end tests drive through the running server. */
module EndToEnd {
  import opened Results
  import opened Store
  import opened Http
  import opened Sqlite
  import SaveHandler
  import RedirectHandler
  import DeleteHandler

  /** A valid save under a fresh alias on a healthy store answers 200 with the alias used and
      inserts exactly that alias and URL. */
  lemma SaveFresh(t: Table, req: SaveHandler.Request, isURL: string -> bool, randomString: nat -> string)
    requires req.url != "" && isURL(req.url)
    requires SaveHandler.AliasFor(req, randomString) !in Aliases(t.rows)
    requires NextRowId(t.rows) <= MaxRowId
    ensures var alias := SaveHandler.AliasFor(req, randomString);
      var saved := SaveHandler.Serve(t, SaveHandler.Decoded(req), isURL, randomString, Healthy, Healthy);
      && saved.response == Response(StatusOK, OkBody(alias), "")
      && saved.state.rows == t.rows + [Row(NextRowId(t.rows), alias, req.url)]
  {
  }

  /** A non-empty alias on a healthy store redirects exactly when the lookup finds it. */
  lemma RedirectAnswers(t: Table, alias: string)
    requires alias != ""
    ensures var r := RedirectHandler.Serve(t, alias, Healthy).response;
      match GetURL(t, alias, Healthy)
      case Ok(url) => r == Response(StatusFound, RedirectBody, url)
      case Err(_) => r == Failure(StatusNotFound, "not found")
  {
  }

  /** Save, redirect, delete, redirect again: the saved alias redirects to exactly the saved URL,
      the delete is acknowledged, and afterwards the alias is not found. The table's abstract map
      ends as it began. */
  lemma SaveRedirectDelete(t: Table, req: SaveHandler.Request, isURL: string -> bool,
                           randomString: nat -> string)
    requires Valid(t)
    requires req.url != "" && isURL(req.url)
    requires req.alias == "" ==> |randomString(SaveHandler.AliasLength)| == SaveHandler.AliasLength
    requires SaveHandler.AliasFor(req, randomString) !in Aliases(t.rows)
    requires NextRowId(t.rows) <= MaxRowId
    ensures var alias := SaveHandler.AliasFor(req, randomString);
      var saved := SaveHandler.Serve(t, SaveHandler.Decoded(req), isURL, randomString, Healthy, Healthy);
      var found := RedirectHandler.Serve(saved.state, alias, Healthy);
      var deleted := DeleteHandler.Serve(saved.state, alias, Healthy);
      var gone := RedirectHandler.Serve(deleted.state, alias, Healthy);
      && saved.response == Response(StatusOK, OkBody(alias), "")
      && found.response == Response(StatusFound, RedirectBody, req.url)
      && deleted.response == Response(StatusOK, OkBody(""), "")
      && gone.response == Failure(StatusNotFound, "not found")
      && View(deleted.state) == View(t)
  {
    var alias := SaveHandler.AliasFor(req, randomString);
    assert alias != "";
    SaveFresh(t, req, isURL, randomString);
    var saved := SaveHandler.Serve(t, SaveHandler.Decoded(req), isURL, randomString, Healthy, Healthy);
    assert saved.state == SaveURL(t, req.url, alias, Healthy, Healthy).table;
    SaveThenGet(t, req.url, alias, alias);
    RedirectAnswers(saved.state, alias);
    var deleted := DeleteHandler.Serve(saved.state, alias, Healthy);
    assert deleted.state == DeleteURL(saved.state, alias, Healthy).table;
    DeleteThenGet(saved.state, alias, alias);
    RedirectAnswers(deleted.state, alias);
    SaveThenDeleteRestores(t, req.url, alias);
  }

  /** Two saves under the same explicit alias: the first succeeds, the second gets 409
      "url already exists" and changes nothing, so the alias still redirects to the first URL. */
  lemma SaveTwiceConflicts(t: Table, first: SaveHandler.Request, second: SaveHandler.Request,
                           isURL: string -> bool, randomString: nat -> string)
    requires Valid(t)
    requires first.url != "" && isURL(first.url)
    requires second.url != "" && isURL(second.url)
    requires first.alias != "" && second.alias == first.alias
    requires first.alias !in Aliases(t.rows)
    requires NextRowId(t.rows) <= MaxRowId
    ensures var one := SaveHandler.Serve(t, SaveHandler.Decoded(first), isURL, randomString, Healthy, Healthy);
      var two := SaveHandler.Serve(one.state, SaveHandler.Decoded(second), isURL, randomString, Healthy, Healthy);
      && one.response.status == StatusOK
      && two.response == Failure(StatusConflict, "url already exists")
      && two.state == one.state
      && RedirectHandler.Serve(two.state, first.alias, Healthy).response.location == first.url
  {
  }

  /** With the SQLite store, deleting an alias that is not there is acknowledged with 200 and
      leaves the table alone, and a second delete answers exactly like the first. */
  lemma DeleteAbsentSucceeds(t: Table, alias: string)
    requires alias != ""
    ensures var once := DeleteHandler.Serve(t, alias, Healthy);
      && once.response == Response(StatusOK, OkBody(""), "")
      && (alias !in Aliases(t.rows) ==> once.state == t)
      && DeleteHandler.Serve(once.state, alias, Healthy) == once
  {
  }

  /** On any table, a delete of a non-empty alias on a working store answers 200 and removes
      that alias, and only that alias, from the abstract map. */
  lemma DeleteRemovesAlias(t: Table, alias: string)
    requires alias != ""
    ensures var d := DeleteHandler.Serve(t, alias, Healthy);
      && d.response == Response(StatusOK, OkBody(""), "")
      && View(d.state) == View(t) - {alias}
      && RedirectHandler.Serve(d.state, alias, Healthy).response == Failure(StatusNotFound, "not found")
  {
    var d := DeleteHandler.Serve(t, alias, Healthy);
    assert d.state == DeleteURL(t, alias, Healthy).table;
    DeleteRefinesRemove(t, alias);
    DeleteThenGet(t, alias, alias);
    RedirectAnswers(d.state, alias);
  }

  /** A save whose `LastInsertId` fails is answered with 500 "failed to add url", yet the row is
      in the table: the alias redirects to the URL and a retry with the same explicit alias gets 409. */
  lemma LostInsertIdStillStores(t: Table, req: SaveHandler.Request, isURL: string -> bool,
                                randomString: nat -> string)
    requires req.url != "" && isURL(req.url) && req.alias != ""
    requires req.alias !in Aliases(t.rows)
    requires NextRowId(t.rows) <= MaxRowId
    ensures var lost := SaveHandler.Serve(t, SaveHandler.Decoded(req), isURL, randomString, Healthy, Failing);
      var retry := SaveHandler.Serve(lost.state, SaveHandler.Decoded(req), isURL, randomString, Healthy, Healthy);
      && lost.response == Failure(StatusInternalServerError, "failed to add url")
      && RedirectHandler.Serve(lost.state, req.alias, Healthy).response.location == req.url
      && retry.response == Failure(StatusConflict, "url already exists")
  {
  }

  /** A request the save handler rejects (undecodable, no URL, or not a URL) is answered with
      400, makes no store call and leaves the table as it was. */
  lemma RejectedSaveTouchesNothing(t: Table, body: SaveHandler.Decoded, isURL: string -> bool,
                                   randomString: nat -> string, exec: Health, insertId: Health,
                                   saver: (string, string) -> Result<int, Error>)
    requires body.Undecodable? || body.request.url == "" || !isURL(body.request.url)
    ensures SaveHandler.Handle(body, isURL, randomString, saver).calls == []
    ensures var s := SaveHandler.Serve(t, body, isURL, randomString, exec, insertId);
      s.response.status == StatusBadRequest && s.state == t
  {
  }
}
