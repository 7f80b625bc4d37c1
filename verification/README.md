# URL shortener: alias store and HTTP handlers

This Dafny project models the core of a small URL-shortening service. The service takes a long URL and an optional alias, stores the mapping in a single SQLite table, redirects an alias to its URL, and deletes aliases. The project has two layers.

- **The alias store** (module `Sqlite`). The `url` table is held as its rows in rowid order, with one `Row(id, alias, url)` per row. The invariant `Valid` stands for the `UNIQUE` constraint on `alias`, for rowids that are distinct and ascending, and for the rowid range. `SaveURL` and `DeleteURL` are pure functions from a table to a result and the new table. `GetURL` returns only a result, so it cannot write. `New` takes the table already in the database, if any, and returns the table to serve from. `View` abstracts a table to the map `alias -> (id, url)`. Lemmas prove that on this map a save is an insert, a lookup is a read and a delete is a removal. A new row's id follows SQLite's rowid rule: one more than the largest rowid, or 1 for an empty table.
- **The three handlers** (modules `SaveHandler`, `RedirectHandler`, `DeleteHandler`). Each handler is split into two functions:
  - `Plan` decodes, validates or applies the empty-alias guard. It either answers at once or names the one store call to make.
  - `Reply` maps the store's result to a status, a body and a `Location` header.

  `Handle` runs a handler against any implementation of its store interface and records every store call it makes, as the handler unit tests do with mocks. `Serve` runs it against the SQLite table and returns the table after the request. A 200 save has appended exactly one row. A working delete has removed the alias and kept every other row.

Module `EndToEnd` composes the handlers with the store. It proves the flows that the end-to-end test drives: save, redirect, delete and redirect again, with an explicit or a generated alias (`EndToEnd.SaveRedirectDelete`), and the rejected invalid URL (`EndToEnd.RejectedSaveTouchesNothing`). Three further flows go beyond that test. A duplicate alias gets 409, from the UNIQUE constraint in `internal/storage/sqlite/sqlite.go:56-60`. Deleting an absent alias succeeds, from `internal/storage/sqlite/sqlite.go:106-111`. A delete acts as a removal on any table.

Some things are not computed by the model and come in as inputs:

- The validator's `url` rule is a predicate parameter `isURL`.
- The random alias generator is a function parameter `randomString`. The handler calls it with `AliasLength = 6`.
- JSON decoding of the request is the input `Decoded(request) | Undecodable`.
- Store failures are `Health` parameters. `exec` covers prepare, exec, query and driver failures. For `SaveURL` only, `insertId` covers a failing `LastInsertId`.

Two behaviours of the code are worth noting:

- `SaveURL` checks for a `LastInsertId` failure only after the insert has succeeded. So if that call fails, the row stays in the table while the client gets 500 "failed to add url". `EndToEnd.LostInsertIdStillStores` shows the effect: the alias redirects anyway, and a retry with the same explicit alias gets 409. A retry without an alias draws a new random alias (`save.go:71-74`), so it normally answers 200 and stores the URL a second time. This path exists only through `database/sql`'s general `Result` interface: the go-sqlite3 driver's `LastInsertId` never returns an error, so the deployed program cannot take it.
- The delete handler has a 404 branch for `ErrURLNotFound`, and it is modelled. The SQLite store never returns that error from `DeleteURL`, so `DeleteHandler.Serve` proves that the composed service never answers 404 to a delete.

The storage package `internal/storage` is not part of this model. Its two error values appear as `Store.Error`.

## Model

| member | source | states |
|---|---|---|
| Sqlite.Find | internal/storage/sqlite/sqlite.go:76-93 | The lookup `WHERE alias = ?` finds a row exactly when the alias is in the table, and the row it returns holds that alias |
| Sqlite.FindUnique | internal/storage/sqlite/sqlite.go:26-30 | Under the UNIQUE alias constraint, every row is the one the lookup returns for its alias: an alias maps to at most one URL |
| Sqlite.View | internal/storage/sqlite/sqlite.go:25-33 | The table read as the map alias -> (id, url); its keys are exactly the aliases present |
| Sqlite.ViewOfRow | internal/storage/sqlite/sqlite.go:26-30 | Every row of a valid table is recorded in the map under its alias with its own id and URL |
| Sqlite.LargestId | internal/storage/sqlite/sqlite.go:27 | The largest rowid of a non-empty table bounds every row's id and is the id of some row |
| Sqlite.NextRowId | internal/storage/sqlite/sqlite.go:27 | The rowid an insert without an id receives is larger than every id in use: one past the largest, or 1 for an empty table |
| Sqlite.Without | internal/storage/sqlite/sqlite.go:99-100 | `DELETE ... WHERE alias = ?` keeps exactly the rows with other aliases, and leaves the table unchanged when the alias is absent |
| Sqlite.WithoutAscending | internal/storage/sqlite/sqlite.go:27 | Deleting rows keeps the remaining rows in rowid order |
| Sqlite.WithoutUnique | internal/storage/sqlite/sqlite.go:28 | Deleting rows keeps the remaining aliases distinct |
| Sqlite.New | internal/storage/sqlite/sqlite.go:17-44 | Opening the store fails opaquely on a statement failure; otherwise it creates an empty, valid table when none exists and keeps an existing table unchanged (`IF NOT EXISTS`) |
| Sqlite.SaveURL | internal/storage/sqlite/sqlite.go:46-71 | `ErrURLExist` exactly when the alias is present on a working store, and the table is then unchanged. Success exactly when the alias is fresh and nothing fails; the returned id is held by no other row, and the table gains exactly that one row. If only `LastInsertId` fails, the result is an opaque error but the table still gains that row. Validity is preserved |
| Sqlite.GetURL | internal/storage/sqlite/sqlite.go:73-94 | On a working store it succeeds exactly when the alias is present and returns that row's URL. It returns `ErrURLNotFound` exactly when the alias is absent and never returns `ErrURLExist`. It returns no table, so it cannot write |
| Sqlite.DeleteURL | internal/storage/sqlite/sqlite.go:96-112 | Succeeds whenever the statement runs, even with no matching row, and never returns `ErrURLNotFound`. A failing statement leaves the table unchanged. After a working delete the alias is gone, every other row is kept and nothing is added. An absent alias leaves the table unchanged. Validity is preserved |
| Sqlite.FindAfterAppend | internal/storage/sqlite/sqlite.go:49-70 | After inserting a row under a fresh alias, that alias finds the new row and every other alias finds what it found before |
| Sqlite.FindAfterWithout | internal/storage/sqlite/sqlite.go:99-111 | After deleting one alias, every other alias finds what it found before |
| Sqlite.SaveRefinesInsert | internal/storage/sqlite/sqlite.go:46-71 | A save of a fresh alias on a valid, working store succeeds and acts on the map as `m[alias := (id, url)]`, with an id that no mapped entry holds |
| Sqlite.ViewAfterAppend | internal/storage/sqlite/sqlite.go:49-70 | Appending a row under a fresh alias inserts exactly that entry into the map |
| Sqlite.GetRefinesLookup | internal/storage/sqlite/sqlite.go:73-94 | A working lookup returns the mapped URL when the alias is in the map and `ErrURLNotFound` otherwise |
| Sqlite.DeleteRefinesRemove | internal/storage/sqlite/sqlite.go:96-112 | A working delete acts on the map as `m - {alias}` |
| Sqlite.SaveThenGet | internal/storage/sqlite/sqlite.go:46-94 | After saving `(url, alias)` for a fresh alias, getting `alias` returns exactly `url`, and every other alias resolves as before |
| Sqlite.DeleteThenGet | internal/storage/sqlite/sqlite.go:96-111 | After deleting `alias`, getting it returns `ErrURLNotFound`, and every other alias resolves as before |
| Sqlite.SaveThenDeleteRestores | internal/storage/sqlite/sqlite.go:46-111 | Saving a fresh alias and then deleting it restores the original map |
| Sqlite.DeleteIdempotent | internal/storage/sqlite/sqlite.go:106-111 | A second delete of the same alias returns the same result and the same table as the first |
| SaveHandler.Validate | internal/transport/http/handlers/url/save/save.go:17-20 | The `required,url` rule on URL: no failure exactly when the URL is non-empty and valid, and `required` fails exactly when it is empty |
| SaveHandler.AliasFor | internal/transport/http/handlers/url/save/save.go:71-74 | The alias stored is the requested one when it is non-empty, and otherwise the generator's output for length 6 |
| SaveHandler.Plan | internal/transport/http/handlers/url/save/save.go:44-74 | A store call is planned exactly when decoding and validation pass. The call carries the request URL, and the request alias when it is non-empty or `randomString(6)` when it is empty. Otherwise the answer is 400, with "failed to decode request" or the validation failure for field URL |
| SaveHandler.Reply | internal/transport/http/handlers/url/save/save.go:76-99 | 200 exactly on success, with the alias used. 409 "url already exists" exactly on `ErrURLExist`, with no alias. 500 "failed to add url" on any other error |
| SaveHandler.Handle | internal/transport/http/handlers/url/save/save.go:35-101 | At most one store call. No call exactly when the answer is 400. Otherwise exactly `SaveURL(request url, chosen alias)`; the status is 200 or 409 as the store answered, and the alias in the body is the alias handed to the store |
| SaveHandler.Serve | internal/transport/http/handlers/url/save/save.go:35-101 | Wired to SQLite, it answers as `Handle` does with the table as the URLSaver. A 200 has appended exactly the row (next rowid, the alias in the body, the request URL). A rejected request, a 409 or a failing statement leaves the table as it was. The table either is unchanged or has gained exactly the row for the chosen alias. Validity is preserved |
| RedirectHandler.Plan | internal/transport/http/handlers/redirect/redirect.go:29-37 | An empty alias is answered with 400 "invalid request"; otherwise the lookup uses exactly the path alias |
| RedirectHandler.Reply | internal/transport/http/handlers/redirect/redirect.go:39-60 | 302 exactly when the lookup succeeds, with `Location` equal to the stored URL. 404 "not found" exactly on `ErrURLNotFound`. 500 "failed to get url" on any other error. No `Location` on an error |
| RedirectHandler.Handle | internal/transport/http/handlers/redirect/redirect.go:20-62 | An empty alias makes no lookup. Otherwise exactly one lookup, `GetURL(alias)`. 302 to the looked-up URL exactly when it is found, and 404 exactly when it is not found |
| RedirectHandler.Serve | internal/transport/http/handlers/redirect/redirect.go:20-62 | Wired to SQLite, it answers as `Handle` does and leaves the table unchanged (redirect is read-only) |
| DeleteHandler.Plan | internal/transport/http/handlers/url/delete/delete.go:33-41 | An empty alias is answered with 400 "invalid request"; otherwise the delete uses exactly the path alias |
| DeleteHandler.Reply | internal/transport/http/handlers/url/delete/delete.go:43-65 | 200 with status OK and no error exactly on success. 404 "not found" exactly on `ErrURLNotFound`. 500 "failed to delete url" on any other error |
| DeleteHandler.Handle | internal/transport/http/handlers/url/delete/delete.go:24-67 | An empty alias makes no delete call. Otherwise exactly one call, `DeleteURL(alias)`. 200 exactly when the deleter succeeds, and 404 exactly when it reports not found |
| DeleteHandler.Serve | internal/transport/http/handlers/url/delete/delete.go:24-67 | Wired to SQLite, it answers as `Handle` does and never answers 404, because `DeleteURL` never reports not found. A working delete of a non-empty alias removes that alias and keeps every row with another alias. An empty alias or a failing store leaves the table as it was. Validity is preserved |
| EndToEnd.SaveFresh | internal/transport/http/handlers/url/save/save.go:71-99 | A valid save under a fresh alias answers 200 with the alias used and appends exactly that row |
| EndToEnd.RedirectAnswers | internal/transport/http/handlers/redirect/redirect.go:39-60 | On a working store, a non-empty alias redirects to the stored URL when present and answers 404 "not found" otherwise |
| EndToEnd.SaveRedirectDelete | e2e/url_shortener_test.go:91-132 | Save answers 200 with the alias (requested, or generated and non-empty). Redirect then answers 302 with `Location` equal to the saved URL (header escaping is not modelled; see Left out), delete answers 200, and a second redirect answers 404 "not found". The map ends as it began |
| EndToEnd.SaveTwiceConflicts | internal/storage/sqlite/sqlite.go:56-60 | Two saves under one explicit alias: the first gives 200. The second gives 409 "url already exists" and changes nothing, so the alias still redirects to the first URL |
| EndToEnd.DeleteAbsentSucceeds | internal/transport/http/handlers/url/delete/delete.go:43-65 | With SQLite, deleting an absent alias answers 200 and leaves the table unchanged, and a repeated delete answers the same |
| EndToEnd.DeleteRemovesAlias | internal/transport/http/handlers/url/delete/delete.go:43-65 | On any table, a delete of a non-empty alias on a working store answers 200, removes exactly that alias from the map, and a later redirect of it answers 404 "not found" |
| EndToEnd.LostInsertIdStillStores | internal/storage/sqlite/sqlite.go:65-68 | A save whose `LastInsertId` fails answers 500 "failed to add url", yet the row is stored: the alias redirects to the URL and a retry with the same explicit alias gets 409 |
| EndToEnd.RejectedSaveTouchesNothing | internal/transport/http/handlers/url/save/save.go:47-69 | An undecodable body, an empty URL or an invalid URL makes no store call, answers 400 and leaves the table unchanged |

## Left out

- Server start-up, configuration, graceful shutdown and logger setup (`cmd/url-shortener/main.go`) are left out. Its `New(storage)` calls do not match the handlers' `(log, store)` signatures, which does not affect the model.
- The router and its middleware (`cmd/url-shortener/main.go:118-134`) are left out, and they do change which alias a handler sees. The model's redirect and delete handlers receive the alias exactly as saved. In the program, chi's `middleware.URLFormat` (main.go:123) strips a trailing `.ext` from the path before `/{alias}` and `/url/{alias}` bind it. After saving `my.link`, `GET /my.link` looks up `my`, and `DELETE /url/my.link` deletes `my`, answers 200 and leaves `my.link` stored. `{alias}` also matches a single path segment, so an alias containing `/` can be saved but never redirected or deleted. The save handler accepts any alias (save.go:71).
- Logging is left out throughout. This includes each handler closure reassigning its captured `log` on every request.
- SQL text, `sql.Open`, `db.Prepare`, the driver's error codes and Go's error wrapping (`%w`) are left out. `errors.Is` sees through the wrapping. These reduce to `ErrURLExist`, `ErrURLNotFound` and the opaque `ErrOther`.
- Concurrency is left out. Each store operation is atomic and requests are handled one after another. Two racing saves on one alias are modelled as two saves in sequence (`EndToEnd.SaveTwiceConflicts`). Serialising them is the storage engine's job.
- Sqlite.SaveURL: when the largest rowid is already 2^63-1, SQLite would try random unused rowids. The model reports an opaque store error instead.
- The validator's `url` grammar is the parameter `isURL`. The error text comes from `response.ValidationError`, in the project's own `internal/transport/http/common/response` package. That package is not part of this model. The handler tests pin its two messages: "field URL is a required field" and "field URL is not a valid URL" (`internal/transport/http/handlers/url/save/save_test.go:45-52`, `e2e/url_shortener_test.go:70`). The body carries the field and the failed rule instead of that text.
- JSON decoding and encoding (`render`) are left out. The decode result is an input, and the `response` package's status strings appear only as the `OkBody` and `ErrorBody` constructors.
- `random.RandomString` is a parameter. It is not part of this model. Its alphabet is not asserted. Its length (6) is assumed only where a lemma needs a non-empty generated alias (`EndToEnd.SaveRedirectDelete`).
- RedirectHandler.Reply: `Location` is the stored URL verbatim, because the model leaves out `http.Redirect`'s header formatting. That function percent-escapes non-ASCII bytes (`hexEscapeNonASCII`), so `https://example.com/café` is sent as `https://example.com/caf%C3%A9`. The save-then-redirect round trip is therefore exact only for ASCII URLs. `http.Redirect` would also resolve a relative URL against the request path, but every saved URL has passed the `url` rule. The small HTML body it writes is not modelled either.
- EndToEnd.SaveRedirectDelete: its `Location` equality holds byte for byte only for ASCII URLs, for the reason given in the line above. As an HTTP-level round trip it also holds only for aliases the router passes through unchanged: aliases with no `.` and no `/`, as the end-to-end test's word and random-string aliases are.
