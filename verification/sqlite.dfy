/** The SQLite-backed store: the single `url` table and its three statements.

    The table is kept as its rows in rowid order (the order of SQLite's table b-tree).
    `View` abstracts it to the map alias -> (id, url) that the rest of the system relies on,
    and each operation is proved to act on that map as an insert, a lookup or a removal. */
module Sqlite {
  import opened Results
  import opened Store

  /** Largest rowid SQLite can assign: `INTEGER PRIMARY KEY` is a signed 64-bit integer. */
  const MaxRowId: int := 0x7FFF_FFFF_FFFF_FFFF

  /** One row of `url(id INTEGER PRIMARY KEY, alias TEXT NOT NULL UNIQUE, url TEXT NOT NULL)`. */
  datatype Row = Row(id: int, alias: string, url: string)

  /** The `url` table. */
  datatype Table = Table(rows: seq<Row>)

  /** Whether the statement machinery (prepare, exec, query, scan, the driver) works for one
      call. A failing call reports an opaque error and writes nothing. */
  datatype Health = Healthy | Failing

  /** What the abstract map holds for one alias. */
  datatype Entry = Entry(id: int, url: string)

  /** The result of `SaveURL`: Go's `(id, err)` and the table afterwards. */
  datatype Saved = Saved(result: Result<int, Error>, table: Table)

  /** The result of `DeleteURL`: Go's `err` and the table afterwards. */
  datatype Deleted = Deleted(result: Outcome<Error>, table: Table)

  /** The `UNIQUE` constraint on `alias`. */
  predicate UniqueAliases(rows: seq<Row>) {
    forall i, j :: 0 <= i < j < |rows| ==> rows[i].alias != rows[j].alias
  }

  /** Rows are stored by increasing rowid, so rowids are also distinct (the primary key). */
  predicate AscendingIds(rows: seq<Row>) {
    forall i, j :: 0 <= i < j < |rows| ==> rows[i].id < rows[j].id
  }

  /** Rowids SQLite assigns itself lie in 1..MaxRowId. */
  predicate IdsInRange(rows: seq<Row>) {
    forall i :: 0 <= i < |rows| ==> 1 <= rows[i].id <= MaxRowId
  }

  /** The table invariant. */
  predicate Valid(t: Table) {
    UniqueAliases(t.rows) && AscendingIds(t.rows) && IdsInRange(t.rows)
  }

  /** The aliases present in the table. */
  function Aliases(rows: seq<Row>): set<string> {
    set row | row in rows :: row.alias
  }

  /** The abstract map alias -> (id, url) that the table represents. */
  function View(t: Table): (m: map<string, Entry>)
    ensures m.Keys == Aliases(t.rows)
  {
    map a | a in Aliases(t.rows) :: var row := Find(t.rows, a).value; Entry(row.id, row.url)
  }

  /** `SELECT ... WHERE alias = ?`: the first row, in rowid order, holding `alias`. */
  function Find(rows: seq<Row>, alias: string): (r: Option<Row>)
    ensures r.None? <==> alias !in Aliases(rows)
    ensures r.Some? ==> r.value in rows && r.value.alias == alias
  {
    if rows == [] then None
    else if rows[0].alias == alias then Some(rows[0])
    else
      assert Aliases(rows) == {rows[0].alias} + Aliases(rows[1..]) by {
        assert rows == [rows[0]] + rows[1..];
      }
      Find(rows[1..], alias)
  }

  /** The largest rowid of a non-empty table. */
  function LargestId(rows: seq<Row>): (m: int)
    requires rows != []
    ensures forall i :: 0 <= i < |rows| ==> rows[i].id <= m
    ensures exists i :: 0 <= i < |rows| && rows[i].id == m
  {
    if |rows| == 1 then rows[0].id
    else
      var rest := LargestId(rows[1..]);
      assert forall i :: 1 <= i < |rows| ==> rows[i] == rows[1..][i - 1];
      if rows[0].id >= rest then rows[0].id else rest
  }

  /** The rowid SQLite picks for an insert that names none: one more than the largest rowid,
      or 1 for an empty table. */
  function NextRowId(rows: seq<Row>): (id: int)
    ensures forall row :: row in rows ==> row.id < id
    ensures rows == [] ==> id == 1
    ensures rows != [] ==> exists i :: 0 <= i < |rows| && rows[i].id == id - 1
  {
    if rows == [] then 1 else LargestId(rows) + 1
  }

  /** The table after `DELETE FROM url WHERE alias = ?`: every row holding `alias` is gone and
      the others keep their order. */
  function Without(rows: seq<Row>, alias: string): (r: seq<Row>)
    ensures forall row :: row in r <==> row in rows && row.alias != alias
    ensures alias !in Aliases(rows) ==> r == rows
  {
    if rows == [] then []
    else
      assert Aliases(rows) == {rows[0].alias} + Aliases(rows[1..]) by {
        assert rows == [rows[0]] + rows[1..];
      }
      assert forall row :: row in rows <==> row == rows[0] || row in rows[1..] by {
        assert rows == [rows[0]] + rows[1..];
      }
      if rows[0].alias == alias then Without(rows[1..], alias)
      else [rows[0]] + Without(rows[1..], alias)
  }

  /** Dropping the first row keeps the invariant's pairwise parts. */
  lemma TailKeepsOrder(rows: seq<Row>)
    requires rows != []
    ensures AscendingIds(rows) ==> AscendingIds(rows[1..])
    ensures UniqueAliases(rows) ==> UniqueAliases(rows[1..])
  {
  }

  /** A row put in front of rows with larger rowids keeps the rowid order. */
  lemma ConsAscending(row: Row, rest: seq<Row>)
    requires forall k :: 0 <= k < |rest| ==> row.id < rest[k].id
    requires AscendingIds(rest)
    ensures AscendingIds([row] + rest)
  {
  }

  /** A row put in front of rows with other aliases keeps the aliases distinct. */
  lemma ConsUnique(row: Row, rest: seq<Row>)
    requires forall k :: 0 <= k < |rest| ==> row.alias != rest[k].alias
    requires UniqueAliases(rest)
    ensures UniqueAliases([row] + rest)
  {
  }

  /** Every row left by a delete comes from further down the table. */
  lemma WithoutTailIndex(rows: seq<Row>, alias: string, k: int) returns (m: int)
    requires rows != []
    requires 0 <= k < |Without(rows[1..], alias)|
    ensures 1 <= m < |rows| && rows[m] == Without(rows[1..], alias)[k]
  {
    var rest := Without(rows[1..], alias);
    assert rest[k] in rows[1..];
    var m' :| 0 <= m' < |rows[1..]| && rows[1..][m'] == rest[k];
    m := m' + 1;
  }

  /** Deleting rows keeps the survivors in rowid order. */
  lemma {:induction false} WithoutAscending(rows: seq<Row>, alias: string)
    requires AscendingIds(rows)
    ensures AscendingIds(Without(rows, alias))
  {
    if rows != [] {
      TailKeepsOrder(rows);
      WithoutAscending(rows[1..], alias);
      var rest := Without(rows[1..], alias);
      if rows[0].alias != alias {
        forall k | 0 <= k < |rest|
          ensures rows[0].id < rest[k].id
        {
          var m := WithoutTailIndex(rows, alias, k);
        }
        ConsAscending(rows[0], rest);
      }
    }
  }

  /** Deleting rows keeps the survivors' aliases distinct. */
  lemma {:induction false} WithoutUnique(rows: seq<Row>, alias: string)
    requires UniqueAliases(rows)
    ensures UniqueAliases(Without(rows, alias))
  {
    if rows != [] {
      TailKeepsOrder(rows);
      WithoutUnique(rows[1..], alias);
      var rest := Without(rows[1..], alias);
      if rows[0].alias != alias {
        forall k | 0 <= k < |rest|
          ensures rows[0].alias != rest[k].alias
        {
          var m := WithoutTailIndex(rows, alias, k);
        }
        ConsUnique(rows[0], rest);
      }
    }
  }

  /** `New`: `CREATE TABLE IF NOT EXISTS url(...)`. A database without the table gets an empty
      one; an existing table is kept as it is. */
  function New(existing: Option<Table>, exec: Health): (r: Result<Table, Error>)
    ensures exec.Failing? ==> r == Err(ErrOther)
    ensures r.Ok? && existing.None? ==> r.value.rows == [] && Valid(r.value)
    ensures r.Ok? && existing.Some? ==> r.value == existing.value
    ensures exec.Healthy? ==> r.Ok?
  {
    if exec.Failing? then Err(ErrOther)
    else if existing.None? then Ok(Table([]))
    else Ok(existing.value)
  }

  /** `SaveURL`: `INSERT INTO url(url, alias) VALUES(?, ?)`.

      A duplicate alias violates the UNIQUE constraint and is reported as `ErrURLExist`; any
      other statement failure is opaque. If the insert succeeds but `LastInsertId` fails, the
      row stays inserted and an opaque error is returned all the same. */
  function SaveURL(t: Table, url: string, alias: string, exec: Health, insertId: Health): (s: Saved)
    ensures s.result == Err(ErrURLExist) <==> exec.Healthy? && alias in Aliases(t.rows)
    ensures s.result.Ok? <==>
              exec.Healthy? && insertId.Healthy? && alias !in Aliases(t.rows) && NextRowId(t.rows) <= MaxRowId
    ensures s.result.Ok? ==> forall row :: row in t.rows ==> row.id != s.result.value
    ensures s.result.Ok? ==> s.table.rows == t.rows + [Row(s.result.value, alias, url)]
    ensures s.table == t || s.table.rows == t.rows + [Row(NextRowId(t.rows), alias, url)]
    ensures s.table != t ==> exec.Healthy? && alias !in Aliases(t.rows)
    ensures exec.Healthy? && insertId.Failing? && alias !in Aliases(t.rows) && NextRowId(t.rows) <= MaxRowId ==>
              s.result == Err(ErrOther) && s.table.rows == t.rows + [Row(NextRowId(t.rows), alias, url)]
    ensures Valid(t) ==> Valid(s.table)
  {
    if exec.Failing? then Saved(Err(ErrOther), t)
    else if alias in Aliases(t.rows) then Saved(Err(ErrURLExist), t)
    else
      var id := NextRowId(t.rows);
      if id > MaxRowId then Saved(Err(ErrOther), t)
      else
        var t' := Table(t.rows + [Row(id, alias, url)]);
        if insertId.Failing? then Saved(Err(ErrOther), t') else Saved(Ok(id), t')
  }

  /** `GetURL`: `SELECT url FROM url WHERE alias = ?`, with no row reported as
      `ErrURLNotFound`. It never writes. */
  function GetURL(t: Table, alias: string, exec: Health): (r: Result<string, Error>)
    ensures r.Ok? <==> exec.Healthy? && alias in Aliases(t.rows)
    ensures r == Err(ErrURLNotFound) <==> exec.Healthy? && alias !in Aliases(t.rows)
    ensures r.Ok? ==> Find(t.rows, alias).Some? && Find(t.rows, alias).value.url == r.value
    ensures r.Ok? ==> exists row :: row in t.rows && row.alias == alias && row.url == r.value
    ensures r != Err(ErrURLExist)
  {
    if exec.Failing? then Err(ErrOther)
    else
      match Find(t.rows, alias)
      case None => Err(ErrURLNotFound)
      case Some(row) => Ok(row.url)
  }

  /** `DeleteURL`: `DELETE FROM url WHERE alias = ?`. Deleting an alias that is not there
      affects no row and is not an error. */
  function DeleteURL(t: Table, alias: string, exec: Health): (d: Deleted)
    ensures d.result.Pass? <==> exec.Healthy?
    ensures exec.Failing? ==> d.table == t
    ensures d.result != Fail(ErrURLNotFound) && d.result != Fail(ErrURLExist)
    ensures exec.Healthy? ==> alias !in Aliases(d.table.rows)
    ensures exec.Healthy? ==> Aliases(d.table.rows) == Aliases(t.rows) - {alias}
    ensures forall row :: row in d.table.rows ==> row in t.rows
    ensures forall row :: row in t.rows && row.alias != alias ==> row in d.table.rows
    ensures alias !in Aliases(t.rows) ==> d.table == t
    ensures Valid(t) ==> Valid(d.table)
  {
    if exec.Failing? then Deleted(Fail(ErrOther), t)
    else
      assert Valid(t) ==> Valid(Table(Without(t.rows, alias))) by {
        if Valid(t) {
          WithoutAscending(t.rows, alias);
          WithoutUnique(t.rows, alias);
        }
      }
      Deleted(Pass, Table(Without(t.rows, alias)))
  }

  /** Under the UNIQUE constraint a row is the one `Find` returns for its alias. */
  lemma FindUnique(rows: seq<Row>, row: Row)
    requires UniqueAliases(rows)
    requires row in rows
    ensures Find(rows, row.alias) == Some(row)
  {
  }

  /** The abstract map records every row under its alias. */
  lemma ViewOfRow(t: Table, row: Row)
    requires UniqueAliases(t.rows)
    requires row in t.rows
    ensures row.alias in View(t) && View(t)[row.alias] == Entry(row.id, row.url)
  {
  }

  /** Appending a row with a fresh alias leaves every other alias's lookup as it was and makes
      the new alias find the new row. */
  lemma {:induction false} FindAfterAppend(rows: seq<Row>, row: Row, alias: string)
    requires row.alias !in Aliases(rows)
    ensures Find(rows + [row], alias) == if alias == row.alias then Some(row) else Find(rows, alias)
  {
    if rows == [] {
    } else {
      assert (rows + [row])[1..] == rows[1..] + [row];
      assert Aliases(rows) == {rows[0].alias} + Aliases(rows[1..]) by {
        assert rows == [rows[0]] + rows[1..];
      }
      FindAfterAppend(rows[1..], row, alias);
    }
  }

  /** Deleting one alias leaves the lookup of every other alias as it was. */
  lemma {:induction false} FindAfterWithout(rows: seq<Row>, gone: string, alias: string)
    requires alias != gone
    ensures Find(Without(rows, gone), alias) == Find(rows, alias)
  {
    if rows != [] {
      FindAfterWithout(rows[1..], gone, alias);
      if rows[0].alias != gone {
        assert ([rows[0]] + Without(rows[1..], gone))[1..] == Without(rows[1..], gone);
      }
    }
  }

  /** A save of a fresh alias on a healthy store succeeds and acts on the abstract map as an
      insert of (id, url) under that alias, with an id no other row holds. */
  lemma SaveRefinesInsert(t: Table, url: string, alias: string)
    requires Valid(t)
    requires alias !in View(t)
    requires NextRowId(t.rows) <= MaxRowId
    ensures var s := SaveURL(t, url, alias, Healthy, Healthy);
      && s.result.Ok?
      && View(s.table) == View(t)[alias := Entry(s.result.value, url)]
      && forall a :: a in View(t) ==> View(t)[a].id != s.result.value
  {
    var s := SaveURL(t, url, alias, Healthy, Healthy);
    ViewAfterAppend(t, Row(NextRowId(t.rows), alias, url));
    forall a | a in View(t)
      ensures View(t)[a].id != s.result.value
    {
      assert Find(t.rows, a).value in t.rows;
    }
  }

  /** Appending a row under a fresh alias inserts it into the abstract map. */
  lemma ViewAfterAppend(t: Table, row: Row)
    requires row.alias !in Aliases(t.rows)
    ensures View(Table(t.rows + [row])) == View(t)[row.alias := Entry(row.id, row.url)]
  {
    var after := View(Table(t.rows + [row]));
    var expected := View(t)[row.alias := Entry(row.id, row.url)];
    assert Aliases(t.rows + [row]) == Aliases(t.rows) + {row.alias} by {
      assert forall r :: r in t.rows + [row] <==> r in t.rows || r == row;
    }
    forall a | a in after
      ensures after[a] == expected[a]
    {
      FindAfterAppend(t.rows, row, a);
    }
  }

  /** A healthy lookup reads the abstract map. */
  lemma GetRefinesLookup(t: Table, alias: string)
    ensures GetURL(t, alias, Healthy) ==
      if alias in View(t) then Ok(View(t)[alias].url) else Err(ErrURLNotFound)
  {
  }

  /** A healthy delete removes the alias from the abstract map and nothing else. */
  lemma DeleteRefinesRemove(t: Table, alias: string)
    ensures View(DeleteURL(t, alias, Healthy).table) == View(t) - {alias}
  {
    var d := DeleteURL(t, alias, Healthy);
    forall a | a in View(d.table)
      ensures View(d.table)[a] == View(t)[a]
    {
      FindAfterWithout(t.rows, alias, a);
    }
  }

  /** Save then get: a saved alias resolves to exactly the saved URL. */
  lemma SaveThenGet(t: Table, url: string, alias: string, other: string)
    requires alias !in Aliases(t.rows)
    requires NextRowId(t.rows) <= MaxRowId
    ensures var s := SaveURL(t, url, alias, Healthy, Healthy);
      && s.result.Ok?
      && GetURL(s.table, alias, Healthy) == Ok(url)
      && (other != alias ==> GetURL(s.table, other, Healthy) == GetURL(t, other, Healthy))
  {
    var s := SaveURL(t, url, alias, Healthy, Healthy);
    FindAfterAppend(t.rows, Row(s.result.value, alias, url), alias);
    FindAfterAppend(t.rows, Row(s.result.value, alias, url), other);
  }

  /** Delete then get: the deleted alias is not found, every other alias resolves as before. */
  lemma DeleteThenGet(t: Table, alias: string, other: string)
    ensures var d := DeleteURL(t, alias, Healthy);
      && GetURL(d.table, alias, Healthy) == Err(ErrURLNotFound)
      && (other != alias ==> GetURL(d.table, other, Healthy) == GetURL(t, other, Healthy))
  {
    if other != alias {
      FindAfterWithout(t.rows, alias, other);
    }
  }

  /** Removing a key just inserted into a map that lacked it gives the map back. */
  lemma RemoveUndoesInsert(m: map<string, Entry>, key: string, e: Entry)
    requires key !in m
    ensures m[key := e] - {key} == m
  {
  }

  /** Saving a fresh alias and then deleting it gives back the abstract map one started from. */
  lemma SaveThenDeleteRestores(t: Table, url: string, alias: string)
    requires Valid(t)
    requires alias !in Aliases(t.rows)
    requires NextRowId(t.rows) <= MaxRowId
    ensures var s := SaveURL(t, url, alias, Healthy, Healthy);
      View(DeleteURL(s.table, alias, Healthy).table) == View(t)
  {
    var s := SaveURL(t, url, alias, Healthy, Healthy);
    SaveRefinesInsert(t, url, alias);
    DeleteRefinesRemove(s.table, alias);
    RemoveUndoesInsert(View(t), alias, Entry(s.result.value, url));
  }

  /** Deleting twice is deleting once. */
  lemma DeleteIdempotent(t: Table, alias: string)
    ensures var d := DeleteURL(t, alias, Healthy);
      DeleteURL(d.table, alias, Healthy) == d
  {
  }
}
