/**
 * The part of SQLite the mappers rely on, abstracted: a database file is a
 * set of named tables, each with its declared columns, its rows by rowid
 * and the AUTOINCREMENT counter; a connection sees the file plus its own
 * uncommitted writes. The statements are the ones the mappers send, each
 * with the text they send it as.
 */
module Sqlite {
  import opened Values
  import Sql

  /** A stored row: the declared columns with their values; the rowid is the key. */
  type Row = map<string, Value>

  /**
   * A table declared `id integer primary key autoincrement, <columns>`:
   * `lastId` is the largest rowid ever handed out (its `sqlite_sequence` entry).
   */
  datatype Table = Table(columns: seq<string>, rows: map<int, Row>, lastId: nat)

  type Tables = map<string, Table>

  ghost predicate TableOk(t: Table) {
    && (forall id :: id in t.rows ==> 1 <= id <= t.lastId)
    && (forall id :: id in t.rows ==> t.rows[id].Keys == set c | c in t.columns)
  }

  ghost predicate TablesOk(ts: Tables) {
    forall n :: n in ts ==> TableOk(ts[n])
  }

  /**
   * What a model class's `schema()` script does, abstracted: drop the table
   * if it exists and create it, empty, with these columns besides `id`.
   */
  datatype Schema = Schema(table: string, columns: seq<string>)

  predicate WellFormed(s: Schema) {
    && (forall i, j :: 0 <= i < j < |s.columns| ==> s.columns[i] != s.columns[j])
    && "id" !in s.columns
  }

  function CreateTable(ts: Tables, s: Schema): (r: Tables)
    ensures r.Keys == ts.Keys + {s.table}
    ensures r[s.table].rows == map[] && r[s.table].columns == s.columns
    ensures forall n :: n in ts && n != s.table ==> r[n] == ts[n]
  {
    ts[s.table := Table(s.columns, map[], 0)]
  }

  /** Whether `where id = ?` with this parameter matches a row of `t`. */
  predicate Present(t: Table, key: Value) {
    KeyOf(key).Some? && KeyOf(key).value in t.rows
  }

  function Cell(row: Row, c: string): Value {
    if c in row then row[c] else Null
  }

  /** A row as `select *` returns it: `id` first, then every declared column. */
  function RowAttrs(t: Table, id: int): (r: Attrs)
    requires id in t.rows
    ensures |r| == |t.columns| + 1 && r[0] == ("id", Int(id))
    ensures forall i :: 0 <= i < |t.columns| ==> r[i + 1] == (t.columns[i], Cell(t.rows[id], t.columns[i]))
  {
    [("id", Int(id))] + seq(|t.columns|, i requires 0 <= i < |t.columns| => (t.columns[i], Cell(t.rows[id], t.columns[i])))
  }

  /** The rowid in an entry's leading `id` column, as `select *` puts it there (0 if absent). */
  function RowId(r: Attrs): int {
    if |r| > 0 && r[0].1.Int? then r[0].1.i else 0
  }

  /** The rowids of `rows` up to `hi`, smallest first: the order of a full scan. */
  function Ascending(rows: map<int, Row>, hi: int): (r: seq<int>)
    ensures forall k :: k in r <==> k in rows && 1 <= k <= hi
    ensures forall i, j :: 0 <= i < j < |r| ==> r[i] < r[j]
    decreases hi
  {
    if hi <= 0 then []
    else
      var lower := Ascending(rows, hi - 1);
      assert forall i :: 0 <= i < |lower| ==> lower[i] in lower;
      assert forall i :: 0 <= i < |lower| ==> lower[i] < hi;
      lower + (if hi in rows then [hi] else [])
  }

  /** The rowids of `rows` up to `hi`, largest first: `order by id desc`. */
  function Descending(rows: map<int, Row>, hi: int): (r: seq<int>)
    ensures forall k :: k in r <==> k in rows && 1 <= k <= hi
    ensures forall i, j :: 0 <= i < j < |r| ==> r[i] > r[j]
    decreases hi
  {
    if hi <= 0 then []
    else
      var lower := Descending(rows, hi - 1);
      assert forall i :: 0 <= i < |lower| ==> lower[i] in lower;
      assert forall i :: 0 <= i < |lower| ==> lower[i] < hi;
      (if hi in rows then [hi] else []) + lower
  }

  /** `cols[i] = vals[i]` for every i; the first of two equal names wins. */
  function Zip(cols: seq<string>, vals: seq<Value>): (r: map<string, Value>)
    requires |cols| == |vals|
    ensures r.Keys == set c | c in cols
  {
    if |cols| == 0 then map[]
    else Zip(cols[1..], vals[1..])[cols[0] := vals[0]]
  }

  /** The row an insert stores: the given columns, NULL for the others. */
  function NewRow(columns: seq<string>, given: map<string, Value>): (r: Row)
    ensures r.Keys == set c | c in columns
  {
    map c | c in columns :: if c in given then given[c] else Null
  }

  /** The statements the mappers send. */
  datatype Stmt =
    | FindTable(name: string)                              // catalog lookup by name
    | CountTables(name: string)                            // catalog count by name
    | SelectAll(table: string, newestFirst: bool)          // full scan
    | SelectById(table: string, key: Value)                // `select *` by id
    | SelectId(table: string, key: Value)                  // `select id` by id
    | CountById(table: string, key: Value)                 // `select count(*)` by id
    | Insert(table: string, columns: seq<string>, values: seq<Value>)
    | Update(table: string, columns: seq<string>, values: seq<Value>)  // SET values, then the id
    | Delete(table: string, key: Value)

  predicate OnCatalog(s: Stmt) {
    s.FindTable? || s.CountTables?
  }

  predicate Writes(s: Stmt) {
    s.Insert? || s.Update? || s.Delete?
  }

  /** The `?` that stands for one bound parameter. */
  const Mark := "?"

  /** The statement text, as the mappers format it. */
  function Render(s: Stmt): string {
    match s
    case FindTable(_) => "select name len FROM sqlite_master where type = ? AND name = ?"
    case CountTables(_) => "select count(*) len FROM sqlite_master where type = ? AND name = ?"
    case SelectAll(t, desc) => "select * from " + t + (if desc then " order by id desc" else "")
    case SelectById(t, _) => "select * from " + t + " where id = " + Mark
    case SelectId(t, _) => "select id from " + t + " where id = " + Mark
    case CountById(t, _) => "select count(*) len from " + t + " where id = " + Mark
    case Insert(t, cols, _) => "insert into " + t + " " + Sql.ColumnList(cols) + " values " + Sql.RefList(|cols|)
    case Update(t, cols, _) => "UPDATE " + t + " SET " + Sql.SetClause(cols) + " WHERE id = " + Mark
    case Delete(t, _) => "DELETE from " + t + " WHERE id = " + Mark
  }

  /** The parameters bound to the placeholders. */
  function Params(s: Stmt): seq<Value> {
    match s
    case FindTable(n) => [Text("table"), Text(n)]
    case CountTables(n) => [Text("table"), Text(n)]
    case SelectAll(_, _) => []
    case SelectById(_, key) => [key]
    case SelectId(_, key) => [key]
    case CountById(_, key) => [key]
    case Insert(_, _, vals) => vals
    case Update(_, _, vals) => vals
    case Delete(_, key) => [key]
  }

  /** The number of placeholders the store finds in a statement that parses. */
  function Arity(s: Stmt): nat {
    match s
    case FindTable(_) => 2
    case CountTables(_) => 2
    case SelectAll(_, _) => 0
    case Insert(_, cols, _) => |cols|
    case Update(_, cols, _) => |cols| + 1
    case _ => 1
  }

  /** What the store answers: the tables afterwards, the fetched rows, `cursor.lastrowid`. */
  datatype Output = Output(tables: Tables, rows: seq<Attrs>, lastRowId: Value)

  /** The statement parses and names tables and columns that exist. */
  predicate Prepares(ts: Tables, s: Stmt) {
    && ((s.Insert? || s.Update?) ==> |s.columns| > 0)
    && (!OnCatalog(s) ==> s.table in ts)
    && ((s.Insert? || s.Update?) ==> forall c :: c in s.columns ==> c in ts[s.table].columns)
  }

  /** The store accepts the statement: it prepares and is bound to the right number of values. */
  predicate Admits(ts: Tables, s: Stmt) {
    Prepares(ts, s) && |Params(s)| == Arity(s)
  }

  /** The table set keeps its tables and columns and no counter goes back. */
  ghost predicate Grows(ts: Tables, ts': Tables) {
    && ts'.Keys == ts.Keys
    && forall n :: n in ts ==> ts'[n].columns == ts[n].columns && ts'[n].lastId >= ts[n].lastId
  }

  /** Executing one statement on a connection's view of the tables. */
  function Exec(ts: Tables, s: Stmt): (r: Result<Output>)
    ensures r.Ok? <==> Admits(ts, s)
    ensures r.Err? ==> r.error == if Prepares(ts, s) then ProgrammingError else OperationalError
    ensures r.Ok? && !Writes(s) ==> r.value.tables == ts
  {
    if (s.Insert? || s.Update?) && |s.columns| == 0 then Err(OperationalError)  // `()` and `SET = ?` do not parse
    else if !OnCatalog(s) && s.table !in ts then Err(OperationalError)         // no such table
    else if (s.Insert? || s.Update?) && !(forall c :: c in s.columns ==> c in ts[s.table].columns) then
      Err(OperationalError)                                                    // no such column
    else if |Params(s)| != Arity(s) then Err(ProgrammingError)                 // incorrect number of bindings
    else Ok(Apply(ts, s))
  }

  /** The effect and answer of a statement the store accepts. */
  function Apply(ts: Tables, s: Stmt): (r: Output)
    requires Admits(ts, s)
    ensures !Writes(s) ==> r.tables == ts
  {
    match s
    case FindTable(n) =>
      Output(ts, if n in ts then [[("len", Text(n))]] else [], Null)
    case CountTables(n) =>
      Output(ts, [[("len", Int(if n in ts then 1 else 0))]], Null)
    case SelectAll(t, desc) =>
      var tb := ts[t];
      var ids := if desc then Descending(tb.rows, tb.lastId) else Ascending(tb.rows, tb.lastId);
      Output(ts, seq(|ids|, i requires 0 <= i < |ids| => RowAttrs(tb, ids[i])), Null)
    case SelectById(t, key) =>
      Output(ts, if Present(ts[t], key) then [RowAttrs(ts[t], KeyOf(key).value)] else [], Null)
    case SelectId(t, key) =>
      Output(ts, if Present(ts[t], key) then [[("id", Int(KeyOf(key).value))]] else [], Null)
    case CountById(t, key) =>
      Output(ts, [[("len", Int(if Present(ts[t], key) then 1 else 0))]], Null)
    case Insert(t, cols, vals) =>
      Output(Inserted(ts, t, cols, vals), [], Int(ts[t].lastId + 1))
    case Update(t, cols, vals) =>
      Output(Updated(ts, t, cols, vals), [], Null)
    case Delete(t, key) =>
      var tb := ts[t];
      if KeyOf(key).Some? then Output(ts[t := tb.(rows := tb.rows - {KeyOf(key).value})], [], Null)
      else Output(ts, [], Null)
  }

  /**
   * The store never drops a table or a column and never winds a rowid
   * counter back, and an accepted statement keeps every table well formed:
   * each row has exactly the table's columns and a rowid within the counter.
   */
  lemma ExecGrows(ts: Tables, s: Stmt)
    requires Exec(ts, s).Ok?
    ensures Grows(ts, Exec(ts, s).value.tables)
    ensures TablesOk(ts) ==> TablesOk(Exec(ts, s).value.tables)
  {
    match s
    case Insert(t, cols, vals) =>
      InsertOutcome(ts, t, cols, vals);
      InsertGrows(ts, t, cols, vals);
    case Update(t, cols, vals) =>
      UpdateOutcome(ts, t, cols, vals);
      UpdateGrows(ts, t, cols, vals);
    case Delete(t, key) =>
      if KeyOf(key).Some? {
        Replaced(ts, t, ts[t].(rows := ts[t].rows - {KeyOf(key).value}));
      }
    case _ =>
  }

  /** An insert keeps the tables growing and well formed. */
  lemma InsertGrows(ts: Tables, t: string, cols: seq<string>, vals: seq<Value>)
    requires Admits(ts, Insert(t, cols, vals))
    ensures Grows(ts, Inserted(ts, t, cols, vals))
    ensures TablesOk(ts) ==> TablesOk(Inserted(ts, t, cols, vals))
  {
    var tb := ts[t];
    var id := tb.lastId + 1;
    var tb' := Table(tb.columns, tb.rows[id := NewRow(tb.columns, Zip(cols, vals))], id);
    assert TableOk(tb) ==> TableOk(tb');
    Replaced(ts, t, tb');
  }

  /** An update keeps the tables growing and well formed. */
  lemma UpdateGrows(ts: Tables, t: string, cols: seq<string>, vals: seq<Value>)
    requires Admits(ts, Update(t, cols, vals))
    ensures Grows(ts, Updated(ts, t, cols, vals))
    ensures TablesOk(ts) ==> TablesOk(Updated(ts, t, cols, vals))
  {
    Replaced(ts, t, Rewritten(ts[t], KeyOf(vals[|cols|]), Zip(cols, vals[..|cols|])));
  }

  /** The tables after an accepted insert: one new row under the next rowid, which becomes the counter. */
  function Inserted(ts: Tables, t: string, cols: seq<string>, vals: seq<Value>): Tables
    requires Admits(ts, Insert(t, cols, vals))
  {
    var tb := ts[t];
    var id := tb.lastId + 1;
    ts[t := Table(tb.columns, tb.rows[id := NewRow(tb.columns, Zip(cols, vals))], id)]
  }

  /** The tables after an accepted update: the values before the last one go to the row the last one addresses. */
  function Updated(ts: Tables, t: string, cols: seq<string>, vals: seq<Value>): Tables
    requires Admits(ts, Update(t, cols, vals))
  {
    ts[t := Rewritten(ts[t], KeyOf(vals[|cols|]), Zip(cols, vals[..|cols|]))]
  }

  /** An accepted insert answers with the tables holding the new row and, as `lastrowid`, its rowid. */
  lemma InsertOutcome(ts: Tables, t: string, cols: seq<string>, vals: seq<Value>)
    requires Exec(ts, Insert(t, cols, vals)).Ok?
    ensures Admits(ts, Insert(t, cols, vals))
    ensures Exec(ts, Insert(t, cols, vals)).value == Output(Inserted(ts, t, cols, vals), [], Int(ts[t].lastId + 1))
  {
  }

  /** An accepted update answers with the updated tables and no rows. */
  lemma UpdateOutcome(ts: Tables, t: string, cols: seq<string>, vals: seq<Value>)
    requires Exec(ts, Update(t, cols, vals)).Ok?
    ensures Admits(ts, Update(t, cols, vals))
    ensures Exec(ts, Update(t, cols, vals)).value == Output(Updated(ts, t, cols, vals), [], Null)
  {
  }

  /** The table after `UPDATE ... WHERE id = key`: the addressed row, if any, takes the new values. */
  function Rewritten(tb: Table, key: Option<int>, sets: map<string, Value>): (r: Table)
    requires forall c :: c in sets ==> c in tb.columns
    ensures r.columns == tb.columns && r.lastId == tb.lastId && r.rows.Keys == tb.rows.Keys
    ensures forall k :: k in tb.rows && Some(k) != key ==> r.rows[k] == tb.rows[k]
    ensures key.Some? && key.value in tb.rows ==> r.rows[key.value] == tb.rows[key.value] + sets
    ensures !(key.Some? && key.value in tb.rows) ==> r == tb
    ensures TableOk(tb) ==> TableOk(r)
  {
    if key.Some? && key.value in tb.rows then
      var row := tb.rows[key.value] + sets;
      assert row.Keys == tb.rows[key.value].Keys + sets.Keys;
      tb.(rows := tb.rows[key.value := row])
    else tb
  }

  /** Putting back one table with the same columns and a counter no lower. */
  lemma Replaced(ts: Tables, t: string, tb': Table)
    requires t in ts && tb'.columns == ts[t].columns && tb'.lastId >= ts[t].lastId
    requires TableOk(ts[t]) ==> TableOk(tb')
    ensures Grows(ts, ts[t := tb'])
    ensures TablesOk(ts) ==> TablesOk(ts[t := tb'])
  {
  }

  /** With distinct names, `Zip` binds each name to the value at its position. */
  lemma {:induction false} ZipAt(cols: seq<string>, vals: seq<Value>, i: int)
    requires |cols| == |vals| && 0 <= i < |cols|
    requires forall a, b :: 0 <= a < b < |cols| ==> cols[a] != cols[b]
    ensures Zip(cols, vals)[cols[i]] == vals[i]
  {
    if i > 0 {
      ZipAt(cols[1..], vals[1..], i - 1);
    }
  }

  /**
   * An accepted insert takes the next rowid after the table's counter,
   * which no row holds and which exceeds every rowid present; it adds that
   * one row, touches no other row and no other table, and keeps every
   * table well formed.
   */
  lemma InsertAssignsNextId(ts: Tables, t: string, cols: seq<string>, vals: seq<Value>)
    requires TablesOk(ts) && Admits(ts, Insert(t, cols, vals))
    ensures var ts' := Inserted(ts, t, cols, vals);
            var id := ts[t].lastId + 1;
            && id !in ts[t].rows
            && (forall k :: k in ts[t].rows ==> k < id)
            && ts'.Keys == ts.Keys
            && ts'[t].columns == ts[t].columns && ts'[t].lastId == id
            && ts'[t].rows.Keys == ts[t].rows.Keys + {id}
            && (forall k :: k in ts[t].rows ==> ts'[t].rows[k] == ts[t].rows[k])
            && (forall n :: n in ts && n != t ==> ts'[n] == ts[n])
            && TablesOk(ts')
  {
  }

  /**
   * The row an accepted insert stores holds each given value under its
   * column and NULL under every declared column not given.
   */
  lemma InsertStoresGivenValues(ts: Tables, t: string, cols: seq<string>, vals: seq<Value>)
    requires Admits(ts, Insert(t, cols, vals))
    requires forall a, b :: 0 <= a < b < |cols| ==> cols[a] != cols[b]
    ensures var row := Inserted(ts, t, cols, vals)[t].rows[ts[t].lastId + 1];
            && (forall i :: 0 <= i < |cols| ==> cols[i] in row && row[cols[i]] == vals[i])
            && (forall c :: c in ts[t].columns && c !in cols ==> c in row && row[c] == Null)
  {
    var row := Inserted(ts, t, cols, vals)[t].rows[ts[t].lastId + 1];
    forall i | 0 <= i < |cols|
      ensures cols[i] in row && row[cols[i]] == vals[i]
    {
      ZipAt(cols, vals, i);
    }
  }

  /**
   * An accepted update touches no other table, keeps the table's columns,
   * counter and rowids, and with no row at the addressed id changes nothing.
   */
  lemma UpdateKeepsShape(ts: Tables, t: string, cols: seq<string>, vals: seq<Value>)
    requires Admits(ts, Update(t, cols, vals))
    ensures var ts' := Updated(ts, t, cols, vals);
            && ts'.Keys == ts.Keys
            && (forall n :: n in ts && n != t ==> ts'[n] == ts[n])
            && ts'[t].columns == ts[t].columns && ts'[t].lastId == ts[t].lastId
            && ts'[t].rows.Keys == ts[t].rows.Keys
            && (!Present(ts[t], vals[|cols|]) ==> ts' == ts)
  {
    assert !Present(ts[t], vals[|cols|]) ==> Updated(ts, t, cols, vals) == ts;
  }

  /**
   * Within its table, an accepted update changes at most the row its last
   * parameter addresses, and that row only in the assigned columns.
   */
  lemma UpdateChangesOnlyAddressedRow(ts: Tables, t: string, cols: seq<string>, vals: seq<Value>)
    requires Admits(ts, Update(t, cols, vals))
    ensures var rows := Updated(ts, t, cols, vals)[t].rows;
            var key := KeyOf(vals[|cols|]);
            && (forall k :: k in ts[t].rows && Some(k) != key ==> k in rows && rows[k] == ts[t].rows[k])
            && (Present(ts[t], vals[|cols|]) ==>
                  key.value in rows && rows[key.value] == ts[t].rows[key.value] + Zip(cols, vals[..|cols|]))
  {
  }

  /** With distinct columns, the updated row holds the i-th value under the i-th column. */
  lemma UpdateStoresGivenValues(ts: Tables, t: string, cols: seq<string>, vals: seq<Value>, i: int)
    requires Admits(ts, Update(t, cols, vals))
    requires Present(ts[t], vals[|cols|]) && 0 <= i < |cols|
    requires forall a, b :: 0 <= a < b < |cols| ==> cols[a] != cols[b]
    ensures Updated(ts, t, cols, vals)[t].rows[KeyOf(vals[|cols|]).value][cols[i]] == vals[i]
  {
    UpdateChangesOnlyAddressedRow(ts, t, cols, vals);
    ZipAt(cols, vals[..|cols|], i);
  }

  /**
   * A delete is accepted exactly when the table exists, and then removes
   * the addressed row, if any, and nothing else.
   */
  lemma DeleteRemovesOnlyAddressedRow(ts: Tables, t: string, key: Value)
    ensures Exec(ts, Delete(t, key)).Ok? <==> t in ts
    ensures t in ts ==>
              var out := Exec(ts, Delete(t, key)).value.tables;
              && (forall n :: n in ts && n != t ==> out[n] == ts[n])
              && out[t].columns == ts[t].columns && out[t].lastId == ts[t].lastId
              && out[t].rows == (if KeyOf(key).Some? then ts[t].rows - {KeyOf(key).value} else ts[t].rows)
              && !Present(out[t], key)
  {
  }

  /**
   * A full scan returns one entry per row, each as `select *` gives it,
   * ordered by rowid: ascending, or descending with `order by id desc`.
   */
  lemma ScanListsEveryRow(ts: Tables, t: string, desc: bool)
    requires TablesOk(ts) && t in ts
    ensures Exec(ts, SelectAll(t, desc)).Ok?
    ensures var rows := Exec(ts, SelectAll(t, desc)).value.rows;
            && (forall id :: id in ts[t].rows ==> RowAttrs(ts[t], id) in rows)
            && (forall i :: 0 <= i < |rows| ==> RowId(rows[i]) in ts[t].rows && rows[i] == RowAttrs(ts[t], RowId(rows[i])))
            && (forall i, j :: 0 <= i < j < |rows| ==>
                  if desc then RowId(rows[i]) > RowId(rows[j]) else RowId(rows[i]) < RowId(rows[j]))
  {
    var tb := ts[t];
    var ids := if desc then Descending(tb.rows, tb.lastId) else Ascending(tb.rows, tb.lastId);
    var rows := Exec(ts, SelectAll(t, desc)).value.rows;
    assert rows == seq(|ids|, i requires 0 <= i < |ids| => RowAttrs(tb, ids[i]));
    forall i | 0 <= i < |rows|
      ensures RowId(rows[i]) == ids[i] && ids[i] in tb.rows
    {
      assert ids[i] in ids;
    }
    forall id | id in tb.rows
      ensures RowAttrs(tb, id) in rows
    {
      assert id in ids;
      var i :| 0 <= i < |ids| && ids[i] == id;
      assert rows[i] == RowAttrs(tb, id);
    }
  }

  /** The tables after running the statements in turn; a rejected one changes nothing. */
  function RunAll(ts: Tables, stmts: seq<Stmt>): Tables
    decreases |stmts|
  {
    if |stmts| == 0 then ts
    else
      var r := Exec(ts, stmts[0]);
      RunAll(if r.Ok? then r.value.tables else ts, stmts[1..])
  }

  lemma {:induction false} RunAllGrows(ts: Tables, stmts: seq<Stmt>)
    ensures Grows(ts, RunAll(ts, stmts))
    decreases |stmts|
  {
    if |stmts| > 0 {
      var r := Exec(ts, stmts[0]);
      var next := if r.Ok? then r.value.tables else ts;
      if r.Ok? {
        ExecGrows(ts, stmts[0]);
      }
      RunAllGrows(next, stmts[1..]);
    }
  }

  /**
   * Rowids are never handed out twice: whatever statements run after an
   * insert, including deletes of that very row, a later insert into the
   * same table gets a larger rowid.
   */
  lemma IdsNeverReused(ts: Tables, t: string, first: Stmt, between: seq<Stmt>, later: Stmt)
    requires first.Insert? && later.Insert? && first.table == t && later.table == t
    requires Exec(ts, first).Ok?
    requires Exec(RunAll(Exec(ts, first).value.tables, between), later).Ok?
    ensures Exec(ts, first).value.lastRowId.Int?
    ensures var mid := RunAll(Exec(ts, first).value.tables, between);
            Exec(ts, first).value.lastRowId.i < Exec(mid, later).value.lastRowId.i
  {
    RunAllGrows(Exec(ts, first).value.tables, between);
  }

  predicate NoMarks(s: string) {
    Sql.Placeholders(s) == 0
  }

  /**
   * For table and column names without '?', the text of every statement
   * the mappers send to a table carries exactly as many placeholders as the store
   * expects parameters; an update needs at least one column for this.
   */
  lemma RenderPlaceholders(s: Stmt)
    requires !OnCatalog(s) && NoMarks(s.table)
    requires (s.Insert? || s.Update?) ==> forall i :: 0 <= i < |s.columns| ==> NoMarks(s.columns[i])
    requires s.Update? ==> |s.columns| > 0
    ensures Sql.Placeholders(Render(s)) == Arity(s)
  {
    match s
    case SelectAll(t, desc) => ScanPlaceholders(t, desc);
    case SelectById(t, _) => KeyedPlaceholders(t);
    case SelectId(t, _) => KeyedPlaceholders(t);
    case CountById(t, _) => KeyedPlaceholders(t);
    case Insert(t, cols, _) => InsertPlaceholders(t, cols);
    case Update(t, cols, _) => UpdatePlaceholders(t, cols);
    case Delete(t, _) => KeyedPlaceholders(t);
  }

  lemma ScanPlaceholders(t: string, desc: bool)
    requires NoMarks(t)
    ensures Sql.Placeholders(Render(SelectAll(t, desc))) == 0
  {
    Between("select * from ", t, if desc then " order by id desc" else "");
  }

  lemma KeyedPlaceholders(t: string)
    requires NoMarks(t)
    ensures forall key :: Sql.Placeholders(Render(SelectById(t, key))) == 1
    ensures forall key :: Sql.Placeholders(Render(SelectId(t, key))) == 1
    ensures forall key :: Sql.Placeholders(Render(CountById(t, key))) == 1
    ensures forall key :: Sql.Placeholders(Render(Delete(t, key))) == 1
  {
    assert forall key :: Sql.Placeholders(Render(SelectById(t, key))) == 1 by {
      ById("select * from ", t, " where id = ");
    }
    assert forall key :: Sql.Placeholders(Render(SelectId(t, key))) == 1 by {
      ById("select id from ", t, " where id = ");
    }
    assert forall key :: Sql.Placeholders(Render(CountById(t, key))) == 1 by {
      ById("select count(*) len from ", t, " where id = ");
    }
    ById("DELETE from ", t, " WHERE id = ");
  }

  /** A statement addressed by one id: the only placeholder is the id's. */
  lemma ById(prefix: string, t: string, clause: string)
    requires '?' !in prefix && '?' !in clause && NoMarks(t)
    ensures Sql.Placeholders(prefix + t + clause + Mark) == 1
  {
    Between(prefix, t, clause);
    Sql.CountAppend('?', prefix + t + clause, Mark);
    Sql.CountChar('?', '?');
  }

  /** A name between two fixed texts without '?' adds no placeholder. */
  lemma Between(a: string, t: string, b: string)
    requires '?' !in a && '?' !in b && NoMarks(t)
    ensures Sql.Placeholders(a + t + b) == 0
  {
    Sql.CountNone('?', a);
    Sql.CountNone('?', b);
    Around(a, t, b);
  }

  lemma UpdatePlaceholders(t: string, cols: seq<string>)
    requires NoMarks(t) && |cols| > 0 && forall i :: 0 <= i < |cols| ==> NoMarks(cols[i])
    ensures forall vals :: Sql.Placeholders(Render(Update(t, cols, vals))) == |cols| + 1
  {
    var text := "UPDATE " + t + " SET " + Sql.SetClause(cols) + " WHERE id = ";
    assert Sql.Placeholders(text) == |cols| by {
      Between("UPDATE ", t, " SET ");
      Sql.SetClausePlaceholders(cols);
      Sql.CountNone('?', " WHERE id = ");
      Around("UPDATE " + t + " SET ", Sql.SetClause(cols), " WHERE id = ");
    }
    Sql.CountAppend('?', text, Mark);
    Sql.CountChar('?', '?');
  }

  lemma Around(a: string, t: string, b: string)
    ensures Sql.Placeholders(a + t + b) == Sql.Placeholders(a) + Sql.Placeholders(t) + Sql.Placeholders(b)
  {
    Sql.CountAppend('?', a + t, b);
    Sql.CountAppend('?', a, t);
  }

  lemma InsertPlaceholders(t: string, cols: seq<string>)
    requires NoMarks(t) && forall i :: 0 <= i < |cols| ==> NoMarks(cols[i])
    ensures Sql.Placeholders("insert into " + t + " " + Sql.ColumnList(cols) + " values " + Sql.RefList(|cols|)) == |cols|
  {
    var head := "insert into " + t + " ";
    Between("insert into ", t, " ");
    ColumnListPlaceholders(cols);
    Sql.CountNone('?', " values ");
    Around(head, Sql.ColumnList(cols), " values ");
    Sql.RefListShape(|cols|);
    Sql.CountAppend('?', head + Sql.ColumnList(cols) + " values ", Sql.RefList(|cols|));
  }

  lemma {:induction false} ColumnListPlaceholders(cols: seq<string>)
    requires forall i :: 0 <= i < |cols| ==> NoMarks(cols[i])
    ensures Sql.Placeholders(Sql.ColumnList(cols)) == 0
  {
    var body := Sql.Join(", ", cols);
    Sql.Parenthesized('?', body);
    if |cols| > 0 {
      Sql.CommaSeparator();
      Sql.CountJoin('?', ", ", cols);
      Sql.CountAllNone('?', cols);
    }
  }

  /** The file on disk: the tables as last committed. */
  class File {
    var tables: Tables

    constructor (tables: Tables)
      ensures this.tables == tables
    {
      this.tables := tables;
    }
  }

  /**
   * A `sqlite3` connection to a file. Its view is the file as it was when
   * the connection opened or last committed, plus its own uncommitted
   * writes; closing it discards those.
   */
  class Connection {
    const file: File
    var open: bool
    var view: Tables

    /** `sqlite3.connect(path)`. */
    constructor Open(file: File)
      ensures this.file == file && open && view == file.tables
    {
      this.file := file;
      open := true;
      view := file.tables;
    }

    /** `connection.execute(sql, params)`. */
    method Execute(s: Stmt) returns (r: Result<Output>)
      modifies this
      ensures open == old(open)
      ensures r == if open then Exec(old(view), s) else Err(ProgrammingError)
      ensures view == if r.Ok? then r.value.tables else old(view)
    {
      if !open {
        return Err(ProgrammingError);
      }
      r := Exec(view, s);
      if r.Ok? {
        view := r.value.tables;
      }
    }

    /**
     * `cursor.executescript(script)`: commits what is pending, then runs the
     * script, whose statements take effect and are committed at once.
     */
    method ExecuteScript(schema: Schema) returns (r: Result<()>)
      modifies this, file
      ensures open == old(open)
      ensures r.Ok? <==> open && WellFormed(schema)
      ensures !open ==> r == Err(ProgrammingError)
      ensures open && !WellFormed(schema) ==> r == Err(OperationalError)
      ensures view == if r.Ok? then CreateTable(old(view), schema) else old(view)
      ensures open ==> file.tables == view
      ensures !open ==> file.tables == old(file.tables)
    {
      if !open {
        return Err(ProgrammingError);
      }
      file.tables := view;
      if !WellFormed(schema) {
        return Err(OperationalError);
      }
      view := CreateTable(view, schema);
      file.tables := view;
      r := Ok(());
    }

    /** `connection.commit()`. */
    method Commit() returns (r: Result<()>)
      modifies file
      ensures r == if open then Ok(()) else Err(ProgrammingError)
      ensures file.tables == if open then view else old(file.tables)
    {
      if !open {
        return Err(ProgrammingError);
      }
      file.tables := view;
      r := Ok(());
    }

    /** `connection.close()`: closing twice is harmless; pending writes are lost. */
    method Close()
      modifies this
      ensures !open && view == old(view)
    {
      open := false;
    }
  }
}
