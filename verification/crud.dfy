/**
 * What each manager operation does to a connection's view of the tables,
 * as pure functions: the statements it sends, in order, and how it reads
 * the answers. The manager classes are proved to follow these.
 */
module Crud {
  import opened Values
  import opened Sqlite
  import Sql
  import Filters

  /**
   * What a manager needs of a model class: its `__name__`, and what its
   * `schema()` script creates.
   */
  datatype EntityClass = EntityClass(name: string, schema: Schema)

  /** `c.lower()` on one character: ASCII capitals become small letters. */
  function LowerChar(c: char): char {
    if 'A' <= c <= 'Z' then (c as int + 32) as char else c
  }

  /**
   * `entity_cls.__name__.lower()`: the table a manager works on. No capital
   * remains and every other character stays.
   */
  function TableName(cls: EntityClass): (r: string)
    ensures |r| == |cls.name|
    ensures forall i :: 0 <= i < |r| ==> !('A' <= r[i] <= 'Z')
    ensures forall i :: 0 <= i < |r| && !('A' <= cls.name[i] <= 'Z') ==> r[i] == cls.name[i]
  {
    seq(|cls.name|, i requires 0 <= i < |cls.name| => LowerChar(cls.name[i]))
  }

  /**
   * Class names that differ only in case share a table, and a class named
   * after its own table maps to that table.
   */
  lemma TableNameIgnoresCase(c: EntityClass, d: EntityClass)
    requires |c.name| == |d.name|
    requires forall i :: 0 <= i < |c.name| ==> LowerChar(c.name[i]) == LowerChar(d.name[i])
    ensures TableName(c) == TableName(d)
    ensures TableName(EntityClass(TableName(c), c.schema)) == TableName(c)
  {
  }

  /** How `save` and `update` leave out the id attribute. */
  datatype IdFilter =
    | SubstringOfId  // `cut_attrs(obj, 'id')`: names that are substrings of "id"
    | ExactId        // `k is not 'id'`: the name "id" only

  /** The attributes `save` and `update` write, in dictionary order. */
  function Persisted(a: Attrs, f: IdFilter): (r: Attrs)
    ensures "id" !in Names(r)
    ensures forall p :: p in r ==> p in a
    ensures f == ExactId ==> forall p :: p in a && p.0 != "id" ==> p in r
    ensures UniqueNames(a) ==> UniqueNames(r)
  {
    match f
    case SubstringOfId =>
      Filters.CutIdDropsSubstrings(a);
      Filters.CutAttrs(a, "id")
    case ExactId => Filters.DropId(a)
  }

  /** `insert into t (k1, k2, ...) values (?, ?, ...)` with the values in the same order. */
  function InsertOf(t: string, kept: Attrs): Stmt {
    Insert(t, Names(kept), Vals(kept))
  }

  /** `UPDATE t SET k1= ?, k2= ? WHERE id = ?` with the values, then the id. */
  function UpdateOf(t: string, kept: Attrs, id: Value): Stmt {
    Update(t, Names(kept), Vals(kept) + [id])
  }

  /**
   * The insert pairs the i-th column with the i-th value, binds one value
   * per column and, for names without '?' or ',', its text has one
   * placeholder per attribute and its column list and value list the same
   * number of items.
   */
  lemma InsertStatementShape(t: string, kept: Attrs)
    requires NoMarks(t)
    requires forall i :: 0 <= i < |kept| ==> NoMarks(kept[i].0) && Sql.Count(',', kept[i].0) == 0
    ensures var s := InsertOf(t, kept);
            && |s.columns| == |Params(s)| == |kept|
            && (forall i :: 0 <= i < |kept| ==> (s.columns[i], Params(s)[i]) == kept[i])
            && Sql.Placeholders(Render(s)) == |kept|
            && Sql.Count(',', Sql.ColumnList(s.columns)) == Sql.Count(',', Sql.RefList(|kept|))
  {
    RenderPlaceholders(InsertOf(t, kept));
    Sql.ColumnListMatchesRefList(Names(kept));
  }

  /**
   * The update binds the values in attribute order and then the id; with
   * at least one attribute, its text carries one `k= ?` per attribute and
   * one more placeholder for the id.
   */
  lemma UpdateStatementShape(t: string, kept: Attrs, id: Value)
    requires NoMarks(t) && |kept| > 0
    requires forall i :: 0 <= i < |kept| ==> NoMarks(kept[i].0)
    ensures var s := UpdateOf(t, kept, id);
            && |Params(s)| == |kept| + 1 && Params(s)[|kept|] == id
            && (forall i :: 0 <= i < |kept| ==> (s.columns[i], Params(s)[i]) == kept[i])
            && Sql.Placeholders(Render(s)) == |kept| + 1
            && Sql.SetClause(s.columns) == Sql.Join(", ", Sql.Assignments(Names(kept)))
  {
    RenderPlaceholders(UpdateOf(t, kept, id));
    Sql.SetClauseIsAssignments(Names(kept));
  }

  /** `_hastable` in orm.py and gistfile1.py: the catalog lookup returns a row. */
  function HasTable(ts: Tables, name: string): (r: bool)
    ensures r <==> name in ts
  {
    var out := Exec(ts, FindTable(name));
    out.Ok? && out.value.rows != []
  }

  /** `row['len']` for a count row. */
  function Len(row: Attrs): int {
    match Lookup(row, "len")
    case Some(Int(n)) => n
    case _ => 0
  }

  /** `__hastable` in simpy_db.py: the catalog count is positive. */
  function CountsTable(ts: Tables, name: string): (r: bool)
    ensures r <==> name in ts
  {
    var out := Exec(ts, CountTables(name));
    out.Ok? && |out.value.rows| > 0 && Len(out.value.rows[0]) > 0
  }

  /** Manager construction: the schema script runs only when the table is missing. */
  function EnsureTable(ts: Tables, name: string, schema: Schema): Tables {
    if HasTable(ts, name) then ts else CreateTable(ts, schema)
  }

  /**
   * When the script creates the table the manager checks for, the second
   * construction finds it and changes nothing: the script runs at most once.
   */
  lemma ConstructionIsIdempotent(ts: Tables, name: string, schema: Schema)
    requires schema.table == name
    ensures HasTable(EnsureTable(ts, name, schema), name)
    ensures EnsureTable(EnsureTable(ts, name, schema), name, schema) == EnsureTable(ts, name, schema)
    ensures name in ts ==> EnsureTable(ts, name, schema) == ts
    ensures name !in ts ==> EnsureTable(ts, name, schema)[name] == Table(schema.columns, map[], 0)
  {
  }

  /**
   * When the script creates some other table, the checked table never
   * appears, so every construction runs the script again and empties the
   * table the script does create.
   */
  lemma MismatchedSchemaRerunsScript(ts: Tables, name: string, schema: Schema)
    requires schema.table != name && name !in ts
    ensures !HasTable(EnsureTable(ts, name, schema), name)
    ensures EnsureTable(ts, name, schema)[schema.table].rows == map[]
  {
  }

  /** `all()`: one entity per row, as the full scan returns them. */
  function Scan(ts: Tables, t: string, newestFirst: bool): (r: Result<seq<Attrs>>)
    ensures r.Ok? <==> t in ts
    ensures r.Err? ==> r.error == OperationalError
  {
    match Exec(ts, SelectAll(t, newestFirst))
    case Err(e) => Err(e)
    case Ok(out) => Ok(out.rows)
  }

  /** `get(id)` in orm.py and gistfile1.py: the first fetched row, or ValueError. */
  function Find(ts: Tables, t: string, key: Value): (r: Result<Attrs>)
    ensures t !in ts ==> r == Err(OperationalError)
    ensures t in ts ==> (r.Ok? <==> Present(ts[t], key))
    ensures t in ts && r.Err? ==> r.error == DoesNotExist
    ensures r.Ok? ==> r.value == RowAttrs(ts[t], KeyOf(key).value)
  {
    match Exec(ts, SelectById(t, key))
    case Err(e) => Err(e)
    case Ok(out) => if out.rows == [] then Err(DoesNotExist) else Ok(out.rows[0])
  }

  /** `get(id)` in simpy_db.py: `fetchall()[0]`, an IndexError when nothing matches. */
  function FirstRow(ts: Tables, t: string, key: Value): (r: Result<Attrs>)
    ensures t !in ts ==> r == Err(OperationalError)
    ensures t in ts ==> (r.Ok? <==> Present(ts[t], key))
    ensures t in ts && r.Err? ==> r.error == IndexError
    ensures r.Ok? ==> r.value == RowAttrs(ts[t], KeyOf(key).value)
  {
    match Exec(ts, SelectById(t, key))
    case Err(e) => Err(e)
    case Ok(out) => if |out.rows| == 0 then Err(IndexError) else Ok(out.rows[0])
  }

  /** `has(id)` in orm.py and gistfile1.py: `select id` returns some row. */
  function Contains(ts: Tables, t: string, key: Value): (r: Result<bool>)
    ensures r.Ok? <==> t in ts
    ensures r.Err? ==> r.error == OperationalError
    ensures r.Ok? ==> (r.value <==> Present(ts[t], key))
  {
    match Exec(ts, SelectId(t, key))
    case Err(e) => Err(e)
    case Ok(out) => Ok(out.rows != [])
  }

  /** `has(id)` in simpy_db.py: `select count(*)` is positive. */
  function Counts(ts: Tables, t: string, key: Value): (r: Result<bool>)
    ensures r.Ok? <==> t in ts
    ensures r.Err? ==> r.error == OperationalError
    ensures r.Ok? ==> (r.value <==> Present(ts[t], key))
  {
    match Exec(ts, CountById(t, key))
    case Err(e) => Err(e)
    case Ok(out) => Ok(|out.rows| > 0 && Len(out.rows[0]) > 0)
  }

  /**
   * The insert of `save`: accepted exactly when the table exists and every
   * written attribute is one of its columns (and there is at least one);
   * the answer is the new tables and `cursor.lastrowid`.
   */
  function InsertRow(ts: Tables, t: string, kept: Attrs): (r: Result<(Tables, Value)>)
    ensures r.Ok? <==> t in ts && |kept| > 0 && forall p :: p in kept ==> p.0 in ts[t].columns
    ensures r.Err? ==> r.error == OperationalError
    ensures r.Ok? ==> Admits(ts, InsertOf(t, kept))
                      && r.value == (Inserted(ts, t, Names(kept), Vals(kept)), Int(ts[t].lastId + 1))
  {
    assert forall c :: c in Names(kept) <==> exists p :: p in kept && p.0 == c by {
      forall c | c in Names(kept) ensures exists p :: p in kept && p.0 == c {
        var i :| 0 <= i < |kept| && Names(kept)[i] == c;
        assert kept[i] in kept;
      }
    }
    match Exec(ts, InsertOf(t, kept))
    case Err(e) => Err(e)
    case Ok(out) =>
      InsertOutcome(ts, t, Names(kept), Vals(kept));
      Ok((out.tables, out.lastRowId))
  }

  /**
   * `save(obj)` in orm.py and gistfile1.py: read `obj.id`; a truthy id that
   * `has` finds is a duplicate; otherwise insert the persisted attributes.
   */
  function SaveRow(ts: Tables, t: string, a: Attrs, f: IdFilter): (r: Result<(Tables, Value)>)
    ensures r.Ok? ==> r == InsertRow(ts, t, Persisted(a, f))
  {
    match Lookup(a, "id")
    case None => Err(AttributeError)
    case Some(id) =>
      var dup := if Truthy(id) then Contains(ts, t, id) else Ok(false);
      if dup.Err? then Err(dup.error)
      else if dup.value then Err(AlreadyRegistered)
      else InsertRow(ts, t, Persisted(a, f))
  }

  /**
   * `update(obj)`: set the persisted attributes of the row `obj.id`
   * addresses; with no such row nothing happens and nothing is raised.
   */
  function UpdateRow(ts: Tables, t: string, a: Attrs, f: IdFilter): (r: Result<Tables>)
    ensures Lookup(a, "id").None? ==> r == Err(AttributeError)
    ensures r.Err? ==> r.error in {AttributeError, OperationalError}
    ensures r.Ok? ==> Lookup(a, "id").Some?
                      && var s := UpdateOf(t, Persisted(a, f), Lookup(a, "id").value);
                         Admits(ts, s) && r.value == Updated(ts, t, s.columns, s.values)
  {
    var kept := Persisted(a, f);
    match Lookup(a, "id")
    case None => Err(AttributeError)
    case Some(id) =>
      match Exec(ts, UpdateOf(t, kept, id))
      case Err(e) => Err(e)
      case Ok(out) =>
        UpdateOutcome(ts, t, Names(kept), Vals(kept) + [id]);
        Ok(out.tables)
  }

  /** `delete`: remove the row the id addresses, if there is one. */
  function DeleteRow(ts: Tables, t: string, key: Value): (r: Result<Tables>)
    ensures r.Ok? <==> t in ts
    ensures r.Err? ==> r.error == OperationalError
  {
    match Exec(ts, Delete(t, key))
    case Err(e) => Err(e)
    case Ok(out) => Ok(out.tables)
  }

  /**
   * The duplicate-identity guard, both ways: `save` raises
   * AlreadyRegistered exactly when `obj.id` is truthy and a row with that
   * id exists.
   */
  lemma SaveRejectsExactlyDuplicates(ts: Tables, t: string, a: Attrs, f: IdFilter)
    requires t in ts && Lookup(a, "id").Some?
    ensures SaveRow(ts, t, a, f) == Err(AlreadyRegistered)
            <==> Truthy(Lookup(a, "id").value) && Present(ts[t], Lookup(a, "id").value)
  {
  }

  /** A falsy id (None, 0, "") skips the lookup: `save` just inserts. */
  lemma SaveWithFalsyIdInserts(ts: Tables, t: string, a: Attrs, f: IdFilter)
    requires Lookup(a, "id").Some? && !Truthy(Lookup(a, "id").value)
    ensures SaveRow(ts, t, a, f) == InsertRow(ts, t, Persisted(a, f))
  {
  }

  /**
   * A successful `save` hands out the next rowid, which no row had and
   * which is larger than every rowid present; it adds that one row, with
   * the persisted attributes, and changes no other row and no other table.
   */
  lemma SaveAssignsFreshId(ts: Tables, t: string, a: Attrs, f: IdFilter)
    requires TablesOk(ts) && SaveRow(ts, t, a, f).Ok?
    ensures t in ts
    ensures var (ts', id) := SaveRow(ts, t, a, f).value;
            var n := ts[t].lastId + 1;
            && id == Int(n)
            && n !in ts[t].rows && (forall k :: k in ts[t].rows ==> k < n)
            && ts'.Keys == ts.Keys
            && ts'[t].rows.Keys == ts[t].rows.Keys + {n}
            && (forall k :: k in ts[t].rows ==> ts'[t].rows[k] == ts[t].rows[k])
            && (forall n' :: n' in ts && n' != t ==> ts'[n'] == ts[n'])
            && TablesOk(ts')
  {
    var kept := Persisted(a, f);
    InsertAssignsNextId(ts, t, Names(kept), Vals(kept));
  }

  /**
   * Round trip: after a successful `save`, `get` with the new id returns
   * the row, whose `id` is the new id and which holds every persisted
   * attribute with its value, and besides them only NULL under the
   * columns the object did not set.
   */
  lemma SaveThenFind(ts: Tables, t: string, a: Attrs, f: IdFilter)
    requires TablesOk(ts) && UniqueNames(a) && SaveRow(ts, t, a, f).Ok?
    ensures var (ts', id) := SaveRow(ts, t, a, f).value;
            && Find(ts', t, id).Ok?
            && Find(ts', t, id).value[0] == ("id", id)
            && (forall p :: p in Persisted(a, f) ==> p in Find(ts', t, id).value)
            && (forall q :: q in Find(ts', t, id).value[1..] ==>
                  q in Persisted(a, f) || (q.0 !in Names(Persisted(a, f)) && q.1 == Null))
  {
    var kept := Persisted(a, f);
    var cols, vals := Names(kept), Vals(kept);
    var ts' := Inserted(ts, t, cols, vals);
    var n := ts[t].lastId + 1;
    InsertAssignsNextId(ts, t, cols, vals);
    InsertStoresGivenValues(ts, t, cols, vals);
    InsertedFound(ts', t, n, kept);
    FoundOnlyKept(ts', t, n, kept);
  }

  /**
   * `get` on a row holding each attribute under its name returns every
   * attribute, after the id.
   */
  lemma InsertedFound(ts: Tables, t: string, n: int, kept: Attrs)
    requires t in ts && n in ts[t].rows && forall p :: p in kept ==> p.0 in ts[t].columns
    requires forall p :: p in kept ==> p.0 in ts[t].rows[n] && ts[t].rows[n][p.0] == p.1
    ensures Find(ts, t, Int(n)).Ok? && Find(ts, t, Int(n)).value[0] == ("id", Int(n))
    ensures forall p :: p in kept ==> p in Find(ts, t, Int(n)).value
  {
    var row := RowAttrs(ts[t], n);
    forall p | p in kept
      ensures p in row
    {
      var j :| 0 <= j < |ts[t].columns| && ts[t].columns[j] == p.0;
      assert row[j + 1] == p;
    }
  }

  /**
   * If the row also holds NULL under every column no attribute names,
   * `get` returns nothing after the id but the attributes and those NULLs.
   */
  lemma FoundOnlyKept(ts: Tables, t: string, n: int, kept: Attrs)
    requires t in ts && n in ts[t].rows
    requires forall p :: p in kept ==> p.0 in ts[t].rows[n] && ts[t].rows[n][p.0] == p.1
    requires forall c :: c in ts[t].columns && c !in Names(kept) ==> c in ts[t].rows[n] && ts[t].rows[n][c] == Null
    ensures Find(ts, t, Int(n)).Ok?
    ensures forall q :: q in Find(ts, t, Int(n)).value[1..] ==> q in kept || (q.0 !in Names(kept) && q.1 == Null)
  {
    var row := RowAttrs(ts[t], n);
    forall q | q in row[1..]
      ensures q in kept || (q.0 !in Names(kept) && q.1 == Null)
    {
      var i :| 0 <= i < |row| - 1 && row[1..][i] == q;
      assert q == row[i + 1];
      CellOfKept(ts[t].columns, ts[t].rows[n], kept, ts[t].columns[i]);
    }
  }

  /** A column of such a row holds either one of the attributes or NULL. */
  lemma CellOfKept(columns: seq<string>, r: Row, kept: Attrs, c: string)
    requires c in columns
    requires forall p :: p in kept ==> p.0 in r && r[p.0] == p.1
    requires forall c :: c in columns && c !in Names(kept) ==> c in r && r[c] == Null
    ensures (c, Cell(r, c)) in kept || (c !in Names(kept) && Cell(r, c) == Null)
  {
    if c in Names(kept) {
      var j :| 0 <= j < |kept| && Names(kept)[j] == c;
      assert kept[j] in kept;
    }
  }

  /**
   * A successful `update` changes at most the row `obj.id` addresses: other
   * rows and tables stay as they were; that row gets each persisted value
   * under its column; with no such row nothing changes.
   */
  lemma UpdateChangesOnlyThatRow(ts: Tables, t: string, a: Attrs, f: IdFilter)
    requires UniqueNames(a) && UpdateRow(ts, t, a, f).Ok?
    ensures Lookup(a, "id").Some? && t in ts
    ensures var ts' := UpdateRow(ts, t, a, f).value;
            var id := Lookup(a, "id").value;
            && ts'.Keys == ts.Keys
            && (forall n :: n in ts && n != t ==> ts'[n] == ts[n])
            && ts'[t].rows.Keys == ts[t].rows.Keys && ts'[t].lastId == ts[t].lastId
            && (forall k :: k in ts[t].rows && Some(k) != KeyOf(id) ==> ts'[t].rows[k] == ts[t].rows[k])
            && (!Present(ts[t], id) ==> ts' == ts)
            && (Present(ts[t], id) ==> forall p :: p in Persisted(a, f) ==> ts'[t].rows[KeyOf(id).value][p.0] == p.1)
  {
    var kept := Persisted(a, f);
    var id := Lookup(a, "id").value;
    var cols, vals := Names(kept), Vals(kept) + [id];
    UpdateKeepsShape(ts, t, cols, vals);
    UpdateChangesOnlyAddressedRow(ts, t, cols, vals);
    if Present(ts[t], id) {
      forall p | p in kept
        ensures Updated(ts, t, cols, vals)[t].rows[KeyOf(id).value][p.0] == p.1
      {
        var i :| 0 <= i < |kept| && kept[i] == p;
        UpdateStoresGivenValues(ts, t, cols, vals, i);
      }
    }
  }

  /** An accepted `update` is the one statement it sends, applied to the tables. */
  lemma UpdateSends(ts: Tables, t: string, a: Attrs, f: IdFilter, id: Value, cols: seq<string>, vals: seq<Value>)
    requires Lookup(a, "id") == Some(id)
    requires Names(Persisted(a, f)) == cols && Vals(Persisted(a, f)) + [id] == vals
    requires Admits(ts, Update(t, cols, vals))
    ensures UpdateRow(ts, t, a, f) == Ok(Updated(ts, t, cols, vals))
  {
    UpdateOutcome(ts, t, cols, vals);
  }

  /** `delete` removes exactly the addressed row, and `get` on it then fails. */
  lemma DeleteThenFindFails(ts: Tables, t: string, key: Value)
    requires t in ts
    ensures var ts' := DeleteRow(ts, t, key).value;
            && (forall n :: n in ts && n != t ==> ts'[n] == ts[n])
            && ts'[t].rows == (if KeyOf(key).Some? then ts[t].rows - {KeyOf(key).value} else ts[t].rows)
            && Find(ts', t, key) == Err(DoesNotExist)
  {
    DeleteRemovesOnlyAddressedRow(ts, t, key);
  }

  /**
   * The variants agree on `has` and, up to the exception raised for a
   * missing row, on `get`.
   */
  lemma VariantsAgreeOnLookups(ts: Tables, t: string, key: Value)
    ensures Contains(ts, t, key) == Counts(ts, t, key)
    ensures Find(ts, t, key).Ok? ==> FirstRow(ts, t, key) == Find(ts, t, key)
    ensures Find(ts, t, key) == Err(DoesNotExist) <==> FirstRow(ts, t, key) == Err(IndexError)
  {
  }
}
