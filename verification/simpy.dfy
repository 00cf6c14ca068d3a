/**
 * simpy_db.py: a connection wrapper that reconnects whenever it is not
 * connected, and a manager that counts instead of fetching, lists newest
 * first, and returns the new rowid from `save` without touching the object.
 */
module SimpyDb {
  import opened Values
  import opened Sqlite
  import opened Crud

  /**
   * `DatabaseConnection`: the file name, the last connection made (None
   * before the first), and whether that connection is in use.
   */
  class DatabaseConnection {
    const file: File
    var db: Connection?
    var connected: bool

    /** Connected exactly while the last connection is open; every connection is on `file`. */
    ghost predicate Valid()
      reads this, db
    {
      && (db != null ==> db.file == file)
      && (connected <==> db != null && db.open)
    }

    /** What the next statement sees. */
    ghost function Current(): Tables
      reads this, db, file
    {
      if connected && db != null then db.view else file.tables
    }

    /** `DatabaseConnection(file)`. */
    constructor (file: File)
      ensures this.file == file && db == null && !connected && Valid()
      ensures Current() == file.tables
    {
      this.file := file;
      db := null;
      connected := false;
    }

    /**
     * `connect()`: always a new connection, even while connected; the
     * previous one is dropped with whatever it had not committed.
     */
    method Connect()
      requires Valid()
      modifies this
      ensures Valid() && connected && fresh(db)
      ensures Current() == file.tables
    {
      db := new Connection.Open(file);
      connected := true;
    }

    /** `execute(sql, *args)`: connect if not connected, then run the statement. */
    method Execute(s: Stmt) returns (r: Result<Output>)
      requires Valid()
      modifies this, db
      ensures Valid() && connected && (db == old(db) || fresh(db))
      ensures file.tables == old(file.tables)
      ensures r == Exec(old(Current()), s)
      ensures Current() == if r.Ok? then r.value.tables else old(Current())
    {
      if !connected {
        Connect();
      }
      r := db.Execute(s);
    }

    /** `executescript(script)`: connect if not connected, then run the schema script. */
    method ExecuteScript(schema: Schema) returns (r: Result<()>)
      requires Valid()
      modifies this, db, file
      ensures Valid() && connected && (db == old(db) || fresh(db))
      ensures r.Ok? <==> WellFormed(schema)
      ensures r.Err? ==> r.error == OperationalError
      ensures Current() == if r.Ok? then CreateTable(old(Current()), schema) else old(Current())
      ensures file.tables == Current()
    {
      if !connected {
        Connect();
      }
      r := db.ExecuteScript(schema);
    }

    /**
     * `commit()`: no reconnect. Before any connection there is nothing to
     * call it on (AttributeError); after `close` the connection refuses
     * (ProgrammingError) and the file keeps what it had.
     */
    method Commit() returns (r: Result<()>)
      requires Valid()
      modifies file
      ensures db == null ==> r == Err(AttributeError)
      ensures db != null ==> r == if connected then Ok(()) else Err(ProgrammingError)
      ensures file.tables == if r.Ok? then Current() else old(file.tables)
    {
      if db == null {
        return Err(AttributeError);
      }
      r := db.Commit();
    }

    /**
     * `close()`: closes the last connection, dropping what it had not
     * committed; before any connection it raises AttributeError.
     */
    method Close() returns (r: Result<()>)
      requires Valid()
      modifies this, db
      ensures Valid() && !connected && db == old(db)
      ensures r == if db == null then Err(AttributeError) else Ok(())
      ensures file.tables == old(file.tables) && Current() == file.tables
    {
      if db == null {
        return Err(AttributeError);
      }
      db.Close();
      connected := false;
      r := Ok(());
    }
  }

  /** `BaseManager`: the statements of one entity class's table. */
  class BaseManager {
    const db: DatabaseConnection
    const cls: EntityClass
    const tableName: string

    /** The field assignments at the head of `__init__`. */
    constructor (db: DatabaseConnection, cls: EntityClass)
      ensures this.db == db && this.cls == cls && tableName == TableName(cls)
    {
      this.db := db;
      this.cls := cls;
      tableName := TableName(cls);
    }

    /**
     * The rest of `__init__`: when the catalog counts no table of this
     * name, run the schema script and commit.
     */
    method Prepare() returns (r: Result<()>)
      requires db.Valid()
      modifies db, db.db, db.file
      ensures db.Valid() && (db.db == old(db.db) || fresh(db.db))
      ensures r.Ok? <==> CountsTable(old(db.Current()), tableName) || WellFormed(cls.schema)
      ensures r.Err? ==> r.error == OperationalError
      ensures db.Current() == if r.Ok? then EnsureTable(old(db.Current()), tableName, cls.schema) else old(db.Current())
      ensures !CountsTable(old(db.Current()), tableName) ==> db.file.tables == db.Current()
    {
      var found := db.Execute(CountTables(tableName));
      assert found.Ok? && |found.value.rows| == 1;  // `count(*)` always yields one row
      if !(Len(found.value.rows[0]) > 0) {
        var script := db.ExecuteScript(cls.schema);
        if script.Err? {
          return Err(script.error);
        }
        var _ := db.Commit();
      }
      return Ok(());
    }

    /**
     * `all()`: the rows newest first, appended one by one to the list of
     * entities' keyword arguments.
     */
    method All() returns (r: Result<seq<Attrs>>)
      requires db.Valid()
      modifies db, db.db
      ensures db.Valid() && (db.db == old(db.db) || fresh(db.db))
      ensures db.Current() == old(db.Current()) && db.file.tables == old(db.file.tables)
      ensures r == Scan(old(db.Current()), tableName, true)
    {
      var out := db.Execute(SelectAll(tableName, true));
      if out.Err? {
        return Err(out.error);
      }
      var rows := out.value.rows;
      var all: seq<Attrs> := [];
      var i := 0;
      while i < |rows|
        invariant 0 <= i <= |rows|
        invariant all == rows[..i]
      {
        all := all + [rows[i]];
        i := i + 1;
      }
      assert rows[..|rows|] == rows;
      return Ok(all);
    }

    /** `get(id)`: the first fetched row; IndexError when there is none. */
    method Get(id: Value) returns (r: Result<Attrs>)
      requires db.Valid()
      modifies db, db.db
      ensures db.Valid() && (db.db == old(db.db) || fresh(db.db))
      ensures db.Current() == old(db.Current()) && db.file.tables == old(db.file.tables)
      ensures r == FirstRow(old(db.Current()), tableName, id)
    {
      var out := db.Execute(SelectById(tableName, id));
      if out.Err? {
        return Err(out.error);
      }
      var rows := out.value.rows;
      if |rows| == 0 {
        return Err(IndexError);
      }
      return Ok(rows[0]);
    }

    /** `has(id)`: whether the count of rows with that id is positive. */
    method Has(id: Value) returns (r: Result<bool>)
      requires db.Valid()
      modifies db, db.db
      ensures db.Valid() && (db.db == old(db.db) || fresh(db.db))
      ensures db.Current() == old(db.Current()) && db.file.tables == old(db.file.tables)
      ensures r == Counts(old(db.Current()), tableName, id)
    {
      var out := db.Execute(CountById(tableName, id));
      if out.Err? {
        return Err(out.error);
      }
      assert |out.value.rows| == 1;  // `count(*)` always yields one row
      return Ok(Len(out.value.rows[0]) > 0);
    }

    /**
     * `save(obj)`: insert every attribute but "id" and return the new
     * rowid; no duplicate check, and `obj` is left as it was.
     */
    method Save(obj: Entity) returns (r: Result<Value>)
      requires db.Valid()
      modifies db, db.db
      ensures db.Valid() && (db.db == old(db.db) || fresh(db.db))
      ensures db.file.tables == old(db.file.tables)
      ensures var s := InsertRow(old(db.Current()), tableName, Persisted(obj.attrs, ExactId));
              && (r.Ok? <==> s.Ok?)
              && (s.Err? ==> r == Err(s.error) && db.Current() == old(db.Current()))
              && (s.Ok? ==> r.value == s.value.1 && db.Current() == s.value.0)
    {
      var d := Persisted(obj.attrs, ExactId);
      var out := db.Execute(InsertOf(tableName, d));
      if out.Err? {
        return Err(out.error);
      }
      return Ok(out.value.lastRowId);
    }

    /** `update(obj)`: write the attributes but "id" to the row `obj.id` names. */
    method Update(obj: Entity) returns (r: Result<()>)
      requires db.Valid()
      modifies db, db.db
      ensures db.Valid() && (db.db == old(db.db) || fresh(db.db))
      ensures db.file.tables == old(db.file.tables)
      ensures var u := UpdateRow(old(db.Current()), tableName, obj.attrs, ExactId);
              && (r.Ok? <==> u.Ok?)
              && (u.Err? ==> r == Err(u.error) && db.Current() == old(db.Current()))
              && (u.Ok? ==> db.Current() == u.value)
    {
      var d := Persisted(obj.attrs, ExactId);
      var id := Lookup(obj.attrs, "id");
      if id.None? {
        return Err(AttributeError);
      }
      var out := db.Execute(UpdateOf(tableName, d, id.value));
      if out.Err? {
        return Err(out.error);
      }
      return Ok(());
    }

    /** `delete(id)`: remove the row with that id. */
    method Delete(id: Value) returns (r: Result<()>)
      requires db.Valid()
      modifies db, db.db
      ensures db.Valid() && (db.db == old(db.db) || fresh(db.db))
      ensures db.file.tables == old(db.file.tables)
      ensures var d := DeleteRow(old(db.Current()), tableName, id);
              && (r.Ok? <==> d.Ok?)
              && (d.Err? ==> r == Err(d.error) && db.Current() == old(db.Current()))
              && (d.Ok? ==> db.Current() == d.value)
    {
      var out := db.Execute(Stmt.Delete(tableName, id));
      if out.Err? {
        return Err(out.error);
      }
      return Ok(());
    }
  }

  /** `BaseEntity.objects(db)`: `BaseManager(db, cls)`, table check included. */
  method Objects(db: DatabaseConnection, cls: EntityClass) returns (r: Result<BaseManager>)
    requires db.Valid()
    modifies db, db.db, db.file
    ensures db.Valid() && (db.db == old(db.db) || fresh(db.db))
    ensures r.Ok? <==> CountsTable(old(db.Current()), TableName(cls)) || WellFormed(cls.schema)
    ensures r.Err? ==> r.error == OperationalError && db.Current() == old(db.Current())
    ensures r.Ok? ==> fresh(r.value) && r.value.db == db && r.value.cls == cls && r.value.tableName == TableName(cls)
                      && db.Current() == EnsureTable(old(db.Current()), TableName(cls), cls.schema)
  {
    var m := new BaseManager(db, cls);
    var p := m.Prepare();
    if p.Err? {
      return Err(p.error);
    }
    return Ok(m);
  }

  /**
   * Unlike orm.py and gistfile1.py, `save` here stores an object whose id
   * is already taken: gistfile1.py refuses it, this one adds a second row
   * under a new id.
   */
  lemma SaveStoresDuplicates(ts: Tables, t: string, a: Attrs)
    requires TablesOk(ts) && t in ts
    requires Lookup(a, "id").Some? && Truthy(Lookup(a, "id").value) && Present(ts[t], Lookup(a, "id").value)
    requires InsertRow(ts, t, Persisted(a, ExactId)).Ok?
    ensures SaveRow(ts, t, a, ExactId) == Err(AlreadyRegistered)
    ensures InsertRow(ts, t, Persisted(a, ExactId)).value.1 != Lookup(a, "id").value
    ensures Present(InsertRow(ts, t, Persisted(a, ExactId)).value.0[t], Lookup(a, "id").value)
  {
    var kept := Persisted(a, ExactId);
    InsertAssignsNextId(ts, t, Names(kept), Vals(kept));
  }

  /**
   * `all()` lists every stored row, newest first, and nothing else; each
   * entry is what `get` returns for its id.
   */
  lemma AllIsNewestFirst(ts: Tables, t: string)
    requires TablesOk(ts) && t in ts
    ensures Scan(ts, t, true).Ok?
    ensures var rows := Scan(ts, t, true).value;
            && (forall k :: k in ts[t].rows ==> RowAttrs(ts[t], k) in rows)
            && (forall i :: 0 <= i < |rows| ==> rows[i][0] == ("id", Int(RowId(rows[i]))) && AgreesWithGet(ts, t, rows[i]))
            && (forall i, j :: 0 <= i < j < |rows| ==> RowId(rows[i]) > RowId(rows[j]))
  {
    ScanListsEveryRow(ts, t, true);
    var rows: seq<Attrs> := Scan(ts, t, true).value;
    forall i | 0 <= i < |rows|
      ensures AgreesWithGet(ts, t, rows[i])
    {
      GetReturnsRow(ts, t, RowId(rows[i]));
    }
  }

  /** The entry `get` returns for the id the entry itself carries. */
  predicate AgreesWithGet(ts: Tables, t: string, row: Attrs) {
    |row| > 0 && FirstRow(ts, t, row[0].1) == Ok(row)
  }

  /** `get` on a stored id returns that row. */
  lemma GetReturnsRow(ts: Tables, t: string, k: int)
    requires t in ts && k in ts[t].rows
    ensures AgreesWithGet(ts, t, RowAttrs(ts[t], k))
  {
    assert Present(ts[t], Int(k));
  }
}
