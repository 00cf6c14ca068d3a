/**
 * The mapper in orm.py: a database handle that opens its connection on
 * first use, a manager per model class that runs the statements of
 * `all`, `get`, `has`, `save`, `update` and `delete`, and the model-side
 * shortcuts that build such a manager. The handle and the manager of
 * gistfile1.py are the same code, save for the attribute filter.
 */
module Orm {
  import opened Values
  import opened Sqlite
  import opened Crud
  import Filters

  /**
   * `Database`: remembers how to connect and holds at most one open
   * connection, made on first use and reused until `close`.
   */
  class Database {
    const file: File
    var connected: bool
    var connection: Connection?

    /** While connected, the cached connection is open on this database's file. */
    ghost predicate Valid()
      reads this, connection
    {
      connected ==> connection != null && connection.open && connection.file == file
    }

    /**
     * What the next statement sees: the cached connection's view while
     * connected, otherwise the file as last committed.
     */
    ghost function Current(): Tables
      reads this, connection, file
    {
      if connected && connection != null then connection.view else file.tables
    }

    /** `Database(path)`: nothing is opened yet. */
    constructor (file: File)
      ensures this.file == file && !connected && connection == null && Valid()
      ensures Current() == file.tables
    {
      this.file := file;
      connected := false;
      connection := null;
    }

    /**
     * The `connection` property: the cached connection while connected,
     * otherwise a fresh one that becomes the cached connection.
     */
    method GetConnection() returns (c: Connection)
      requires Valid()
      modifies this
      ensures Valid() && connected && c == connection
      ensures old(connected) ==> c == old(connection)
      ensures !old(connected) ==> fresh(c)
      ensures Current() == old(Current())
    {
      if connected {
        return connection;
      }
      c := new Connection.Open(file);
      connection := c;
      connected := true;
    }

    /** `close`: closes the cached connection, if any; its uncommitted writes are lost. */
    method Close()
      requires Valid()
      modifies this, connection
      ensures Valid() && !connected && connection == old(connection)
      ensures file.tables == old(file.tables) && Current() == file.tables
    {
      if connected {
        connection.Close();
      }
      connected := false;
    }

    /** `commit`: connects if need be and makes the pending writes durable. */
    method Commit()
      requires Valid()
      modifies this, connection, file
      ensures connection == old(connection) || fresh(connection)
      ensures Valid() && connected
      ensures Current() == old(Current()) && file.tables == Current()
    {
      var c := GetConnection();
      var _ := c.Commit();
    }

    /** `execute(sql, *args)`: runs one statement on the (possibly new) connection. */
    method Execute(s: Stmt) returns (r: Result<Output>)
      requires Valid()
      modifies this, connection
      ensures connection == old(connection) || fresh(connection)
      ensures Valid() && connected && file.tables == old(file.tables)
      ensures r == Exec(old(Current()), s)
      ensures Current() == if r.Ok? then r.value.tables else old(Current())
    {
      var c := GetConnection();
      r := c.Execute(s);
    }

    /** `executescript(script)`: commits what is pending, then runs the schema script. */
    method ExecuteScript(schema: Schema) returns (r: Result<()>)
      requires Valid()
      modifies this, connection, file
      ensures connection == old(connection) || fresh(connection)
      ensures Valid() && connected
      ensures r.Ok? <==> WellFormed(schema)
      ensures r.Err? ==> r.error == OperationalError
      ensures Current() == if r.Ok? then CreateTable(old(Current()), schema) else old(Current())
      ensures file.tables == Current()
    {
      var c := GetConnection();
      r := c.ExecuteScript(schema);
    }
  }

  /**
   * `Manager`: the statements of one model class's table. `filter` says
   * which attributes `save` and `update` leave out: orm.py cuts every
   * substring of "id", gistfile1.py only "id" itself.
   */
  class Manager {
    const db: Database
    const cls: EntityClass
    const tableName: string
    const filter: IdFilter

    /** The field assignments at the head of `__init__`. */
    constructor (db: Database, cls: EntityClass, filter: IdFilter)
      ensures this.db == db && this.cls == cls && this.filter == filter
      ensures tableName == TableName(cls)
    {
      this.db := db;
      this.cls := cls;
      this.filter := filter;
      tableName := TableName(cls);
    }

    /**
     * The rest of `__init__`: when the catalog has no table of this name,
     * run the class's schema script and commit.
     */
    method Prepare() returns (r: Result<()>)
      requires db.Valid()
      modifies db, db.connection, db.file
      ensures db.Valid() && (db.connection == old(db.connection) || fresh(db.connection))
      ensures r.Ok? <==> HasTable(old(db.Current()), tableName) || WellFormed(cls.schema)
      ensures r.Err? ==> r.error == OperationalError
      ensures db.Current() == if r.Ok? then EnsureTable(old(db.Current()), tableName, cls.schema) else old(db.Current())
      ensures !HasTable(old(db.Current()), tableName) ==> db.file.tables == db.Current()
      ensures HasTable(old(db.Current()), tableName) ==> db.file.tables == old(db.file.tables)
    {
      var found := db.Execute(FindTable(tableName));
      assert found.Ok?;  // the catalog query is always accepted
      if found.value.rows == [] {
        var script := db.ExecuteScript(cls.schema);
        if script.Err? {
          return Err(script.error);
        }
        db.Commit();
      }
      return Ok(());
    }

    /** `all()`: the keyword arguments of one entity per row, in rowid order. */
    method All() returns (r: Result<seq<Attrs>>)
      requires db.Valid()
      modifies db, db.connection
      ensures db.Valid() && (db.connection == old(db.connection) || fresh(db.connection))
      ensures db.Current() == old(db.Current()) && db.file.tables == old(db.file.tables)
      ensures r == Scan(old(db.Current()), tableName, false)
    {
      var out := db.Execute(SelectAll(tableName, false));
      if out.Err? {
        return Err(out.error);
      }
      return Ok(out.value.rows);
    }

    /** `get(id)`: the row with that id, or ValueError. */
    method Get(id: Value) returns (r: Result<Attrs>)
      requires db.Valid()
      modifies db, db.connection
      ensures db.Valid() && (db.connection == old(db.connection) || fresh(db.connection))
      ensures db.Current() == old(db.Current()) && db.file.tables == old(db.file.tables)
      ensures r == Find(old(db.Current()), tableName, id)
    {
      var out := db.Execute(SelectById(tableName, id));
      if out.Err? {
        return Err(out.error);
      }
      if out.value.rows == [] {
        return Err(DoesNotExist);
      }
      return Ok(out.value.rows[0]);
    }

    /** `has(id)`: whether a row has that id. */
    method Has(id: Value) returns (r: Result<bool>)
      requires db.Valid()
      modifies db, db.connection
      ensures db.Valid() && (db.connection == old(db.connection) || fresh(db.connection))
      ensures db.Current() == old(db.Current()) && db.file.tables == old(db.file.tables)
      ensures r == Contains(old(db.Current()), tableName, id)
    {
      var out := db.Execute(SelectId(tableName, id));
      if out.Err? {
        return Err(out.error);
      }
      return Ok(out.value.rows != []);
    }

    /**
     * `save(obj)`: refuse an id already stored, insert the other
     * attributes, then set `obj.id` to the new rowid and return `obj`.
     */
    method Save(obj: Entity) returns (r: Result<Entity>)
      requires db.Valid()
      modifies db, db.connection, obj
      ensures db.Valid() && (db.connection == old(db.connection) || fresh(db.connection))
      ensures db.file.tables == old(db.file.tables)
      ensures var s := SaveRow(old(db.Current()), tableName, old(obj.attrs), filter);
              && (r.Ok? <==> s.Ok?)
              && (s.Err? ==> r == Err(s.error) && obj.attrs == old(obj.attrs) && db.Current() == old(db.Current()))
              && (s.Ok? ==> r.value == obj && db.Current() == s.value.0
                            && obj.attrs == Assign(old(obj.attrs), "id", s.value.1))
    {
      var id := Lookup(obj.attrs, "id");
      if id.None? {
        return Err(AttributeError);
      }
      if Truthy(id.value) {
        var has := Has(id.value);
        if has.Err? {
          return Err(has.error);
        }
        if has.value {
          return Err(AlreadyRegistered);
        }
      }
      var copy := Persisted(obj.attrs, filter);
      var out := db.Execute(InsertOf(tableName, copy));
      if out.Err? {
        return Err(out.error);
      }
      obj.attrs := Assign(obj.attrs, "id", out.value.lastRowId);
      return Ok(obj);
    }

    /** `update(obj)`: write the attributes other than the id to the row `obj.id` names. */
    method Update(obj: Entity) returns (r: Result<()>)
      requires db.Valid()
      modifies db, db.connection
      ensures db.Valid() && (db.connection == old(db.connection) || fresh(db.connection))
      ensures db.file.tables == old(db.file.tables)
      ensures var u := UpdateRow(old(db.Current()), tableName, obj.attrs, filter);
              && (r.Ok? <==> u.Ok?)
              && (u.Err? ==> r == Err(u.error) && db.Current() == old(db.Current()))
              && (u.Ok? ==> db.Current() == u.value)
    {
      var copy := Persisted(obj.attrs, filter);
      var id := Lookup(obj.attrs, "id");
      if id.None? {
        return Err(AttributeError);
      }
      var out := db.Execute(UpdateOf(tableName, copy, id.value));
      if out.Err? {
        return Err(out.error);
      }
      return Ok(());
    }

    /** `delete(obj)`: remove the row `obj.id` names. */
    method Delete(obj: Entity) returns (r: Result<()>)
      requires db.Valid()
      modifies db, db.connection
      ensures db.Valid() && (db.connection == old(db.connection) || fresh(db.connection))
      ensures db.file.tables == old(db.file.tables)
      ensures Lookup(obj.attrs, "id").None? ==> r == Err(AttributeError) && db.Current() == old(db.Current())
      ensures Lookup(obj.attrs, "id").Some? ==>
                var d := DeleteRow(old(db.Current()), tableName, Lookup(obj.attrs, "id").value);
                && (r.Ok? <==> d.Ok?)
                && (d.Err? ==> r == Err(d.error) && db.Current() == old(db.Current()))
                && (d.Ok? ==> db.Current() == d.value)
    {
      var id := Lookup(obj.attrs, "id");
      if id.None? {
        return Err(AttributeError);
      }
      var out := db.Execute(Stmt.Delete(tableName, id.value));
      if out.Err? {
        return Err(out.error);
      }
      return Ok(());
    }
  }

  /**
   * `Manager(db, cls)` as a whole: the fields, then the table check; an
   * error from the schema script propagates out of the constructor.
   */
  method NewManager(db: Database, cls: EntityClass, filter: IdFilter) returns (r: Result<Manager>)
    requires db.Valid()
    modifies db, db.connection, db.file
    ensures db.Valid() && (db.connection == old(db.connection) || fresh(db.connection))
    ensures r.Ok? <==> HasTable(old(db.Current()), TableName(cls)) || WellFormed(cls.schema)
    ensures r.Err? ==> r.error == OperationalError && db.Current() == old(db.Current())
    ensures r.Ok? ==> fresh(r.value) && r.value.db == db && r.value.cls == cls && r.value.filter == filter
                      && r.value.tableName == TableName(cls)
                      && db.Current() == EnsureTable(old(db.Current()), TableName(cls), cls.schema)
  {
    var m := new Manager(db, cls, filter);
    var p := m.Prepare();
    if p.Err? {
      return Err(p.error);
    }
    return Ok(m);
  }

  /**
   * A model class: a `Model` subclass, whose `db` attribute is the database
   * it was declared against (a subclass of `db.Model`) or None (a direct
   * subclass of `Model`).
   */
  datatype ModelClass = ModelClass(entity: EntityClass, db: Database?)

  /**
   * The database `Model.manager(db)` hands to the manager, as written: the
   * class attribute, whatever the argument.
   */
  function BindingAsWritten(cls: ModelClass, db: Database?): Database? {
    cls.db
  }

  /** The evident intent of `db = db if db else cls.db`: the argument, when given. */
  function Binding(cls: ModelClass, db: Database?): (r: Database?)
    ensures db != null ==> r == db
    ensures db == null ==> r == cls.db
  {
    if db != null then db else cls.db
  }

  /**
   * The two differ exactly when a database is passed for a class bound to
   * another one or to none; for a direct subclass of `Model` the written
   * manager has no database at all.
   */
  lemma ManagerIgnoresItsArgument(cls: ModelClass, db: Database?)
    ensures BindingAsWritten(cls, db) != Binding(cls, db) <==> db != null && db != cls.db
    ensures cls.db == null && db != null ==> BindingAsWritten(cls, db) == null && Binding(cls, db) == db
  {
  }

  /**
   * `Model.manager(db)` as written: the manager gets `cls.db`; when that is
   * None, the table check's `None.execute` raises AttributeError.
   */
  method ModelManagerAsWritten(cls: ModelClass, db: Database?) returns (r: Result<Manager>)
    requires cls.db != null ==> cls.db.Valid()
    modifies if cls.db != null then {cls.db, cls.db.connection, cls.db.file} else {}
    ensures cls.db == null ==> r == Err(AttributeError)
    ensures cls.db != null ==> cls.db.Valid()
    ensures r.Ok? ==> r.value.db == BindingAsWritten(cls, db)
  {
    var binding := BindingAsWritten(cls, db);
    if binding == null {
      return Err(AttributeError);
    }
    r := NewManager(binding, cls.entity, SubstringOfId);
  }

  /**
   * `Model.manager(db)` with the argument honoured: a manager over `db`
   * when given, else over the class's database.
   */
  method ModelManager(cls: ModelClass, db: Database?) returns (r: Result<Manager>)
    requires Binding(cls, db) != null ==> Binding(cls, db).Valid()
    modifies var b := Binding(cls, db); if b != null then {b, b.connection, b.file} else {}
    ensures Binding(cls, db) == null ==> r == Err(AttributeError)
    ensures Binding(cls, db) != null ==>
              var b := Binding(cls, db);
              && b.Valid() && (b.connection == old(b.connection) || fresh(b.connection))
              && (r.Ok? <==> HasTable(old(b.Current()), TableName(cls.entity)) || WellFormed(cls.entity.schema))
              && (r.Err? ==> r.error == OperationalError && b.Current() == old(b.Current()))
              && (r.Ok? ==> fresh(r.value) && r.value.db == b && r.value.cls == cls.entity
                            && r.value.filter == SubstringOfId && r.value.tableName == TableName(cls.entity)
                            && b.Current() == EnsureTable(old(b.Current()), TableName(cls.entity), cls.entity.schema))
  {
    var binding := Binding(cls, db);
    if binding == null {
      return Err(AttributeError);
    }
    r := NewManager(binding, cls.entity, SubstringOfId);
  }

  /** `obj.save()`: `save` on a new manager of the object's class. */
  method SaveModel(cls: ModelClass, obj: Entity) returns (r: Result<Entity>)
    requires cls.db != null ==> cls.db.Valid()
    modifies if cls.db != null then {cls.db, cls.db.connection, cls.db.file} else {}
    modifies obj
    ensures cls.db == null ==> r == Err(AttributeError) && obj.attrs == old(obj.attrs)
    ensures cls.db != null ==>
              var t := TableName(cls.entity);
              var ts := EnsureTable(old(cls.db.Current()), t, cls.entity.schema);
              var s := SaveRow(ts, t, old(obj.attrs), SubstringOfId);
              && cls.db.Valid()
              && (!HasTable(old(cls.db.Current()), t) && !WellFormed(cls.entity.schema) ==>
                    r == Err(OperationalError) && obj.attrs == old(obj.attrs))
              && (HasTable(old(cls.db.Current()), t) || WellFormed(cls.entity.schema) ==>
                    && (r.Ok? <==> s.Ok?)
                    && (s.Err? ==> r == Err(s.error) && obj.attrs == old(obj.attrs) && cls.db.Current() == ts)
                    && (s.Ok? ==> r.value == obj && cls.db.Current() == s.value.0
                                  && obj.attrs == Assign(old(obj.attrs), "id", s.value.1)))
  {
    var m := ModelManager(cls, null);
    if m.Err? {
      return Err(m.error);
    }
    r := m.value.Save(obj);
  }

  /** `obj.update()`: `update` on a new manager of the object's class. */
  method UpdateModel(cls: ModelClass, obj: Entity) returns (r: Result<()>)
    requires cls.db != null ==> cls.db.Valid()
    modifies if cls.db != null then {cls.db, cls.db.connection, cls.db.file} else {}
    ensures cls.db == null ==> r == Err(AttributeError)
    ensures cls.db != null ==>
              var t := TableName(cls.entity);
              var ts := EnsureTable(old(cls.db.Current()), t, cls.entity.schema);
              var u := UpdateRow(ts, t, obj.attrs, SubstringOfId);
              && cls.db.Valid()
              && (!HasTable(old(cls.db.Current()), t) && !WellFormed(cls.entity.schema) ==> r == Err(OperationalError))
              && (HasTable(old(cls.db.Current()), t) || WellFormed(cls.entity.schema) ==>
                    && (r.Ok? <==> u.Ok?)
                    && cls.db.Current() == if u.Ok? then u.value else ts)
  {
    var m := ModelManager(cls, null);
    if m.Err? {
      return Err(m.error);
    }
    r := m.value.Update(obj);
  }

  /** `obj.delete()`: `delete` on a new manager of the object's class. */
  method DeleteModel(cls: ModelClass, obj: Entity) returns (r: Result<()>)
    requires cls.db != null ==> cls.db.Valid()
    modifies if cls.db != null then {cls.db, cls.db.connection, cls.db.file} else {}
    ensures cls.db == null ==> r == Err(AttributeError)
    ensures cls.db != null ==>
              var t := TableName(cls.entity);
              var ts := EnsureTable(old(cls.db.Current()), t, cls.entity.schema);
              && cls.db.Valid()
              && (!HasTable(old(cls.db.Current()), t) && !WellFormed(cls.entity.schema) ==> r == Err(OperationalError))
              && (HasTable(old(cls.db.Current()), t) || WellFormed(cls.entity.schema) ==>
                    match Lookup(obj.attrs, "id")
                    case None => r == Err(AttributeError) && cls.db.Current() == ts
                    case Some(id) =>
                      var d := DeleteRow(ts, t, id);
                      && (r.Ok? <==> d.Ok?)
                      && cls.db.Current() == if d.Ok? then d.value else ts)
  {
    var m := ModelManager(cls, null);
    if m.Err? {
      return Err(m.error);
    }
    r := m.value.Delete(obj);
  }
}
