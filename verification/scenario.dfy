/**
 * The walk-through in tests.py on a fresh database file: save a post, read
 * it back, change and update it, delete it, save another, close without
 * committing, and list what is left.
 */
module Walkthrough {
  import opened Values
  import opened Sqlite
  import opened Crud
  import Filters
  import Orm

  /** The `Post` model class: `post` table with `title` and `text` after the id. */
  function PostClass(): Orm.ModelClass {
    Orm.ModelClass(EntityClass("Post", Schema("post", ["title", "text"])), null)
  }

  /** The `Post` class's table, and the table check's effect on an empty file. */
  lemma PostClassTable()
    ensures TableName(PostClass().entity) == "post"
    ensures WellFormed(PostClass().entity.schema)
    ensures EnsureTable(map[], "post", PostClass().entity.schema) == One("post", "title", "text", map[], 0)
    ensures Plain("title", "text")
  {
    var s := PostClass().entity.schema;
    assert !HasTable(map[], "post");
    assert CreateTable(map[], s).Keys == {"post"};
  }

  /** A file holding one table, two columns after the id. */
  function One(t: string, c1: string, c2: string, rows: map<int, Row>, last: nat): Tables {
    map[t := Table([c1, c2], rows, last)]
  }

  /** A stored row of such a table. */
  function Pair(c1: string, c2: string, v1: Value, v2: Value): Row {
    map[c1 := v1, c2 := v2]
  }

  /** Two column names neither of which `cut_attrs(obj, 'id')` would drop. */
  predicate Plain(c1: string, c2: string) {
    c1 != c2 && c1 !in {"", "i", "d", "id"} && c2 !in {"", "i", "d", "id"}
  }

  /** What `save` and `update` write for an object with the id first, then the two columns. */
  lemma PersistsBoth(c1: string, c2: string, id: Value, v1: Value, v2: Value)
    requires Plain(c1, c2)
    ensures Persisted([("id", id), (c1, v1), (c2, v2)], SubstringOfId) == [(c1, v1), (c2, v2)]
  {
    var a := [("id", id), (c1, v1), (c2, v2)];
    Filters.CutAttrsCons(a, "id");
    Filters.SubstringsOfId("id");
    Filters.CutIdKeepsOthers(a[1..]);
  }

  /** A row with exactly the two columns, holding these values, is that pair. */
  lemma FullRow(r: Row, c1: string, c2: string, v1: Value, v2: Value)
    requires c1 in r && c2 in r && r[c1] == v1 && r[c2] == v2
    requires forall c :: c in r ==> c == c1 || c == c2
    ensures r == Pair(c1, c2, v1, v2)
  {
  }

  /** The names and the values of the two attributes, in order. */
  lemma TwoColumns(c1: string, c2: string, v1: Value, v2: Value)
    ensures Names([(c1, v1), (c2, v2)]) == [c1, c2]
    ensures Vals([(c1, v1), (c2, v2)]) == [v1, v2]
  {
  }

  /** A fresh object's id is None, so `save` goes straight to the insert. */
  lemma SaveIsInsert(t: string, c1: string, c2: string, rows: map<int, Row>, last: nat, v1: Value, v2: Value)
    requires Plain(c1, c2)
    ensures SaveRow(One(t, c1, c2, rows, last), t, [("id", Null), (c1, v1), (c2, v2)], SubstringOfId)
            == InsertRow(One(t, c1, c2, rows, last), t, [(c1, v1), (c2, v2)])
  {
    var ts := One(t, c1, c2, rows, last);
    var a := [("id", Null), (c1, v1), (c2, v2)];
    PersistsBoth(c1, c2, Null, v1, v2);
    assert Lookup(a, "id") == Some(Null);
    SaveWithFalsyIdInserts(ts, t, a, SubstringOfId);
  }

  /** The table exists and has both columns, so the insert is accepted. */
  lemma InsertAccepted(t: string, c1: string, c2: string, rows: map<int, Row>, last: nat, v1: Value, v2: Value)
    ensures Admits(One(t, c1, c2, rows, last), Insert(t, [c1, c2], [v1, v2]))
  {
  }

  /** The insert stores the two values under their columns. */
  lemma InsertedRow(t: string, c1: string, c2: string, rows: map<int, Row>, last: nat, v1: Value, v2: Value)
    requires Plain(c1, c2) && TablesOk(One(t, c1, c2, rows, last))
    ensures Admits(One(t, c1, c2, rows, last), Insert(t, [c1, c2], [v1, v2]))
    ensures Inserted(One(t, c1, c2, rows, last), t, [c1, c2], [v1, v2])[t].rows[last + 1] == Pair(c1, c2, v1, v2)
  {
    var ts := One(t, c1, c2, rows, last);
    InsertAccepted(t, c1, c2, rows, last, v1, v2);
    InsertAssignsNextId(ts, t, [c1, c2], [v1, v2]);
    InsertStoresGivenValues(ts, t, [c1, c2], [v1, v2]);
    var row := Inserted(ts, t, [c1, c2], [v1, v2])[t].rows[last + 1];
    assert row.Keys == set c | c in [c1, c2];
    FullRow(row, c1, c2, v1, v2);
  }

  /** Apart from the new row and the counter, the table is as it was. */
  lemma InsertedTables(t: string, c1: string, c2: string, rows: map<int, Row>, last: nat, v1: Value, v2: Value)
    requires Plain(c1, c2) && TablesOk(One(t, c1, c2, rows, last))
    ensures Admits(One(t, c1, c2, rows, last), Insert(t, [c1, c2], [v1, v2]))
    ensures Inserted(One(t, c1, c2, rows, last), t, [c1, c2], [v1, v2])
            == One(t, c1, c2, rows[last + 1 := Pair(c1, c2, v1, v2)], last + 1)
  {
    var ts := One(t, c1, c2, rows, last);
    InsertedRow(t, c1, c2, rows, last, v1, v2);
    InsertAssignsNextId(ts, t, [c1, c2], [v1, v2]);
    var ts' := Inserted(ts, t, [c1, c2], [v1, v2]);
    assert ts'.Keys == {t};
    assert ts'[t].rows == rows[last + 1 := Pair(c1, c2, v1, v2)];
    assert ts'[t] == Table([c1, c2], rows[last + 1 := Pair(c1, c2, v1, v2)], last + 1);
  }

  /** The insert of the two attributes answers with those tables and the new rowid. */
  lemma InsertsRow(t: string, c1: string, c2: string, rows: map<int, Row>, last: nat, v1: Value, v2: Value)
    requires Plain(c1, c2) && TablesOk(One(t, c1, c2, rows, last))
    ensures InsertRow(One(t, c1, c2, rows, last), t, [(c1, v1), (c2, v2)])
            == Ok((One(t, c1, c2, rows[last + 1 := Pair(c1, c2, v1, v2)], last + 1), Int(last + 1)))
  {
    var kept := [(c1, v1), (c2, v2)];
    InsertedTables(t, c1, c2, rows, last, v1, v2);
    TwoColumns(c1, c2, v1, v2);
  }

  /** Saving into such a table stores the row under the counter's next value. */
  lemma SavesRow(t: string, c1: string, c2: string, rows: map<int, Row>, last: nat, v1: Value, v2: Value)
    requires Plain(c1, c2) && TablesOk(One(t, c1, c2, rows, last))
    ensures SaveRow(One(t, c1, c2, rows, last), t, [("id", Null), (c1, v1), (c2, v2)], SubstringOfId)
            == Ok((One(t, c1, c2, rows[last + 1 := Pair(c1, c2, v1, v2)], last + 1), Int(last + 1)))
  {
    SaveIsInsert(t, c1, c2, rows, last, v1, v2);
    InsertsRow(t, c1, c2, rows, last, v1, v2);
  }

  /** `get` on a stored row returns its id and both columns. */
  lemma FindsRow(t: string, c1: string, c2: string, rows: map<int, Row>, last: nat, id: int, v1: Value, v2: Value)
    requires c1 != c2 && id in rows && rows[id] == Pair(c1, c2, v1, v2)
    ensures Find(One(t, c1, c2, rows, last), t, Int(id)) == Ok([("id", Int(id)), (c1, v1), (c2, v2)])
  {
    var tb := One(t, c1, c2, rows, last)[t];
    var r := RowAttrs(tb, id);
    assert r[1] == (c1, v1) && r[2] == (c2, v2);
    assert r == [("id", Int(id)), (c1, v1), (c2, v2)];
  }

  /** The update names both columns and the table has them, so it is accepted. */
  lemma UpdateAccepted(t: string, c1: string, c2: string, rows: map<int, Row>, last: nat, vals: seq<Value>)
    requires |vals| == 3
    ensures Admits(One(t, c1, c2, rows, last), Update(t, [c1, c2], vals))
  {
  }

  /** The addressed row ends up holding exactly the two new values. */
  lemma UpdatedRow(t: string, c1: string, c2: string, rows: map<int, Row>, last: nat, id: int, v1: Value, v2: Value)
    requires c1 != c2 && id in rows && rows[id].Keys == {c1, c2}
    ensures Admits(One(t, c1, c2, rows, last), Update(t, [c1, c2], [v1, v2, Int(id)]))
    ensures Updated(One(t, c1, c2, rows, last), t, [c1, c2], [v1, v2, Int(id)])[t].rows[id] == Pair(c1, c2, v1, v2)
  {
    var ts := One(t, c1, c2, rows, last);
    var vals := [v1, v2, Int(id)];
    UpdateAccepted(t, c1, c2, rows, last, vals);
    UpdateChangesOnlyAddressedRow(ts, t, [c1, c2], vals);
    UpdateStoresGivenValues(ts, t, [c1, c2], vals, 0);
    UpdateStoresGivenValues(ts, t, [c1, c2], vals, 1);
    var row := Updated(ts, t, [c1, c2], vals)[t].rows[id];
    assert row.Keys == rows[id].Keys + Zip([c1, c2], vals[..2]).Keys;
    FullRow(row, c1, c2, v1, v2);
  }

  /** The update leaves the rest of the table as it was. */
  lemma UpdatedTables(t: string, c1: string, c2: string, rows: map<int, Row>, last: nat, id: int, v1: Value, v2: Value)
    requires c1 != c2 && id in rows && rows[id].Keys == {c1, c2}
    ensures Admits(One(t, c1, c2, rows, last), Update(t, [c1, c2], [v1, v2, Int(id)]))
    ensures Updated(One(t, c1, c2, rows, last), t, [c1, c2], [v1, v2, Int(id)])
            == One(t, c1, c2, rows[id := Pair(c1, c2, v1, v2)], last)
  {
    var ts := One(t, c1, c2, rows, last);
    var vals := [v1, v2, Int(id)];
    UpdatedRow(t, c1, c2, rows, last, id, v1, v2);
    UpdateKeepsShape(ts, t, [c1, c2], vals);
    UpdateChangesOnlyAddressedRow(ts, t, [c1, c2], vals);
    var ts' := Updated(ts, t, [c1, c2], vals);
    assert ts'[t].rows == rows[id := Pair(c1, c2, v1, v2)];
    assert ts'.Keys == {t};
    assert ts'[t] == Table([c1, c2], rows[id := Pair(c1, c2, v1, v2)], last);
  }

  /** `update` of an object with an id and the two columns sends the update of both columns. */
  lemma UpdateIsRewrite(t: string, c1: string, c2: string, rows: map<int, Row>, last: nat, id: int, v1: Value, v2: Value)
    requires Plain(c1, c2)
    ensures Admits(One(t, c1, c2, rows, last), Update(t, [c1, c2], [v1, v2, Int(id)]))
    ensures UpdateRow(One(t, c1, c2, rows, last), t, [("id", Int(id)), (c1, v1), (c2, v2)], SubstringOfId)
            == Ok(Updated(One(t, c1, c2, rows, last), t, [c1, c2], [v1, v2, Int(id)]))
  {
    var a := [("id", Int(id)), (c1, v1), (c2, v2)];
    var kept := [(c1, v1), (c2, v2)];
    UpdateAccepted(t, c1, c2, rows, last, [v1, v2, Int(id)]);
    PersistsBoth(c1, c2, Int(id), v1, v2);
    assert Lookup(a, "id") == Some(Int(id));
    TwoColumns(c1, c2, v1, v2);
    UpdateSends(One(t, c1, c2, rows, last), t, a, SubstringOfId, Int(id), [c1, c2], [v1, v2, Int(id)]);
  }

  /** `update` of a stored row rewrites both columns and nothing else. */
  lemma UpdatesRow(t: string, c1: string, c2: string, rows: map<int, Row>, last: nat, id: int, v1: Value, v2: Value)
    requires Plain(c1, c2) && id in rows && rows[id].Keys == {c1, c2}
    ensures UpdateRow(One(t, c1, c2, rows, last), t, [("id", Int(id)), (c1, v1), (c2, v2)], SubstringOfId)
            == Ok(One(t, c1, c2, rows[id := Pair(c1, c2, v1, v2)], last))
  {
    UpdateIsRewrite(t, c1, c2, rows, last, id, v1, v2);
    UpdatedTables(t, c1, c2, rows, last, id, v1, v2);
  }

  /** `delete` of a row leaves the counter where it was. */
  lemma DeletesRow(t: string, c1: string, c2: string, rows: map<int, Row>, last: nat, id: int)
    ensures DeleteRow(One(t, c1, c2, rows, last), t, Int(id)) == Ok(One(t, c1, c2, rows - {id}, last))
  {
    var ts := One(t, c1, c2, rows, last);
    DeleteRemovesOnlyAddressedRow(ts, t, Int(id));
    var ts' := DeleteRow(ts, t, Int(id)).value;
    assert ts'.Keys == {t};
    assert ts'[t] == Table([c1, c2], rows - {id}, last);
    assert ts' == One(t, c1, c2, rows - {id}, last);
  }

  /** No rowids come out of a table without rows. */
  lemma {:induction false} AscendingEmpty(hi: int)
    ensures Ascending(map[], hi) == []
    decreases hi
  {
    if hi > 0 {
      AscendingEmpty(hi - 1);
    }
  }

  /** An empty table scans to nothing. */
  lemma ScansEmpty(t: string, c1: string, c2: string, last: nat)
    ensures Scan(One(t, c1, c2, map[], last), t, false) == Ok([])
  {
    var ts := One(t, c1, c2, map[], last);
    AscendingEmpty(last);
    assert ts[t].rows == map[];
    var out := Exec(ts, SelectAll(t, false));
    assert out.Ok?;
    assert out.value.rows == [];
  }

  /** Setting the id of an object whose attributes are the id and then two columns. */
  lemma IdAssigned(c1: string, c2: string, old_id: Value, v1: Value, v2: Value, id: Value)
    requires Plain(c1, c2)
    ensures Assign([("id", old_id), (c1, v1), (c2, v2)], "id", id) == [("id", id), (c1, v1), (c2, v2)]
    ensures Lookup([("id", id), (c1, v1), (c2, v2)], "id") == Some(id)
  {
    var a := [("id", old_id), (c1, v1), (c2, v2)];
    assert Names(a)[0] == "id";
  }

  /** Setting the second column of such an object. */
  lemma SecondAssigned(c1: string, c2: string, id: Value, v1: Value, v2: Value, w2: Value)
    requires Plain(c1, c2)
    ensures Assign([("id", id), (c1, v1), (c2, v2)], c2, w2) == [("id", id), (c1, v1), (c2, w2)]
  {
    var a := [("id", id), (c1, v1), (c2, v2)];
    assert Names(a)[2] == c2;
  }

  /** `objects.save(obj)` where the table-level outcome is already known. */
  method SaveStep(objects: Orm.Manager, obj: Entity, ts: Tables, id: Value)
    requires objects.db.Valid()
    requires SaveRow(objects.db.Current(), objects.tableName, obj.attrs, objects.filter) == Ok((ts, id))
    modifies objects.db, objects.db.connection, obj
    ensures objects.db.Valid() && (objects.db.connection == old(objects.db.connection) || fresh(objects.db.connection))
    ensures objects.db.file.tables == old(objects.db.file.tables)
    ensures objects.db.Current() == ts && obj.attrs == Assign(old(obj.attrs), "id", id)
  {
    var _ := objects.Save(obj);
  }

  /** `objects.update(obj)` where the table-level outcome is already known. */
  method UpdateStep(objects: Orm.Manager, obj: Entity, ts: Tables)
    requires objects.db.Valid()
    requires UpdateRow(objects.db.Current(), objects.tableName, obj.attrs, objects.filter) == Ok(ts)
    modifies objects.db, objects.db.connection
    ensures objects.db.Valid() && (objects.db.connection == old(objects.db.connection) || fresh(objects.db.connection))
    ensures objects.db.file.tables == old(objects.db.file.tables)
    ensures objects.db.Current() == ts
  {
    var _ := objects.Update(obj);
  }

  /** `objects.delete(obj)` where the table-level outcome is already known. */
  method DeleteStep(objects: Orm.Manager, obj: Entity, ts: Tables)
    requires objects.db.Valid()
    requires Lookup(obj.attrs, "id").Some?
    requires DeleteRow(objects.db.Current(), objects.tableName, Lookup(obj.attrs, "id").value) == Ok(ts)
    modifies objects.db, objects.db.connection
    ensures objects.db.Valid() && (objects.db.connection == old(objects.db.connection) || fresh(objects.db.connection))
    ensures objects.db.file.tables == old(objects.db.file.tables)
    ensures objects.db.Current() == ts
  {
    var _ := objects.Delete(obj);
  }

  /** `objects.save(Post(title, text))` for a new object: it gets the counter's next value as id. */
  method SaveNew(db: Orm.Database, objects: Orm.Manager, t: string, c1: string, c2: string, rows: map<int, Row>, last: nat, v1: Value, v2: Value)
    returns (id: Value)
    requires Plain(c1, c2) && TablesOk(One(t, c1, c2, rows, last))
    requires db.Valid() && objects.db == db && objects.tableName == t && objects.filter == SubstringOfId
    requires db.Current() == One(t, c1, c2, rows, last)
    modifies db, db.connection
    ensures db.Valid() && (db.connection == old(db.connection) || fresh(db.connection))
    ensures db.file.tables == old(db.file.tables)
    ensures db.Current() == One(t, c1, c2, rows[last + 1 := Pair(c1, c2, v1, v2)], last + 1)
    ensures id == Int(last + 1)
  {
    SavesRow(t, c1, c2, rows, last, v1, v2);
    var created := new Entity([("id", Null), (c1, v1), (c2, v2)]);
    SaveStep(objects, created, One(t, c1, c2, rows[last + 1 := Pair(c1, c2, v1, v2)], last + 1), Int(last + 1));
    IdAssigned(c1, c2, Null, v1, v2, Int(last + 1));
    id := Lookup(created.attrs, "id").value;
  }

  /** `db = Database(...)` on a new file and `objects = Post.manager(db)`. */
  method Open() returns (db: Orm.Database, objects: Orm.Manager)
    ensures fresh(db) && fresh(db.file) && (db.connection == null || fresh(db.connection))
    ensures db.Valid() && objects.db == db
    ensures objects.tableName == "post" && objects.filter == SubstringOfId
    ensures db.Current() == One("post", "title", "text", map[], 0)
  {
    var file := new File(map[]);
    db := new Orm.Database(file);
    var cls := PostClass();
    PostClassTable();
    assert Orm.Binding(cls, db) == db;
    var m := Orm.ModelManager(cls, db);
    objects := m.value;
  }

  /** `obj = objects.get(id)` for a stored row: a new object with the id and both columns. */
  method ReadBack(db: Orm.Database, objects: Orm.Manager, t: string, c1: string, c2: string, rows: map<int, Row>, last: nat, id: int, v1: Value, v2: Value)
    returns (obj: Entity)
    requires c1 != c2 && id in rows && rows[id] == Pair(c1, c2, v1, v2)
    requires db.Valid() && objects.db == db && objects.tableName == t
    requires db.Current() == One(t, c1, c2, rows, last)
    modifies db, db.connection
    ensures db.Valid() && (db.connection == old(db.connection) || fresh(db.connection))
    ensures db.file.tables == old(db.file.tables) && db.Current() == old(db.Current())
    ensures fresh(obj) && obj.attrs == [("id", Int(id)), (c1, v1), (c2, v2)]
  {
    FindsRow(t, c1, c2, rows, last, id, v1, v2);
    var row := objects.Get(Int(id));
    obj := new Entity(row.value);
  }

  /** `obj.text = w2; objects.update(obj)`: the row now holds the new value. */
  method ChangeAndUpdate(db: Orm.Database, objects: Orm.Manager, obj: Entity, t: string, c1: string, c2: string, rows: map<int, Row>, last: nat, id: int, v1: Value, v2: Value, w2: Value)
    requires Plain(c1, c2) && id in rows && rows[id] == Pair(c1, c2, v1, v2)
    requires db.Valid() && objects.db == db && objects.tableName == t && objects.filter == SubstringOfId
    requires db.Current() == One(t, c1, c2, rows, last)
    requires obj.attrs == [("id", Int(id)), (c1, v1), (c2, v2)]
    modifies db, db.connection, obj
    ensures db.Valid() && (db.connection == old(db.connection) || fresh(db.connection))
    ensures db.file.tables == old(db.file.tables)
    ensures db.Current() == One(t, c1, c2, rows[id := Pair(c1, c2, v1, w2)], last)
    ensures obj.attrs == [("id", Int(id)), (c1, v1), (c2, w2)]
  {
    SecondAssigned(c1, c2, Int(id), v1, v2, w2);
    obj.attrs := Assign(obj.attrs, c2, w2);
    assert rows[id].Keys == {c1, c2};
    UpdatesRow(t, c1, c2, rows, last, id, v1, w2);
    UpdateStep(objects, obj, One(t, c1, c2, rows[id := Pair(c1, c2, v1, w2)], last));
  }

  /**
   * Save an object with id None, read it back, change its second column
   * and update it; the stored row then has the new value.
   */
  method SaveAndUpdate(db: Orm.Database, objects: Orm.Manager, t: string, c1: string, c2: string, v1: Value, v2: Value, w2: Value)
    returns (first: Value, obj: Entity, stored: Result<Attrs>)
    requires Plain(c1, c2)
    requires db.Valid() && objects.db == db && objects.tableName == t && objects.filter == SubstringOfId
    requires db.Current() == One(t, c1, c2, map[], 0)
    modifies db, db.connection
    ensures db.Valid() && (db.connection == old(db.connection) || fresh(db.connection))
    ensures db.file.tables == old(db.file.tables)
    ensures db.Current() == One(t, c1, c2, map[1 := Pair(c1, c2, v1, w2)], 1)
    ensures first == Int(1) && fresh(obj) && obj.attrs == [("id", Int(1)), (c1, v1), (c2, w2)]
    ensures stored == Ok(obj.attrs)
  {
    var rows1 := map[1 := Pair(c1, c2, v1, v2)];
    var rows2 := map[1 := Pair(c1, c2, v1, w2)];
    first := SaveNew(db, objects, t, c1, c2, map[], 0, v1, v2);
    assert map[][1 := Pair(c1, c2, v1, v2)] == rows1;
    obj := ReadBack(db, objects, t, c1, c2, rows1, 1, 1, v1, v2);
    ChangeAndUpdate(db, objects, obj, t, c1, c2, rows1, 1, 1, v1, v2, w2);
    assert rows1[1 := Pair(c1, c2, v1, w2)] == rows2;
    FindsRow(t, c1, c2, rows2, 1, 1, v1, w2);
    stored := objects.Get(Int(1));
  }

  /** `db.commit(); objects.delete(obj); db.commit()`: the empty table is made durable. */
  method DeleteCommitted(db: Orm.Database, objects: Orm.Manager, obj: Entity, t: string, c1: string, c2: string, v1: Value, v2: Value)
    requires Plain(c1, c2)
    requires db.Valid() && objects.db == db && objects.tableName == t
    requires db.Current() == One(t, c1, c2, map[1 := Pair(c1, c2, v1, v2)], 1)
    requires obj.attrs == [("id", Int(1)), (c1, v1), (c2, v2)]
    modifies db, db.connection, db.file
    ensures db.Valid() && (db.connection == old(db.connection) || fresh(db.connection))
    ensures db.Current() == One(t, c1, c2, map[], 1) && db.file.tables == db.Current()
  {
    var rows := map[1 := Pair(c1, c2, v1, v2)];
    db.Commit();
    DeletesRow(t, c1, c2, rows, 1, 1);
    IdAssigned(c1, c2, Int(1), v1, v2, Int(1));
    assert rows - {1} == map[];
    DeleteStep(objects, obj, One(t, c1, c2, map[], 1));
    db.Commit();
  }

  /**
   * Delete the object and commit, save another with values `w1`, `w2`,
   * close without committing, and list the table.
   */
  method DeleteAndReopen(db: Orm.Database, objects: Orm.Manager, t: string, c1: string, c2: string, obj: Entity, v1: Value, v2: Value, w1: Value, w2: Value)
    returns (second: Value, after: Result<seq<Attrs>>)
    requires Plain(c1, c2)
    requires db.Valid() && objects.db == db && objects.tableName == t && objects.filter == SubstringOfId
    requires db.Current() == One(t, c1, c2, map[1 := Pair(c1, c2, v1, v2)], 1)
    requires obj.attrs == [("id", Int(1)), (c1, v1), (c2, v2)]
    modifies db, db.connection, db.file
    ensures second == Int(2) && after == Ok([])
  {
    DeleteCommitted(db, objects, obj, t, c1, c2, v1, v2);
    second := SaveNew(db, objects, t, c1, c2, map[], 1, w1, w2);
    db.Close();
    ScansEmpty(t, c1, c2, 1);
    after := objects.All();
  }

  /**
   * tests.py with the database passed to `Post.manager(db)` honoured: the
   * first post gets id 1 and reads back with the new text after `update`,
   * the second gets id 2, and since it was never committed, `all()` after
   * `close` finds the table empty.
   */
  method PostWalkthrough() returns (first: Value, stored: Result<Attrs>, second: Value, after: Result<seq<Attrs>>)
    ensures first == Int(1)
    ensures stored == Ok([("id", Int(1)), ("title", Text("Hello")), ("text", Text("Mundo"))])
    ensures second == Int(2)
    ensures after == Ok([])
  {
    PostClassTable();
    var db, objects := Open();
    var post;
    first, post, stored := SaveAndUpdate(db, objects, "post", "title", "text", Text("Hello"), Text("World"), Text("Mundo"));
    second, after := DeleteAndReopen(db, objects, "post", "title", "text", post, Text("Hello"), Text("Mundo"), Text("Hello"), Text("World"));
  }
}
