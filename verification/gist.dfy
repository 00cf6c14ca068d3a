/**
 * gistfile1.py: the earlier form of the mapper. Its `DatabaseConnection`
 * keeps the lazily opened, cached connection of `Orm.Database` (the file
 * does not import sqlite3; the model takes the import as given), and its
 * `Manager` is `Orm.Manager` except that `save` and `update` leave out only
 * the attribute named "id".
 */
module Gist {
  import opened Values
  import opened Sqlite
  import opened Crud
  import Filters
  import Orm

  /** `Model.objects(db)`: a manager for the class over `db`, dropping only "id". */
  method Objects(db: Orm.Database, cls: EntityClass) returns (r: Result<Orm.Manager>)
    requires db.Valid()
    modifies db, db.connection, db.file
    ensures db.Valid()
    ensures r.Ok? <==> HasTable(old(db.Current()), TableName(cls)) || WellFormed(cls.schema)
    ensures r.Err? ==> r.error == OperationalError && db.Current() == old(db.Current())
    ensures r.Ok? ==> fresh(r.value) && r.value.db == db && r.value.cls == cls && r.value.filter == ExactId
                      && db.Current() == EnsureTable(old(db.Current()), TableName(cls), cls.schema)
  {
    r := Orm.NewManager(db, cls, ExactId);
  }

  /**
   * What gistfile1.py writes differs from what orm.py writes only for
   * attributes named "", "i" or "d": it keeps them, orm.py drops them.
   * Neither writes "id", and both keep the attributes' values and order.
   */
  lemma FiltersCompared(a: Attrs)
    ensures forall p :: p in Persisted(a, SubstringOfId) ==> p in Persisted(a, ExactId)
    ensures Persisted(a, SubstringOfId) == Persisted(a, ExactId) <==> forall p :: p in a ==> p.0 !in {"", "i", "d"}
    ensures forall p :: p in a && p.0 in {"", "i", "d"} ==> p in Persisted(a, ExactId) && p !in Persisted(a, SubstringOfId)
  {
    Filters.CutIdVersusDropId(a);
    Filters.CutIdDropsSubstrings(a);
  }

  /**
   * So the two mappers send the same insert, and hence store the same row
   * under the same id, exactly when the object has no attribute with one
   * of those names.
   */
  lemma SameInsertUnlessShortNames(ts: Tables, t: string, a: Attrs)
    requires forall p :: p in a ==> p.0 !in {"", "i", "d"}
    ensures SaveRow(ts, t, a, SubstringOfId) == SaveRow(ts, t, a, ExactId)
    ensures UpdateRow(ts, t, a, SubstringOfId) == UpdateRow(ts, t, a, ExactId)
  {
    FiltersCompared(a);
  }
}
