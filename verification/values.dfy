/**
 * Values that travel between the mapper and the store: column values, the
 * exceptions the three mappers raise, and an object's attribute dictionary.
 */
module Values {

  /** A value bound to a `?` placeholder or read back from a column. */
  datatype Value = Null | Int(i: int) | Real(r: real) | Text(s: string)

  datatype Option<+T> = None | Some(value: T)

  /** The exceptions the mappers raise or let through from the store. */
  datatype Error =
    | DoesNotExist       // ValueError raised by `get` when no row matches
    | AlreadyRegistered  // ValueError raised by `save` for an id already stored
    | AttributeError     // reading `obj.id` that was never set, or calling a method on None
    | IndexError         // indexing an empty list or an empty string
    | OperationalError   // the store rejects the statement: syntax, no such table or column
    | ProgrammingError   // wrong number of bindings, or a closed connection

  datatype Result<+T> = Ok(value: T) | Err(error: Error)

  /** Python truthiness of a value, as in `if obj.id and ...`. */
  predicate Truthy(v: Value) {
    match v
    case Null => false
    case Int(i) => i != 0
    case Real(r) => r != 0.0
    case Text(s) => s != ""
  }

  /** The rowid that `where id = ?` with this parameter addresses. */
  function KeyOf(v: Value): Option<int> {
    if v.Int? then Some(v.i) else None
  }

  /**
   * An object's `__dict__`: attribute names with their values, in the order
   * the dictionary iterates them.
   */
  type Attr = (string, Value)
  type Attrs = seq<Attr>

  predicate UniqueNames(a: Attrs) {
    forall i, j :: 0 <= i < j < |a| ==> a[i].0 != a[j].0
  }

  function Names(a: Attrs): (r: seq<string>)
    ensures |r| == |a|
    ensures forall i :: 0 <= i < |a| ==> r[i] == a[i].0
  {
    seq(|a|, i requires 0 <= i < |a| => a[i].0)
  }

  function Vals(a: Attrs): (r: seq<Value>)
    ensures |r| == |a|
    ensures forall i :: 0 <= i < |a| ==> r[i] == a[i].1
  {
    seq(|a|, i requires 0 <= i < |a| => a[i].1)
  }

  /** `getattr(obj, name)`: the value of the first attribute with that name. */
  function Lookup(a: Attrs, name: string): (r: Option<Value>)
    ensures r.None? <==> name !in Names(a)
    ensures r.Some? ==> (name, r.value) in a
  {
    if |a| == 0 then None
    else if a[0].0 == name then Some(a[0].1)
    else Lookup(a[1..], name)
  }

  /**
   * `setattr(obj, name, v)`: an existing attribute keeps its place in the
   * dictionary and gets the new value; a new one goes at the end.
   */
  function Assign(a: Attrs, name: string, v: Value): (r: Attrs)
    ensures name in Names(a) ==> Names(r) == Names(a)
    ensures name in Names(a) ==> forall i :: 0 <= i < |a| && a[i].0 != name ==> r[i] == a[i]
    ensures name !in Names(a) ==> r == a + [(name, v)]
    ensures forall p :: p in r && p.0 == name ==> p.1 == v
  {
    if name in Names(a) then seq(|a|, i requires 0 <= i < |a| => if a[i].0 == name then (name, v) else a[i])
    else a + [(name, v)]
  }

  /** An instance of a model class, whose attributes the mapper reads and `save` writes. */
  class Entity {
    var attrs: Attrs

    constructor (attrs: Attrs)
      ensures this.attrs == attrs
    {
      this.attrs := attrs;
    }
  }
}
