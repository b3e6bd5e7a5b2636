/**
 * Dynamic values as the application sees them: the JSON values that the
 * model's output decodes to, and the untyped recipe documents held in the
 * session and stored in the database.
 */
module Values {

  datatype Option<+T> = None | Some(value: T) {
    function GetOr(default: T): T {
      match this
      case Some(v) => v
      case None => default
    }
  }

  datatype Result<+T, +E> = Ok(value: T) | Err(error: E)

  newtype byte = x: int | 0 <= x < 256

  /**
   * A decoded JSON value, plus the timestamp that `datetime.now()` puts into
   * a document. Numbers are integers here; floating point is not modelled.
   */
  datatype Value =
    | Null
    | Bool(b: bool)
    | Num(n: int)
    | Str(s: string)
    | Arr(items: seq<Value>)
    | Obj(fields: map<string, Value>)
    | Time(t: int)

  /** A recipe document: a dictionary from field names to values. */
  type Record = map<string, Value>

  /** Python truthiness of a value (`if value:`). */
  predicate Truthy(v: Value) {
    match v
    case Null => false
    case Bool(b) => b
    case Num(n) => n != 0
    case Str(s) => s != ""
    case Arr(xs) => xs != []
    case Obj(m) => m != map[]
    case Time(_) => true
  }

  /** `record.get(field)`: the value, or None when the key is absent. */
  function Get(r: Record, field: string): Value {
    if field in r then r[field] else Null
  }

  /** `if record.get(field):` */
  predicate Present(r: Record, field: string) {
    Truthy(Get(r, field))
  }
}
