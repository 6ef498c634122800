/**
 * The JavaScript values that flow through the Prisma middleware: request
 * arguments (`where`, `data`) and query results.
 *
 * Numbers are modelled as mathematical integers and a `Date` object as the
 * integer its `getTime()` returns (milliseconds since the epoch).  Objects are
 * finite maps from property names to values, so the cyclic object graphs that
 * JavaScript allows cannot be built here.
 */
module JsValues {

  datatype Value =
    | Undefined
    | Null
    | Bool(b: bool)
    | Num(n: int)
    | Str(s: string)
    | Date(ms: int)
    | Obj(fields: map<string, Value>)
    | Arr(items: seq<Value>)
  {
    /** `typeof v === 'object'`: true for null, dates, plain objects and arrays. */
    predicate IsObjectTyped() {
      Null? || Date? || Obj? || Arr?
    }

    /** JavaScript truthiness (`if (v)`). */
    predicate Truthy() {
      match this
      case Undefined => false
      case Null => false
      case Bool(b) => b
      case Num(n) => n != 0
      case Str(s) => s != ""
      case _ => true
    }
  }

  /** The value a property read `m[k]` yields: `undefined` for a missing key. */
  function Get(m: map<string, Value>, k: string): Value {
    if k in m then m[k] else Undefined
  }
}
