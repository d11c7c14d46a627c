/** The loosely typed PHP values the runner reads from its manifest and JSON
    payloads, with PHP's notion of emptiness. */
module PhpValues {
  import opened Basics
  import opened OrderedMaps

  /** A decoded JSON value as PHP holds it (floats are not modelled). */
  datatype Value =
    | Null
    | Bool(b: bool)
    | Int(i: int)
    | Str(s: string)
    | Arr(items: OMap<Value>)

  /** PHP's `empty()`: null, false, 0, "", "0" and the empty array. */
  predicate Empty(v: Value)
  {
    match v
    case Null => true
    case Bool(b) => !b
    case Int(i) => i == 0
    case Str(s) => s == "" || s == "0"
    case Arr(items) => |items| == 0
  }

  /** A value PHP treats as true in a condition. */
  predicate Truthy(v: Value)
  {
    !Empty(v)
  }

  /** Reading `$m['k']`: a missing key reads as null. */
  function Field(m: OMap<Value>, k: string): (v: Value)
    ensures k !in Keys(m) ==> v == Null
    ensures k in Keys(m) ==> Get(m, k) == Some(v)
  {
    Get(m, k).GetOr(Null)
  }
}
