/**
 * The payload values that a tool call produces once its text has been
 * parsed: the closed set of shapes a JSON document can take.
 */
module Json {
  /** A JSON number, kept as the bit pattern of its IEEE-754 double; the model never looks inside. */
  datatype Number = Number(bits: bv64)

  /**
   * An object is the list of its entries in enumeration order, which is
   * the order in which the transforms visit and re-insert them.
   */
  datatype Value =
    | Str(s: string)
    | Num(n: Number)
    | Bool(b: bool)
    | Null
    | Arr(items: seq<Value>)
    | Obj(members: seq<(string, Value)>)

  /** The deep transforms stop descending once the depth exceeds this bound. */
  const MaxDepth: nat := 6
}
