/**
 * The values that travel between the key-value table, the request handlers
 * and the JSON responses: the dicts, lists and scalars a table item is made of.
 */
module Values {

  /** An exact decimal number as the table returns it; its digits are not modelled. */
  type Decimal(==)

  /** A binary floating-point number; its bits are not modelled. */
  type Float(==)

  /**
   * A value as the service sees it: the table hands back numbers as
   * decimals, the request parser produces floats, and attribute maps and
   * lists nest to any depth. Dict keys are attribute names (strings).
   */
  datatype Value =
    | Dec(d: Decimal)
    | Flt(f: Float)
    | Str(s: string)
    | Int(i: int)
    | Bool(b: bool)
    | Null
    | Dict(entries: map<string, Value>)
    | List(items: seq<Value>)

  /** A table item: its attributes by name. */
  type Record = map<string, Value>
}
