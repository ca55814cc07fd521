/** The values a TOML document parses to (the `toml` package returns them
    as Python dicts, lists, strings, numbers, booleans and datetimes).
    Datetimes are kept abstract as totally ordered integers. */
module Toml {

  datatype Value =
    | Str(s: string)
    | Int(i: int)
    | Bool(b: bool)
    | DateTime(instant: int)
    | Array(items: seq<Value>)
    | Inline(table: map<string, Value>)

  /** A parsed document or inline table: a Python dict from key to value. */
  type Table = map<string, Value>
}
