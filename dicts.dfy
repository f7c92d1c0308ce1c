/** The values a `to_dict` mapping holds. Dates and timestamps are integers in this model. */
module Dicts {
  import opened Wrappers

  datatype Value = Null | Int(i: int) | Str(s: string) | Bool(b: bool) | Real(r: real)

  /** An integer column that may be None. */
  function OfOptInt(o: Option<int>): Value {
    match o
    case None => Null
    case Some(n) => Int(n)
  }

  /** A text column that may be None. */
  function OfOptStr(o: Option<string>): Value {
    match o
    case None => Null
    case Some(s) => Str(s)
  }
}
