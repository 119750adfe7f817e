/** The values a record's field map holds (`Dictionary<string, object>`), and
    their `ToString()`. */
module Values {
  import opened Text
  import Numbers

  /** A field value: `null`, a string, an `int` or a `bool`. */
  datatype Value = Null | StrVal(s: Str) | IntVal(n: int) | BoolVal(b: bool)

  /** A record's field map. */
  type Data = map<Str, Value>

  /** `value.ToString()` for a non-null value; booleans print as `True`/`False`. */
  function Render(v: Value): (r: Str)
    requires v != Null
    ensures v.StrVal? ==> r == v.s
  {
    match v
    case StrVal(s) => s
    case IntVal(n) => Numbers.IntToDecimal(n)
    case BoolVal(b) => if b then Lit("True") else Lit("False")
  }

  /** The string values of a map `GetEntryFields` produced. */
  function FromStrings(m: map<Str, Str>): (r: Data)
    ensures r.Keys == m.Keys
    ensures forall k | k in m :: r[k] == StrVal(m[k])
  {
    map k | k in m :: StrVal(m[k])
  }
}
