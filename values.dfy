/** The values a route match carries: strings captured by the path and
    header patterns, integers produced by the `int` converter, and resource
    identifiers added by the binding layer. */
module Values {
  import opened Strings

  datatype Value =
    | Text(text: string)
    | Int(number: int)
    | Ref(iri: string)

  /** `str(value)`, which `str.format` applies to a plain `{name}` field. */
  function Str(v: Value): string
  {
    match v
    case Text(s) => s
    case Int(n) => IntToString(n)
    case Ref(iri) => iri
  }
}
