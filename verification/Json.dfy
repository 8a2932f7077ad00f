/** Parsed JSON trees, the shape `json.loads` hands over (section 3 of RFC 8259). */
module Json {
  import opened Outcomes
  import opened Text

  datatype Json =
    | Null
    | Bool(b: bool)
    | Int(n: int)
    | Real(r: real)
    | Str(s: string)
    | Arr(items: seq<Json>)
    | Obj(fields: map<string, Json>)

  function Truncate(r: real): int { if r < 0.0 then -(-r).Floor else r.Floor }

  /** `int(value)`; `None` stands for the ValueError or TypeError the caller swallows. */
  function IntOf(j: Json): Option<int> {
    match j
    case Bool(b) => Some(if b then 1 else 0)
    case Int(n) => Some(n)
    case Real(r) => Some(Truncate(r))
    case Str(s) => ParseInt(s)
    case _ => None
  }
}
