/** The JSON-like values the services pass around (decoded metadata, result
    records), with the parts of Python's object protocol they rely on:
    `dict.get`, truthiness and `str()`. */
module PyValues {
  import opened Wrappers
  import opened Numbers
  import opened PyText
  import opened PyFloat
  import opened Dicts

  /** A dict is an association list in insertion order; a well-formed one has
      distinct keys. */
  datatype Value =
    | Null
    | Bool(b: bool)
    | Int(i: int)
    | Float(x: Num)
    | Str(s: string)
    | List(items: seq<Value>)
    | Dict(entries: seq<(string, Value)>)

  /** A search result record `{"id": ..., "score": ..., "metadata": ...}`. */
  datatype Hit = Hit(id: string, score: real, metadata: Value)

  /** `bool(v)`: None, False, zero, and empty strings, lists and dicts are
      false; everything else, NaN included, is true. */
  predicate Truthy(v: Value) {
    match v
    case Null => false
    case Bool(b) => b
    case Int(i) => i != 0
    case Float(x) => x != Finite(0.0)
    case Str(s) => s != []
    case List(xs) => xs != []
    case Dict(es) => es != []
  }

  /** Python's `x or default`. */
  function Or(v: Value, default: Value): (r: Value)
    ensures Truthy(v) ==> r == v
    ensures !Truthy(v) ==> r == default
  {
    if Truthy(v) then v else default
  }

  /** `x or d` is falsy only when both are, and a second `or d` changes
      nothing. */
  lemma OrFacts(v: Value, default: Value)
    ensures Truthy(Or(v, default)) <==> Truthy(v) || Truthy(default)
    ensures Or(Or(v, default), default) == Or(v, default)
  {
  }

  function Join(parts: seq<string>): string {
    if parts == [] then []
    else if |parts| == 1 then parts[0]
    else parts[0] + ", " + Join(parts[1..])
  }

  /** `str(x)` of a value that is not a string or a container. */
  function ScalarText(v: Value): string
    requires !v.Str? && !v.List? && !v.Dict?
  {
    match v
    case Null => "None"
    case Bool(b) => if b then "True" else "False"
    case Int(i) => IntText(i)
    case Float(x) => FloatText(x)
  }

  /** `repr(v)` (string quotes are not escaped). */
  function Repr(v: Value): string
  {
    match v
    case Str(t) => "'" + t + "'"
    case List(xs) => "[" + Join(seq(|xs|, i requires 0 <= i < |xs| => Repr(xs[i]))) + "]"
    case Dict(es) =>
      "{" + Join(seq(|es|, i requires 0 <= i < |es| => "'" + es[i].0 + "': " + Repr(es[i].1))) + "}"
    case _ => ScalarText(v)
  }

  /** `str(v)`, which is what an f-string interpolates: a string is itself,
      anything else its repr. */
  function PyStr(v: Value): string {
    if v.Str? then v.s else Repr(v)
  }
}
