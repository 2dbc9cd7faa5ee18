/**
 * Values as Python holds them after `json.loads`: the six JSON kinds, with Python's `None`
 * and JSON `null` being the same value `Null`.
 */
module Json {

  import opened Wrappers

  datatype Json =
    | Null
    | Bool(b: bool)
    | Num(n: real)
    | Str(s: string)
    | Arr(items: seq<Json>)
    | Obj(fields: map<string, Json>)

  /** A parsed JSON object, i.e. a Python `dict` with string keys. */
  type Object = map<string, Json>

  /** Python truthiness (`if v:`) of a JSON value. */
  predicate Truthy(v: Json)
  {
    match v
    case Null => false
    case Bool(b) => b
    case Num(n) => n != 0.0
    case Str(s) => s != ""
    case Arr(items) => items != []
    case Obj(fields) => fields != map[]
  }

  /** `d.get(key, default)` on a dict. */
  function Get(d: Object, key: string, default: Json): Json
  {
    if key in d then d[key] else default
  }

  /** Whether Python can use the value as a dict key (lists and dicts are unhashable). */
  predicate Hashable(v: Json)
  {
    !v.Arr? && !v.Obj?
  }

  /** The value as a number when Python compares and formats it as one (`bool` is an `int`). */
  function AsNumber(v: Json): Option<real>
  {
    match v
    case Num(n) => Some(n)
    case Bool(b) => Some(if b then 1.0 else 0.0)
    case _ => None
  }

  /**
   * What a `for` loop over `v` yields, for the loops here that use every item as a dict:
   * `None`, numbers and booleans cannot be iterated, a list yields its items, an empty
   * string or dict yields nothing, and a non-empty string or dict yields a string first
   * (a character or a key), on which such a loop body fails.
   */
  datatype Iteration = NotIterable | Rows(items: seq<Json>) | StringFirst

  function Iterate(v: Json): Iteration
  {
    match v
    case Arr(items) => Rows(items)
    case Str(s) => if s == "" then Rows([]) else StringFirst
    case Obj(fields) => if fields == map[] then Rows([]) else StringFirst
    case _ => NotIterable
  }

  /** The dicts of a loop over `v` that touches every item as a dict, or `None` when it fails. */
  function EntriesOf(v: Json): (r: Option<seq<Object>>)
    ensures r.Some? <==> Iterate(v).Rows? && forall i :: 0 <= i < |Iterate(v).items| ==> Iterate(v).items[i].Obj?
    ensures r.Some? ==> |r.value| == |Iterate(v).items|
    ensures r.Some? ==> forall i :: 0 <= i < |r.value| ==> Iterate(v).items[i] == Obj(r.value[i])
  {
    match Iterate(v)
    case Rows(items) =>
      if forall i :: 0 <= i < |items| ==> items[i].Obj? then
        Some(seq(|items|, i requires 0 <= i < |items| => items[i].fields))
      else None
    case _ => None
  }
}
