/** JSON values as the backend handles them once Python's loaders have run. */
module JsonValue {

  datatype Option<+T> = None | Some(value: T)

  /** A decoded JSON document. Numbers are integers only; an object keeps its
      members as (key, value) pairs in insertion order. */
  datatype Json =
    | JNull
    | JBool(b: bool)
    | JNum(n: int)
    | JStr(s: string)
    | JArr(items: seq<Json>)
    | JObj(fields: seq<(string, Json)>)

  /** A loader such as `json.loads` or `json5.loads`: `Some(v)` when it
      returns `v`, `None` when it raises. */
  type Parser = string -> Option<Json>

  /** The position of the binding of `k` that a decoded dict keeps (the
      last one), or -1 when `k` is not bound. */
  function KeyIndex(fields: seq<(string, Json)>, k: string): (i: int)
    ensures -1 <= i < |fields|
    ensures 0 <= i ==> fields[i].0 == k
    ensures forall j :: i < j < |fields| ==> fields[j].0 != k
  {
    if fields == [] then -1
    else if fields[|fields| - 1].0 == k then |fields| - 1
    else KeyIndex(fields[..|fields| - 1], k)
  }

  /** `k in d` for a dict `d`. */
  predicate HasKey(fields: seq<(string, Json)>, k: string)
  {
    KeyIndex(fields, k) >= 0
  }

  /** `d[k]`. */
  function Get(fields: seq<(string, Json)>, k: string): (v: Json)
    requires HasKey(fields, k)
  {
    fields[KeyIndex(fields, k)].1
  }

  /** The fallback value `{"raw_output": s}`. */
  function RawOutput(s: string): Json
  {
    JObj([("raw_output", JStr(s))])
  }

  /** An error dict `{"error": message}`. */
  function ErrorObject(message: string): Json
  {
    JObj([("error", JStr(message))])
  }
}
