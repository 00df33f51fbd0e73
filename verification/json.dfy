/** The JSON values the crawler reads and writes, as Python's `json` module
    produces them. Numbers are integers only; floating point is not modelled. */
module JsonValue {
  import opened Wrappers
  import Text

  datatype Json =
    | JNull
    | JBool(b: bool)
    | JNum(n: int)
    | JStr(s: string)
    | JArr(items: seq<Json>)
    | JObj(fields: map<string, Json>)

  /** Python truthiness of the decoded value (`bool(v)`). */
  predicate Truthy(j: Json) {
    match j
    case JNull => false
    case JBool(b) => b
    case JNum(n) => n != 0
    case JStr(s) => |s| > 0
    case JArr(a) => |a| > 0
    case JObj(m) => |m| > 0
  }

  /** What `k in v` followed by `v[k]` does in Python for a decoded value:
      a dictionary answers by key; a string by substring and a list by
      membership, after which indexing with a string raises; any other value
      makes `in` itself raise. */
  datatype Lookup = Absent | Found(value: Json) | InButUnindexable | NotContainer

  function LookupKey(j: Json, k: string): (r: Lookup)
    ensures r.Found? <==> j.JObj? && k in j.fields
    ensures r.Found? ==> r.value == j.fields[k]
    ensures r.NotContainer? <==> !(j.JObj? || j.JStr? || j.JArr?)
  {
    match j
    case JObj(m) => if k in m then Found(m[k]) else Absent
    case JStr(s) => if Text.Contains(s, k) then InButUnindexable else Absent
    case JArr(a) => if JStr(k) in a then InButUnindexable else Absent
    case _ => NotContainer
  }

  /** The strings of a list whose elements are all strings (what
      `', '.join(items)` and the `@type` counters accept). */
  function AllStrings(items: seq<Json>): (r: Option<seq<string>>)
    ensures r.Some? ==> |r.value| == |items|
    ensures r.Some? <==> forall k :: 0 <= k < |items| ==> items[k].JStr?
    ensures r.Some? ==> forall k :: 0 <= k < |items| ==> items[k] == JStr(r.value[k])
  {
    if |items| == 0 then Some([])
    else if !items[0].JStr? then None
    else
      match AllStrings(items[1..])
      case None => None
      case Some(rest) => Some([items[0].s] + rest)
  }
}
