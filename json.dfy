/**
 * Parsed JSON values as json.load returns them, and the Python operations the
 * cap-policy merge applies to them, each with the exception it can raise.
 */
module Json {
  import opened Wrappers

  datatype Json =
    | JNull
    | JBool(b: bool)
    | JNum(n: real)
    | JStr(s: string)
    | JArr(items: seq<Json>)
    | JObj(fields: map<string, Json>)

  /** k occurs in s as a contiguous run. */
  predicate IsSubstring(k: string, s: string)
    decreases |s|
  {
    |k| <= |s| && (s[..|k|] == k || (s != [] && IsSubstring(k, s[1..])))
  }

  /** Python `k in v`: key test on a dict, element test on a list, substring test on a str. */
  function PyIn(k: string, v: Json): (r: Result<bool>)
    ensures r.Err? <==> !(v.JObj? || v.JArr? || v.JStr?)
    ensures v.JObj? ==> r == Ok(k in v.fields)
  {
    match v
    case JObj(m) => Ok(k in m)
    case JArr(a) => Ok(JStr(k) in a)
    case JStr(s) => Ok(IsSubstring(k, s))
    case _ => Err  // TypeError: the value is not iterable
  }

  /** Python `v[k]` for a string k: KeyError on a dict without k, TypeError on anything else. */
  function PyIndex(v: Json, k: string): (r: Result<Json>)
    ensures r.Ok? <==> v.JObj? && k in v.fields
    ensures r.Ok? ==> r.value == v.fields[k]
  {
    match v
    case JObj(m) => if k in m then Ok(m[k]) else Err
    case _ => Err
  }

  /** Python `v.get(k, default)`: AttributeError on anything but a dict. */
  function PyGet(v: Json, k: string, default: Json): (r: Result<Json>)
    ensures r.Ok? <==> v.JObj?
    ensures v.JObj? ==> r.value == if k in v.fields then v.fields[k] else default
  {
    match v
    case JObj(m) => Ok(if k in m then m[k] else default)
    case _ => Err
  }
}
