/** The JSON values that `JSON.parse` produces, and the few JavaScript
    operations the source applies to them: property access (which throws
    on `null`), truthiness, `String(...)` coercion, `for ... of`
    iteration and `Object.entries`. */
module Json {
  import opened Wrappers
  import opened Text

  /** A parsed JSON value. Numbers are integers in this model; object keys are unique,
      as they are after `JSON.parse`. */
  datatype Json =
    | JNull
    | JBool(b: bool)
    | JNum(n: int)
    | JStr(s: string)
    | JArr(items: seq<Json>)
    | JObj(members: map<string, Json>)

  /** The outcome of reading `v.key`: a `TypeError`, `undefined`, or a value. */
  datatype Access = Throws | Undefined | Value(v: Json)

  /** `v.key` in JavaScript: reading a property of `null` throws; only objects have own
      properties named like the keys the source reads. */
  function Member(v: Json, key: string): (a: Access)
    ensures a.Throws? <==> v.JNull?
    ensures a.Value? <==> v.JObj? && key in v.members
    ensures a.Value? ==> a.v == v.members[key]
  {
    match v
    case JNull => Throws
    case JObj(m) => if key in m then Value(m[key]) else Undefined
    case _ => Undefined
  }

  /** `typeof v === "object" && v !== null && v.hasOwnProperty("schema") && v.hasOwnProperty("data")`:
      the shape of a self-describing JSON payload. */
  predicate IsSelfDescribing(v: Json) {
    v.JObj? && "schema" in v.members && "data" in v.members
  }

  /** JavaScript truthiness. */
  predicate Truthy(v: Json) {
    match v
    case JNull => false
    case JBool(b) => b
    case JNum(n) => n != 0
    case JStr(s) => s != ""
    case _ => true
  }

  function IntToString(n: int): string {
    if n < 0 then "-" + NatToString(-n) else NatToString(n)
  }

  /** `String(v)`: strings are themselves, arrays join their elements with commas
      (`null` elements as the empty string), objects are `[object Object]`. */
  function JsString(v: Json): string
    decreases v, 1
  {
    match v
    case JNull => "null"
    case JBool(b) => if b then "true" else "false"
    case JNum(n) => IntToString(n)
    case JStr(s) => s
    case JArr(items) => JoinItems(v, items)
    case JObj(_) => "[object Object]"
  }

  /** `Array.prototype.join(",")` over the elements of the array `whole`. */
  function JoinItems(ghost whole: Json, items: seq<Json>): string
    requires forall i :: 0 <= i < |items| ==> items[i] < whole
    decreases whole, 0, |items|
  {
    if items == [] then ""
    else
      var first := if items[0].JNull? then "" else JsString(items[0]);
      if |items| == 1 then first else first + "," + JoinItems(whole, items[1..])
  }

  /** `String(x)` where `x` may be `undefined`. */
  function AccessString(a: Access): string
    requires !a.Throws?
  {
    match a
    case Undefined => "undefined"
    case Value(v) => JsString(v)
  }

  /** The elements `for (const x of v.data)` visits, or `None` when it throws:
      arrays yield their elements, strings their characters, anything else is not iterable. */
  function DataItems(v: Json): (r: Option<seq<Json>>)
    ensures v.JObj? && "data" in v.members && v.members["data"].JArr? ==> r == Some(v.members["data"].items)
    ensures !v.JObj? ==> r.None?
    ensures v.JObj? && ("data" !in v.members || !(v.members["data"].JArr? || v.members["data"].JStr?)) ==> r.None?
  {
    match Member(v, "data")
    case Value(JArr(items)) => Some(items)
    case Value(JStr(s)) => Some(seq(|s|, i requires 0 <= i < |s| => JStr([s[i]])))
    case _ => None
  }

  /** `new Map(Object.entries(v))` with every value coerced by `String(...)`, or `None` when
      `Object.entries` throws (on `null`). Arrays and strings have their indices as keys;
      numbers and booleans have no own properties. */
  function Entries(v: Json): (r: Option<map<string, string>>)
    ensures r.None? <==> v.JNull?
    ensures v.JObj? ==> r.value.Keys == v.members.Keys
    ensures v.JObj? ==> forall k :: k in v.members ==> r.value[k] == JsString(v.members[k])
  {
    match v
    case JNull => None
    case JObj(m) => Some(map k | k in m :: JsString(m[k]))
    case JArr(items) => NatToStringDistinct(); Some(map i | 0 <= i < |items| :: NatToString(i) := JsString(items[i]))
    case JStr(s) => NatToStringDistinct(); Some(map i | 0 <= i < |s| :: NatToString(i) := [s[i]])
    case _ => Some(map[])
  }
}
