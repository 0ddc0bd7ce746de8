/** JSON values as the site's Python code (`json.loads`) and JavaScript code (`JSON.parse`,
    `response.json()`) see them, with each language's truthiness and string conversion. */
module Json {
  import opened Wrappers
  import Text
  import OrderedMap

  /** A decoded JSON value. Numbers are integers; an object keeps its members in document
      order, duplicates included (see `Get`). */
  datatype Json =
    | JNull
    | JBool(b: bool)
    | JNum(n: int)
    | JStr(s: string)
    | JArr(items: seq<Json>)
    | JObj(fields: seq<(string, Json)>)

  /** Python's `bool(v)`: None, False, 0, "", [] and {} are false. */
  predicate PyTruthy(v: Json)
  {
    match v
    case JNull => false
    case JBool(b) => b
    case JNum(n) => n != 0
    case JStr(s) => s != ""
    case JArr(a) => a != []
    case JObj(m) => m != []
  }

  /** JavaScript's `Boolean(v)`: null, false, 0 and "" are false; every array and object,
      even an empty one, is true. */
  predicate JsTruthy(v: Json)
  {
    match v
    case JNull => false
    case JBool(b) => b
    case JNum(n) => n != 0
    case JStr(s) => s != ""
    case JArr(_) => true
    case JObj(_) => true
  }

  /** Python's `d.get(key)` / JavaScript's `o[key]`: `None` stands for a missing key
      (`None` in Python, `undefined` in JavaScript). Both decoders let the last of several
      members with the same name win. */
  function Get(fields: seq<(string, Json)>, key: string): (r: Option<Json>)
    ensures r.Some? <==> key in OrderedMap.Keys(fields)
    ensures r.Some? ==>
      exists i :: 0 <= i < |fields| && fields[i] == (key, r.value) && forall j :: i < j < |fields| ==> fields[j].0 != key
  {
    if |fields| == 0 then None
    else if fields[|fields| - 1].0 == key then Some(fields[|fields| - 1].1)
    else
      var r := Get(fields[..|fields| - 1], key);
      assert OrderedMap.Keys(fields) == OrderedMap.Keys(fields[..|fields| - 1]) + [fields[|fields| - 1].0];
      r
  }

  /** Python's `a or b` on two possibly missing values. */
  function PyOr(a: Option<Json>, b: Option<Json>): (r: Option<Json>)
    ensures PyTruthyOpt(a) ==> r == a
    ensures !PyTruthyOpt(a) ==> r == b
  {
    if PyTruthyOpt(a) then a else b
  }

  /** Python truthiness of a possibly missing value. */
  predicate PyTruthyOpt(v: Option<Json>)
  {
    v.Some? && PyTruthy(v.value)
  }

  /** JavaScript truthiness of a possibly `undefined` value. */
  predicate JsTruthyOpt(v: Option<Json>)
  {
    v.Some? && JsTruthy(v.value)
  }

  /** Python's `(v or "")` used as a string: the empty string for a falsy value, the text of
      a string, and `None` when a truthy non-string would make the following `.strip()`
      raise. */
  function PyTextOrEmpty(v: Option<Json>): (r: Option<string>)
    ensures !PyTruthyOpt(v) ==> r == Some("")
    ensures PyTruthyOpt(v) ==> (r.Some? <==> v.value.JStr?)
    ensures r.Some? && r.value != "" ==> v == Some(JStr(r.value))
  {
    if !PyTruthyOpt(v) then Some("")
    else if v.value.JStr? then Some(v.value.s)
    else None
  }

  function DigitChar(d: nat): char
    requires d < 10
  {
    "0123456789"[d]
  }

  function NatToString(n: nat): (r: string)
    ensures |r| > 0
    decreases n
  {
    if n < 10 then [DigitChar(n)] else NatToString(n / 10) + [DigitChar(n % 10)]
  }

  /** JavaScript's `String(v)` for a decoded JSON value. */
  function JsString(v: Json): string
    decreases v
  {
    match v
    case JNull => "null"
    case JBool(b) => if b then "true" else "false"
    case JNum(n) => if n < 0 then "-" + NatToString(-n) else NatToString(n)
    case JStr(s) => s
    case JArr(a) => Text.Join(",", seq(|a|, i requires 0 <= i < |a| => if a[i] == JNull then "" else JsString(a[i])))
    case JObj(_) => "[object Object]"
  }

  /** JavaScript's `String(v || '')`: the empty string for a falsy or missing value. */
  function JsStringOrEmpty(v: Option<Json>): (r: string)
    ensures !JsTruthyOpt(v) ==> r == ""
    ensures v.Some? && v.value.JStr? ==> r == v.value.s
  {
    if JsTruthyOpt(v) then JsString(v.value) else ""
  }

  /** Reading `v.key` on a decoded value that is not `null`: an object's member, and
      `undefined` on anything else (none of the names read here exist on arrays, strings,
      numbers or booleans). */
  function Prop(v: Json, key: string): (r: Option<Json>)
    ensures v.JObj? ==> r == Get(v.fields, key)
    ensures !v.JObj? ==> r.None?
  {
    if v.JObj? then Get(v.fields, key) else None
  }
}
