/**
 * JSON values as the stores hold them, JavaScript truthiness and member access
 * on them, and JSON text abstracted to what the stores can observe of it.
 */
module Json {
  import opened Wrappers

  /** A JSON value. Numbers are integers here. */
  datatype JVal =
    | JNull
    | JBool(b: bool)
    | JNum(n: int)
    | JStr(s: string)
    | JArr(items: seq<JVal>)
    | JObj(fields: map<string, JVal>)

  const EmptyObject: JVal := JObj(map[])

  /** JavaScript truthiness: `null`, `false`, `0` and `""` are falsy; arrays and objects are truthy. */
  predicate Truthy(v: JVal)
    ensures Truthy(v) <==> v != JNull && v != JBool(false) && v != JNum(0) && v != JStr("")
  {
    match v
    case JNull => false
    case JBool(b) => b
    case JNum(n) => n != 0
    case JStr(s) => s != ""
    case _ => true
  }

  /** What `v.key` evaluates to: a value, `undefined`, or a TypeError when `v` is `null`. */
  datatype Member = Undefined | Defined(value: JVal) | NullDereference {
    /** `undefined` is falsy, and so is a falsy value. */
    predicate IsTruthy()
    {
      Defined? && Truthy(value)
    }
  }

  /**
   * Member access `v.key` on a parsed JSON value. Only own members are seen:
   * the store reads the names `isStoreFile`, `type` and `data`, which no
   * prototype of a JSON value defines.
   */
  function Get(v: JVal, key: string): (r: Member)
    ensures r.NullDereference? <==> v == JNull
    ensures r.Defined? <==> v.JObj? && key in v.fields
    ensures r.Defined? ==> r.value == v.fields[key]
  {
    match v
    case JNull => NullDereference
    case JObj(m) => if key in m then Defined(m[key]) else Undefined
    case _ => Undefined
  }

  /**
   * The text of a file as far as the stores can tell: empty (falsy), the
   * serialization of a JSON value, or non-empty text that does not parse.
   */
  datatype Text = Blank | Json(value: JVal) | Malformed

  /** `JSON.stringify`: never empty, and parsed back to the same value. */
  function Stringify(v: JVal): (t: Text)
    ensures t != Blank
    ensures Parse(t) == Some(v)
  {
    Json(v)
  }

  /** `JSON.parse`: `None` stands for the SyntaxError it throws (also on empty text). */
  function Parse(t: Text): (r: Option<JVal>)
    ensures r.Some? <==> t.Json?
  {
    match t
    case Json(v) => Some(v)
    case _ => None
  }
}
