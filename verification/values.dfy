/** Values shared by the backend (Ruby) and the frontend (JavaScript) models:
    optional and failure-carrying results, a JSON-like value type, and the two
    languages' notions of truthiness and blankness. */
module Values {

  datatype Option<+T> = None | Some(value: T)

  datatype Result<+T, +E> = Ok(value: T) | Err(error: E)

  /** A JSON-like value: a DynamoDB attribute, a request parameter or a decoded
      token claim. Ruby's nil and JavaScript's null are both `Null`; numbers are
      integers. */
  datatype Json =
    | Null
    | Bool(b: bool)
    | Num(n: int)
    | Str(s: string)
    | Arr(items: seq<Json>)
    | Obj(fields: map<string, Json>)

  /** Ruby's `hash[key]`: a missing key reads as nil. */
  function Get(m: map<string, Json>, key: string): (v: Json)
    ensures key !in m ==> v == Null
    ensures key in m ==> v == m[key]
  {
    if key in m then m[key] else Null
  }

  /** Ruby truthiness: only nil and false are falsy. */
  predicate RubyTruthy(v: Json) {
    !v.Null? && v != Bool(false)
  }

  /** JavaScript truthiness: null, false, 0 and "" are falsy. */
  predicate JsTruthy(v: Json) {
    match v
    case Null => false
    case Bool(b) => b
    case Num(n) => n != 0
    case Str(s) => s != ""
    case Arr(_) => true
    case Obj(_) => true
  }

  /** A JavaScript string value is truthy exactly when it is non-empty. */
  predicate JsTruthyString(o: Option<string>) {
    o.Some? && o.value != ""
  }

  /** A character of POSIX class [[:space:]] in a UTF-8 Ruby string. */
  predicate IsSpace(c: char) {
    || ('\t' <= c <= '\r')
    || c == ' '
    || c == '\U{0085}' || c == '\U{00A0}' || c == '\U{1680}'
    || ('\U{2000}' <= c <= '\U{200A}')
    || c == '\U{2028}' || c == '\U{2029}' || c == '\U{202F}' || c == '\U{205F}' || c == '\U{3000}'
  }

  /** ActiveSupport's `String#blank?`: empty or whitespace only. */
  predicate BlankString(s: string) {
    forall i | 0 <= i < |s| :: IsSpace(s[i])
  }

  /** ActiveSupport's `Object#blank?` on a parameter value: nil, false, a
      blank string, an empty array or an empty hash. */
  predicate Blank(v: Json) {
    match v
    case Null => true
    case Bool(b) => !b
    case Num(_) => false
    case Str(s) => BlankString(s)
    case Arr(items) => |items| == 0
    case Obj(fields) => |fields| == 0
  }
}
