/**
 * A value produced by PHP's json_decode($text, true) and the three PHP
 * operations the core applies to it: isset($v[$key]), $v[$key], and the
 * truthiness and string conversion PHP gives a value.
 */
module Json {
  import opened Text

  /**
   * A decoded JSON value. With the associative flag, JSON arrays and JSON
   * objects both become PHP arrays; they are kept apart here because only an
   * object can have string keys such as "success".
   */
  datatype Value =
    | Null
    | Bool(b: bool)
    | Int(i: int)
    | Str(s: string)
    | List(items: seq<Value>)
    | Object(fields: map<string, Value>)

  /** isset($v[$key]): true exactly when the lookup $v[$key] yields a non-null value. */
  predicate IsSet(v: Value, key: string)
    ensures IsSet(v, key) <==> !Field(v, key).Null?
  {
    v.Object? && key in v.fields && !v.fields[key].Null?
  }

  /**
   * $v[$key]: the value stored under the key of an object, and null for a
   * missing key or for a value that has no string keys.
   */
  function Field(v: Value, key: string): (r: Value)
    ensures v.Object? && key in v.fields ==> r == v.fields[key]
    ensures !(v.Object? && key in v.fields) ==> r == Null
  {
    if v.Object? && key in v.fields then v.fields[key] else Null
  }

  /**
   * PHP truthiness: false, 0, "", "0", an empty array and null are falsy.
   * For a value that is not an array this is the same as asking whether its
   * string form is neither "" nor "0"; an array is truthy when it is not empty.
   */
  predicate Truthy(v: Value)
    ensures !v.List? && !v.Object? ==>
              (Truthy(v) <==> ToPhpString(v) != "" && ToPhpString(v) != "0")
    ensures v.List? || v.Object? ==> (Truthy(v) <==> v != List([]) && v != Object(map[]))
  {
    match v
    case Null => false
    case Bool(b) => b
    case Int(i) => i != 0
    case Str(s) => s != "" && s != "0"
    case List(items) => items != []
    case Object(fields) => fields != map[]
  }

  /**
   * (string) $v, as used in string interpolation: null and false give "",
   * true gives "1", an integer its decimal spelling (which reads back as the
   * integer), a string itself and an array "Array".
   */
  function ToPhpString(v: Value): (s: string)
    ensures v.Null? || v == Bool(false) ==> s == ""
    ensures v == Bool(true) ==> s == "1"
    ensures v.Int? ==> IsIntegerLiteral(s) && LiteralValue(s) == v.i
    ensures v.Str? ==> s == v.s
    ensures v.List? || v.Object? ==> s == "Array"
  {
    match v
    case Null => ""
    case Bool(b) => if b then "1" else ""
    case Int(i) => IntDecimalRoundTrip(i); IntToDecimal(i)
    case Str(s) => s
    case List(_) => "Array"
    case Object(_) => "Array"
  }
}
