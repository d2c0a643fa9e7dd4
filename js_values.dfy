/** The JavaScript values the runtime's native functions look at, with objects by identity. */
module JsValues {
  import opened Strings

  /** A JavaScript object (functions and arrays included), by identity. */
  type ObjectRef = nat

  /** Numbers are modelled on the integers only. */
  datatype Value = Undefined | Null | Boolean(b: bool) | Number(n: int) | Str(s: string) | Obj(ref: ObjectRef)

  /** `JSValueToStringCopy`, with an object converting as a plain object does. */
  function ToJsString(v: Value): (r: string)
    ensures v.Str? ==> r == v.s
  {
    match v
    case Undefined => "undefined"
    case Null => "null"
    case Boolean(b) => if b then "true" else "false"
    case Number(n) => if n < 0 then "-" + NatToString(-n) else NatToString(n)
    case Str(s) => s
    case Obj(_) => "[object Object]"
  }

  /** A string copied out through a C buffer and cut at `strlen`: everything before the first NUL. */
  function CString(s: string): (r: string)
    ensures StartsWith(s, r) && '\0' !in r
    ensures r == s <==> '\0' !in s
    ensures r != s ==> s[|r|] == '\0'
  {
    match FindChar(s, '\0', 0)
    case None => s
    case Some(i) => s[..i]
  }
}
