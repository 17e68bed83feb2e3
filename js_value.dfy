/** JavaScript values as they arrive from a parsed JSON response or a form:
    their truthiness (`!!v`), their string conversion (`String(v)`, template
    literals) and the mutable plain object that `maskFields` rewrites. Numbers
    are integers here; fractions, NaN and the infinities are not modelled. */
module JsValue {
  import opened JsText

  datatype Value =
    | Undefined
    | Null
    | Bool(b: bool)
    | Num(n: int)
    | Str(s: string)
    | Arr(items: seq<Value>)
    | Obj(props: map<string, Value>)

  /** `!!v`: undefined, null, false, 0 and "" are falsy; everything else,
      including every array and object, is truthy. */
  predicate Truthy(v: Value) {
    match v
    case Undefined => false
    case Null => false
    case Bool(b) => b
    case Num(n) => n != 0
    case Str(s) => s != []
    case Arr(_) => true
    case Obj(_) => true
  }

  /** `String(v)`; an array is joined with "," with null and undefined
      elements written as "", a plain object is "[object Object]". */
  function ToString(v: Value): string
    decreases v
  {
    match v
    case Undefined => "undefined"
    case Null => "null"
    case Bool(b) => if b then "true" else "false"
    case Num(n) => IntToString(n)
    case Str(s) => s
    case Arr(items) => JoinItems(items)
    case Obj(_) => "[object Object]"
  }

  function JoinItems(items: seq<Value>): string
    decreases items
  {
    if items == [] then []
    else
      var head := if items[0].Undefined? || items[0].Null? then [] else ToString(items[0]);
      if |items| == 1 then head else head + "," + JoinItems(items[1..])
  }

  /** Property lookup `o[key]` on a plain object: undefined when absent. */
  function Get(props: map<string, Value>, key: string): (v: Value)
    ensures key !in props ==> v == Undefined
  {
    if key in props then props[key] else Undefined
  }

  /** A plain JavaScript object that code updates in place. */
  class JsObject {
    var props: map<string, Value>

    constructor (initial: map<string, Value>)
      ensures props == initial
    {
      props := initial;
    }
  }
}
