/**
 * Sample documents as the engine sees them, their classification tags and
 * the keypath strings under which their parts are recorded.
 */
module Documents {

  /** A JavaScript value as produced by `JSON.parse` or an object literal. */
  datatype Value =
    | Null
    | Undefined
    | Bool(b: bool)
    | Num(n: real)
    | Str(s: string)
    | Func
    | Sym
    | Arr(elems: seq<Value>)
    | Obj(members: seq<Member>)

  /** One own enumerable property of an object, in `Object.keys` order. */
  datatype Member = Member(key: string, val: Value)

  /** `typeof`, except that `null` and arrays get tags of their own. */
  function TagOf(v: Value): (tag: string)
    ensures tag == "array" <==> v.Arr?
    ensures tag == "object" <==> v.Obj?
    ensures tag == "null" <==> v.Null?
  {
    match v
    case Null => "null"
    case Undefined => "undefined"
    case Bool(_) => "boolean"
    case Num(_) => "number"
    case Str(_) => "string"
    case Func => "function"
    case Sym => "symbol"
    case Arr(_) => "array"
    case Obj(_) => "object"
  }

  /** The keypath of an object member: `keypath ? keypath + '.' + key : key`. */
  function FieldPath(keypath: string, key: string): (r: string)
    ensures keypath != "" ==> |r| == |keypath| + 1 + |key|
    ensures keypath == "" ==> r == key
  {
    if keypath == "" then key else keypath + "." + key
  }

  /** The keypath shared by all elements of an array: `keypath + '[]'`. */
  function ElementPath(keypath: string): (r: string)
    ensures |r| == |keypath| + 2
  {
    keypath + "[]"
  }
}
