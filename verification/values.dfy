/** Runtime values as the assertion engine sees them. Only the kind of a value matters
    to the engine, so values carry no payload. */
module Values {

  datatype Value = Null | Undefined | RegExp | Array | Str | Num | Bool | Obj | Func

  /** The default type guesser (`parseType`): `null`, regular expressions and arrays get
      their own tags, everything else reports its `typeof`. */
  function TypeOf(v: Value): (tag: string)
    ensures tag == "null" <==> v == Null
    ensures tag == "undefined" <==> v == Undefined
    ensures tag == "any" ==> false
  {
    match v
    case Null => "null"
    case RegExp => "regexp"
    case Array => "array"
    case Undefined => "undefined"
    case Str => "string"
    case Num => "number"
    case Bool => "boolean"
    case Obj => "object"
    case Func => "function"
  }

  /** Different kinds of value never share a tag. */
  lemma TypeOfInjective(a: Value, b: Value)
    ensures TypeOf(a) == TypeOf(b) ==> a == b
  {
  }
}
