/**
 * PHP values as the core handles them (`mixed` parameters, request bodies, answers to
 * console questions) and the casts applied to them. Floats and objects are not modelled.
 */
module PhpValues {
  import opened PhpStrings
  import opened PhpNumeric

  /** An array key: PHP arrays are ordered maps from integer or string keys. */
  datatype Key = IntKey(i: int) | StrKey(s: string)

  /** A list: the values under the keys 0, 1, 2 and so on, as `$list[] = ...` builds it. */
  function List(vs: seq<Value>): (r: seq<(Key, Value)>)
    ensures |r| == |vs| && forall i | 0 <= i < |vs| :: r[i] == (IntKey(i), vs[i])
  {
    seq(|vs|, i requires 0 <= i < |vs| => (IntKey(i), vs[i]))
  }

  datatype Value =
    | Null
    | Bool(b: bool)
    | Int(i: Int64)
    | Str(s: string)
    | Arr(entries: seq<(Key, Value)>)

  /** PHP's `empty()`: null, false, 0, "", "0" and the empty array. */
  predicate IsEmpty(v: Value) {
    match v
    case Null => true
    case Bool(b) => !b
    case Int(i) => i == 0
    case Str(s) => s == "" || s == "0"
    case Arr(es) => es == []
  }

  /** `(string) $v`, which is also what `"{$v}"` interpolation produces; an array reads "Array". */
  function ToStr(v: Value): string {
    match v
    case Null => ""
    case Bool(b) => if b then "1" else ""
    case Int(i) => IntToString(i)
    case Str(s) => s
    case Arr(_) => "Array"
  }

  /** `(int) $v`. */
  function ToInt(v: Value): Int64 {
    match v
    case Null => 0
    case Bool(b) => if b then 1 else 0
    case Int(i) => i
    case Str(s) => StringToInt(s)
    case Arr(es) => if es == [] then 0 else 1
  }

  /** The kinds `gettype()` distinguishes among the modelled values. */
  datatype TypeName = Boolean | Integer | String | NullType | ArrayType

  function GetType(v: Value): TypeName {
    match v
    case Null => NullType
    case Bool(_) => Boolean
    case Int(_) => Integer
    case Str(_) => String
    case Arr(_) => ArrayType
  }

  /** Casting to string and back to int keeps every integer. */
  lemma ToIntOfToStr(i: Int64)
    ensures ToInt(Str(ToStr(Int(i)))) == i
  {
    StringToIntOfIntToString(i);
  }
}
