/** The dynamically typed values that flow through configuration files and
    template variables, and the JavaScript coercions applied to them. */
module Values {
  import opened Records
  import Strings

  /** A parsed YAML/JSON value. Numbers are integers (see README, Left out);
      an object keeps its entries in `Object.entries` order. */
  datatype Value =
    | Undefined
    | Null
    | Bool(b: bool)
    | Num(n: int)
    | Str(s: string)
    | Arr(items: seq<Value>)
    | Obj(entries: seq<(string, Value)>)

  /** JavaScript truthiness: `!!v`. */
  predicate Truthy(v: Value) {
    match v
    case Undefined => false
    case Null => false
    case Bool(b) => b
    case Num(n) => n != 0
    case Str(s) => s != ""
    case Arr(_) => true
    case Obj(_) => true
  }

  /** `v === null || v === undefined || v === ""` */
  predicate IsUnset(v: Value) {
    v == Null || v == Undefined || v == Str("")
  }

  /** A value that is unset is falsy; the converse fails for `0` and `false`. */
  lemma UnsetIsFalsy(v: Value)
    ensures IsUnset(v) ==> !Truthy(v)
    ensures !Truthy(v) && !IsUnset(v) <==> v == Num(0) || v == Bool(false)
  {
  }

  /** `"" + v`, the string conversion JavaScript applies on concatenation. */
  function ToJsString(v: Value): string
  {
    match v
    case Undefined => "undefined"
    case Null => "null"
    case Bool(b) => if b then "true" else "false"
    case Num(n) => Strings.IntToString(n)
    case Str(s) => s
    case Arr(items) => Strings.Join(ArrayElementStrings(items), ",")
    case Obj(_) => "[object Object]"
  }

  /** Array elements as `Array.prototype.join` converts them: null and
      undefined become empty strings. */
  function ArrayElementStrings(items: seq<Value>): (r: seq<string>)
    ensures |r| == |items|
    ensures forall i :: 0 <= i < |items| ==>
      r[i] == if items[i] == Null || items[i] == Undefined then "" else ToJsString(items[i])
  {
    if |items| == 0 then []
    else
      [if items[0] == Null || items[0] == Undefined then "" else ToJsString(items[0])]
      + ArrayElementStrings(items[1..])
  }

  /** The value `obj` denotes for a record of values: an object whose entries
      are the record's keys in order. */
  function ObjOf(r: Rec<Value>): (v: Value)
    requires r.Valid()
    ensures v.Obj? && |v.entries| == |r.keys|
    ensures forall i :: 0 <= i < |r.keys| ==> v.entries[i] == (r.keys[i], r.vals[r.keys[i]])
  {
    Obj(seq(|r.keys|, i requires 0 <= i < |r.keys| => (r.keys[i], r.vals[r.keys[i]])))
  }

  /** `obj[k]` on a record of values: an absent key reads as `undefined`. */
  function Lookup(r: Rec<Value>, k: string): (v: Value)
    ensures k !in r.vals ==> v == Undefined
    ensures k in r.vals ==> v == r.vals[k]
  {
    if k in r.vals then r.vals[k] else Undefined
  }
}
