/** The JavaScript values the client handles, with the few coercions it
    relies on: `typeof`, truthiness, `String(v)` and the keys `for…in`
    visits.  Numbers are integral; host objects (File, Blob, FormData) are
    opaque and have no enumerable properties. */
module Js {
  import opened Wrappers
  import opened Strings
  import opened Fields

  datatype HostKind = File | Blob | FormData

  datatype Value =
    | Undefined
    | Null
    | Bool(b: bool)
    | Num(n: int)
    | Str(s: string)
    | Arr(items: seq<Value>)
    | Obj(fields: Fields<Value>)
    | Host(kind: HostKind)

  /** The `typeof` operator; note that `typeof null` is "object". */
  function TypeOf(v: Value): string
  {
    match v
    case Undefined => "undefined"
    case Bool(_) => "boolean"
    case Num(_) => "number"
    case Str(_) => "string"
    case _ => "object"
  }

  /** `if (v)`: undefined, null, false, 0 and "" are falsy. */
  predicate Truthy(v: Value)
  {
    match v
    case Undefined => false
    case Null => false
    case Bool(b) => b
    case Num(n) => n != 0
    case Str(s) => s != ""
    case _ => true
  }

  /** `null == v`: the loose test that catches null and undefined alike. */
  predicate IsNullish(v: Value)
  {
    v.Undefined? || v.Null?
  }

  function HostName(k: HostKind): string
  {
    match k
    case File => "File"
    case Blob => "Blob"
    case FormData => "FormData"
  }

  /** `String(v)`: arrays join their elements with "," (null and undefined
      elements give ""), plain objects give "[object Object]" and host
      objects "[object File]" and so on. */
  function ToStr(v: Value): string
    decreases v, 1
  {
    match v
    case Undefined => "undefined"
    case Null => "null"
    case Bool(b) => if b then "true" else "false"
    case Num(n) => IntToString(n)
    case Str(s) => s
    case Arr(items) => Join(ElementStrings(items), ",")
    case Obj(_) => "[object Object]"
    case Host(k) => "[object " + HostName(k) + "]"
  }

  function ElementStrings(items: seq<Value>): (r: seq<string>)
    ensures |r| == |items|
    decreases items, 0
  {
    if items == [] then []
    else [if IsNullish(items[0]) then "" else ToStr(items[0])] + ElementStrings(items[1..])
  }

  /** The keys and values `for (key in v)` visits: an object's properties in
      the order of its property list, an array's indices "0", "1", … with its elements, nothing for
      any other value. */
  function Enumerate(v: Value): Fields<Value>
  {
    match v
    case Obj(fs) => fs
    case Arr(items) => seq(|items|, i requires 0 <= i < |items| => (NatToString(i), items[i]))
    case _ => []
  }

  /** A plain object never has a key twice. */
  predicate WellFormed(v: Value)
  {
    v.Obj? ==> DistinctKeys(v.fields)
  }

  /** What `for…in` visits never repeats a key: array indices have distinct
      decimal forms. */
  lemma EnumerateDistinct(v: Value)
    requires WellFormed(v)
    ensures DistinctKeys(Enumerate(v))
  {
    if v.Arr? {
      var e := Enumerate(v);
      forall i, j | 0 <= i < j < |e| ensures e[i].0 != e[j].0 {
        NatToStringValue(i);
        NatToStringValue(j);
      }
    }
  }
}
