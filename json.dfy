/** The loaded JSON documents as values, with the JavaScript operations the
    pages apply to them: property access (`undefined` when missing), truthiness,
    `.length`, iteration with `for…of`, and the text a template literal inserts. */
module JsValues {
  import opened Text

  /** A parsed JSON value. `Undef` stands for `undefined`, what a missing property
      reads as. An object lists its properties in `Object.keys` order. */
  datatype Json =
    | Undef
    | Null
    | Bool(b: bool)
    | Num(n: int)
    | Str(s: string)
    | Arr(elems: seq<Json>)
    | Obj(fields: seq<(string, Json)>)

  /** `o[k]`: the value of the first property named `k`, or `undefined`. */
  function Get(o: Json, k: string): (v: Json)
    ensures !o.Obj? ==> v == Undef
  {
    if o.Obj? then Lookup(o.fields, k) else Undef
  }

  function Lookup(fields: seq<(string, Json)>, k: string): (v: Json)
    ensures v == Undef || exists i :: 0 <= i < |fields| && fields[i] == (k, v)
  {
    if fields == [] then Undef
    else if fields[0].0 == k then fields[0].1
    else Lookup(fields[1..], k)
  }

  /** `Object.keys(o)` with the values: the properties of an object, nothing for
      anything else. */
  function Fields(o: Json): seq<(string, Json)> {
    if o.Obj? then o.fields else []
  }

  /** JavaScript truthiness: `undefined`, `null`, `false`, `0` and `''` are falsy. */
  predicate Truthy(v: Json) {
    match v
    case Undef => false
    case Null => false
    case Bool(b) => b
    case Num(n) => n != 0
    case Str(s) => s != []
    case Arr(_) => true
    case Obj(_) => true
  }

  /** The string a text field holds; anything that is not a string counts as no text. */
  function TextOf(v: Json): (r: string)
    ensures v.Str? ==> r == v.s
    ensures !v.Str? ==> r == []
  {
    if v.Str? then v.s else []
  }

  /** `(v || []).length`: an array's or a string's length, 0 for everything else
      (whose `.length` is `undefined`, and `undefined > 0` is false). */
  function Length(v: Json): nat {
    match v
    case Arr(xs) => |xs|
    case Str(s) => |s|
    case _ => 0
  }

  /** What `for (const x of (v || []))` visits once `.length > 0` admitted `v`:
      an array's elements, a string's characters one by one. */
  function Entries(v: Json): (r: seq<Json>)
    ensures |r| == Length(v)
  {
    match v
    case Arr(xs) => xs
    case Str(s) => seq(|s|, i requires 0 <= i < |s| => Str([s[i]]))
    case _ => []
  }

  /** `${v}` in a template literal. */
  function Interp(v: Json): string {
    match v
    case Undef => "undefined"
    case Null => "null"
    case Bool(b) => if b then "true" else "false"
    case Num(n) => IntStr(n)
    case Str(s) => s
    case Arr(xs) => JoinElems(xs)
    case Obj(_) => "[object Object]"
  }

  /** `Array.prototype.join(',')`: `null` and `undefined` elements become empty. */
  function JoinElems(xs: seq<Json>): string
    decreases xs
  {
    if xs == [] then []
    else
      var first := if xs[0].Undef? || xs[0].Null? then [] else Interp(xs[0]);
      if |xs| == 1 then first else first + "," + JoinElems(xs[1..])
  }
}
