/** The JavaScript values the dashboard handles, and the few engine
    primitives it calls, taken as parameters because the model cannot see
    inside them. */
module Js {
  import opened Wrappers
  import Text

  /** A JavaScript number. Finite numbers are kept as exact reals: the model
      does not round to IEEE doubles. */
  datatype Number = Finite(r: real) | NaN | PosInf | NegInf

  /** `Number.isFinite`. */
  predicate IsFinite(n: Number) {
    n.Finite?
  }

  /** A loosely typed JavaScript value, as rows delivered by the content
      source and the output of `JSON.parse` can hold. */
  datatype Value =
    | Undefined
    | Null
    | Bool(b: bool)
    | Num(n: Number)
    | Str(s: string)
    | Arr(elems: seq<Value>)
    | Obj(rec: Record)

  /** A plain object: its own keys in enumeration order (`Object.keys`) and
      their values. A key outside `props` reads as `undefined`. */
  datatype Record = Record(keys: seq<string>, props: map<string, Value>) {

    /** What every JavaScript object satisfies: no key is listed twice and
        the listed keys are exactly the defined ones. */
    ghost predicate Valid() {
      && (forall i, j :: 0 <= i < j < |keys| ==> keys[i] != keys[j])
      && (forall k :: k in props <==> k in keys)
    }
  }

  /** `{}` */
  const EmptyRecord := Record([], map[])

  /** The engine primitives the source relies on.
      - `toNumber`: `Number(s)` on a string (ECMAScript StringToNumber);
      - `formatNumber`: `String(x)` on a finite number;
      - `toFixed1`: `x.toFixed(1)`;
      - `parseJson`: `JSON.parse(s)`, `None` when it throws. */
  datatype Runtime = Runtime(
    toNumber: string -> Number,
    formatNumber: real -> string,
    toFixed1: real -> string,
    parseJson: string -> Option<Value>)

  /** `v == null`: null or undefined. */
  predicate IsNullish(v: Value) {
    v.Undefined? || v.Null?
  }

  /** JavaScript truthiness. */
  predicate Truthy(v: Value) {
    match v
    case Undefined => false
    case Null => false
    case Bool(b) => b
    case Num(n) => !(n.NaN? || (n.Finite? && n.r == 0.0))
    case Str(s) => s != ""
    case Arr(_) => true
    case Obj(_) => true
  }

  /** `row[key]` on a plain object. */
  function Get(row: Record, key: string): (v: Value)
    ensures key !in row.props ==> v == Undefined
  {
    if key in row.props then row.props[key] else Undefined
  }

  /** `row[key] = v`: a new key is appended to the enumeration order, an
      existing one keeps its place. */
  function Set(row: Record, key: string, v: Value): (r: Record)
    ensures Get(r, key) == v
    ensures forall k :: k != key ==> Get(r, k) == Get(row, k)
    ensures key in row.props ==> r.keys == row.keys
    ensures key !in row.props ==> r.keys == row.keys + [key]
    ensures row.Valid() ==> r.Valid()
  {
    if key in row.props then Record(row.keys, row.props[key := v])
    else Record(row.keys + [key], row.props[key := v])
  }

  /** `v.key` on any value, for the keys the source reads ("name", "price",
      "rows", "parsed_rows", "model_raw"), which no primitive or array
      carries. `None` is the `TypeError` thrown when `v` is null or
      undefined. */
  function PropOf(v: Value, key: string): (r: Option<Value>)
    ensures r.None? <==> IsNullish(v)
    ensures v.Obj? ==> r == Some(Get(v.rec, key))
  {
    match v
    case Undefined => None
    case Null => None
    case Obj(rec) => Some(Get(rec, key))
    case _ => Some(Undefined)
  }

  /** `String(n)` for a number. */
  function NumberToString(n: Number, rt: Runtime): string {
    match n
    case Finite(r) => rt.formatNumber(r)
    case NaN => "NaN"
    case PosInf => "Infinity"
    case NegInf => "-Infinity"
  }

  /** `String(v)`. Arrays join their elements with commas, writing null and
      undefined elements as empty strings; plain objects print as
      "[object Object]". */
  function ToStr(v: Value, rt: Runtime): (r: string)
    ensures v.Str? ==> r == v.s
    decreases v
  {
    match v
    case Undefined => "undefined"
    case Null => "null"
    case Bool(b) => if b then "true" else "false"
    case Num(n) => NumberToString(n, rt)
    case Str(s) => s
    case Arr(elems) => JoinElements(elems, rt)
    case Obj(_) => "[object Object]"
  }

  /** `Array.prototype.join(",")` over array elements. */
  function JoinElements(elems: seq<Value>, rt: Runtime): string
    decreases elems
  {
    if elems == [] then ""
    else
      var first := if IsNullish(elems[0]) then "" else ToStr(elems[0], rt);
      if |elems| == 1 then first else first + "," + JoinElements(elems[1..], rt)
  }

  /** `Number(String(v).replace(/[^0-9.\-]/g, ""))`: the tolerant
      strip-then-parse that every numeric check in the source applies. */
  function StripParse(v: Value, rt: Runtime): Number {
    rt.toNumber(Text.KeepNumericChars(ToStr(v, rt)))
  }
}
