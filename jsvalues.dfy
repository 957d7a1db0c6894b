/** The JavaScript values that reach the request handlers: parsed JSON bodies (plus `Date`,
    which the checkout schema also accepts), and the coercions applied to them. */
module JsValues {
  import opened Wrappers
  import opened Text

  /** A JavaScript number: a finite value, one of the two infinities, or `NaN`. */
  datatype Number = Finite(x: real) | PosInfinity | NegInfinity | NaN

  /** A JavaScript value. A JSON number too large for a double parses to an infinity; `undefined`
      is a missing field, so it is written `None` wherever a field may be absent. */
  datatype Value =
    | Null
    | Bool(b: bool)
    | Num(n: Number)
    | Str(s: string)
    | Date(time: int)
    | Arr(items: seq<Value>)
    | Obj(fields: map<string, Value>)

  /** `obj[key]`: `None` stands for `undefined`, both for a missing key and for a value that is
      not an object. */
  function Field(v: Value, key: string): (r: Option<Value>)
    ensures r.Some? <==> v.Obj? && key in v.fields
    ensures r.Some? ==> r.value == v.fields[key]
  {
    if v.Obj? && key in v.fields then Some(v.fields[key]) else None
  }

  /** Truthiness: `null`, `false`, `0` and `""` are falsy. */
  predicate Truthy(v: Value) {
    match v
    case Null => false
    case Bool(b) => b
    case Num(n) => !n.NaN? && n != Finite(0.0)
    case Str(s) => s != []
    case _ => true
  }

  predicate IsInteger(x: real) {
    x == x.Floor as real
  }

  /** `Number(v)`. Converting a non-blank string is the parameter `parse`, applied to the
      trimmed text; a blank string is `0`. An array converts through its comma-joined text, so the empty
      array is `0`, a one-element array converts as its element does, and a longer one is `NaN`. */
  function ToNumber(v: Value, parse: string -> Number): (r: Number)
    ensures v.Null? ==> r == Finite(0.0)
    ensures v.Bool? ==> r == Finite(if v.b then 1.0 else 0.0)
    ensures v.Num? ==> r == v.n
    ensures v.Str? && IsBlank(v.s) ==> r == Finite(0.0)
    ensures v.Obj? ==> r == NaN
    ensures v.Arr? && |v.items| >= 2 ==> r == NaN
    decreases v, 0
  {
    match v
    case Null => Finite(0.0)
    case Bool(b) => Finite(if b then 1.0 else 0.0)
    case Num(n) => n
    case Str(s) => StringToNumber(s, parse)
    case Date(t) => Finite(t as real)
    case Obj(_) => NaN
    case Arr(items) =>
      if |items| == 0 then Finite(0.0)
      else if |items| >= 2 then NaN
      else ElementToNumber(items[0], parse)
  }

  function StringToNumber(s: string, parse: string -> Number): (r: Number)
    ensures IsBlank(s) ==> r == Finite(0.0)
  {
    var t := Trim(s);
    if t == [] then Finite(0.0) else parse(t)
  }

  /** `Number(String(v))` for the one element of an array: `null` prints as the empty string,
      `true`/`false`, dates and objects print as text that is not a number. */
  function ElementToNumber(v: Value, parse: string -> Number): (r: Number)
    ensures v.Null? ==> r == Finite(0.0)
    ensures v.Bool? || v.Date? || v.Obj? ==> r == NaN
    decreases v, 1
  {
    match v
    case Null => Finite(0.0)
    case Bool(_) => NaN
    case Num(n) => n
    case Str(s) => StringToNumber(s, parse)
    case Date(_) => NaN
    case Obj(_) => NaN
    case Arr(items) => ToNumber(Arr(items), parse)
  }

  /** Nested one-element arrays convert as their innermost element. */
  lemma {:induction false} NestedSingletonNumber(v: Value, depth: nat, parse: string -> Number)
    requires !v.Arr?
    ensures ToNumber(Nest(v, depth + 1), parse) == ElementToNumber(v, parse)
  {
    if depth > 0 {
      NestedSingletonNumber(v, depth - 1, parse);
    }
  }

  function Nest(v: Value, depth: nat): Value {
    if depth == 0 then v else Arr([Nest(v, depth - 1)])
  }
}
