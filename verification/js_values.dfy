/** JavaScript values as the admin widget handles them, and the few language
    rules its logic relies on: truthiness, property access (which throws on
    `null`/`undefined`), `String(v)` conversion and `Array.prototype.join`.
 */
module JsValues {

  datatype Option<+T> = None | Some(value: T)

  /** The outcome of evaluating an expression that may throw a `TypeError`
      (reading a property of `null` or `undefined`, or calling a missing
      function). */
  datatype Result<+T> = Ok(value: T) | Thrown

  /** A JavaScript value. Numbers are integers here; objects and arrays are
      compared structurally by `==`, where JavaScript compares references. */
  datatype Value =
    | Undefined
    | Null
    | Bool(b: bool)
    | Num(n: int)
    | Str(s: string)
    | Arr(elems: seq<Value>)
    | Obj(fields: map<string, Value>)

  /** A plain object: one row of administered data. */
  type Record = map<string, Value>

  /** JavaScript truthiness (`!!v`). */
  predicate Truthy(v: Value)
  {
    match v
    case Undefined => false
    case Null => false
    case Bool(b) => b
    case Num(n) => n != 0
    case Str(s) => s != ""
    case Arr(_) => true
    case Obj(_) => true
  }

  /** Values whose properties cannot be read: `v[k]` throws. */
  predicate Nullish(v: Value)
  {
    v.Undefined? || v.Null?
  }

  /** `typeof v === 'object'`, which holds for `null` too. */
  predicate IsObjectTyped(v: Value)
  {
    v.Obj? || v.Arr? || v.Null?
  }

  /** `r[key]` on a plain object: a missing key reads as `undefined`. */
  function Field(r: Record, key: string): Value
  {
    if key in r then r[key] else Undefined
  }

  /** `v[key]` on a value that is not nullish: only objects carry named
      properties in this model. */
  function Get(v: Value, key: string): Value
  {
    if v.Obj? then Field(v.fields, key) else Undefined
  }

  /** `v[key]` in general: reading a property of `null` or `undefined` throws. */
  function Prop(v: Value, key: string): Result<Value>
  {
    if Nullish(v) then Thrown else Ok(Get(v, key))
  }

  function DigitChar(d: nat): char
    requires d < 10
  {
    ('0' as int + d) as char
  }

  predicate IsDigit(c: char)
  {
    '0' <= c <= '9'
  }

  predicate AllDigits(s: string)
  {
    forall i :: 0 <= i < |s| ==> IsDigit(s[i])
  }

  /** Decimal notation of a natural number, as `'' + n` produces it. */
  function NatToDecimal(n: nat): (r: string)
    ensures |r| >= 1
    ensures AllDigits(r)
  {
    if n < 10 then [DigitChar(n)] else NatToDecimal(n / 10) + [DigitChar(n % 10)]
  }

  /** Reads a string of decimal digits back as a number. */
  function DecimalToNat(s: string): nat
    requires AllDigits(s)
  {
    if |s| == 0 then 0
    else DecimalToNat(s[..|s| - 1]) * 10 + (s[|s| - 1] as int - '0' as int)
  }

  /** Decimal notation is read back to the number it was written from. */
  lemma {:induction false} DecimalRoundTrip(n: nat)
    ensures DecimalToNat(NatToDecimal(n)) == n
  {
    if n >= 10 {
      var p := NatToDecimal(n / 10);
      var s := NatToDecimal(n);
      assert s == p + [DigitChar(n % 10)];
      assert s[..|s| - 1] == p;
      DecimalRoundTrip(n / 10);
    }
  }

  function IntToDecimal(n: int): string
  {
    if n < 0 then "-" + NatToDecimal(-n) else NatToDecimal(n)
  }

  /** `String(v)`: the text a value turns into as a property key, as a string
      operand of `+`, or as the value of a text control. */
  function ToText(v: Value): string
  {
    match v
    case Undefined => "undefined"
    case Null => "null"
    case Bool(b) => if b then "true" else "false"
    case Num(n) => IntToDecimal(n)
    case Str(s) => s
    case Arr(es) => Join(es, ",")
    case Obj(_) => "[object Object]"
  }

  /** `parts.join(sep)`: `null` and `undefined` entries contribute the empty
      string, every other entry its `String` form. */
  function Join(parts: seq<Value>, sep: string): string
  {
    if |parts| == 0 then ""
    else
      var last := parts[|parts| - 1];
      var text := if Nullish(last) then "" else ToText(last);
      if |parts| == 1 then text else Join(parts[..|parts| - 1], sep) + sep + text
  }

  /** Joining two non-empty runs of parts is joining each and putting one
      separator between them. */
  lemma {:induction false} JoinAppend(a: seq<Value>, b: seq<Value>, sep: string)
    requires |a| > 0 && |b| > 0
    ensures Join(a + b, sep) == Join(a, sep) + sep + Join(b, sep)
    decreases |b|
  {
    var ab := a + b;
    assert ab[|ab| - 1] == b[|b| - 1];
    if |b| == 1 {
      assert ab[..|ab| - 1] == a;
    } else {
      var front := b[..|b| - 1];
      assert ab[..|ab| - 1] == a + front;
      JoinAppend(a, front, sep);
    }
  }
}
