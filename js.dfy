/**
  The slice of JavaScript semantics the handlers depend on: the values that
  JSON.parse produces (plus `undefined`, which is what reading an absent
  property yields), truthiness, the two string conversions (the template
  literal's ToString and the `.toString()` method call), property reads, and
  the exceptions these raise.
 */
module Js {
  import opened Wrappers

  /** The exceptions the handlers can raise: JSON.parse throws SyntaxError,
      a property read on null/undefined or a call of a non-function throws
      TypeError, decodeURIComponent throws URIError. */
  datatype JsError = SyntaxError | TypeError | URIError

  /** A JSON value, or `undefined`. Numbers are integers in this model. */
  datatype JsValue =
    | Undefined
    | Null
    | Bool(b: bool)
    | Num(n: int)
    | Str(s: string)
    | Arr(items: seq<JsValue>)
    | Obj(fields: map<string, JsValue>)

  /** ECMAScript ToBoolean: the values `!v` treats as missing. */
  predicate Truthy(v: JsValue) {
    match v
    case Undefined => false
    case Null => false
    case Bool(b) => b
    case Num(n) => n != 0
    case Str(s) => s != ""
    case Arr(_) => true
    case Obj(_) => true
  }

  function DigitChar(d: nat): (c: char)
    requires d < 10
    ensures '0' <= c <= '9' && c as int - '0' as int == d
  {
    ('0' as int + d) as char
  }

  /** The decimal numeral of n, as Number.prototype.toString writes an integer. */
  function NatToDecimal(n: nat): (s: string)
    ensures 1 <= |s|
    ensures forall i :: 0 <= i < |s| ==> '0' <= s[i] <= '9'
    ensures s[0] == '0' <==> n == 0
    ensures n == 0 ==> s == "0"
    decreases n
  {
    if n < 10 then [DigitChar(n)] else NatToDecimal(n / 10) + [DigitChar(n % 10)]
  }

  /** The value of a string of decimal digits; the reading direction of NatToDecimal. */
  function DecimalValue(s: string): nat
    requires forall i :: 0 <= i < |s| ==> '0' <= s[i] <= '9'
  {
    if s == [] then 0
    else DecimalValue(s[..|s| - 1]) * 10 + (s[|s| - 1] as int - '0' as int)
  }

  lemma {:induction false} DecimalRoundTrip(n: nat)
    ensures DecimalValue(NatToDecimal(n)) == n
    decreases n
  {
    if n >= 10 {
      DecimalRoundTrip(n / 10);
      var s := NatToDecimal(n);
      assert s[..|s| - 1] == NatToDecimal(n / 10);
    }
  }

  /** Number.prototype.toString() of an integer. */
  function IntToDecimal(i: int): (s: string)
    ensures 1 <= |s|
  {
    if i < 0 then "-" + NatToDecimal(-i) else NatToDecimal(i)
  }

  /** Reading a possibly signed decimal numeral back. */
  function ParseIntDecimal(s: string): int
    requires |s| >= 1
    requires s[0] == '-' || '0' <= s[0] <= '9'
    requires forall i :: 1 <= i < |s| ==> '0' <= s[i] <= '9'
  {
    if s[0] == '-' then -(DecimalValue(s[1..]) as int) else DecimalValue(s)
  }

  /** Distinct integers print as distinct strings, and the printed string determines the number. */
  lemma IntDecimalRoundTrip(i: int)
    ensures var s := IntToDecimal(i);
      (s[0] == '-' || '0' <= s[0] <= '9') &&
      (forall k :: 1 <= k < |s| ==> '0' <= s[k] <= '9') &&
      ParseIntDecimal(s) == i
  {
    if i < 0 {
      DecimalRoundTrip(-i);
      assert IntToDecimal(i)[1..] == NatToDecimal(-i);
    } else {
      DecimalRoundTrip(i);
    }
  }

  /** ECMAScript ToString, as a template literal `${v}` applies it. An object
      parsed from JSON that has its own "toString" member hides
      Object.prototype.toString behind a non-callable value, and ToPrimitive
      then finds no callable conversion at all: TypeError. An array prints as
      Array.prototype.join(","), which prints null and undefined elements as "". */
  function ToString(v: JsValue): (r: Result<string, JsError>)
    ensures r.Failure? ==> r.error == TypeError
    ensures !v.Arr? && !v.Obj? ==> r.Success?
    decreases v, if v.Arr? then |v.items| + 1 else 0
  {
    match v
    case Undefined => Success("undefined")
    case Null => Success("null")
    case Bool(b) => Success(if b then "true" else "false")
    case Num(n) => Success(IntToDecimal(n))
    case Str(s) => Success(s)
    case Arr(items) => JoinFrom(v, 0)
    case Obj(fields) =>
      if "toString" in fields then Failure(TypeError) else Success("[object Object]")
  }

  /** The elements of array `a` from index i on, each printed by ToString and separated by ",". */
  function JoinFrom(a: JsValue, i: nat): (r: Result<string, JsError>)
    requires a.Arr? && i <= |a.items|
    ensures r.Failure? ==> r.error == TypeError
    decreases a, |a.items| - i
  {
    if i == |a.items| then Success("")
    else
      var e := a.items[i];
      var first := if e.Undefined? || e.Null? then Success("") else ToString(e);
      match first
      case Failure(err) => Failure(err)
      case Success(f) =>
        match JoinFrom(a, i + 1)
        case Failure(err) => Failure(err)
        case Success(rest) => Success(f + (if i + 1 < |a.items| then "," else "") + rest)
  }

  /** The method call `v.toString()`: null and undefined have no methods, an
      object whose own "toString" member is a JSON value cannot be called, and
      everything else runs its prototype's toString. */
  function CallToString(v: JsValue): (r: Result<string, JsError>)
  {
    match v
    case Undefined => Failure(TypeError)
    case Null => Failure(TypeError)
    case Obj(fields) =>
      if "toString" in fields then Failure(TypeError) else Success("[object Object]")
    case Arr(_) => JoinFrom(v, 0)
    case _ => ToString(v)
  }

  /** `v.toString()` and `${v}` agree on every value except null and
      undefined, where the call throws and the template prints the name. */
  lemma CallToStringAgreesWithToString(v: JsValue)
    ensures CallToString(v) == if v.Undefined? || v.Null? then Failure(TypeError) else ToString(v)
    ensures v.Undefined? ==> ToString(v) == Success("undefined")
    ensures v.Null? ==> ToString(v) == Success("null")
  {
  }

  /** Reading property `key` of `v` (`v.key`, or a destructuring pattern).
      Only plain names are read by the handlers, and those are never
      properties of a primitive or of an array. */
  function GetProperty(v: JsValue, key: string): (r: Result<JsValue, JsError>)
    ensures r.Failure? <==> v.Undefined? || v.Null?
    ensures v.Obj? && key in v.fields ==> r == Success(v.fields[key])
    ensures r.Success? && !(v.Obj? && key in v.fields) ==> r.value == Undefined
  {
    match v
    case Undefined => Failure(TypeError)
    case Null => Failure(TypeError)
    case Obj(fields) => Success(if key in fields then fields[key] else Undefined)
    case _ => Success(Undefined)
  }
}
