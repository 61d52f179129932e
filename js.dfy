/**
 * The JavaScript values that reach the handlers: parsed JSON request bodies,
 * cookies and thrown values. An object is its list of own properties in
 * key order, as `Object.keys` lists them.
 */
module Js {
  import opened Wrappers
  import Text

  datatype Value =
    | Undefined
    | Null
    | Bool(b: bool)
    | Num(n: int)
    | Str(s: string)
    | Arr(items: seq<Value>)
    | Obj(props: seq<(string, Value)>)

  /** JavaScript truthiness (`if (v)`, `!v`). */
  predicate Truthy(v: Value) {
    match v
    case Undefined => false
    case Null => false
    case Bool(b) => b
    case Num(n) => n != 0
    case Str(s) => s != ""
    case Arr(_) => true
    case Obj(_) => true
  }

  /** `Object.keys`. */
  function Keys(props: seq<(string, Value)>): (ks: seq<string>)
    ensures |ks| == |props|
    ensures forall i :: 0 <= i < |props| ==> ks[i] == props[i].0
  {
    if props == [] then [] else [props[0].0] + Keys(props[1..])
  }

  /** `key in obj`. */
  predicate HasKey(props: seq<(string, Value)>, key: string) {
    key in Keys(props)
  }

  /** Own properties of a JavaScript object never repeat a key. */
  predicate DistinctKeys(props: seq<(string, Value)>) {
    forall i, j :: 0 <= i < j < |props| ==> props[i].0 != props[j].0
  }

  /** `obj[key]`: the value stored under `key`, `undefined` when there is none. */
  function Get(props: seq<(string, Value)>, key: string): (v: Value)
    ensures !HasKey(props, key) ==> v == Undefined
  {
    if props == [] then Undefined
    else if props[0].0 == key then props[0].1
    else Get(props[1..], key)
  }

  /** The value read is the one at the first entry carrying the key. */
  lemma {:induction false} GetFirst(props: seq<(string, Value)>, key: string, i: nat)
    requires i < |props| && props[i].0 == key && key !in Keys(props[..i])
    ensures Get(props, key) == props[i].1
  {
    if i > 0 {
      assert props[0].0 == Keys(props[..i])[0];
      assert Keys(props[..i])[1..] == Keys(props[1..][..i - 1]) by {
        assert props[..i][1..] == props[1..][..i - 1];
      }
      GetFirst(props[1..], key, i - 1);
    }
  }

  /** `obj[key] = v`: an existing key keeps its place, a new key goes last. */
  function Put(props: seq<(string, Value)>, key: string, v: Value): (r: seq<(string, Value)>)
    ensures Keys(r) == if HasKey(props, key) then Keys(props) else Keys(props) + [key]
    ensures Get(r, key) == v
    ensures forall other :: other != key ==> Get(r, other) == Get(props, other)
  {
    if props == [] then [(key, v)]
    else if props[0].0 == key then [(key, v)] + props[1..]
    else
      var rest := Put(props[1..], key, v);
      assert Keys([props[0]] + rest) == [props[0].0] + Keys(rest);
      [props[0]] + rest
  }

  /** A mutable JavaScript object, such as `req.body`, that a validator writes back into. */
  class JsObject {
    var props: seq<(string, Value)>

    constructor (props: seq<(string, Value)>)
      ensures this.props == props
    {
      this.props := props;
    }

    /** `obj[key] = v`. */
    method Set(key: string, v: Value)
      modifies this
      ensures props == Put(old(props), key, v)
    {
      props := Put(props, key, v);
    }
  }

  /** Decimal digits of a natural number. */
  function NatToDecimal(n: nat): (s: string)
    ensures |s| >= 1
    ensures forall k :: 0 <= k < |s| ==> Text.IsAsciiDigit(s[k])
  {
    var d := ['0', '1', '2', '3', '4', '5', '6', '7', '8', '9'][n % 10];
    if n < 10 then [d] else NatToDecimal(n / 10) + [d]
  }

  /** `String(v)`, as `RegExp.prototype.test` converts a non-string argument. */
  function ToJsString(v: Value): string
    decreases v, 1
  {
    match v
    case Undefined => "undefined"
    case Null => "null"
    case Bool(b) => if b then "true" else "false"
    case Num(n) => if n < 0 then "-" + NatToDecimal(-n) else NatToDecimal(n)
    case Str(s) => s
    case Arr(items) => ElementsToString(v, items)
    case Obj(_) => "[object Object]"
  }

  /** `Array.prototype.join(',')`, where `null` and `undefined` elements print as empty. */
  function ElementsToString(parent: Value, items: seq<Value>): string
    requires forall x :: x in items ==> x < parent
    decreases parent, 0, |items|
  {
    if items == [] then ""
    else
      assert items[0] in items;
      var head := if items[0].Undefined? || items[0].Null? then "" else ToJsString(items[0]);
      assert forall x :: x in items[1..] ==> x in items;
      if |items| == 1 then head else head + "," + ElementsToString(parent, items[1..])
  }

  /** What `Number(s)` yields, for the integer syntax the model covers. */
  datatype NumberValue = NaN | IntValue(v: int)

  /** Value of a non-empty run of decimal digits. */
  function DigitsValue(s: string): (n: nat)
    requires forall k :: 0 <= k < |s| ==> Text.IsAsciiDigit(s[k])
  {
    if s == [] then 0
    else
      assert Text.IsAsciiDigit(s[|s| - 1]);
      DigitsValue(s[..|s| - 1]) * 10 + (s[|s| - 1] as int - '0' as int)
  }

  predicate AllDigits(s: string) {
    forall k :: 0 <= k < |s| ==> Text.IsAsciiDigit(s[k])
  }

  /**
   * `Number(s)` on a string: surrounding whitespace is ignored, the empty
   * string is 0, an optionally signed run of decimal digits is its value and
   * anything else is `NaN`.
   */
  function ParseNumber(s: string): (r: NumberValue)
    ensures Text.Trim(s) == [] ==> r == IntValue(0)
    ensures AllDigits(Text.Trim(s)) ==> r.IntValue? && r.v >= 0
    ensures r.IntValue? && r.v < 0 ==> Text.Trim(s)[0] == '-'
    ensures var t := Text.Trim(s); t != [] && AllDigits(t) ==> r == IntValue(DigitsValue(t))
    ensures var t := Text.Trim(s); |t| > 1 && t[0] == '+' && AllDigits(t[1..]) ==> r == IntValue(DigitsValue(t[1..]))
    ensures var t := Text.Trim(s); |t| > 1 && t[0] == '-' && AllDigits(t[1..]) ==> r == IntValue(0 - DigitsValue(t[1..]))
    ensures var t := Text.Trim(s);
            r.NaN? <==> t != [] && !AllDigits(t) && !(|t| > 1 && (t[0] == '+' || t[0] == '-') && AllDigits(t[1..]))
  {
    var t := Text.Trim(s);
    if t == [] then IntValue(0)
    else if AllDigits(t) then IntValue(DigitsValue(t))
    else if (t[0] == '+' || t[0] == '-') && |t| > 1 && AllDigits(t[1..]) then
      var m: int := DigitsValue(t[1..]);
      IntValue(if t[0] == '-' then -m else m)
    else NaN
  }
}
