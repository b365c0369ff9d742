/**
 * JavaScript values as they come out of JSON.parse, with the few pieces of
 * JavaScript semantics the site's scripts lean on: `undefined`, truthiness,
 * optional chaining, object spread and template-literal stringification.
 */
module JsValue {

  /** `None` stands for JavaScript `undefined` (an absent property). */
  datatype Option<+T> = None | Some(value: T)

  /** A parsed JSON value. Numbers are restricted to integers. */
  datatype Json =
    | JNull
    | JBool(b: bool)
    | JNum(n: int)
    | JStr(s: string)
    | JArr(items: seq<Json>)
    | JObj(fields: map<string, Json>)

  /** JavaScript truthiness of a JSON value. */
  predicate Truthy(v: Json)
  {
    match v
    case JNull => false
    case JBool(b) => b
    case JNum(n) => n != 0
    case JStr(s) => s != ""
    case JArr(_) => true
    case JObj(_) => true
  }

  /** Truthiness of a possibly-undefined value (`undefined` is falsy). */
  predicate IsTruthy(v: Option<Json>)
  {
    v.Some? && Truthy(v.value)
  }

  /** `a || b`: the first operand when it is truthy, otherwise the second. */
  function Or(a: Option<Json>, b: Option<Json>): (r: Option<Json>)
    ensures IsTruthy(a) ==> r == a
    ensures !IsTruthy(a) ==> r == b
    ensures IsTruthy(r) <==> IsTruthy(a) || IsTruthy(b)
  {
    if IsTruthy(a) then a else b
  }

  /**
   * `v?.key` for the property names the scripts use: an own property of an
   * object, the `length` of an array or string, and `undefined` otherwise
   * (also when `v` is `undefined` or `null`).
   */
  function Member(v: Option<Json>, key: string): (r: Option<Json>)
    ensures v.None? || v == Some(JNull) ==> r.None?
    ensures v.Some? && v.value.JObj? ==> (r.Some? <==> key in v.value.fields)
    ensures v.Some? && v.value.JObj? && key in v.value.fields ==> r == Some(v.value.fields[key])
  {
    match v
    case None => None
    case Some(j) =>
      match j
      case JObj(m) => if key in m then Some(m[key]) else None
      case JArr(items) => if key == "length" then Some(JNum(|items|)) else None
      case JStr(s) => if key == "length" then Some(JNum(|s|)) else None
      case _ => None
  }

  /** Decimal digits of a natural number, as `String(n)` prints it. */
  function NatString(n: nat): (r: string)
    ensures |r| >= 1
    ensures forall k :: 0 <= k < |r| ==> '0' <= r[k] <= '9'
    ensures n >= 10 <==> |r| >= 2
  {
    if n < 10 then [Digit(n)] else NatString(n / 10) + [Digit(n % 10)]
  }

  function Digit(d: nat): (c: char)
    requires d < 10
    ensures '0' <= c <= '9'
  {
    "0123456789"[d]
  }

  lemma DigitInjective(a: nat, b: nat)
    requires a < 10 && b < 10 && Digit(a) == Digit(b)
    ensures a == b
  {
  }

  /** Different numbers print differently, so array indices make distinct keys. */
  lemma {:induction false} NatStringInjective(a: nat, b: nat)
    requires NatString(a) == NatString(b)
    ensures a == b
  {
    var s := NatString(a);
    if a < 10 || b < 10 {
      assert a < 10 && b < 10;
      assert s[0] == Digit(a) && s[0] == Digit(b);
      DigitInjective(a, b);
    } else {
      assert NatString(a) == NatString(a / 10) + [Digit(a % 10)];
      assert NatString(b) == NatString(b / 10) + [Digit(b % 10)];
      assert s[|s| - 1] == Digit(a % 10) == Digit(b % 10);
      DigitInjective(a % 10, b % 10);
      assert NatString(a / 10) == s[..|s| - 1] == NatString(b / 10);
      NatStringInjective(a / 10, b / 10);
    }
  }

  /** `String(n)` for an integer. */
  function IntString(n: int): string
  {
    if n < 0 then "-" + NatString(-n) else NatString(n)
  }

  /**
   * The own enumerable properties that `{...v}` copies: the entries of an
   * object, index keys of an array or string, nothing for null, booleans
   * and numbers.
   */
  function OwnEntries(v: Json): (m: map<string, Json>)
    ensures v.JObj? ==> m == v.fields
    ensures v.JNull? || v.JBool? || v.JNum? ==> m == map[]
    ensures v.JArr? ==> m.Keys == IndexKeys(|v.items|)
    ensures v.JStr? ==> m.Keys == IndexKeys(|v.s|)
    ensures v.JArr? ==> forall i :: 0 <= i < |v.items| ==> m[NatString(i)] == v.items[i]
    ensures v.JStr? ==> forall i :: 0 <= i < |v.s| ==> m[NatString(i)] == JStr([v.s[i]])
  {
    match v
    case JObj(fields) => fields
    case JArr(items) => IndexEntries(items)
    case JStr(s) => IndexEntries(seq(|s|, i requires 0 <= i < |s| => JStr([s[i]])))
    case _ => map[]
  }

  /** The property names "0", "1", ... of an array or string of length `n`. */
  ghost function IndexKeys(n: nat): set<string>
  {
    set i | 0 <= i < n :: NatString(i)
  }

  /** The index-keyed entries of a sequence. */
  function IndexEntries(items: seq<Json>): (m: map<string, Json>)
    ensures m.Keys == IndexKeys(|items|)
    ensures forall i :: 0 <= i < |items| ==> m[NatString(i)] == items[i]
  {
    assert forall i, j :: 0 <= i < |items| && 0 <= j < |items| && NatString(i) == NatString(j) ==> i == j by {
      forall i, j | 0 <= i < |items| && 0 <= j < |items| && NatString(i) == NatString(j) ensures i == j {
        NatStringInjective(i, j);
      }
    }
    map i | 0 <= i < |items| :: NatString(i) := items[i]
  }

  /**
   * What a template literal `${v}` (or assigning `v` to a string-valued DOM
   * property) produces: "undefined", "null", "true"/"false", the digits of a
   * number, the string itself, the comma-joined elements of an array (null
   * elements print as empty), "[object Object]" for an object.
   */
  function ToJsString(v: Option<Json>): (r: string)
    ensures v.None? ==> r == "undefined"
    ensures v.Some? && v.value.JStr? ==> r == v.value.s
  {
    match v
    case None => "undefined"
    case Some(j) => JsonString(j)
  }

  function JsonString(j: Json): string
    decreases j, 1, 0
  {
    match j
    case JNull => "null"
    case JBool(b) => if b then "true" else "false"
    case JNum(n) => IntString(n)
    case JStr(s) => s
    case JArr(items) => JoinFrom(j, 0)
    case JObj(_) => "[object Object]"
  }

  /** `Array.prototype.join(",")` over the elements from index `i` on. */
  function JoinFrom(arr: Json, i: nat): string
    requires arr.JArr? && i <= |arr.items|
    decreases arr, 0, |arr.items| - i
  {
    if i == |arr.items| then ""
    else
      var e := arr.items[i];
      var text := if e.JNull? then "" else JsonString(e);
      if i == |arr.items| - 1 then text else text + "," + JoinFrom(arr, i + 1)
  }
}
