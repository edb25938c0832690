/**
 * The JavaScript values the core inspects after `JSON.parse` or receives as
 * plain objects: a record from storage, a share payload, a translation
 * dictionary. Numbers are the integral and infinite doubles the core can
 * meet; property lookup is own-property lookup.
 */
module JsValues {
  import opened Wrappers
  import opened Text

  /** An integral double, or one of the two infinities (`JSON.parse("1e400")` is `Infinity`). */
  datatype JsNumber = Finite(n: int) | Infinity(negative: bool)

  datatype JsValue =
    | Undefined
    | Null
    | Bool(b: bool)
    | Num(num: JsNumber)
    | Str(s: String)
    | Arr(elems: seq<JsValue>)
    | Obj(props: map<String, JsValue>)

  /** `Boolean(v)`. */
  predicate Truthy(v: JsValue) {
    match v
    case Undefined => false
    case Null => false
    case Bool(b) => b
    case Num(x) => !(x.Finite? && x.n == 0)
    case Str(s) => s != []
    case Arr(_) => true
    case Obj(_) => true
  }

  /** `typeof v === 'object'` together with `!!v`: the values whose properties can be read. */
  predicate IsObjectLike(v: JsValue) {
    v.Arr? || v.Obj?
  }

  /** `Number.isFinite(v)`. */
  predicate IsFiniteNumber(v: JsValue) {
    v.Num? && v.num.Finite?
  }

  /** `String(x)` for a number. */
  function NumberToString(x: JsNumber): (r: String)
    ensures r != []
  {
    match x
    case Finite(n) => Decimal(n)
    case Infinity(negative) => if negative then Lit("-Infinity") else Lit("Infinity")
  }

  /**
   * The array index a property key denotes: a canonical decimal numeral
   * (no sign, no leading zero) below 2^32 - 1.
   */
  function ArrayIndex(key: String): (r: Option<nat>)
    ensures r.Some? ==> r.value < 0xFFFF_FFFF
  {
    if key != [] && (forall k | 0 <= k < |key| :: 48 <= key[k] <= 57) && (|key| == 1 || key[0] != 48) then
      var v := RadixValue(key, 10);
      if v < 0xFFFF_FFFF then Some(v) else None
    else None
  }

  /** The decimal numeral of an index is that index's key. */
  lemma ArrayIndexOfDecimal(k: nat)
    requires k < 0xFFFF_FFFF
    ensures ArrayIndex(Decimal(k)) == Some(k)
  {
    var d := ToRadix(k, 10);
    RadixRoundTrip(k, 10);
    assert forall i | 0 <= i < |d| :: IsDigitOf(d[i], 10);
    if |d| > 1 {
      assert d[0] != 48;
    }
  }

  /** `length`, the one own property of an array that is not an index. */
  const LengthKey: String := [108, 101, 110, 103, 116, 104]

  /** `v[key]` for an object or array, own properties only. */
  function GetProp(v: JsValue, key: String): (r: JsValue)
    ensures v.Obj? && key in v.props ==> r == v.props[key]
    ensures v.Obj? && key !in v.props ==> r == Undefined
    ensures !IsObjectLike(v) ==> r == Undefined
  {
    match v
    case Obj(m) => if key in m then m[key] else Undefined
    case Arr(a) =>
      if key == LengthKey then Num(Finite(|a|))
      else (
        match ArrayIndex(key)
        case Some(k) => if k < |a| then a[k] else Undefined
        case None => Undefined)
    case _ => Undefined
  }

  /** Element `k` of an array is found under the key `String(k)`. */
  lemma GetArrayElement(a: seq<JsValue>, k: nat)
    requires k < |a| && k < 0xFFFF_FFFF
    ensures GetProp(Arr(a), Decimal(k)) == a[k]
  {
    ArrayIndexOfDecimal(k);
    assert IsDigitOf(Decimal(k)[0], 10);
  }

  /** The string a property holds, if it is one: `typeof v[key] === 'string' ? v[key] : null`. */
  function GetString(v: JsValue, key: String): (r: Option<String>)
    ensures r.Some? <==> GetProp(v, key).Str?
    ensures r.Some? ==> r.value == GetProp(v, key).s
  {
    match GetProp(v, key)
    case Str(s) => Some(s)
    case _ => None
  }
}
