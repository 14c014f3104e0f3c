/** The loosely typed values the application handles (spreadsheet cells as
    produced by the workbook parser, parsed JSON documents, the rows the
    vision service returns) and the coercions of the JavaScript runtime the
    application applies to them: truthiness, `||`, `String(v)`, `Number(v)`
    and `parseFloat`. Numbers are exact reals; NaN is `None`. */
module JsValue {
  import opened Wrappers
  import opened JsText

  datatype Value =
    | Missing                           // undefined
    | Null
    | Bool(b: bool)
    | Num(n: real)
    | Str(s: string)
    | Arr(items: seq<Value>)
    | Obj(fields: seq<(string, Value)>)

  /** The own enumerable properties of an object, in `Object.keys` order. */
  type Fields = seq<(string, Value)>

  /** `obj[k]`: the value of the first property named `k`, `undefined` if there is none. */
  function Get(fs: Fields, k: string): (v: Value)
    ensures (forall i :: 0 <= i < |fs| ==> fs[i].0 != k) ==> v == Missing
    ensures v != Missing ==> exists i :: 0 <= i < |fs| && fs[i] == (k, v)
  {
    if fs == [] then Missing else if fs[0].0 == k then fs[0].1 else Get(fs[1..], k)
  }

  /** Looking up a key that occurs once finds its value. */
  lemma {:induction false} GetFirstKey(fs: Fields, k: nat)
    requires k < |fs| && forall j :: 0 <= j < |fs| && j != k ==> fs[j].0 != fs[k].0
    ensures Get(fs, fs[k].0) == fs[k].1
  {
    if k > 0 {
      GetFirstKey(fs[1..], k - 1);
    }
  }

  /** `Object.keys(obj)`. */
  function Keys(fs: Fields): (ks: seq<string>)
    ensures |ks| == |fs| && forall i :: 0 <= i < |fs| ==> ks[i] == fs[i].0
  {
    seq(|fs|, i requires 0 <= i < |fs| => fs[i].0)
  }

  /** `Object.values(obj)`. */
  function Values(fs: Fields): (vs: seq<Value>)
    ensures |vs| == |fs| && forall i :: 0 <= i < |fs| ==> vs[i] == fs[i].1
  {
    seq(|fs|, i requires 0 <= i < |fs| => fs[i].1)
  }

  /** `obj.k` for any value: primitives, arrays and nullish values have none of the
      named properties the application reads. */
  function Prop(v: Value, k: string): Value {
    if v.Obj? then Get(v.fields, k) else Missing
  }

  predicate IsNullish(v: Value) {
    v.Missing? || v.Null?
  }

  /** JavaScript truthiness. */
  predicate Truthy(v: Value) {
    match v
    case Missing => false
    case Null => false
    case Bool(b) => b
    case Num(n) => n != 0.0
    case Str(s) => s != ""
    case Arr(_) => true
    case Obj(_) => true
  }

  /** `a || b`. */
  function Or(a: Value, b: Value): Value {
    if Truthy(a) then a else b
  }

  /** `String(v)`. Arrays join their elements with "," and render nullish elements as "". */
  function ToStr(v: Value): string
    decreases v
  {
    match v
    case Missing => "undefined"
    case Null => "null"
    case Bool(b) => if b then "true" else "false"
    case Num(n) => NumberToString(n)
    case Str(s) => s
    case Arr(items) =>
      Join(seq(|items|, i requires 0 <= i < |items| =>
                 if IsNullish(items[i]) then "" else ToStr(items[i])), ",")
    case Obj(_) => "[object Object]"
  }

  /** `String(v) || d` where a falsy `v` takes the default: the text a page stores
      for a name field that may be missing. */
  function TextOr(v: Value, d: string): string {
    if Truthy(v) then ToStr(v) else d
  }

  /** The decimal rendering of a number: an optional "-", the integer part and,
      when there is one, the fractional part (at most twenty digits). */
  function NumberToString(r: real): (s: string)
    ensures s != []
  {
    if r < 0.0 then "-" + NonNegativeToString(-r) else NonNegativeToString(r)
  }

  function NonNegativeToString(r: real): (s: string)
    requires r >= 0.0
    ensures s != [] && IsDigit(s[0])
  {
    var whole := r.Floor;
    NatToString(whole) + (if r == whole as real then "" else "." + FractionDigits(r - whole as real, 20))
  }

  function FractionDigits(f: real, fuel: nat): string
    requires 0.0 <= f < 1.0
    decreases fuel
  {
    if f == 0.0 || fuel == 0 then ""
    else
      var t := f * 10.0;
      var d := t.Floor;
      [DigitChar(d)] + FractionDigits(t - d as real, fuel - 1)
  }

  function Pow10(n: nat): (r: nat)
    ensures r >= 1
  {
    if n == 0 then 1 else 10 * Pow10(n - 1)
  }

  /** `x` times ten to the power `e`. */
  function Scale(x: real, e: int): (r: real)
    ensures x >= 0.0 ==> r >= 0.0
  {
    if e >= 0 then x * Pow10(e) as real else x / Pow10(-e) as real
  }

  /** The number of leading decimal digits of `s`. */
  function DigitRun(s: string): (n: nat)
    ensures n <= |s|
    ensures forall i :: 0 <= i < n ==> IsDigit(s[i])
    ensures n == |s| || !IsDigit(s[n])
  {
    if s != [] && IsDigit(s[0]) then 1 + DigitRun(s[1..]) else 0
  }

  /** An exponent part `e`/`E`, optional sign, one or more digits, at the start of `s`:
      its value and length, or `(0, 0)` when `s` does not start with one. */
  function ScanExponent(s: string): (r: (int, nat))
    ensures r.1 <= |s|
    ensures r.1 > 0 ==> s[0] == 'e' || s[0] == 'E'
  {
    if s == [] || (s[0] != 'e' && s[0] != 'E') then (0, 0)
    else
      var signed := |s| > 1 && (s[1] == '+' || s[1] == '-');
      var start := if signed then 2 else 1;
      var n := DigitRun(s[start..]);
      if n == 0 then (0, 0)
      else
        var magnitude: int := DigitsValue(s[start..start + n]);
        var e: int := if signed && s[1] == '-' then -magnitude else magnitude;
        (e, start + n)
  }

  /** Digits with an optional fraction, or a fraction alone, at the start of `s`:
      its value and length, or `None` when `s` does not start with one. */
  function ScanMantissa(s: string): (r: Option<(real, nat)>)
    ensures r.Some? ==> 0 < r.value.1 <= |s| && r.value.0 >= 0.0
  {
    var i := DigitRun(s);
    var dot := i < |s| && s[i] == '.';
    var f := if dot then DigitRun(s[i + 1..]) else 0;
    if i + f == 0 then None
    else
      var fraction := if dot then s[i + 1..i + 1 + f] else "";
      assert forall k :: 0 <= k < |fraction| ==> IsDigit(fraction[k]) by {
        if dot {
          assert forall k :: 0 <= k < f ==> fraction[k] == s[i + 1..][k];
        }
      }
      var whole := DigitsValue(s[..i]) as real;
      var part := DigitsValue(fraction) as real / Pow10(|fraction|) as real;
      Some((whole + part, if dot then i + 1 + f else i))
  }

  /** The unsigned decimal literal (mantissa and optional exponent) at the start of `s`. */
  function ScanUnsigned(s: string): (r: Option<(real, nat)>)
    ensures r.Some? ==> 0 < r.value.1 <= |s| && r.value.0 >= 0.0
  {
    match ScanMantissa(s)
    case None => None
    case Some(m) =>
      var exponent := ScanExponent(s[m.1..]);
      Some((Scale(m.0, exponent.0), m.1 + exponent.1))
  }

  /** The longest prefix of `s` that is a decimal literal (optional sign, digits with
      an optional fraction or a fraction alone, optional exponent): its value and
      length, or `None` when no prefix is one. */
  function ScanDecimal(s: string): (r: Option<(real, nat)>)
    ensures r.Some? ==> 0 < r.value.1 <= |s|
    ensures r.Some? && s[0] != '-' ==> r.value.0 >= 0.0
  {
    if s != [] && (s[0] == '+' || s[0] == '-') then
      match ScanUnsigned(s[1..])
      case None => None
      case Some(u) => Some((if s[0] == '-' then -u.0 else u.0, u.1 + 1))
    else
      ScanUnsigned(s)
  }

  /** `parseFloat(s)`: the decimal literal at the start of `s` after leading whitespace. */
  function ParseFloat(s: string): Option<real> {
    match ScanDecimal(TrimStart(s))
    case Some(p) => Some(p.0)
    case None => None
  }

  /** `Number(s)` for a string: the empty (or blank) string is 0, otherwise the whole
      trimmed string must be one decimal literal. */
  function StringToNumber(s: string): Option<real> {
    var t := Trim(s);
    if t == "" then Some(0.0)
    else match ScanDecimal(t)
      case Some(p) => if p.1 == |t| then Some(p.0) else None
      case None => None
  }

  /** `Number(v)`. */
  function ToNumber(v: Value): Option<real> {
    match v
    case Missing => None
    case Null => Some(0.0)
    case Bool(b) => Some(if b then 1.0 else 0.0)
    case Num(n) => Some(n)
    case Str(s) => StringToNumber(s)
    case Arr(_) => StringToNumber(ToStr(v))
    case Obj(_) => None
  }

  /** `Number(v) || 0`: never NaN, a number passes unchanged, anything that does not
      convert becomes 0. */
  function NumberOr0(v: Value): (r: real)
    ensures v.Num? ==> r == v.n
    ensures ToNumber(v).None? ==> r == 0.0
    ensures ToNumber(v).Some? ==> r == ToNumber(v).value
  {
    match ToNumber(v)
    case Some(x) => x
    case None => 0.0
  }

  /** `{...v}`: the own enumerable properties spreading `v` copies. Objects give
      their fields; arrays and strings give one property per index; other values none. */
  function Spread(v: Value): (fs: Fields)
    ensures v.Obj? ==> fs == v.fields
  {
    match v
    case Obj(fields) => fields
    case Arr(items) => seq(|items|, i requires 0 <= i < |items| => (NatToString(i), items[i]))
    case Str(s) => seq(|s|, i requires 0 <= i < |s| => (NatToString(i), Str([s[i]])))
    case _ => []
  }

  /** `{...fs, k: v}`: an existing property keeps its place and takes the new value;
      a new one is added at the end. */
  function SetProp(fs: Fields, k: string, v: Value): (r: Fields)
    ensures Get(r, k) == v
    ensures forall k' :: k' != k ==> Get(r, k') == Get(fs, k')
    ensures |fs| <= |r| <= |fs| + 1
    ensures forall i :: 0 <= i < |fs| ==> r[i].0 == fs[i].0
  {
    if fs == [] then [(k, v)]
    else if fs[0].0 == k then [(k, v)] + fs[1..]
    else [fs[0]] + SetProp(fs[1..], k, v)
  }
}
