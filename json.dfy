/** JavaScript values as they appear in the plain-object form (`toPlainObject()`)
    of entries and assets, with the few JavaScript operations the copier applies
    to them: truthiness, optional property reads and template-string conversion. */
module Json {

  /** A JSON-like JavaScript value. Numbers are integers only. */
  datatype Value =
    | Undefined
    | Null
    | Bool(b: bool)
    | Num(n: int)
    | Str(s: string)
    | Arr(items: seq<Value>)
    | Obj(props: map<string, Value>)

  /** JavaScript truthiness, as used by `if (v)` and `!!v`. */
  predicate Truthy(v: Value) {
    match v
    case Undefined => false
    case Null => false
    case Bool(b) => b
    case Num(n) => n != 0
    case Str(s) => s != ""
    case Arr(_) => true
    case Obj(_) => true
  }

  /** The property read `v?.k`: a missing key, and any key of something that is
      not a plain object, reads as `undefined`. */
  function Prop(v: Value, k: string): Value {
    if v.Obj? && k in v.props then v.props[k] else Undefined
  }

  /** The character of one decimal digit. */
  function DigitChar(d: nat): char
    requires d < 10
  {
    (48 + d) as char
  }

  /** Decimal notation of a natural number, most significant digit first. */
  function Decimal(n: nat): (s: string)
    ensures 1 <= |s|
    ensures n < 10 <==> |s| == 1
    ensures s[|s| - 1] == DigitChar(n % 10)
  {
    if n < 10 then [DigitChar(n)] else Decimal(n / 10) + [DigitChar(n % 10)]
  }

  /** Two numbers with the same decimal notation are equal. */
  lemma {:induction false} DecimalInjective(m: nat, n: nat)
    requires Decimal(m) == Decimal(n)
    ensures m == n
  {
    if 10 <= m {
      var dm, dn := Decimal(m), Decimal(n);
      assert dm[..|dm| - 1] == Decimal(m / 10);
      assert dn[..|dn| - 1] == Decimal(n / 10);
      DecimalInjective(m / 10, n / 10);
    }
  }

  /** The falsy values of JavaScript, as far as this model has them:
      `undefined`, `null`, `false`, `0` and the empty string. */
  lemma FalsyValues(v: Value)
    ensures !Truthy(v) <==> v == Undefined || v == Null || v == Bool(false) || v == Num(0) || v == Str("")
  {
  }

  /** The number a string of decimal digits denotes, most significant digit
      first; a character that is not a digit counts as 0. */
  function DecimalValue(s: string): nat {
    if |s| == 0 then 0
    else
      var c := s[|s| - 1];
      10 * DecimalValue(s[..|s| - 1]) + if '0' <= c <= '9' then c as int - 48 else 0
  }

  /** Reading back the decimal notation of a number gives the number. */
  lemma {:induction false} DecimalValueOfDecimal(n: nat)
    ensures DecimalValue(Decimal(n)) == n
  {
    var s := Decimal(n);
    if n < 10 {
      assert s[..0] == [];
    } else {
      assert s[..|s| - 1] == Decimal(n / 10);
      DecimalValueOfDecimal(n / 10);
    }
  }

  /** The string a template literal `${v}` produces for `v`. */
  function TemplateString(v: Value): string
    decreases v, 1, 0
  {
    match v
    case Undefined => "undefined"
    case Null => "null"
    case Bool(b) => if b then "true" else "false"
    case Num(n) => if n < 0 then "-" + Decimal(-n) else Decimal(n)
    case Str(s) => s
    case Arr(items) => JoinFrom(v, 0)
    case Obj(_) => "[object Object]"
  }

  /** `Array.prototype.join(",")` over the items of `v` from index `i` on;
      `null` and `undefined` items become empty strings. */
  function JoinFrom(v: Value, i: nat): string
    requires v.Arr? && i <= |v.items|
    decreases v, 0, |v.items| - i
  {
    if i == |v.items| then ""
    else
      var item := v.items[i];
      var text := if item.Null? || item.Undefined? then "" else TemplateString(item);
      if i + 1 == |v.items| then text else text + "," + JoinFrom(v, i + 1)
  }
}
