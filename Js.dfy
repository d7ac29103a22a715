/** JavaScript values as the handlers see them: request-body fields and the values the
    store client hands back, with the coercions the handlers apply to them
    (truthiness, String(x) / template literals, Number(x)). */
module Js {

  datatype Option<T> = None | Some(value: T)

  datatype Result<T, E> = Ok(value: T) | Err(error: E)

  /** A JSON scalar: a string, an integer or a boolean. `None` of an `Option<Value>`
      stands for `undefined`/`null`. */
  datatype Value = Str(s: string) | Int(i: int) | Bool(b: bool)

  /** `!!v`: the empty string, 0, false, null and undefined are falsy. */
  predicate Truthy(v: Option<Value>)
  {
    match v
    case None => false
    case Some(Str(s)) => s != ""
    case Some(Int(i)) => i != 0
    case Some(Bool(b)) => b
  }

  predicate IsDigit(c: char)
  {
    '0' <= c <= '9'
  }

  function DigitChar(d: nat): (c: char)
    requires d < 10
    ensures IsDigit(c) && c as int - '0' as int == d
  {
    "0123456789"[d]
  }

  /** The decimal numeral of `n`, most significant digit first, no leading zeros. */
  function NatToDecimal(n: nat): (s: string)
    ensures |s| >= 1 && forall k :: 0 <= k < |s| ==> IsDigit(s[k])
    decreases n
  {
    if n < 10 then [DigitChar(n)] else NatToDecimal(n / 10) + [DigitChar(n % 10)]
  }

  /** `String(v)`, also what a template literal `${v}` produces. */
  function ToStr(v: Value): string
  {
    match v
    case Str(s) => s
    case Int(i) => if i < 0 then "-" + NatToDecimal(-i) else NatToDecimal(i)
    case Bool(b) => if b then "true" else "false"
  }

  /** The value of a non-empty string of decimal digits. */
  function DigitsValue(s: string): (n: nat)
    requires |s| >= 1 && forall k :: 0 <= k < |s| ==> IsDigit(s[k])
    decreases |s|
  {
    assert IsDigit(s[|s| - 1]);
    var last := s[|s| - 1] as int - '0' as int;
    if |s| == 1 then last else DigitsValue(s[..|s| - 1]) * 10 + last
  }

  /** `Number(v)` of a value read from the store; `None` of the result is NaN.
      `Number(null)` is 0 and `Number("")` is 0; strings other than unsigned
      decimal numerals read as NaN here. */
  function ToNumber(v: Option<Value>): Option<int>
  {
    match v
    case None => Some(0)
    case Some(Int(i)) => Some(i)
    case Some(Bool(b)) => Some(if b then 1 else 0)
    case Some(Str(s)) =>
      if s == "" then Some(0)
      else if forall k :: 0 <= k < |s| ==> IsDigit(s[k]) then Some(DigitsValue(s))
      else None
  }

  /** `Number(v) || 0`: NaN and 0 both read as 0. */
  function NumberOrZero(v: Option<Value>): (n: int)
    ensures v == None ==> n == 0
    ensures v.Some? && v.value.Int? ==> n == v.value.i
  {
    match ToNumber(v)
    case None => 0
    case Some(n) => n
  }

  /** A counter written as a decimal string reads back as the same number. */
  lemma {:induction false} DecimalRoundTrip(n: nat)
    ensures ToNumber(Some(Str(NatToDecimal(n)))) == Some(n)
  {
    DigitsOfDecimal(n);
  }

  lemma {:induction false} DigitsOfDecimal(n: nat)
    ensures DigitsValue(NatToDecimal(n)) == n
    decreases n
  {
    if n >= 10 {
      var s := NatToDecimal(n);
      assert s[..|s| - 1] == NatToDecimal(n / 10);
      DigitsOfDecimal(n / 10);
    }
  }
}
