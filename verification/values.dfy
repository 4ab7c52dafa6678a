/** Python values as they reach the backend from JSON documents, and the
    coercions the backend applies to them: `float(v)`, `int(v)`,
    `str.strip()` and arithmetic use of numbers. */
module Values {

  datatype Option<+T> = None | Some(value: T)

  /** A JSON-shaped Python value. `Bool` is kept apart from `Int` because the
      backend tests `isinstance(v, bool)` before `isinstance(v, int)`. */
  datatype Value = Bool(b: bool) | Int(i: int) | Real(r: real) | Str(s: string) | Null

  /** The characters Python's `str.isspace` accepts, so `str.strip()` removes them. */
  predicate IsSpace(c: char)
  {
    var n := c as int;
    (9 <= n <= 13) || (28 <= n <= 32) || n == 0x85 || n == 0xA0 || n == 0x1680
    || (0x2000 <= n <= 0x200A) || n == 0x2028 || n == 0x2029 || n == 0x202F
    || n == 0x205F || n == 0x3000
  }

  function TrimStart(s: string): (r: string)
    ensures |r| <= |s| && r == s[|s| - |r|..]
    ensures r == [] || !IsSpace(r[0])
    ensures forall i :: 0 <= i < |s| - |r| ==> IsSpace(s[i])
  {
    if |s| > 0 && IsSpace(s[0]) then TrimStart(s[1..]) else s
  }

  function TrimEnd(s: string): (r: string)
    ensures |r| <= |s| && r == s[..|r|]
    ensures r == [] || !IsSpace(r[|r| - 1])
    ensures forall i :: |r| <= i < |s| ==> IsSpace(s[i])
  {
    if |s| > 0 && IsSpace(s[|s| - 1]) then TrimEnd(s[..|s| - 1]) else s
  }

  /** Python's `s.strip()`: leading and trailing white space removed. */
  function Strip(s: string): (r: string)
    ensures |r| <= |s|
    ensures r == [] || (!IsSpace(r[0]) && !IsSpace(r[|r| - 1]))
  {
    TrimEnd(TrimStart(s))
  }

  predicate IsDigit(c: char) { '0' <= c <= '9' }

  function DigitValue(c: char): (d: nat)
    requires IsDigit(c)
    ensures d <= 9
  {
    (c as int) - ('0' as int)
  }

  predicate AllDigits(s: string) { forall i :: 0 <= i < |s| ==> IsDigit(s[i]) }

  /** The value of a string of decimal digits, most significant first. */
  function DigitsValue(s: string): (n: nat)
    requires AllDigits(s)
    ensures n < Pow10(|s|)
  {
    if |s| == 0 then 0 else DigitsValue(s[..|s| - 1]) * 10 + DigitValue(s[|s| - 1])
  }

  function Pow10(n: nat): (p: nat)
    ensures p >= 1
  {
    if n == 0 then 1 else 10 * Pow10(n - 1)
  }

  /** Splits an optional leading `+`/`-` off a literal: (negative?, rest). */
  function SplitSign(s: string): (r: (bool, string))
    ensures |r.1| <= |s|
  {
    if |s| > 0 && (s[0] == '+' || s[0] == '-') then (s[0] == '-', s[1..]) else (false, s)
  }

  /** Python's `int(s)` on an already stripped string: an optional sign and
      at least one decimal digit. */
  function ParseInt(s: string): (r: Option<int>)
    ensures r.Some? ==> |s| > 0
  {
    var (neg, digits) := SplitSign(s);
    if |digits| == 0 || !AllDigits(digits) then None
    else
      var n: int := DigitsValue(digits);
      Some(if neg then -n else n)
  }

  /** Index of the first `.` in `s`, or `|s|` when there is none. */
  function DotIndex(s: string): (k: nat)
    ensures k <= |s|
    ensures forall i :: 0 <= i < k ==> s[i] != '.'
    ensures k < |s| ==> s[k] == '.'
  {
    if |s| == 0 then 0 else if s[0] == '.' then 0 else 1 + DotIndex(s[1..])
  }

  /** Python's `float(s)` on an already stripped plain decimal literal:
      optional sign, then digits with an optional fraction (`12`, `1.5`,
      `3.`, `.25`). */
  function ParseFloat(s: string): (r: Option<real>)
    ensures r.Some? ==> |s| > 0
  {
    var (neg, body) := SplitSign(s);
    var k := DotIndex(body);
    var whole := body[..k];
    var frac := if k < |body| then body[k + 1..] else "";
    if |whole| + |frac| == 0 || !AllDigits(whole) || !AllDigits(frac) then None
    else
      var mag := DigitsValue(whole) as real + DigitsValue(frac) as real / Pow10(|frac|) as real;
      Some(if neg then -mag else mag)
  }

  /** Python's `int(x)` on a float: truncation toward zero. */
  function Truncate(x: real): (n: int)
    ensures x >= 0.0 ==> 0.0 <= n as real <= x < n as real + 1.0
    ensures x < 0.0 ==> n as real - 1.0 < x <= n as real <= 0.0
  {
    if x >= 0.0 then x.Floor else -((-x).Floor)
  }

  /** Python's `float(v)`; `None` where Python raises ValueError or TypeError. */
  function ToFloat(v: Value): (r: Option<real>)
    ensures v.Int? ==> r == Some(v.i as real)
    ensures v.Real? ==> r == Some(v.r)
    ensures v.Null? ==> r.None?
  {
    match v
    case Bool(b) => Some(if b then 1.0 else 0.0)
    case Int(i) => Some(i as real)
    case Real(x) => Some(x)
    case Str(s) => ParseFloat(Strip(s))
    case Null => None
  }

  /** Python's `int(v)`; `None` where Python raises ValueError or TypeError. */
  function ToInt(v: Value): (r: Option<int>)
    ensures v.Int? ==> r == Some(v.i)
    ensures v.Null? ==> r.None?
  {
    match v
    case Bool(b) => Some(if b then 1 else 0)
    case Int(i) => Some(i)
    case Real(x) => Some(Truncate(x))
    case Str(s) => ParseInt(Strip(s))
    case Null => None
  }

  /** The number a value stands for in Python arithmetic (`bool` is an `int`
      subclass); `None` for values arithmetic rejects. */
  function Numeric(v: Value): (r: Option<real>)
    ensures r.Some? <==> (v.Bool? || v.Int? || v.Real?)
  {
    match v
    case Bool(b) => Some(if b then 1.0 else 0.0)
    case Int(i) => Some(i as real)
    case Real(x) => Some(x)
    case _ => None
  }

  /** ASCII lower-casing: upper-case Latin letters map to lower case, every
      other character is kept. */
  function Lower(s: string): (r: string)
    ensures |r| == |s|
    ensures forall i :: 0 <= i < |s| ==>
      r[i] == (if 'A' <= s[i] <= 'Z' then (s[i] as int + 32) as char else s[i])
  {
    if |s| == 0 then "" else
      var c := s[0];
      [if 'A' <= c <= 'Z' then (c as int + 32) as char else c] + Lower(s[1..])
  }
}
