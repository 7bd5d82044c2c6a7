/**
 * The few JavaScript runtime semantics the org chart code leans on:
 * untyped values and their truthiness, `Number.prototype.toString` on
 * integers, `ToInt32`, the truncating `%`, UTF-16 code units, ASCII
 * `toLowerCase`, `includes` and the whitespace test behind `trim()`.
 */
module JsRuntime {

  datatype Option<T> = None | Some(value: T)

  /** A value read from an untyped (`any`) record. Objects, arrays and
      non-integral numbers are not represented. */
  datatype JsValue = Undefined | Null | Bool(b: bool) | Num(n: int) | Str(s: string)

  /** JavaScript truthiness: `undefined`, `null`, `false`, `0` and `""` are falsy. */
  predicate Truthy(v: JsValue) {
    match v
    case Undefined => false
    case Null => false
    case Bool(b) => b
    case Num(n) => n != 0
    case Str(s) => s != ""
  }

  /** The value of `a || b`. */
  function Or(a: JsValue, b: JsValue): JsValue {
    if Truthy(a) then a else b
  }

  /** `Number(v)` for the values that reach a numeric context. */
  function ToNumber(v: JsValue): int {
    match v
    case Undefined => 0   // NaN in JavaScript; never reached by the callers modelled here
    case Null => 0
    case Bool(b) => if b then 1 else 0
    case Num(n) => n
    case Str(_) => 0      // only reached for non-strings by the callers modelled here
  }

  /** `Math.abs` on an integer. */
  function Abs(n: int): (r: nat)
    ensures r == n || r == -n
  {
    if n < 0 then -n else n
  }

  // ---------------------------------------------------------------------
  // Decimal text of integers (`n.toString()` and `${n}`)
  // ---------------------------------------------------------------------

  predicate IsDigit(c: char) {
    '0' <= c <= '9'
  }

  function DigitChar(d: int): (c: char)
    requires 0 <= d < 10
    ensures IsDigit(c) && c as int - '0' as int == d
  {
    ('0' as int + d) as char
  }

  /** Decimal digits of a natural number, most significant first, no leading zeros. */
  function NatToString(n: nat): (s: string)
    ensures |s| >= 1
    ensures forall i :: 0 <= i < |s| ==> IsDigit(s[i])
    ensures n < 10 <==> |s| == 1
    decreases n
  {
    if n < 10 then [DigitChar(n)] else NatToString(n / 10) + [DigitChar(n % 10)]
  }

  /** `n.toString()` for an integer `n`: a minus sign exactly for negative
      numbers, then the digits of the magnitude. */
  function IntToString(n: int): (s: string)
    ensures |s| >= 1
    ensures s[0] == '-' <==> n < 0
  {
    if n < 0 then "-" + NatToString(-n) else NatToString(n)
  }

  /** Apart from a leading minus sign, the text is all digits. */
  lemma IntToStringDigits(n: int)
    ensures forall i :: (if n < 0 then 1 else 0) <= i < |IntToString(n)| ==> IsDigit(IntToString(n)[i])
  {
  }

  lemma {:induction false} NatToStringInjective(a: nat, b: nat)
    requires NatToString(a) == NatToString(b)
    ensures a == b
    decreases a
  {
    var s := NatToString(a);
    if a >= 10 && b >= 10 {
      assert s[|s| - 1] == DigitChar(a % 10) == DigitChar(b % 10);
      assert s[..|s| - 1] == NatToString(a / 10) == NatToString(b / 10);
      NatToStringInjective(a / 10, b / 10);
    }
  }

  /** Distinct integers have distinct decimal texts. */
  lemma IntToStringInjective(a: int, b: int)
    ensures IntToString(a) == IntToString(b) <==> a == b
  {
    if a < 0 <= b {
      assert IntToString(a)[0] == '-' && IsDigit(IntToString(b)[0]);
    } else if b < 0 <= a {
      assert IntToString(b)[0] == '-' && IsDigit(IntToString(a)[0]);
    } else if IntToString(a) == IntToString(b) {
      if a < 0 {
        assert NatToString(-a) == IntToString(a)[1..] == IntToString(b)[1..] == NatToString(-b);
        NatToStringInjective(-a, -b);
      } else {
        NatToStringInjective(a, b);
      }
    }
  }

  /** The text form a template literal `${v}` gives a value. */
  function TemplateText(v: JsValue): string {
    match v
    case Undefined => "undefined"
    case Null => "null"
    case Bool(b) => if b then "true" else "false"
    case Num(n) => IntToString(n)
    case Str(s) => s
  }

  // ---------------------------------------------------------------------
  // Integer conversions
  // ---------------------------------------------------------------------

  const TWO_31: int := 0x8000_0000
  const TWO_32: int := 0x1_0000_0000

  predicate IsInt32(v: int) {
    -TWO_31 <= v < TWO_31
  }

  /** The ECMAScript `ToInt32` conversion: the unique 32-bit signed integer
      congruent to `v` modulo 2^32. */
  function ToInt32(v: int): (r: int)
    ensures IsInt32(r)
    ensures (v - r) % TWO_32 == 0
  {
    var m := v % TWO_32;
    if m >= TWO_31 then m - TWO_32 else m
  }

  /** `ToInt32` only depends on its argument modulo 2^32. */
  lemma ToInt32Congruent(a: int, b: int)
    requires (a - b) % TWO_32 == 0
    ensures ToInt32(a) == ToInt32(b)
  {
    var ra, rb := ToInt32(a), ToInt32(b);
    var qa, qb := (a - ra) / TWO_32, (b - rb) / TWO_32;
    var q := (a - b) / TWO_32;
    assert a - ra == qa * TWO_32;
    assert b - rb == qb * TWO_32;
    assert a - b == q * TWO_32;
    assert ra - rb == (q - qa + qb) * TWO_32;
  }

  lemma MultipleOfTwo32(m: int)
    ensures (m * TWO_32) % TWO_32 == 0
  {
  }

  /** A 32-bit integer is its own `ToInt32`. */
  lemma ToInt32OfInt32(v: int)
    requires IsInt32(v)
    ensures ToInt32(v) == v
  {
    ToInt32Congruent(v, ToInt32(v));
    assert (v - ToInt32(v)) % TWO_32 == 0;
  }

  /** JavaScript's `a % b` for a positive divisor: the remainder takes the sign
      of the dividend (Dafny's `%` is Euclidean). */
  function JsRem(a: int, b: int): (r: int)
    requires b > 0
    ensures a >= 0 ==> 0 <= r < b
    ensures a < 0 ==> -b < r <= 0
  {
    if a >= 0 then a % b else -((-a) % b)
  }

  /** The quotient of `a / b` truncated toward zero. */
  function TruncQuot(a: int, b: int): int
    requires b > 0
  {
    if a >= 0 then a / b else -((-a) / b)
  }

  /** The remainder is what is left after the truncated quotient, so with
      its sign and range it is the value JavaScript's `%` gives. */
  lemma JsRemTruncates(a: int, b: int)
    requires b > 0
    ensures a == b * TruncQuot(a, b) + JsRem(a, b)
  {
  }

  // ---------------------------------------------------------------------
  // Strings as JavaScript sees them
  // ---------------------------------------------------------------------

  /** The UTF-16 code units of one character (`charCodeAt` sees these). */
  function CharUnits(c: char): (u: seq<int>)
    ensures 1 <= |u| <= 2
    ensures forall i :: 0 <= i < |u| ==> 0 <= u[i] < 0x1_0000
    ensures c as int < 0x1_0000 ==> u == [c as int]
    ensures c as int >= 0x1_0000 ==>
      && |u| == 2 && 0xD800 <= u[0] < 0xDC00 && 0xDC00 <= u[1] < 0xE000
      && 0x1_0000 + (u[0] - 0xD800) * 0x400 + (u[1] - 0xDC00) == c as int
  {
    var v := c as int;
    if v < 0x1_0000 then [v]
    else [0xD800 + (v - 0x1_0000) / 0x400, 0xDC00 + (v - 0x1_0000) % 0x400]
  }

  /** The UTF-16 code units of a string, in order. */
  function CodeUnits(s: string): (u: seq<int>)
    ensures |u| >= |s|
    ensures forall i :: 0 <= i < |u| ==> 0 <= u[i] < 0x1_0000
    ensures (forall i :: 0 <= i < |s| ==> s[i] as int < 0x1_0000) ==>
              |u| == |s| && forall i :: 0 <= i < |s| ==> u[i] == s[i] as int
  {
    if s == [] then [] else CodeUnits(s[..|s| - 1]) + CharUnits(s[|s| - 1])
  }

  /** The characters `String.prototype.trim` removes (WhiteSpace and LineTerminator). */
  predicate IsJsWhitespace(c: char) {
    var v := c as int;
    v == 0x09 || v == 0x0A || v == 0x0B || v == 0x0C || v == 0x0D || v == 0x20
    || v == 0xA0 || v == 0x1680 || (0x2000 <= v <= 0x200A) || v == 0x2028 || v == 0x2029
    || v == 0x202F || v == 0x205F || v == 0x3000 || v == 0xFEFF
  }

  /** `s.trim()` is the empty string: trimming from the start consumes
      the whole string. */
  predicate IsBlank(s: string)
    ensures IsBlank(s) <==> forall i :: 0 <= i < |s| ==> IsJsWhitespace(s[i])
  {
    s == [] || (IsJsWhitespace(s[0]) && IsBlank(s[1..]))
  }

  /** `toLowerCase` restricted to ASCII letters. */
  function LowerChar(c: char): char {
    if 'A' <= c <= 'Z' then (c as int + 32) as char else c
  }

  function Lower(s: string): (r: string)
    ensures |r| == |s|
    ensures forall i :: 0 <= i < |s| ==> r[i] == LowerChar(s[i])
  {
    if s == [] then [] else [LowerChar(s[0])] + Lower(s[1..])
  }

  /** `s.includes(t)`: `t` is a prefix of `s` or of one of its suffixes.
      The empty string is included in every string. */
  predicate Includes(s: string, t: string)
    ensures Includes(s, t) ==> |t| <= |s|
    ensures t == [] ==> Includes(s, t)
  {
    t <= s || (s != [] && Includes(s[1..], t))
  }

  /** `t` occurs in `s` starting at index `i`. */
  predicate OccursAt(s: string, t: string, i: int) {
    0 <= i && i + |t| <= |s| && s[i..i + |t|] == t
  }

  lemma OccursAtStart(s: string, t: string)
    ensures OccursAt(s, t, 0) <==> t <= s
  {
    if t <= s {
      assert s[0..|t|] == t;
    }
  }

  /** An occurrence in `s[1..]` is an occurrence in `s` one index later. */
  lemma OccursAtTail(s: string, t: string, i: int)
    requires s != [] && 0 <= i
    ensures OccursAt(s[1..], t, i) <==> OccursAt(s, t, i + 1)
  {
    if i + |t| <= |s[1..]| {
      assert s[1..][i..i + |t|] == s[i + 1..i + 1 + |t|];
    }
  }

  /** `includes` holds exactly when `t` occurs at some index of `s`. */
  lemma {:induction false} IncludesOccurrence(s: string, t: string)
    ensures Includes(s, t) <==> exists i :: OccursAt(s, t, i)
  {
    OccursAtStart(s, t);
    if s != [] && !(t <= s) {
      IncludesOccurrence(s[1..], t);
      forall i | 0 <= i ensures OccursAt(s[1..], t, i) <==> OccursAt(s, t, i + 1) {
        OccursAtTail(s, t, i);
      }
      assert forall i :: OccursAt(s, t, i) && i > 0 ==> OccursAt(s[1..], t, i - 1);
    }
  }

}
