/**
 * The slice of JavaScript's value model that the x2m search engine inspects:
 * record field values, cell values, group keys and domain terms.
 *
 * Numbers are integers (record ids, counts and integer field values) plus
 * NaN, which parseInt yields on text without digits; strings are sequences
 * of UTF-16 code units.
 */
module JsValues {

  datatype Option<+T> = None | Some(value: T)

  /** A JavaScript value as read from record data, a cell or a domain. */
  datatype Value =
    | Undefined
    | Null
    | Bool(b: bool)
    | Num(n: int)
    | NaN
    | Str(s: string)
    | Arr(elems: seq<Value>)
    | Obj(props: map<string, Value>)

  /** `v == null` in JavaScript: true for null and undefined only. */
  predicate IsNullish(v: Value) {
    v.Undefined? || v.Null?
  }

  /** JavaScript truthiness (`if (v)`, `v || w`, `v && w`). */
  predicate Truthy(v: Value) {
    match v
    case Undefined => false
    case Null => false
    case Bool(b) => b
    case Num(n) => n != 0
    case NaN => false
    case Str(s) => s != ""
    case Arr(_) => true
    case Obj(_) => true
  }

  // ---------------------------------------------------------------------------
  // Characters and decimal digits

  predicate IsDigit(c: char) {
    '0' <= c <= '9'
  }

  /**
   * The characters String.prototype.trim and parseFloat skip: the ECMAScript
   * WhiteSpace set (tab, vertical tab, form feed, space, no-break space, byte
   * order mark and the space separators) and the line terminators.
   */
  predicate IsJsWhitespace(c: char) {
    var u := c as int;
    (9 <= u <= 13) || u == 0x20 || u == 0xA0 || u == 0x1680 || (0x2000 <= u <= 0x200A) ||
    u == 0x2028 || u == 0x2029 || u == 0x202F || u == 0x205F || u == 0x3000 || u == 0xFEFF
  }

  function DigitChar(d: nat): (c: char)
    requires d < 10
    ensures IsDigit(c)
  {
    ['0', '1', '2', '3', '4', '5', '6', '7', '8', '9'][d]
  }

  function DigitValue(c: char): (d: nat)
    requires IsDigit(c)
    ensures d < 10
  {
    (c as int - '0' as int) as nat
  }

  lemma DigitRoundTrip(d: nat)
    requires d < 10
    ensures DigitValue(DigitChar(d)) == d
  {
  }

  /** Decimal text of a natural number, without leading zeros. */
  function NatToString(n: nat): (r: string)
    ensures |r| > 0
    ensures forall i :: 0 <= i < |r| ==> IsDigit(r[i])
  {
    if n < 10 then [DigitChar(n)] else NatToString(n / 10) + [DigitChar(n % 10)]
  }

  /** `String(n)` for an integer. */
  function IntToString(n: int): string {
    if n < 0 then "-" + NatToString(-n) else NatToString(n)
  }

  /** The value of a string made of decimal digits only. */
  function DigitsValue(s: string): nat
    requires forall i :: 0 <= i < |s| ==> IsDigit(s[i])
  {
    if s == [] then 0 else DigitsValue(s[..|s| - 1]) * 10 + DigitValue(s[|s| - 1])
  }

  /** Length of the run of decimal digits that starts `s`. */
  function DigitRun(s: string): (k: nat)
    ensures k <= |s|
    ensures forall i :: 0 <= i < k ==> IsDigit(s[i])
    ensures k < |s| ==> !IsDigit(s[k])
  {
    if s != [] && IsDigit(s[0]) then 1 + DigitRun(s[1..]) else 0
  }

  /** Number of leading whitespace characters of `s`. */
  function LeadingSpace(s: string): (k: nat)
    ensures k <= |s|
    ensures forall i :: 0 <= i < k ==> IsJsWhitespace(s[i])
    ensures k < |s| ==> !IsJsWhitespace(s[k])
  {
    if s != [] && IsJsWhitespace(s[0]) then 1 + LeadingSpace(s[1..]) else 0
  }

  /** Number of trailing whitespace characters of `s`. */
  function TrailingSpace(s: string): (k: nat)
    ensures k <= |s|
    ensures forall i :: |s| - k <= i < |s| ==> IsJsWhitespace(s[i])
    ensures k < |s| ==> !IsJsWhitespace(s[|s| - 1 - k])
  {
    if s != [] && IsJsWhitespace(s[|s| - 1]) then 1 + TrailingSpace(s[..|s| - 1]) else 0
  }

  /** The trailing whitespace of a suffix of `s` is trailing whitespace of `s`. */
  lemma TrailingSpaceOfSuffix(s: string, a: nat)
    requires a <= |s|
    ensures TrailingSpace(s[a..]) <= |s| - a
    ensures forall i :: |s| - TrailingSpace(s[a..]) <= i < |s| ==> IsJsWhitespace(s[i])
  {
    var t := s[a..];
    assert forall i :: |s| - TrailingSpace(t) <= i < |s| ==> s[i] == t[i - a];
  }

  /** String.prototype.trim. */
  function Trim(s: string): (r: string)
    ensures |r| <= |s|
    ensures r != [] ==> !IsJsWhitespace(r[0]) && !IsJsWhitespace(r[|r| - 1])
    ensures forall i :: 0 <= i < |r| ==> r[i] in s
    ensures exists a, b :: 0 <= a <= b <= |s| && r == s[a..b] &&
                          (forall i :: 0 <= i < a ==> IsJsWhitespace(s[i])) &&
                          (forall i :: b <= i < |s| ==> IsJsWhitespace(s[i]))
  {
    var a := LeadingSpace(s);
    var t := s[a..];
    var b := |s| - TrailingSpace(t);
    TrailingSpaceOfSuffix(s, a);
    assert s[a..b] == t[..|t| - TrailingSpace(t)];
    t[..|t| - TrailingSpace(t)]
  }

  // ---------------------------------------------------------------------------
  // String conversion

  /** `String(v)`; an array is joined with "," and its null/undefined elements print as "". */
  function ToStr(v: Value): string
    decreases v
  {
    match v
    case Undefined => "undefined"
    case Null => "null"
    case Bool(b) => if b then "true" else "false"
    case Num(n) => IntToString(n)
    case NaN => "NaN"
    case Str(s) => s
    case Arr(es) => Join(es)
    case Obj(_) => "[object Object]"
  }

  function Join(es: seq<Value>): string
    decreases es
  {
    if es == [] then ""
    else
      var first := if IsNullish(es[0]) then "" else ToStr(es[0]);
      if |es| == 1 then first else first + "," + Join(es[1..])
  }

  // ---------------------------------------------------------------------------
  // Number parsing

  /** The text after leading whitespace and an optional sign, and whether the sign was '-'. */
  function Unsigned(s: string): (string, bool) {
    var t := s[LeadingSpace(s)..];
    var negative := |t| > 0 && t[0] == '-';
    (if |t| > 0 && (t[0] == '-' || t[0] == '+') then t[1..] else t, negative)
  }

  /**
   * `parseInt(s, 10)`: leading whitespace is skipped, an optional sign is
   * read, then the longest run of decimal digits; None stands for NaN (no
   * digit where one is needed).
   */
  function ParseIntPrefix(s: string): (r: Option<int>)
    ensures r.Some? ==> exists i :: 0 <= i < |s| && IsDigit(s[i])
  {
    var (u, negative) := Unsigned(s);
    var k := DigitRun(u);
    if k == 0 then None
    else
      assert IsDigit(u[0]) && u[0] in s;
      var m: int := DigitsValue(u[..k]);
      Some(if negative then -m else m)
  }

  function Pow10(k: nat): (r: nat)
    ensures r >= 1
  {
    if k == 0 then 1 else 10 * Pow10(k - 1)
  }

  /**
   * `parseFloat(s)` on decimal text: whitespace, an optional sign, an integer
   * part and an optional fraction after '.', at least one digit in all;
   * None stands for NaN.
   */
  function ParseFloatPrefix(s: string): (r: Option<real>)
    ensures r.Some? ==> exists i :: 0 <= i < |s| && IsDigit(s[i])
  {
    var (u, negative) := Unsigned(s);
    var k := DigitRun(u);
    var rest := u[k..];
    var f := if |rest| > 0 && rest[0] == '.' then DigitRun(rest[1..]) else 0;
    if k == 0 && f == 0 then None
    else
      assert if k > 0 then u[0] in s && IsDigit(u[0]) else rest[1] in s && IsDigit(rest[1]);
      var whole: real := DigitsValue(u[..k]) as real;
      var frac: real := if f > 0 then DigitsValue(rest[1..][..f]) as real / Pow10(f) as real else 0.0;
      Some(if negative then -(whole + frac) else whole + frac)
  }

  /** `parseFloat(v)` on a group key: the key is converted with String() first. */
  function ParseNumber(v: Value): Option<real> {
    ParseFloatPrefix(ToStr(v))
  }

  /** Optional exponent of a numeric literal: empty, or e/E, an optional sign and digits. */
  predicate IsExponentText(s: string) {
    s == [] ||
    (s[0] in "eE" &&
     var t := if |s| > 1 && s[1] in "+-" then s[2..] else s[1..];
     |t| > 0 && DigitRun(t) == |t|)
  }

  /** `0x`, `0b` or `0o` (either case) followed by at least one digit of that base, as `Number()` reads them. */
  predicate IsRadixLiteral(t: string) {
    |t| > 2 && t[0] == '0' &&
    ((t[1] in "xX" && forall i :: 2 <= i < |t| ==> IsDigit(t[i]) || t[i] in "abcdefABCDEF")
     || (t[1] in "bB" && forall i :: 2 <= i < |t| ==> t[i] in "01")
     || (t[1] in "oO" && forall i :: 2 <= i < |t| ==> t[i] in "01234567"))
  }

  /**
   * Text on which `isNaN` is false, that is, which `Number()` reads: after
   * trimming whitespace, blank text (0), an optionally signed "Infinity", an
   * unsigned hexadecimal, binary or octal literal, or an optionally signed
   * decimal literal with an optional exponent.
   */
  predicate IsNumericText(s: string) {
    var t := Trim(s);
    var u := if |t| > 0 && (t[0] == '-' || t[0] == '+') then t[1..] else t;
    var k := DigitRun(u);
    var rest := u[k..];
    var f := if |rest| > 0 && rest[0] == '.' then 1 + DigitRun(rest[1..]) else 0;
    t == [] || u == "Infinity" || IsRadixLiteral(t) || ((k > 0 || f > 1) && IsExponentText(rest[f..]))
  }

  // ---------------------------------------------------------------------------
  // Lemmas

  lemma {:induction false} DigitsValueOfNatToString(n: nat)
    ensures DigitsValue(NatToString(n)) == n
  {
    var r := NatToString(n);
    if n < 10 {
      DigitRoundTrip(n);
    } else {
      DigitsValueOfNatToString(n / 10);
      assert r[..|r| - 1] == NatToString(n / 10);
      DigitRoundTrip(n % 10);
    }
  }

  lemma DigitRunAll(s: string)
    requires forall i :: 0 <= i < |s| ==> IsDigit(s[i])
    ensures DigitRun(s) == |s|
  {
  }

  lemma LeadingSpaceOfDigit(s: string)
    requires |s| > 0 && (IsDigit(s[0]) || s[0] == '-')
    ensures LeadingSpace(s) == 0
  {
  }

  /** Text that neither starts nor ends with whitespace is its own trim. */
  lemma TrimUnpadded(t: string)
    requires |t| > 0 && !IsJsWhitespace(t[0]) && !IsJsWhitespace(t[|t| - 1])
    ensures Trim(t) == t
  {
    assert LeadingSpace(t) == 0;
    assert t[0..] == t;
    assert TrailingSpace(t) == 0;
    assert t[..|t|] == t;
  }

  /** A hexadecimal, binary or octal literal is numeric text. */
  lemma RadixLiteralNumeric(t: string)
    requires IsRadixLiteral(t)
    ensures IsNumericText(t)
  {
    var last := t[|t| - 1];
    assert !IsJsWhitespace(last) by {
      assert IsDigit(last) || last in "abcdefABCDEF" || last in "01" || last in "01234567";
    }
    TrimUnpadded(t);
  }

  /**
   * `parseInt(…, 10)` reads text that starts with a 0 and then a non-digit,
   * such as a hexadecimal, binary or octal literal, as 0.
   */
  lemma LeadingZeroReadAsZero(t: string)
    requires |t| > 1 && t[0] == '0' && !IsDigit(t[1])
    ensures ParseIntPrefix(t) == Some(0)
  {
    ZeroUnsigned(t);
    ZeroRun(t);
    ParseIntOfUnsigned(t, t, false);
    assert DigitsValue(t[..1]) == 0 by {
      assert t[..1][..0] == [];
    }
  }

  /** A hexadecimal, binary or octal literal starts with a 0 and then a letter. */
  lemma RadixLiteralShape(t: string)
    requires IsRadixLiteral(t)
    ensures |t| > 1 && t[0] == '0' && !IsDigit(t[1])
  {
    assert t[1] in "xXbBoO";
  }

  lemma ZeroUnsigned(t: string)
    requires |t| > 1 && t[0] == '0'
    ensures Unsigned(t) == (t, false)
  {
    LeadingSpaceOfDigit(t);
    assert t[0..] == t;
  }

  lemma ZeroRun(t: string)
    requires |t| > 1 && t[0] == '0' && !IsDigit(t[1])
    ensures DigitRun(t) == 1
  {
    assert DigitRun(t[1..]) == 0;
  }

  /** Text whose unsigned part starts with digits reads as their value, signed. */
  lemma ParseIntOfUnsigned(s: string, u: string, negative: bool)
    requires Unsigned(s) == (u, negative) && DigitRun(u) > 0
    ensures ParseIntPrefix(s) == Some(if negative then -(DigitsValue(u[..DigitRun(u)]) as int) else DigitsValue(u[..DigitRun(u)]) as int)
  {
  }

  /** "Infinity" is numeric text. */
  lemma InfinityNumeric()
    ensures IsNumericText("Infinity")
  {
    var t := "Infinity";
    assert !IsJsWhitespace(t[0]) && !IsJsWhitespace(t[|t| - 1]);
    TrimUnpadded(t);
  }

  /** `parseInt` finds no digit in "Infinity". */
  lemma InfinityNotInteger()
    ensures ParseIntPrefix("Infinity") == None
  {
    var t := "Infinity";
    assert LeadingSpace(t) == 0 by {
      assert !IsJsWhitespace(t[0]);
    }
    assert t[0..] == t;
    assert Unsigned(t) == (t, false);
    assert DigitRun(t) == 0 by {
      assert !IsDigit(t[0]);
    }
  }

  /** parseFloat(String(n)) == n: the number parser reads back every integer the printer writes. */
  lemma ParseNumberOfNum(n: int)
    ensures ParseNumber(Num(n)) == Some(n as real)
  {
    var m: nat := if n < 0 then -n else n;
    var digits := NatToString(m);
    DigitsValueOfNatToString(m);
    ParseFloatOfDigits(ToStr(Num(n)), digits, n < 0);
  }

  /** An optionally negated run of digits reads back as its value. */
  lemma ParseFloatOfDigits(s: string, digits: string, negative: bool)
    requires |digits| > 0 && forall i :: 0 <= i < |digits| ==> IsDigit(digits[i])
    requires s == if negative then "-" + digits else digits
    ensures ParseFloatPrefix(s) == Some(if negative then -(DigitsValue(digits) as real) else DigitsValue(digits) as real)
  {
    assert Unsigned(s) == (digits, negative) by {
      LeadingSpaceOfDigit(s);
      assert s[0..] == s;
      if negative {
        assert s[1..] == digits;
      }
    }
    DigitRunAll(digits);
    ParseFloatOfUnsigned(s, digits, negative);
  }

  /** Text whose unsigned part is all digits reads back as their value. */
  lemma ParseFloatOfUnsigned(s: string, u: string, negative: bool)
    requires Unsigned(s) == (u, negative) && |u| > 0 && DigitRun(u) == |u|
    ensures ParseFloatPrefix(s) == Some(if negative then -(DigitsValue(u) as real) else DigitsValue(u) as real)
  {
    assert u[..|u|] == u;
    assert u[|u|..] == [];
  }
}
