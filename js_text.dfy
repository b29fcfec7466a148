/**
 * The JavaScript string and number built-ins the frontend code uses:
 * `String.prototype.trim`, `String.prototype.toLowerCase` (ASCII letters),
 * `String.prototype.includes`, `String.prototype.slice` with one negative
 * argument, integer-to-decimal conversion (`${n}` and `toString()`), and
 * the string-to-integer conversion `BigInt(text)`.
 */
module JsText {
  import opened Wrappers

  /** The exception `BigInt(text)` throws on text that is not an integer literal. */
  datatype SyntaxError = SyntaxError(text: string)

  // ---------------------------------------------------------------------
  // White space and trim
  // ---------------------------------------------------------------------

  /** ECMAScript WhiteSpace and LineTerminator code points (what `trim` strips). */
  predicate IsJsWhiteSpace(c: char) {
    || c == '\t' || c == '\n' || c == '\U{000B}' || c == '\U{000C}' || c == '\r'
    || c == ' ' || c == '\U{00A0}' || c == '\U{1680}'
    || ('\U{2000}' <= c <= '\U{200A}')
    || c == '\U{2028}' || c == '\U{2029}' || c == '\U{202F}' || c == '\U{205F}'
    || c == '\U{3000}' || c == '\U{FEFF}'
  }

  predicate AllWhiteSpace(s: string) {
    forall i :: 0 <= i < |s| ==> IsJsWhiteSpace(s[i])
  }

  /** The index of the first character at or after k that is not white space (or |s|). */
  function SkipSpaceFrom(s: string, k: nat): (n: nat)
    requires k <= |s|
    ensures k <= n <= |s|
    ensures forall i :: k <= i < n ==> IsJsWhiteSpace(s[i])
    ensures n < |s| ==> !IsJsWhiteSpace(s[n])
    decreases |s| - k
  {
    if k == |s| || !IsJsWhiteSpace(s[k]) then k else SkipSpaceFrom(s, k + 1)
  }

  /** The index just past the last character before k, and at or after lo, that is not white space (or lo). */
  function SkipSpaceBack(s: string, lo: nat, k: nat): (n: nat)
    requires lo <= k <= |s|
    ensures lo <= n <= k
    ensures forall i :: n <= i < k ==> IsJsWhiteSpace(s[i])
    ensures n > lo ==> !IsJsWhiteSpace(s[n - 1])
    decreases k
  {
    if k == lo || !IsJsWhiteSpace(s[k - 1]) then k else SkipSpaceBack(s, lo, k - 1)
  }

  /** `s.trim()`: the text between the leading and the trailing white space. */
  function Trim(s: string): (r: string)
    ensures r != [] ==> !IsJsWhiteSpace(r[0]) && !IsJsWhiteSpace(r[|r| - 1])
  {
    var a := SkipSpaceFrom(s, 0);
    var b := SkipSpaceBack(s, a, |s|);
    s[a..b]
  }

  /** Trimming leaves nothing exactly when the text is all white space. */
  lemma TrimEmpty(s: string)
    ensures Trim(s) == [] <==> AllWhiteSpace(s)
  {
    var a := SkipSpaceFrom(s, 0);
    var b := SkipSpaceBack(s, a, |s|);
    if AllWhiteSpace(s) {
      assert a == |s|;
    } else {
      var i :| 0 <= i < |s| && !IsJsWhiteSpace(s[i]);
      assert a <= i < b;
    }
  }

  /** Text that contains no white space is its own trim. */
  lemma TrimNoWhiteSpace(s: string)
    requires forall i :: 0 <= i < |s| ==> !IsJsWhiteSpace(s[i])
    ensures Trim(s) == s
  {
    assert SkipSpaceFrom(s, 0) == 0;
    assert SkipSpaceBack(s, 0, |s|) == |s|;
  }

  // ---------------------------------------------------------------------
  // Lower case and substring search
  // ---------------------------------------------------------------------

  function LowerChar(c: char): char {
    if 'A' <= c <= 'Z' then (c as int + 32) as char else c
  }

  /** `s.toLowerCase()` restricted to the ASCII letters A to Z. */
  function ToLower(s: string): (r: string)
    ensures |r| == |s|
    ensures forall i :: 0 <= i < |s| ==> r[i] == LowerChar(s[i])
    ensures forall i :: 0 <= i < |r| ==> !('A' <= r[i] <= 'Z')
  {
    seq(|s|, i requires 0 <= i < |s| => LowerChar(s[i]))
  }

  /** Lower-casing twice is lower-casing once. */
  lemma ToLowerIdempotent(s: string)
    ensures ToLower(ToLower(s)) == ToLower(s)
  {
    var t := ToLower(s);
    assert forall i :: 0 <= i < |t| ==> LowerChar(t[i]) == t[i];
  }

  /** `sub` occurs in `s` starting at index i. */
  predicate OccursAt(s: string, sub: string, i: nat) {
    i + |sub| <= |s| && s[i..i + |sub|] == sub
  }

  /** `s.includes(sub)`. */
  predicate Includes(s: string, sub: string) {
    exists i: nat | i <= |s| :: OccursAt(s, sub, i)
  }

  // ---------------------------------------------------------------------
  // Slicing
  // ---------------------------------------------------------------------

  /** `s.slice(0, n)` for n >= 0. */
  function SliceHead(s: string, n: nat): (r: string)
    ensures |r| == if n < |s| then n else |s|
    ensures r == s[..|r|]
  {
    if n < |s| then s[..n] else s
  }

  /** `s.slice(-n)` for n > 0: the last n characters, or all of s when it is shorter. */
  function SliceTail(s: string, n: nat): (r: string)
    requires n > 0
    ensures |r| == if n < |s| then n else |s|
    ensures r == s[|s| - |r|..]
  {
    if n < |s| then s[|s| - n..] else s
  }

  // ---------------------------------------------------------------------
  // Decimal integers
  // ---------------------------------------------------------------------

  predicate IsDecimalDigit(c: char) { '0' <= c <= '9' }

  function DigitChar(d: nat): (c: char)
    requires d < 10
    ensures IsDecimalDigit(c)
  {
    ('0' as int + d) as char
  }

  /** Decimal rendering of a natural number, without leading zeros. */
  function NatToString(n: nat): (r: string)
    ensures |r| > 0
    ensures forall i :: 0 <= i < |r| ==> IsDecimalDigit(r[i])
    ensures r[0] == '0' ==> n == 0
  {
    if n < 10 then [DigitChar(n)] else NatToString(n / 10) + [DigitChar(n % 10)]
  }

  /** `${n}` for an integer-valued number (and `n.toString()` for a bigint). */
  function IntToString(n: int): (r: string)
    ensures |r| > 0
    ensures n >= 0 <==> IsDecimalDigit(r[0])
  {
    if n < 0 then "-" + NatToString(-n) else NatToString(n)
  }

  /** The value of a string of digits in the given base, most significant first. */
  function DigitsValue(s: string, base: nat): int
    requires 2 <= base <= 16
    requires AllDigits(s, base)
  {
    if s == [] then 0
    else
      assert forall i :: 0 <= i < |s| - 1 ==> s[..|s| - 1][i] == s[i];
      DigitsValue(s[..|s| - 1], base) * base + DigitValue(s[|s| - 1]).value
  }

  /** The value of a hexadecimal digit, upper or lower case. */
  function DigitValue(c: char): (r: Option<nat>)
    ensures r.Some? ==> r.value < 16
    ensures IsDecimalDigit(c) ==> r.Some? && r.value < 10
    ensures r.Some? && r.value < 10 ==> IsDecimalDigit(c)
  {
    if '0' <= c <= '9' then Some(c as int - '0' as int)
    else if 'a' <= c <= 'f' then Some(c as int - 'a' as int + 10)
    else if 'A' <= c <= 'F' then Some(c as int - 'A' as int + 10)
    else None
  }

  predicate AllDigits(s: string, base: nat) {
    forall i :: 0 <= i < |s| ==> DigitValue(s[i]).Some? && DigitValue(s[i]).value < base
  }

  /**
   * `BigInt(text)`: white space around the literal is ignored, empty text is 0,
   * `0x`/`0o`/`0b` (either case) introduce a hexadecimal, octal or binary literal
   * without sign, and otherwise the literal is an optional sign and decimal digits.
   * Anything else (a fraction, an exponent, a stray character) throws.
   */
  function ParseBigInt(text: string): Result<int, SyntaxError> {
    var t := Trim(text);
    if t == [] then Success(0)
    else if IsRadixLiteral(t) then ParseRadix(t, text)
    else ParseDecimal(t, text)
  }

  /** A literal that starts with `0x`, `0o` or `0b`. */
  predicate IsRadixLiteral(t: string) {
    |t| >= 2 && t[0] == '0' && RadixOf(t[1]).Some?
  }

  /** The digits after `0x`, `0o` or `0b`, in that base; at least one is needed. */
  function ParseRadix(t: string, text: string): Result<int, SyntaxError>
    requires IsRadixLiteral(t)
  {
    var base := RadixOf(t[1]).value;
    var digits := t[2..];
    if digits != [] && AllDigits(digits, base) then Success(DigitsValue(digits, base))
    else Failure(SyntaxError(text))
  }

  /** An optional sign and at least one decimal digit. */
  function ParseDecimal(t: string, text: string): Result<int, SyntaxError>
    requires t != []
  {
    var negative := t[0] == '-';
    var digits := if t[0] == '-' || t[0] == '+' then t[1..] else t;
    if digits != [] && AllDigits(digits, 10) then
      var v := DigitsValue(digits, 10);
      Success(if negative then -v else v)
    else Failure(SyntaxError(text))
  }

  /** The base named by the letter after a leading `0`, if any. */
  function RadixOf(c: char): (r: Option<nat>)
    ensures r.Some? ==> 2 <= r.value <= 16
    ensures IsDecimalDigit(c) ==> r.None?
  {
    if c == 'x' || c == 'X' then Some(16)
    else if c == 'o' || c == 'O' then Some(8)
    else if c == 'b' || c == 'B' then Some(2)
    else None
  }

  /** Reading a rendered natural number back gives the number. */
  lemma {:induction false} NatToStringValue(n: nat)
    ensures AllDigits(NatToString(n), 10)
    ensures DigitsValue(NatToString(n), 10) == n
  {
    var s := NatToString(n);
    if n >= 10 {
      NatToStringValue(n / 10);
      assert s[..|s| - 1] == NatToString(n / 10);
    }
  }

  /** `BigInt(n.toString())` is n: the decimal rendering parses back to the same integer. */
  lemma ParseIntToString(n: int)
    ensures ParseBigInt(IntToString(n)) == Success(n)
  {
    var m: nat := if n < 0 then -n else n;
    var digits := NatToString(m);
    NatToStringValue(m);
    assert digits[0] == '0' ==> |digits| == 1 by {
      if m == 0 { assert digits == "0"; }
    }
    if n < 0 {
      ParseSignedDigits("-", digits);
    } else {
      ParseSignedDigits("", digits);
      assert "" + digits == digits;
    }
  }

  /** An optional minus sign followed by decimal digits without a leading zero parses as a decimal literal. */
  lemma ParseSignedDigits(sign: string, digits: string)
    requires sign == "" || sign == "-"
    requires digits != [] && AllDigits(digits, 10)
    requires digits[0] == '0' ==> |digits| == 1
    ensures ParseBigInt(sign + digits)
         == Success(if sign == "-" then -DigitsValue(digits, 10) else DigitsValue(digits, 10))
  {
    var s := sign + digits;
    SignedDigitsNoWhiteSpace(sign, digits);
    TrimNoWhiteSpace(s);
    assert !IsRadixLiteral(s) by {
      assert s[0] == (if sign == "-" then '-' else digits[0]);
      if sign == "" && |s| >= 2 {
        assert s[1] == digits[1];
      }
    }
    assert ParseBigInt(s) == ParseDecimal(s, s);
    ParseDecimalSigned(sign, digits);
  }

  /** A sign followed by decimal digits holds no white space. */
  lemma SignedDigitsNoWhiteSpace(sign: string, digits: string)
    requires sign == "" || sign == "-"
    requires AllDigits(digits, 10)
    ensures forall i :: 0 <= i < |sign + digits| ==> !IsJsWhiteSpace((sign + digits)[i])
  {
    var s := sign + digits;
    forall i | 0 <= i < |s| ensures !IsJsWhiteSpace(s[i]) {
      if i >= |sign| {
        assert s[i] == digits[i - |sign|];
        assert IsDecimalDigit(s[i]);
      }
    }
  }

  /** The decimal reading of a sign followed by digits. */
  lemma ParseDecimalSigned(sign: string, digits: string)
    requires sign == "" || sign == "-"
    requires digits != [] && AllDigits(digits, 10)
    ensures ParseDecimal(sign + digits, sign + digits)
         == Success(if sign == "-" then -DigitsValue(digits, 10) else DigitsValue(digits, 10))
  {
    if sign == "-" {
      ParseDecimalNegative(digits);
    } else {
      assert sign + digits == digits;
      ParseDecimalUnsigned(digits);
    }
  }

  lemma ParseDecimalNegative(digits: string)
    requires digits != [] && AllDigits(digits, 10)
    ensures ParseDecimal("-" + digits, "-" + digits) == Success(-DigitsValue(digits, 10))
  {
    var s := "-" + digits;
    assert s[0] == '-';
    assert s[1..] == digits;
  }

  lemma ParseDecimalUnsigned(digits: string)
    requires digits != [] && AllDigits(digits, 10)
    ensures ParseDecimal(digits, digits) == Success(DigitsValue(digits, 10))
  {
    assert DigitValue(digits[0]).Some? && DigitValue(digits[0]).value < 10;
    assert digits[0] != '-' && digits[0] != '+';
  }

  /** Distinct natural numbers have distinct decimal renderings. */
  lemma NatToStringInjective(a: nat, b: nat)
    requires NatToString(a) == NatToString(b)
    ensures a == b
  {
    NatToStringValue(a);
    NatToStringValue(b);
  }
}
