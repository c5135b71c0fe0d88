/**
  Which strings JavaScript's `Number(s)` turns into a number rather than NaN, as the
  `[0]`-path resolver asks with `!isNaN(Number(part))`. This follows the
  StringToNumber grammar: surrounding white space is ignored, the empty string is 0,
  and otherwise the text must be a decimal literal (optional sign, digits with an
  optional fraction and exponent, or Infinity) or a 0x / 0o / 0b integer.
 */
module JsNumber {
  import opened Strings

  /** White space and line terminators, which `Number` trims. */
  predicate IsStrWhiteSpace(c: char) {
    var x := c as int;
    x == 0x09 || x == 0x0A || x == 0x0B || x == 0x0C || x == 0x0D || x == 0x20 ||
    x == 0xA0 || x == 0x1680 || (0x2000 <= x <= 0x200A) || x == 0x2028 || x == 0x2029 ||
    x == 0x202F || x == 0x205F || x == 0x3000 || x == 0xFEFF
  }

  function TrimStart(s: string): (t: string)
    ensures |t| <= |s| && t == s[|s| - |t|..]
    ensures t != [] ==> !IsStrWhiteSpace(t[0])
    decreases |s|
  {
    if s != [] && IsStrWhiteSpace(s[0]) then TrimStart(s[1..]) else s
  }

  function TrimEnd(s: string): (t: string)
    ensures |t| <= |s| && t == s[..|t|]
    ensures t != [] ==> !IsStrWhiteSpace(t[|t| - 1])
    decreases |s|
  {
    if s != [] && IsStrWhiteSpace(s[|s| - 1]) then TrimEnd(s[..|s| - 1]) else s
  }

  /** `s.trim()` with JavaScript's notion of white space. */
  function Trim(s: string): string {
    TrimEnd(TrimStart(s))
  }

  /** The first position of a character satisfying `p`, or `|s|` when there is none. */
  function FirstWhere(s: string, p: char -> bool): (i: nat)
    ensures i <= |s|
    ensures i < |s| ==> p(s[i])
    ensures forall j :: 0 <= j < i ==> !p(s[j])
    decreases |s|
  {
    if s == [] then 0 else if p(s[0]) then 0 else 1 + FirstWhere(s[1..], p)
  }

  /** A run of characters none of which satisfies `p` has no first such position. */
  lemma {:induction false} NoneWhere(s: string, p: char -> bool)
    requires forall i :: 0 <= i < |s| ==> !p(s[i])
    ensures FirstWhere(s, p) == |s|
    decreases |s|
  {
    if s != [] {
      NoneWhere(s[1..], p);
    }
  }

  predicate IsPoint(c: char) {
    c == '.'
  }

  predicate IsExponentMark(c: char) {
    c == 'e' || c == 'E'
  }

  predicate IsSignedDigits(s: string) {
    |s| > 0 &&
    if s[0] == '+' || s[0] == '-' then |s| > 1 && AllDigits(s[1..]) else AllDigits(s)
  }

  /** Digits with at most one decimal point and at least one digit: "5", "5.", ".5", "5.25". */
  predicate IsMantissa(m: string) {
    var i := FirstWhere(m, IsPoint);
    if i == |m| then |m| > 0 && AllDigits(m)
    else |m| >= 2 && AllDigits(m[..i]) && AllDigits(m[i + 1..])
  }

  predicate IsUnsignedDecimal(s: string) {
    s == "Infinity" ||
    var j := FirstWhere(s, IsExponentMark);
    IsMantissa(s[..j]) && (j == |s| || IsSignedDigits(s[j + 1..]))
  }

  predicate IsDecimalLiteral(s: string) {
    if |s| > 0 && (s[0] == '+' || s[0] == '-') then IsUnsignedDecimal(s[1..])
    else IsUnsignedDecimal(s)
  }

  predicate IsHexDigit(c: char) {
    IsDigit(c) || 'a' <= c <= 'f' || 'A' <= c <= 'F'
  }

  /** "0x1F", "0o17", "0b101" (no sign, no fraction). */
  predicate IsNonDecimalInteger(s: string) {
    |s| > 2 && s[0] == '0' &&
    var body := s[2..];
    if s[1] == 'x' || s[1] == 'X' then forall i :: 0 <= i < |body| ==> IsHexDigit(body[i])
    else if s[1] == 'o' || s[1] == 'O' then forall i :: 0 <= i < |body| ==> '0' <= body[i] <= '7'
    else if s[1] == 'b' || s[1] == 'B' then forall i :: 0 <= i < |body| ==> '0' <= body[i] <= '1'
    else false
  }

  /** `!isNaN(Number(s))`. */
  predicate IsNumeric(s: string) {
    var t := Trim(s);
    t == "" || IsDecimalLiteral(t) || IsNonDecimalInteger(t)
  }

  /** A string of digits has no white space to trim. */
  lemma DigitsTrimToThemselves(s: string)
    requires |s| > 0 && AllDigits(s)
    ensures Trim(s) == s
  {
    var first, last := s[0], s[|s| - 1];
    assert IsDigit(first) && IsDigit(last);
    assert !IsStrWhiteSpace(first) && !IsStrWhiteSpace(last);
    TrimStartStops(s);
    TrimEndStops(s);
  }

  lemma TrimStartStops(s: string)
    requires s != [] && !IsStrWhiteSpace(s[0])
    ensures TrimStart(s) == s
  {
  }

  lemma TrimEndStops(s: string)
    requires s != [] && !IsStrWhiteSpace(s[|s| - 1])
    ensures TrimEnd(s) == s
  {
  }

  /** A non-empty string of digits is an unsigned decimal literal without fraction or exponent. */
  lemma DigitsAreDecimal(s: string)
    requires |s| > 0 && AllDigits(s)
    ensures IsDecimalLiteral(s)
  {
    forall i | 0 <= i < |s|
      ensures !IsPoint(s[i]) && !IsExponentMark(s[i])
    {
      assert IsDigit(s[i]);
    }
    NoneWhere(s, IsPoint);
    NoneWhere(s, IsExponentMark);
    assert s[..|s|] == s;
    assert IsMantissa(s);
    assert IsUnsignedDecimal(s);
    assert IsDigit(s[0]);
  }

  /** Every canonical array index is numeric text, so `Number` never rejects one. */
  lemma CanonicalIndexIsNumeric(s: string)
    requires IsCanonicalIndex(s)
    ensures IsNumeric(s)
  {
    DigitsTrimToThemselves(s);
    DigitsAreDecimal(s);
  }
}
