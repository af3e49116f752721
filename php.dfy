/** The handful of PHP built-ins the endpoint relies on, written out: `empty()` on a
    string, `intval()` on a string, `(string)` of an integer, `trim()` and `join()`. */
module Php {

  datatype Option<T> = None | Some(value: T)

  /** PHP integers are 64-bit; `intval` of a numeric string within the range of a double
      saturates at these bounds. */
  const MinInt: int := -0x8000_0000_0000_0000
  const MaxInt: int := 0x7FFF_FFFF_FFFF_FFFF

  /** `empty($s)` for a string `$s`: the empty string and the string "0". */
  predicate EmptyString(s: string) {
    s == "" || s == "0"
  }

  predicate IsDigit(c: char) {
    '0' <= c <= '9'
  }

  predicate AllDigits(s: string) {
    forall i :: 0 <= i < |s| ==> IsDigit(s[i])
  }

  /** The white space a PHP numeric string may start with. */
  predicate IsLeadingSpace(c: char) {
    c == ' ' || c == '\t' || c == '\n' || c == '\r' || c == '\U{0B}' || c == '\U{0C}'
  }

  /** The characters `trim()` strips by default: " \t\n\r\0\x0B". */
  predicate IsTrimChar(c: char) {
    c == ' ' || c == '\t' || c == '\n' || c == '\r' || c == '\0' || c == '\U{0B}'
  }

  function DigitValue(c: char): nat
    requires IsDigit(c)
  {
    c as int - '0' as int
  }

  function DigitChar(d: nat): (c: char)
    requires d < 10
    ensures IsDigit(c) && DigitValue(c) == d
  {
    ('0' as int + d) as char
  }

  /** The string with its leading white space removed. */
  function SkipSpaces(s: string): string {
    if s != [] && IsLeadingSpace(s[0]) then SkipSpaces(s[1..]) else s
  }

  /** The longest prefix of `s` made of decimal digits. */
  function LeadingDigits(s: string): (r: string)
    ensures AllDigits(r)
  {
    if s != [] && IsDigit(s[0]) then [s[0]] + LeadingDigits(s[1..]) else []
  }

  /** `LeadingDigits` is the longest prefix made of digits. */
  lemma {:induction false} LeadingDigitsIsLongestDigitPrefix(s: string)
    ensures var r := LeadingDigits(s);
      |r| <= |s| && r == s[..|r|] && (|r| < |s| ==> !IsDigit(s[|r|]))
  {
    if s != [] && IsDigit(s[0]) {
      LeadingDigitsIsLongestDigitPrefix(s[1..]);
    }
  }

  /** The value of a string of decimal digits, most significant first. */
  function DigitsValue(d: string): nat
    requires AllDigits(d)
  {
    if d == [] then 0 else DigitsValue(d[..|d| - 1]) * 10 + DigitValue(d[|d| - 1])
  }

  function Saturate(n: int): (r: int)
    ensures MinInt <= r <= MaxInt
    ensures MinInt <= n <= MaxInt ==> r == n
    ensures (r == 0) == (n == 0)
  {
    if n < MinInt then MinInt else if n > MaxInt then MaxInt else n
  }

  /** `intval($s)` for a string: optional leading white space, an optional sign, then
      as many decimal digits as follow; no digits gives 0; values beyond the 64-bit
      range saturate. PHP gives 0 for a value too large even for a double; that
      case is read here as saturating too. */
  function IntVal(s: string): int {
    var t := SkipSpaces(s);
    if t != [] && (t[0] == '-' || t[0] == '+') then
      var magnitude: int := DigitsValue(LeadingDigits(t[1..]));
      Saturate(if t[0] == '-' then -magnitude else magnitude)
    else
      Saturate(DigitsValue(LeadingDigits(t)))
  }

  /** Decimal digits of a natural number, without leading zeros. */
  function NatToString(n: nat): (r: string)
    ensures r != [] && AllDigits(r)
  {
    if n < 10 then [DigitChar(n)] else NatToString(n / 10) + [DigitChar(n % 10)]
  }

  /** `(string)$n` for an integer `$n`. */
  function IntToString(n: int): (r: string)
    ensures r != []
  {
    if n < 0 then "-" + NatToString(-n) else NatToString(n)
  }

  lemma {:induction false} DigitsValueOfNatToString(n: nat)
    ensures DigitsValue(NatToString(n)) == n
  {
    if n >= 10 {
      var s := NatToString(n);
      DigitsValueOfNatToString(n / 10);
      assert s[..|s| - 1] == NatToString(n / 10);
    }
  }

  lemma {:induction false} LeadingDigitsOfDigits(d: string)
    requires AllDigits(d)
    ensures LeadingDigits(d) == d
  {
    if d != [] {
      LeadingDigitsOfDigits(d[1..]);
    }
  }

  lemma NonNegativeRoundTrip(n: nat)
    requires n <= MaxInt
    ensures IntVal(NatToString(n)) == n
  {
    var digits := NatToString(n);
    DigitsValueOfNatToString(n);
    LeadingDigitsOfDigits(digits);
    assert IsDigit(digits[0]);
    assert !IsLeadingSpace(digits[0]) && digits[0] != '-' && digits[0] != '+';
    assert SkipSpaces(digits) == digits;
    assert IntVal(digits) == Saturate(DigitsValue(LeadingDigits(digits)));
  }

  lemma NegativeRoundTrip(m: nat)
    requires 0 < m <= -MinInt
    ensures IntVal("-" + NatToString(m)) == -(m as int)
  {
    var digits := NatToString(m);
    var s := "-" + digits;
    DigitsValueOfNatToString(m);
    LeadingDigitsOfDigits(digits);
    assert s[0] == '-' && !IsLeadingSpace(s[0]);
    assert SkipSpaces(s) == s;
    assert s[1..] == digits;
    assert IntVal(s) == Saturate(-(DigitsValue(LeadingDigits(digits)) as int));
  }

  /** Reading back the decimal form of any 64-bit integer with `intval` gives that integer. */
  lemma IntValOfIntToString(n: int)
    requires MinInt <= n <= MaxInt
    ensures IntVal(IntToString(n)) == n
  {
    if n < 0 {
      NegativeRoundTrip(-n);
    } else {
      NonNegativeRoundTrip(n);
    }
  }

  /** A string that starts with neither white space, a sign nor a digit has `intval` 0. */
  lemma IntValOfNonNumeric(s: string)
    requires s != [] && !IsLeadingSpace(s[0]) && !IsDigit(s[0]) && s[0] != '-' && s[0] != '+'
    ensures IntVal(s) == 0
  {
  }

  /** The first index at or after `i` whose character `trim` keeps, or `|s|`. */
  function SkipTrimFrom(s: string, i: nat): (k: nat)
    requires i <= |s|
    ensures i <= k <= |s|
    decreases |s| - i
  {
    if i < |s| && IsTrimChar(s[i]) then SkipTrimFrom(s, i + 1) else i
  }

  /** Scanning back from `j`, no further than `lo`: the index just after the last
      character `trim` keeps, or `lo`. */
  function BackTrimFrom(s: string, lo: nat, j: nat): (k: nat)
    requires lo <= j <= |s|
    ensures lo <= k <= j
    decreases j
  {
    if j > lo && IsTrimChar(s[j - 1]) then BackTrimFrom(s, lo, j - 1) else j
  }

  /** `trim($s)`: scan forward over trim characters, then back from the end. */
  function Trim(s: string): string {
    var i := SkipTrimFrom(s, 0);
    s[i..BackTrimFrom(s, i, |s|)]
  }

  /** The forward scan passes only trim characters and stops at a kept one or the end. */
  lemma {:induction false} SkipTrimPassesTrimChars(s: string, i: nat)
    requires i <= |s|
    ensures forall k :: i <= k < SkipTrimFrom(s, i) ==> IsTrimChar(s[k])
    ensures SkipTrimFrom(s, i) == |s| || !IsTrimChar(s[SkipTrimFrom(s, i)])
    decreases |s| - i
  {
    if i < |s| && IsTrimChar(s[i]) {
      SkipTrimPassesTrimChars(s, i + 1);
    }
  }

  /** The backward scan passes only trim characters and stops after a kept one or at `lo`. */
  lemma {:induction false} BackTrimPassesTrimChars(s: string, lo: nat, j: nat)
    requires lo <= j <= |s|
    ensures forall k :: BackTrimFrom(s, lo, j) <= k < j ==> IsTrimChar(s[k])
    ensures BackTrimFrom(s, lo, j) == lo || !IsTrimChar(s[BackTrimFrom(s, lo, j) - 1])
    decreases j
  {
    if j > lo && IsTrimChar(s[j - 1]) {
      BackTrimPassesTrimChars(s, lo, j - 1);
    }
  }

  /** `r` is `s[i..i + |r|]` and everything of `s` outside that slice is a trim character. */
  predicate StrippedAt(s: string, r: string, i: nat) {
    i + |r| <= |s| && r == s[i..i + |r|]
    && (forall k :: 0 <= k < i ==> IsTrimChar(s[k]))
    && (forall k :: i + |r| <= k < |s| ==> IsTrimChar(s[k]))
  }

  /** `trim` keeps a contiguous slice of its argument, strips only trim characters,
      and leaves no trim character at either end. */
  lemma TrimIsStrippedSlice(s: string)
    ensures exists i :: StrippedAt(s, Trim(s), i)
    ensures var r := Trim(s); r == [] || (!IsTrimChar(r[0]) && !IsTrimChar(r[|r| - 1]))
  {
    var i := SkipTrimFrom(s, 0);
    var j := BackTrimFrom(s, i, |s|);
    SkipTrimPassesTrimChars(s, 0);
    BackTrimPassesTrimChars(s, i, |s|);
    assert StrippedAt(s, Trim(s), i);
  }

  /** A string is its own `trim` exactly when neither end is a trim character. */
  lemma TrimFixedPoint(s: string)
    ensures Trim(s) == s <==> (s == [] || (!IsTrimChar(s[0]) && !IsTrimChar(s[|s| - 1])))
  {
    TrimIsStrippedSlice(s);
    if s != [] && !IsTrimChar(s[0]) && !IsTrimChar(s[|s| - 1]) {
      assert SkipTrimFrom(s, 0) == 0;
      assert BackTrimFrom(s, 0, |s|) == |s|;
    }
  }

  lemma TrimIdempotent(s: string)
    ensures Trim(Trim(s)) == Trim(s)
  {
    TrimIsStrippedSlice(s);
    TrimFixedPoint(Trim(s));
  }

  /** `join($sep, $parts)`. */
  function Join(sep: string, parts: seq<string>): string {
    if parts == [] then ""
    else if |parts| == 1 then parts[0]
    else parts[0] + sep + Join(sep, parts[1..])
  }

  predicate OccursAt(s: string, sub: string, i: nat) {
    i + |sub| <= |s| && s[i..i + |sub|] == sub
  }

  predicate Contains(s: string, sub: string) {
    exists i: nat | i <= |s| :: OccursAt(s, sub, i)
  }

  /** Every part occurs in the joined string. */
  lemma {:induction false} JoinContainsEach(sep: string, parts: seq<string>, k: nat)
    requires k < |parts|
    ensures Contains(Join(sep, parts), parts[k])
  {
    var j := Join(sep, parts);
    if k == 0 {
      assert OccursAt(j, parts[0], 0);
    } else {
      var rest := Join(sep, parts[1..]);
      JoinContainsEach(sep, parts[1..], k - 1);
      assert parts[1..][k - 1] == parts[k];
      var i: nat :| i <= |rest| && OccursAt(rest, parts[k], i);
      assert OccursAt(rest, parts[k], i);
      assert i + |parts[k]| <= |rest|;
      var off := |parts[0]| + |sep|;
      assert j == parts[0] + sep + rest;
      assert |j| == off + |rest|;
      assert j[off + i..off + i + |parts[k]|] == rest[i..i + |parts[k]|];
      assert OccursAt(j, parts[k], off + i);
    }
  }
}
