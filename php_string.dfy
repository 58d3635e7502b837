/**
 * The few PHP string built-ins the Imap classes rely on, on `string` = `seq<char>`:
 * integer-to-string conversion (`'…' . $int`), the rule that decides whether a string
 * array offset is an integer key, `is_numeric` on strings, ASCII `strtolower` and
 * `rtrim` with one character.
 */
module PhpString {
  import opened Wrappers

  // ---------------------------------------------------------------------------------
  // Decimal digits
  // ---------------------------------------------------------------------------------

  predicate IsDigit(c: char) {
    '0' <= c <= '9'
  }

  predicate AllDigits(s: string) {
    forall i :: 0 <= i < |s| ==> IsDigit(s[i])
  }

  function DigitChar(d: nat): (c: char)
    requires d < 10
    ensures IsDigit(c) && c as int - '0' as int == d
  {
    ('0' as int + d) as char
  }

  /** The decimal digits of `n`, most significant first, with no leading zero. */
  function NatToString(n: nat): (s: string)
    ensures |s| >= 1 && AllDigits(s)
    ensures (s[0] == '0') == (n == 0)
    ensures n == 0 ==> s == "0"
  {
    if n < 10 then [DigitChar(n)] else NatToString(n / 10) + [DigitChar(n % 10)]
  }

  /** The value of a string of decimal digits (the empty string has value 0). */
  function DigitsValue(s: string): nat
    requires AllDigits(s)
  {
    if s == [] then 0 else DigitsValue(s[..|s| - 1]) * 10 + (s[|s| - 1] as int - '0' as int)
  }

  lemma {:induction false} DigitsValueOfNatToString(n: nat)
    ensures DigitsValue(NatToString(n)) == n
  {
    if n >= 10 {
      var s := NatToString(n);
      assert s[..|s| - 1] == NatToString(n / 10);
      DigitsValueOfNatToString(n / 10);
    }
  }

  /** Digit strings without a leading zero ("0" itself excepted). */
  predicate CanonicalDigits(s: string) {
    |s| >= 1 && AllDigits(s) && (s[0] == '0' ==> |s| == 1)
  }

  lemma {:induction false} LeadingNonZeroValue(s: string)
    requires |s| >= 1 && AllDigits(s) && s[0] != '0'
    ensures DigitsValue(s) >= 1
  {
    if |s| > 1 {
      LeadingNonZeroValue(s[..|s| - 1]);
    }
  }

  lemma {:induction false} NatToStringOfDigitsValue(s: string)
    requires CanonicalDigits(s)
    ensures NatToString(DigitsValue(s)) == s
  {
    if |s| > 1 {
      var t := s[..|s| - 1];
      LeadingNonZeroValue(t);
      NatToStringOfDigitsValue(t);
      var n := DigitsValue(s);
      assert n / 10 == DigitsValue(t) && n % 10 == s[|s| - 1] as int - '0' as int;
      assert s == t + [s[|s| - 1]];
    }
  }

  // ---------------------------------------------------------------------------------
  // Integers as strings
  // ---------------------------------------------------------------------------------

  /** PHP's conversion of an integer to a string: decimal, with '-' for negatives. */
  function IntToString(i: int): string {
    if i < 0 then "-" + NatToString(-i) else NatToString(i)
  }

  /**
   * The strings PHP reads as an integer array key: the decimal form of an integer,
   * optionally negative, with no leading zero, no '+', and not "-0".
   */
  predicate IsCanonicalInteger(s: string) {
    if |s| > 0 && s[0] == '-' then CanonicalDigits(s[1..]) && s[1..] != "0"
    else CanonicalDigits(s)
  }

  function CanonicalValue(s: string): int
    requires IsCanonicalInteger(s)
  {
    if s[0] == '-' then -(DigitsValue(s[1..]) as int) else DigitsValue(s)
  }

  /** Integer-to-string and the canonical-integer reading are inverse to each other. */
  lemma IntToStringCanonical(i: int)
    ensures IsCanonicalInteger(IntToString(i)) && CanonicalValue(IntToString(i)) == i
  {
    var s := IntToString(i);
    if i < 0 {
      assert s[1..] == NatToString(-i);
      DigitsValueOfNatToString(-i);
    } else {
      DigitsValueOfNatToString(i);
    }
  }

  lemma CanonicalIntegerIsIntToString(s: string)
    requires IsCanonicalInteger(s)
    ensures IntToString(CanonicalValue(s)) == s
  {
    if s[0] == '-' {
      NatToStringOfDigitsValue(s[1..]);
      LeadingNonZeroValue(s[1..]);
      assert s == "-" + s[1..];
    } else {
      NatToStringOfDigitsValue(s);
    }
  }

  // ---------------------------------------------------------------------------------
  // is_numeric on strings (PHP 8 rules)
  // ---------------------------------------------------------------------------------

  /** The white space PHP allows around a numeric string: space, \t, \n, \r, \v, \f. */
  predicate IsWhitespace(c: char) {
    c == ' ' || c == '\t' || c == '\n' || c == '\r' || c == 11 as char || c == 12 as char
  }

  function TrimLeadingWhitespace(s: string): (r: string)
    ensures |r| <= |s| && r == s[|s| - |r|..]
    ensures |r| > 0 ==> !IsWhitespace(r[0])
  {
    if |s| > 0 && IsWhitespace(s[0]) then TrimLeadingWhitespace(s[1..]) else s
  }

  function TrimTrailingWhitespace(s: string): (r: string)
    ensures r <= s
    ensures |r| > 0 ==> !IsWhitespace(r[|r| - 1])
  {
    if |s| > 0 && IsWhitespace(s[|s| - 1]) then TrimTrailingWhitespace(s[..|s| - 1]) else s
  }

  /** The first index at or after `i` that does not hold a digit. */
  function SkipDigits(s: string, i: nat): (j: nat)
    requires i <= |s|
    ensures i <= j <= |s|
    ensures forall k :: i <= k < j ==> IsDigit(s[k])
    ensures j < |s| ==> !IsDigit(s[j])
    decreases |s| - i
  {
    if i < |s| && IsDigit(s[i]) then SkipDigits(s, i + 1) else i
  }

  /** `[eE][+-]?[0-9]+` from index `i` to the end of `s`, with `s[i]` the 'e'. */
  predicate IsExponentTail(s: string, i: nat)
    requires i < |s|
  {
    var j0 := if i + 1 < |s| && (s[i + 1] == '+' || s[i + 1] == '-') then i + 2 else i + 1;
    (s[i] == 'e' || s[i] == 'E') && SkipDigits(s, j0) > j0 && SkipDigits(s, j0) == |s|
  }

  /**
   * A number with no surrounding white space: an optional sign, then digits with an
   * optional '.' and fraction (at least one digit on one side), then an optional exponent.
   */
  predicate IsNumericBody(s: string) {
    var i0 := if |s| > 0 && (s[0] == '+' || s[0] == '-') then 1 else 0;
    var i1 := SkipDigits(s, i0);
    if i1 < |s| && s[i1] == '.' then
      var i2 := SkipDigits(s, i1 + 1);
      (i1 > i0 || i2 > i1 + 1) && (i2 == |s| || IsExponentTail(s, i2))
    else
      i1 > i0 && (i1 == |s| || IsExponentTail(s, i1))
  }

  /** PHP 8's `is_numeric` on a string: leading and trailing white space are allowed. */
  predicate IsNumericString(s: string) {
    IsNumericBody(TrimTrailingWhitespace(TrimLeadingWhitespace(s)))
  }

  /** Whatever `is_numeric` accepts contains a decimal digit. */
  lemma NumericStringHasDigit(s: string)
    requires IsNumericString(s)
    ensures exists k :: 0 <= k < |s| && IsDigit(s[k])
  {
    var u := TrimLeadingWhitespace(s);
    var t := TrimTrailingWhitespace(u);
    var i0 := if |t| > 0 && (t[0] == '+' || t[0] == '-') then 1 else 0;
    var i1 := SkipDigits(t, i0);
    var k: nat;
    if i1 > i0 {
      k := i0;
    } else {
      k := i1 + 1;
    }
    assert IsDigit(t[k]);
    assert t[k] == u[k] == s[|s| - |u| + k];
  }

  /** The decimal form of every integer is numeric. */
  lemma IntToStringIsNumeric(i: int)
    ensures IsNumericString(IntToString(i))
  {
    var s := IntToString(i);
    var t := if i < 0 then NatToString(-i) else NatToString(i);
    var i0 := if i < 0 then 1 else 0;
    assert s[i0..] == t;
    SignedDigitsAreNumeric(s, i0);
  }

  lemma SignedDigitsAreNumeric(s: string, i0: nat)
    requires i0 < |s| && (i0 == 0 || (i0 == 1 && s[0] == '-'))
    requires AllDigits(s[i0..])
    ensures IsNumericString(s)
  {
    assert forall k :: i0 <= k < |s| ==> IsDigit(s[k]) by {
      assert forall k :: i0 <= k < |s| ==> s[k] == s[i0..][k - i0];
    }
    assert !IsWhitespace(s[0]) && !IsWhitespace(s[|s| - 1]);
    assert TrimLeadingWhitespace(s) == s;
    assert TrimTrailingWhitespace(s) == s;
    assert SkipDigits(s, i0) == |s|;
  }

  // ---------------------------------------------------------------------------------
  // Searching for a character
  // ---------------------------------------------------------------------------------

  /** The text after the first `c` in `s`, if there is one. */
  function AfterFirst(s: string, c: char): (r: Option<string>)
    ensures r.None? <==> c !in s
    ensures r.Some? ==> |r.value| < |s| && r.value == s[|s| - |r.value|..] && s[|s| - |r.value| - 1] == c
  {
    if s == [] then None
    else if s[0] == c then Some(s[1..])
    else
      var r := AfterFirst(s[1..], c);
      assert c in s <==> c in s[1..];
      r
  }

  lemma {:induction false} AfterFirstConcat(a: string, c: char, b: string)
    requires c !in a
    ensures AfterFirst(a + [c] + b, c) == Some(b)
  {
    if a != [] {
      assert (a + [c] + b)[1..] == a[1..] + [c] + b;
      AfterFirstConcat(a[1..], c, b);
    }
  }

  // ---------------------------------------------------------------------------------
  // strtolower and rtrim
  // ---------------------------------------------------------------------------------

  predicate IsUpper(c: char) {
    'A' <= c <= 'Z'
  }

  function LowerChar(c: char): char {
    if IsUpper(c) then (c as int + 32) as char else c
  }

  /** PHP's `strtolower`, on ASCII letters (the locale-independent rule of PHP 8.2 on). */
  function StrToLower(s: string): (r: string)
    ensures |r| == |s|
    ensures forall i :: 0 <= i < |s| ==> r[i] == LowerChar(s[i])
  {
    if s == [] then [] else [LowerChar(s[0])] + StrToLower(s[1..])
  }

  /** The result has no upper-case letter, and lower-casing twice changes nothing more. */
  lemma StrToLowerNormalises(s: string)
    ensures forall i :: 0 <= i < |s| ==> !IsUpper(StrToLower(s)[i])
    ensures StrToLower(StrToLower(s)) == StrToLower(s)
  {
  }

  /** PHP's `rtrim($s, $c)` for a single character `c`: drops every trailing `c`. */
  function RTrim(s: string, c: char): (r: string)
    ensures r <= s
    ensures |r| == 0 || r[|r| - 1] != c
    ensures forall k :: |r| <= k < |s| ==> s[k] == c
  {
    if |s| > 0 && s[|s| - 1] == c then RTrim(s[..|s| - 1], c) else s
  }

  /** The three facts above pin `RTrim` down: no other prefix has them. */
  lemma RTrimUnique(s: string, c: char, p: string)
    requires p <= s && (|p| == 0 || p[|p| - 1] != c)
    requires forall k :: |p| <= k < |s| ==> s[k] == c
    ensures p == RTrim(s, c)
  {
    var r := RTrim(s, c);
    assert |r| > 0 ==> r[|r| - 1] == s[|r| - 1];
    assert |p| > 0 ==> p[|p| - 1] == s[|p| - 1];
  }
}
