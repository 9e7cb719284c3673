/**
 * Models of the PHP string built-ins the core relies on, over ASCII text
 * held as `seq<char>`: character classes, strtolower/strtoupper, trim,
 * ltrim/rtrim of one character, strpos, digit filtering, integer/decimal
 * conversion and strtr with an array of replacement pairs. PHP 8 semantics
 * are used where PHP versions differ (strpos of an empty needle is 0,
 * strtr ignores empty keys).
 */
module PhpStrings {
  import opened Wrappers

  predicate IsUpper(c: char) { 'A' <= c <= 'Z' }
  predicate IsLower(c: char) { 'a' <= c <= 'z' }
  predicate IsAlpha(c: char) { IsUpper(c) || IsLower(c) }
  predicate IsDigit(c: char) { '0' <= c <= '9' }

  predicate AllDigits(s: string) { forall i :: 0 <= i < |s| ==> IsDigit(s[i]) }
  predicate NoUpper(s: string) { forall i :: 0 <= i < |s| ==> !IsUpper(s[i]) }

  function ToLowerChar(c: char): (d: char)
    ensures !IsUpper(d)
    ensures IsUpper(c) ==> IsLower(d)
    ensures !IsUpper(c) ==> d == c
  {
    if IsUpper(c) then (c as int + 32) as char else c
  }

  function ToUpperChar(c: char): (d: char)
    ensures !IsLower(d)
    ensures IsLower(c) ==> IsUpper(d)
    ensures !IsLower(c) ==> d == c
  {
    if IsLower(c) then (c as int - 32) as char else c
  }

  /** strtolower, ASCII letters only, as PHP 8 does it whatever the locale. */
  function ToLower(s: string): (r: string)
    ensures |r| == |s| && NoUpper(r)
    ensures forall i :: 0 <= i < |s| ==> r[i] == ToLowerChar(s[i])
  {
    seq(|s|, i requires 0 <= i < |s| => ToLowerChar(s[i]))
  }

  lemma ToLowerNoUpper(s: string)
    requires NoUpper(s)
    ensures ToLower(s) == s
  {
  }

  /** The characters PHP's trim() strips by default: " \t\n\r\0\x0B". */
  predicate IsTrimChar(c: char)
  {
    c == ' ' || c == '\t' || c == '\n' || c == '\r' || c == '\0' || c == '\U{000B}'
  }

  function TrimLeft(s: string): string
    decreases |s|
  {
    if s != [] && IsTrimChar(s[0]) then TrimLeft(s[1..]) else s
  }

  function TrimRight(s: string): string
    decreases |s|
  {
    if s != [] && IsTrimChar(s[|s| - 1]) then TrimRight(s[..|s| - 1]) else s
  }

  /** trim() with its default character list. */
  function Trim(s: string): string
  {
    TrimRight(TrimLeft(s))
  }

  /** TrimLeft removes a prefix of trim characters, and only that. */
  lemma {:induction false} TrimLeftShape(s: string)
    ensures var r := TrimLeft(s);
      |r| <= |s| && r == s[|s| - |r|..] && (r == [] || !IsTrimChar(r[0])) &&
      forall i :: 0 <= i < |s| - |r| ==> IsTrimChar(s[i])
    decreases |s|
  {
    if s != [] && IsTrimChar(s[0]) {
      TrimLeftShape(s[1..]);
    }
  }

  /** TrimRight removes a suffix of trim characters, and only that. */
  lemma {:induction false} TrimRightShape(s: string)
    ensures var r := TrimRight(s);
      |r| <= |s| && r == s[..|r|] && (r == [] || !IsTrimChar(r[|r| - 1])) &&
      forall i :: |r| <= i < |s| ==> IsTrimChar(s[i])
    decreases |s|
  {
    if s != [] && IsTrimChar(s[|s| - 1]) {
      TrimRightShape(s[..|s| - 1]);
    }
  }

  /** The trimmed string is a part of `s` that neither starts nor ends with a trim character. */
  lemma TrimShape(s: string)
    ensures var r := Trim(s);
      |r| <= |s| && (r == [] || (!IsTrimChar(r[0]) && !IsTrimChar(r[|r| - 1])))
  {
    TrimLeftShape(s);
    TrimRightShape(TrimLeft(s));
    var l := TrimLeft(s);
    var r := TrimRight(l);
    if r != [] {
      assert r[0] == l[0];
    }
  }

  /** A string neither starting nor ending with a trim character is its own trim. */
  lemma TrimNoop(s: string)
    requires s == [] || (!IsTrimChar(s[0]) && !IsTrimChar(s[|s| - 1]))
    ensures Trim(s) == s
  {
  }

  /** `t` occurs in `s` starting at index `i`. */
  predicate OccursAt(s: string, t: string, i: nat)
  {
    i + |t| <= |s| && s[i..i + |t|] == t
  }

  /** The first occurrence of `t` in `s` at or after index `i`. */
  function FindFrom(s: string, t: string, i: nat): (r: Option<nat>)
    ensures r.Some? ==> i <= r.value && OccursAt(s, t, r.value)
    ensures r.Some? ==> forall j :: i <= j < r.value ==> !OccursAt(s, t, j)
    ensures r.None? ==> forall j :: i <= j ==> !OccursAt(s, t, j)
    decreases |s| - i
  {
    if i + |t| > |s| then None
    else if s[i..i + |t|] == t then Some(i)
    else FindFrom(s, t, i + 1)
  }

  /** strpos(s, t): the index of the first occurrence, None for false. */
  function StrPos(s: string, t: string): Option<nat>
  {
    FindFrom(s, t, 0)
  }

  /** The start index substr() uses for `offset`: counted from the end when negative, clamped to the string. */
  function SubstrStart(s: string, offset: int): (k: nat)
    ensures k <= |s|
    ensures 0 <= offset <= |s| ==> k == offset
    ensures offset < 0 && |s| + offset >= 0 ==> k == |s| + offset
  {
    if offset < 0 then (if |s| + offset < 0 then 0 else |s| + offset)
    else if offset > |s| then |s| else offset
  }

  /** substr(s, offset), PHP 8: an offset past the end gives "". */
  function SubstrFrom(s: string, offset: int): (r: string)
    ensures r == s[SubstrStart(s, offset)..]
  {
    s[SubstrStart(s, offset)..]
  }

  /**
   * substr(s, offset, length), PHP 8: a negative length leaves that many
   * characters off the end, and a length that would end before the start
   * gives "". mb_substr counts characters the same way.
   */
  function Substr(s: string, offset: int, length: int): (r: string)
    ensures var k := SubstrStart(s, offset);
      k + |r| <= |s| && r == s[k..k + |r|] &&
      (length >= 0 ==> |r| == if k + length <= |s| then length else |s| - k) &&
      (length < 0 ==> |r| == if |s| + length >= k then |s| + length - k else 0)
  {
    var k := SubstrStart(s, offset);
    var end := if length >= 0 then (if k + length <= |s| then k + length else |s|)
               else (if |s| + length >= k then |s| + length else k);
    s[k..end]
  }

  function DigitValue(c: char): (d: nat)
    requires IsDigit(c)
    ensures d < 10
  {
    c as int - '0' as int
  }

  function DigitChar(d: nat): (c: char)
    requires d < 10
    ensures IsDigit(c) && DigitValue(c) == d
  {
    ('0' as int + d) as char
  }

  /** (int) of a string of decimal digits. */
  function DecimalToNat(s: string): nat
    requires AllDigits(s)
    decreases |s|
  {
    if s == [] then 0 else DecimalToNat(s[..|s| - 1]) * 10 + DigitValue(s[|s| - 1])
  }

  /** The decimal string PHP gives a non-negative integer. */
  function NatToDecimal(n: nat): (r: string)
    ensures |r| > 0 && AllDigits(r)
    ensures r[0] == '0' ==> n == 0 && r == "0"
  {
    if n < 10 then [DigitChar(n)] else NatToDecimal(n / 10) + [DigitChar(n % 10)]
  }

  lemma {:induction false} DecimalRoundTrip(n: nat)
    ensures DecimalToNat(NatToDecimal(n)) == n
  {
    if n >= 10 {
      DecimalRoundTrip(n / 10);
      var r := NatToDecimal(n);
      assert r[..|r| - 1] == NatToDecimal(n / 10);
    }
  }

  /** (string) of an int. */
  function IntToDecimal(i: int): (r: string)
    ensures |r| > 0
  {
    if i < 0 then "-" + NatToDecimal(-i) else NatToDecimal(i)
  }

  /** preg_replace('/[^0-9]/', '', s): the digits of s, in order. */
  function DigitsOnly(s: string): (r: string)
    ensures AllDigits(r) && |r| <= |s|
    ensures AllDigits(s) ==> r == s
    decreases |s|
  {
    if s == [] then []
    else (if IsDigit(s[0]) then [s[0]] else []) + DigitsOnly(s[1..])
  }

  /** The digits of a concatenation are the digits of each part. */
  lemma {:induction false} DigitsOnlyConcat(a: string, b: string)
    ensures DigitsOnly(a + b) == DigitsOnly(a) + DigitsOnly(b)
    decreases |a|
  {
    if a != [] {
      assert (a + b)[1..] == a[1..] + b;
      DigitsOnlyConcat(a[1..], b);
    } else {
      assert a + b == b;
    }
  }

  /** A string without digits has none to keep. */
  lemma {:induction false} DigitsOnlyNone(s: string)
    requires forall i :: 0 <= i < |s| ==> !IsDigit(s[i])
    ensures DigitsOnly(s) == []
    decreases |s|
  {
    if s != [] {
      DigitsOnlyNone(s[1..]);
    }
  }

  /** ltrim(s, c) for a single character c. */
  function StripLeadingChar(s: string, c: char): (r: string)
    ensures |r| <= |s| && r == s[|s| - |r|..]
    ensures r == [] || r[0] != c
    ensures forall i :: 0 <= i < |s| - |r| ==> s[i] == c
    decreases |s|
  {
    if s != [] && s[0] == c then
      var t := s[1..];
      var r := StripLeadingChar(t, c);
      assert s == [c] + t;
      r
    else s
  }

  /** rtrim(s, c) for a single character c. */
  function StripTrailingChar(s: string, c: char): (r: string)
    ensures |r| <= |s| && r == s[..|r|]
    ensures r == [] || r[|r| - 1] != c
    ensures forall i :: |r| <= i < |s| ==> s[i] == c
    decreases |s|
  {
    if s != [] && s[|s| - 1] == c then
      var t := s[..|s| - 1];
      var r := StripTrailingChar(t, c);
      assert forall i :: 0 <= i < |t| ==> s[i] == t[i];
      assert r == t[..|r|] == s[..|r|];
      r
    else s
  }

  /** `key` is a non-empty prefix of `s`; strtr never matches an empty key. */
  predicate KeyMatches(key: string, s: string)
  {
    |key| > 0 && key <= s
  }

  /**
   * The pair strtr replaces at the start of `s`: the one with the longest
   * matching key, the first of them when several are equally long.
   */
  function LongestMatch(s: string, pairs: seq<(string, string)>): (r: Option<nat>)
    ensures r.Some? ==> r.value < |pairs| && KeyMatches(pairs[r.value].0, s)
    ensures r.Some? ==> forall j :: 0 <= j < |pairs| && KeyMatches(pairs[j].0, s) ==> |pairs[j].0| <= |pairs[r.value].0|
    ensures r.Some? ==> forall j :: 0 <= j < r.value && KeyMatches(pairs[j].0, s) ==> |pairs[j].0| < |pairs[r.value].0|
    ensures r.None? ==> forall j :: 0 <= j < |pairs| ==> !KeyMatches(pairs[j].0, s)
  {
    if pairs == [] then None
    else
      var r := LongestMatch(s, pairs[..|pairs| - 1]);
      var k := pairs[|pairs| - 1].0;
      if KeyMatches(k, s) && (r.None? || |k| > |pairs[r.value].0|) then Some(|pairs| - 1) else r
  }

  /**
   * strtr(s, pairs): scanning left to right, the longest key found at the
   * current position is replaced by its value and scanning resumes after it;
   * replaced text is never scanned again.
   */
  function Strtr(s: string, pairs: seq<(string, string)>): string
    decreases |s|
  {
    if s == [] then []
    else
      match LongestMatch(s, pairs)
      case None => [s[0]] + Strtr(s[1..], pairs)
      case Some(j) => pairs[j].1 + Strtr(s[|pairs[j].0|..], pairs)
  }
}
