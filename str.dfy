/**
 * The string helpers of `Str`: prefix and suffix tests, stripping a prefix
 * or suffix, truncation with an indicator, incrementing a numeric suffix,
 * filtering a string down to a clean number, replacing the first
 * occurrence, and converting between camelCase and separated words. Text
 * is ASCII, one `char` per character, as the helpers require of it.
 */
module Str {
  import opened Wrappers
  import opened PhpStrings
  import opened PhpValues

  /** `t` is a suffix of `s`. */
  predicate IsSuffix(t: string, s: string)
  {
    |t| <= |s| && s[|s| - |t|..] == t
  }

  // ---------------------------------------------------------------------
  // startsWith, endsWith, stripLeft, stripRight

  /** startsWith: strpos finds `search` at index 0; an empty search is found at 0 of any string. */
  function StartsWith(s: string, search: string): (r: bool)
    ensures r <==> search <= s
  {
    var p := StrPos(s, search);
    assert search <= s ==> OccursAt(s, search, 0);
    p == Some(0)
  }

  /**
   * endsWith: the last |search| characters equal `search`. PHP 8's substr
   * with offset -0 is the whole string, so an empty search only ends the
   * empty string.
   */
  function EndsWith(s: string, search: string): (r: bool)
    ensures search != [] ==> (r <==> IsSuffix(search, s))
    ensures search == [] ==> (r <==> s == [])
  {
    SubstrFrom(s, -|search|) == search
  }

  /** stripLeft: the string after `strip` when it starts with it, else the string. */
  function StripLeft(s: string, strip: string): (r: string)
    ensures strip <= s ==> r == s[|strip|..]
    ensures !(strip <= s) ==> r == s
  {
    if StartsWith(s, strip) then SubstrFrom(s, |strip|) else s
  }

  /** stripRight: the string before `strip` when it ends with it, else the string. */
  function StripRight(s: string, strip: string): (r: string)
    ensures IsSuffix(strip, s) ==> r == s[..|s| - |strip|]
    ensures !IsSuffix(strip, s) ==> r == s
  {
    if EndsWith(s, strip) then Substr(s, 0, -|strip|) else s
  }

  lemma StripLeftConcat(p: string, t: string)
    ensures StripLeft(p + t, p) == t
  {
    assert p <= p + t;
  }

  lemma StripRightConcat(t: string, p: string)
    ensures StripRight(t + p, p) == t
  {
    assert IsSuffix(p, t + p) by { assert (t + p)[|t|..] == p; }
    assert (t + p)[..|t|] == t;
  }

  /** Stripping then putting the prefix back restores the string, and a string without it is untouched. */
  lemma StripLeftRestores(s: string, p: string)
    ensures p <= s ==> p + StripLeft(s, p) == s
    ensures !(p <= s) ==> StripLeft(s, p) == s
  {
    if p <= s {
      assert s == s[..|p|] + s[|p|..];
    }
  }

  lemma StripRightRestores(s: string, p: string)
    ensures IsSuffix(p, s) ==> StripRight(s, p) + p == s
    ensures !IsSuffix(p, s) ==> StripRight(s, p) == s
  {
    if IsSuffix(p, s) {
      assert s == s[..|s| - |p|] + s[|s| - |p|..];
    }
  }

  // ---------------------------------------------------------------------
  // truncate

  /**
   * truncate: a string longer than `maxLength` is cut to `maxLength -
   * |indicator|` characters (counted from the end when that is negative, as
   * mb_substr does) and the indicator is appended.
   */
  function Truncate(s: string, maxLength: int, indicator: string): (r: string)
    ensures |s| <= maxLength ==> r == s
    ensures |s| > maxLength && maxLength >= |indicator| ==>
      r == s[..maxLength - |indicator|] + indicator && |r| == maxLength
    ensures |s| > maxLength && maxLength < |indicator| ==>
      r == s[..if |s| + maxLength - |indicator| >= 0 then |s| + maxLength - |indicator| else 0] + indicator
  {
    if |s| > maxLength then Substr(s, 0, maxLength - |indicator|) + indicator else s
  }

  /** A truncated string is never longer than the limit, when the indicator fits in it. */
  lemma TruncateBound(s: string, maxLength: int, indicator: string)
    requires |indicator| <= maxLength
    ensures |Truncate(s, maxLength, indicator)| <= maxLength
    ensures Truncate(s, maxLength, indicator) <= s || IsSuffix(indicator, Truncate(s, maxLength, indicator))
  {
    var r := Truncate(s, maxLength, indicator);
    if |s| > maxLength {
      assert r[|r| - |indicator|..] == indicator;
    }
  }

  // ---------------------------------------------------------------------
  // incrementSeparated

  /** Where `$` can match in `s`: its end, or just before a final newline. */
  function AnchorEnd(s: string): (e: nat)
    ensures e <= |s|
  {
    if s != [] && s[|s| - 1] == '\n' then |s| - 1 else |s|
  }

  /**
   * A separator preg_match reads as plain text in `/separator(\d+)$/`: no
   * PCRE metacharacter, no `/` (the delimiter) and no NUL character. For
   * any other separator the pattern means something else or does not
   * compile, and SuffixMatchAt below does not describe it.
   */
  predicate PatternLiteral(separator: string)
  {
    forall i :: 0 <= i < |separator| ==> separator[i] !in ".\\+*?[]^$(){}|/" && separator[i] != '\0'
  }

  /** The largest PHP integer; `(int)` of a longer run of digits stops there. */
  const PhpIntMax: nat := 9223372036854775807

  /** The pattern `separator(\d+)$` matches `s` at index `i`. */
  predicate SuffixMatchAt(s: string, separator: string, i: nat)
  {
    OccursAt(s, separator, i) && i + |separator| < AnchorEnd(s)
    && AllDigits(s[i + |separator|..AnchorEnd(s)])
  }

  /** The leftmost match of `separator(\d+)$` at or after index `i`, as preg_match finds it. */
  function FirstSuffixMatch(s: string, separator: string, i: nat): (r: Option<nat>)
    ensures r.Some? ==> i <= r.value && SuffixMatchAt(s, separator, r.value)
    decreases |s| - i
  {
    if i >= |s| then None
    else if SuffixMatchAt(s, separator, i) then Some(i)
    else FirstSuffixMatch(s, separator, i + 1)
  }

  /** The match found is the leftmost one, and no match is found only when there is none. */
  lemma {:induction false} FirstSuffixMatchLeftmost(s: string, separator: string, i: nat)
    ensures var r := FirstSuffixMatch(s, separator, i);
      (r.Some? ==> forall j :: i <= j < r.value ==> !SuffixMatchAt(s, separator, j))
      && (r.None? ==> forall j :: i <= j ==> !SuffixMatchAt(s, separator, j))
    decreases |s| - i
  {
    if i < |s| && !SuffixMatchAt(s, separator, i) {
      FirstSuffixMatchLeftmost(s, separator, i + 1);
    }
  }

  /** A match ends in a digit: its digits run up to the end anchor. */
  lemma MatchEndsInDigit(s: string, separator: string, i: nat)
    requires SuffixMatchAt(s, separator, i)
    ensures 0 < AnchorEnd(s) <= |s| && IsDigit(s[AnchorEnd(s) - 1])
  {
    var d := s[i + |separator|..AnchorEnd(s)];
    assert d[|d| - 1] == s[AnchorEnd(s) - 1];
  }

  /**
   * incrementSeparated: when `s` ends in the separator and a number, the
   * number goes up by one; otherwise the separator and 2 are appended. The
   * matched suffix is removed with stripRight, which leaves the string as it
   * is when it ends in a newline.
   */
  function IncrementSeparated(s: string, separator: string): string
  {
    match MatchedDigits(s, separator)
    case Some(digits) => Renumber(s, separator, digits)
    case None => s + separator + "2"
  }

  /** The number `separator(\d+)$` captures, if the pattern matches. */
  function MatchedDigits(s: string, separator: string): (r: Option<string>)
    ensures r.Some? ==> AllDigits(r.value)
  {
    match FirstSuffixMatch(s, separator, 0)
    case Some(i) => Some(s[i + |separator|..AnchorEnd(s)])
    case None => None
  }

  /** The matched separator and digits stripped off the right, and the separator and the next number appended. */
  function Renumber(s: string, separator: string, digits: string): string
    requires AllDigits(digits)
  {
    StripRight(s, separator + digits) + separator + NatToDecimal(DecimalToNat(digits) + 1)
  }

  /**
   * A separator ending in a non-digit matches at most once: a second match
   * further left would need that character among its digits.
   */
  lemma SuffixMatchUnique(s: string, separator: string, i: nat, j: nat)
    requires separator != [] && !IsDigit(separator[|separator| - 1])
    requires SuffixMatchAt(s, separator, i) && SuffixMatchAt(s, separator, j)
    ensures i == j
  {
    if j < i {
      MatchBeforeMatch(s, separator, j, i);
    } else if i < j {
      MatchBeforeMatch(s, separator, i, j);
    }
  }

  /** A match left of another one covers the other's separator with digits. */
  lemma MatchBeforeMatch(s: string, separator: string, j: nat, i: nat)
    requires separator != [] && SuffixMatchAt(s, separator, j) && SuffixMatchAt(s, separator, i) && j < i
    ensures IsDigit(separator[|separator| - 1])
  {
    var k := i + |separator| - 1;
    assert s[i..i + |separator|][|separator| - 1] == s[k];
    assert s[j + |separator|..AnchorEnd(s)][k - (j + |separator|)] == s[k];
  }

  /** In `base + separator + digits` the pattern matches right after the base, and only there. */
  lemma NumberedMatch(base: string, separator: string, digits: string)
    requires PatternLiteral(separator)
    requires separator != [] && !IsDigit(separator[|separator| - 1])
    requires digits != [] && AllDigits(digits)
    ensures var s := base + separator + digits;
      MatchedDigits(s, separator) == Some(digits)
  {
    var s := base + separator + digits;
    var i := |base|;
    assert s[|s| - 1] == digits[|digits| - 1];
    assert AnchorEnd(s) == |s|;
    assert s[i..i + |separator|] == separator;
    assert s[i + |separator|..] == digits;
    assert SuffixMatchAt(s, separator, i);
    FirstSuffixMatchLeftmost(s, separator, 0);
    var m := FirstSuffixMatch(s, separator, 0);
    SuffixMatchUnique(s, separator, m.value, i);
    assert s[i + |separator|..AnchorEnd(s)] == digits;
    assert MatchedDigits(s, separator) == Some(s[i + |separator|..AnchorEnd(s)]);
  }

  /** `base + separator + digits` goes to the same stem with the number plus one. */
  lemma IncrementNumbered(base: string, separator: string, digits: string)
    requires PatternLiteral(separator)
    requires separator != [] && !IsDigit(separator[|separator| - 1])
    requires digits != [] && AllDigits(digits) && DecimalToNat(digits) < PhpIntMax
    ensures IncrementSeparated(base + separator + digits, separator)
         == base + separator + NatToDecimal(DecimalToNat(digits) + 1)
  {
    NumberedMatch(base, separator, digits);
    RenumberNumbered(base, separator, digits);
  }

  /** The stem keeps its text and its number goes up by one, below PHP's largest integer. */
  lemma RenumberNumbered(base: string, separator: string, digits: string)
    requires AllDigits(digits) && DecimalToNat(digits) < PhpIntMax
    ensures Renumber(base + separator + digits, separator, digits) == base + separator + NatToDecimal(DecimalToNat(digits) + 1)
  {
    var s := base + separator + digits;
    assert s == base + (separator + digits);
    StripRightConcat(base, separator + digits);
    assert Renumber(s, separator, digits) == StripRight(s, separator + digits) + separator + NatToDecimal(DecimalToNat(digits) + 1);
  }

  /** The decimal forms of 2 and 3. */
  lemma SmallNumbers()
    ensures NatToDecimal(2) == "2" && NatToDecimal(3) == "3"
  {
  }

  /** A number the stem already carries is incremented: n goes to n+1. */
  lemma IncrementNumber(base: string, separator: string, n: nat)
    requires PatternLiteral(separator)
    requires separator != [] && !IsDigit(separator[|separator| - 1])
    requires n < PhpIntMax
    ensures IncrementSeparated(base + separator + NatToDecimal(n), separator)
         == base + separator + NatToDecimal(n + 1)
  {
    DecimalRoundTrip(n);
    IncrementNumbered(base, separator, NatToDecimal(n));
  }

  /** A string not ending in a digit (nor a digit and a newline) gets the separator and 2. */
  lemma IncrementFresh(s: string, separator: string)
    requires PatternLiteral(separator)
    requires AnchorEnd(s) == 0 || !IsDigit(s[AnchorEnd(s) - 1])
    ensures IncrementSeparated(s, separator) == s + separator + "2"
  {
    var m := FirstSuffixMatch(s, separator, 0);
    if m.Some? {
      MatchEndsInDigit(s, separator, m.value);
      assert false;
    }
  }

  /** Incrementing a fresh stem twice numbers it 2 and then 3. */
  lemma IncrementTwice(s: string, separator: string)
    requires PatternLiteral(separator)
    requires separator != [] && !IsDigit(separator[|separator| - 1])
    requires AnchorEnd(s) == 0 || !IsDigit(s[AnchorEnd(s) - 1])
    ensures IncrementSeparated(s, separator) == s + separator + "2"
    ensures IncrementSeparated(IncrementSeparated(s, separator), separator) == s + separator + "3"
  {
    IncrementFresh(s, separator);
    SmallNumbers();
    IncrementNumber(s, separator, 2);
  }

  // ---------------------------------------------------------------------
  // toNumber

  /**
   * The three parts toNumber joins: a sign ("" or "-"), the integer digits
   * and the decimal part ("" or "." and digits).
   */
  datatype NumberText = NumberText(sign: string, integerPart: string, decimalPart: string)

  /** Digits without leading zeros, or "0". */
  predicate CleanInteger(d: string)
  {
    d != [] && AllDigits(d) && (d[0] == '0' ==> d == "0")
  }

  /** "" or a '.' and digits without trailing zeros. */
  predicate CleanDecimal(d: string)
  {
    d == "" || (|d| >= 2 && d[0] == '.' && AllDigits(d[1..]) && d[|d| - 1] != '0')
  }

  /** The shape of toNumber's result. */
  predicate WellFormedNumber(n: NumberText)
  {
    && (n.sign == "" || n.sign == "-")
    && CleanInteger(n.integerPart)
    && CleanDecimal(n.decimalPart)
    && (n.sign == "-" ==> !(n.integerPart == "0" && n.decimalPart == ""))
  }

  function Text(n: NumberText): string
  {
    n.sign + n.integerPart + n.decimalPart
  }

  /** The digits after the first '.', without trailing zeros, behind a '.'; "" when none remain. */
  function DecimalPart(t: string, firstPos: nat, allowDecimal: bool): (d: string)
    requires firstPos <= |t|
    ensures CleanDecimal(d)
  {
    if allowDecimal then
      var filtered := StripTrailingChar(DigitsOnly(SubstrFrom(t, firstPos)), '0');
      if Truthy(filtered) then "." + filtered else ""
    else ""
  }

  /** The integer digits without leading zeros, "0" when none remain. */
  function IntegerDigits(integerPart: string): (r: string)
    ensures CleanInteger(r)
  {
    var digits := StripLeadingChar(DigitsOnly(integerPart), '0');
    if Truthy(digits) then digits else "0"
  }

  /** The integer text before the first '.' and toNumber's decimal part. */
  function SplitAtDot(t: string, allowDecimal: bool): (r: (string, string))
    ensures CleanDecimal(r.1)
    ensures !allowDecimal ==> r.1 == ""
  {
    match StrPos(t, ".")
    case Some(p) => (t[..p], DecimalPart(t, p, allowDecimal))
    case None => (t, "")
  }

  /** toNumber's parts; a negative number it may not keep gives the parts of "0". */
  function NumberParts(s: string, allowDecimal: bool, allowNegative: bool): (r: NumberText)
    ensures WellFormedNumber(r)
  {
    var t := Trim(s);
    var split := SplitAtDot(t, allowDecimal);
    Signed(StartsWith(t, "-"), allowNegative, IntegerDigits(split.0), split.1)
  }

  /** The sign toNumber puts in front: "-" for a negative input it may keep, unless the number is 0. */
  function Signed(negative: bool, allowNegative: bool, integerDigits: string, decimalPart: string): (r: NumberText)
    requires CleanInteger(integerDigits) && CleanDecimal(decimalPart)
    ensures WellFormedNumber(r)
    ensures r.decimalPart == decimalPart || r == NumberText("", "0", "")
    ensures !allowNegative ==> r.sign == ""
    ensures negative && !allowNegative ==> Text(r) == "0"
    ensures !negative ==> r == NumberText("", integerDigits, decimalPart)
    ensures negative && allowNegative ==>
      r.integerPart == integerDigits && r.decimalPart == decimalPart
      && (r.sign == "-" <==> !(integerDigits == "0" && decimalPart == ""))
  {
    if negative then
      if !allowNegative then NumberText("", "0", "")
      else if !(integerDigits == "0" && Empty(Str(decimalPart))) then NumberText("-", integerDigits, decimalPart)
      else NumberText("", integerDigits, decimalPart)
    else NumberText("", integerDigits, decimalPart)
  }

  /** toNumber: the string filtered down to a clean number, never "-0". */
  function ToNumber(s: string, allowDecimal: bool, allowNegative: bool): (r: string)
    ensures exists n :: WellFormedNumber(n) && r == Text(n)
    ensures r != "-0" && r != []
  {
    var n := NumberParts(s, allowDecimal, allowNegative);
    TextNotMinusZero(n);
    Text(n)
  }

  lemma TextNotMinusZero(n: NumberText)
    requires WellFormedNumber(n)
    ensures Text(n) != "-0" && Text(n) != []
  {
    var r := Text(n);
    var m := "-0";
    assert m[0] == '-' && m[1] == '0' && |m| == 2;
    if n.sign == "" {
      assert r[0] == n.integerPart[0];
    } else if |r| == 2 {
      assert |n.integerPart| == 1 && n.decimalPart == "";
      assert r[1] == n.integerPart[0];
    }
  }

  /** Without allowDecimal there is no decimal part; without allowNegative no sign. */
  lemma ToNumberFlags(s: string, allowDecimal: bool, allowNegative: bool)
    ensures !allowDecimal ==> NumberParts(s, allowDecimal, allowNegative).decimalPart == ""
    ensures !allowNegative ==> NumberParts(s, allowDecimal, allowNegative).sign == ""
    ensures !allowNegative && StartsWith(Trim(s), "-") ==> ToNumber(s, allowDecimal, allowNegative) == "0"
  {
  }

  /** Digits only go through toNumber with their leading zeros removed. */
  lemma ToNumberDigits(s: string, allowDecimal: bool, allowNegative: bool)
    requires s != [] && AllDigits(s) && s[0] != '0'
    ensures ToNumber(s, allowDecimal, allowNegative) == s
  {
    assert !IsTrimChar(s[0]) && !IsTrimChar(s[|s| - 1]);
    assert forall i :: 0 <= i < |s| ==> s[i] != '.' by {
      forall i | 0 <= i < |s|
        ensures s[i] != '.'
      {
        assert IsDigit(s[i]);
      }
    }
    ToNumberNoDot(s, allowDecimal, allowNegative);
    IntegerDigitsOf(s, s);
  }

  /**
   * Without a '.' and without a leading '-', toNumber gives the integer
   * digits alone, whatever the flags: no sign and no decimal part.
   */
  lemma ToNumberNoDot(s: string, allowDecimal: bool, allowNegative: bool)
    requires s == [] || (!IsTrimChar(s[0]) && !IsTrimChar(s[|s| - 1]) && s[0] != '-')
    requires forall i :: 0 <= i < |s| ==> s[i] != '.'
    ensures ToNumber(s, allowDecimal, allowNegative) == IntegerDigits(s)
    ensures AllDigits(ToNumber(s, allowDecimal, allowNegative))
  {
    TrimNoop(s);
    NoOccurrence(s, '.');
    assert !StartsWith(s, "-") by {
      assert s != [] ==> s[0] != "-"[0];
    }
    NumberPartsPlain(s, allowDecimal, allowNegative);
  }

  /** A trimmed string without '.' or leading '-' has just its integer digits as parts. */
  lemma NumberPartsPlain(s: string, allowDecimal: bool, allowNegative: bool)
    requires Trim(s) == s && StrPos(s, ".").None? && !StartsWith(s, "-")
    ensures NumberParts(s, allowDecimal, allowNegative) == NumberText("", IntegerDigits(s), "")
  {
    assert SplitAtDot(s, allowDecimal) == (s, "");
  }

  /**
   * With a '.' in the trimmed input and no leading '-', toNumber gives the
   * digits before the first '.' without leading zeros ("0" when none
   * remain), then, when decimals are allowed, a '.' and the digits after it
   * without trailing zeros (nothing when none remain).
   */
  lemma ToNumberWithDot(s: string, a: string, b: string, allowDecimal: bool, allowNegative: bool)
    requires Trim(s) == a + "." + b
    requires forall i :: 0 <= i < |a| ==> a[i] != '.'
    requires a == [] || a[0] != '-'
    ensures var integerDigits := StripLeadingChar(DigitsOnly(a), '0');
      var decimals := StripTrailingChar(DigitsOnly(b), '0');
      ToNumber(s, allowDecimal, allowNegative)
      == (if integerDigits == [] then "0" else integerDigits)
         + (if allowDecimal && decimals != [] then "." + decimals else "")
  {
    var t := Trim(s);
    FirstDot(t, a, b);
    assert t[..|a|] == a;
    var d := DecimalPart(t, |a|, allowDecimal);
    assert SplitAtDot(t, allowDecimal) == (a, d);
    DecimalAfterDot(t, a, b, allowDecimal);
    IntegerDigitsValue(a);
    assert !StartsWith(t, "-") by {
      assert t[0] == if a == [] then '.' else a[0];
    }
    PositiveParts(s, allowDecimal, allowNegative);
  }

  /** Without a leading '-' toNumber has no sign: its parts are the integer digits and the decimal part. */
  lemma PositiveParts(s: string, allowDecimal: bool, allowNegative: bool)
    requires !StartsWith(Trim(s), "-")
    ensures var split := SplitAtDot(Trim(s), allowDecimal);
      ToNumber(s, allowDecimal, allowNegative) == IntegerDigits(split.0) + split.1
  {
    var split := SplitAtDot(Trim(s), allowDecimal);
    var integerDigits := IntegerDigits(split.0);
    var n := NumberText("", integerDigits, split.1);
    assert Signed(false, allowNegative, integerDigits, split.1) == n;
    assert NumberParts(s, allowDecimal, allowNegative) == n;
    TextUnsigned(integerDigits, split.1);
  }

  /**
   * With a leading '-' and allowNegative, toNumber puts '-' in front of the
   * integer digits and the decimal part, unless together they read "0".
   */
  lemma NegativeParts(s: string, allowDecimal: bool)
    requires StartsWith(Trim(s), "-")
    ensures var split := SplitAtDot(Trim(s), allowDecimal);
      var u := IntegerDigits(split.0) + split.1;
      ToNumber(s, allowDecimal, true) == if u == "0" then "0" else "-" + u
  {
    var split := SplitAtDot(Trim(s), allowDecimal);
    var integerDigits := IntegerDigits(split.0);
    var n := Signed(true, true, integerDigits, split.1);
    assert NumberParts(s, allowDecimal, true) == n;
    SignedNegativeText(integerDigits, split.1);
  }

  /** The text of a kept negative number: '-' and its digits, or "0" for zero. */
  lemma SignedNegativeText(integerDigits: string, decimalPart: string)
    requires CleanInteger(integerDigits) && CleanDecimal(decimalPart)
    ensures var u := integerDigits + decimalPart;
      Text(Signed(true, true, integerDigits, decimalPart)) == if u == "0" then "0" else "-" + u
  {
    var u := integerDigits + decimalPart;
    var n := Signed(true, true, integerDigits, decimalPart);
    TextUnsigned(integerDigits, decimalPart);
    assert decimalPart != "" ==> |u| >= 3;
    assert u == "0" <==> integerDigits == "0" && decimalPart == "";
    if n.sign == "-" {
      assert Text(n) == "-" + u;
    }
  }

  /** An unsigned number reads as its integer digits and its decimal part. */
  lemma TextUnsigned(integerDigits: string, decimalPart: string)
    ensures Text(NumberText("", integerDigits, decimalPart)) == integerDigits + decimalPart
  {
    assert "" + integerDigits == integerDigits;
  }

  /** The decimal part behind the first '.': its digits without trailing zeros, "" when none remain. */
  lemma DecimalAfterDot(t: string, a: string, b: string, allowDecimal: bool)
    requires t == a + "." + b
    ensures var decimals := StripTrailingChar(DigitsOnly(b), '0');
      DecimalPart(t, |a|, allowDecimal) == if allowDecimal && decimals != [] then "." + decimals else ""
  {
    assert SubstrFrom(t, |a|) == "." + b;
    DotDigits(b);
    var decimals := StripTrailingChar(DigitsOnly(b), '0');
    assert decimals != "0";
    assert Truthy(decimals) <==> decimals != [];
  }

  /** The '.' in front contributes no digit. */
  lemma DotDigits(b: string)
    ensures DigitsOnly("." + b) == DigitsOnly(b)
  {
    assert ("." + b)[1..] == b;
  }

  /** Digits stripped of their leading zeros are never "0", so only "" falls back to "0". */
  lemma IntegerDigitsValue(a: string)
    ensures var digits := StripLeadingChar(DigitsOnly(a), '0');
      IntegerDigits(a) == if digits == [] then "0" else digits
  {
    var digits := StripLeadingChar(DigitsOnly(a), '0');
    assert digits != "0";
  }

  /** strpos(t, ".") is the length of the part before the first '.'. */
  lemma FirstDot(t: string, a: string, b: string)
    requires t == a + "." + b
    requires forall i :: 0 <= i < |a| ==> a[i] != '.'
    ensures StrPos(t, ".") == Some(|a|)
  {
    assert OccursAt(t, ".", |a|) by {
      assert t[|a|..|a| + 1] == ".";
    }
    forall j: nat | j < |a|
      ensures !OccursAt(t, ".", j)
    {
      assert t[j..j + 1] == [a[j]];
    }
  }

  /** strpos finds no character that the string does not hold. */
  lemma NoOccurrence(s: string, c: char)
    requires forall i :: 0 <= i < |s| ==> s[i] != c
    ensures StrPos(s, [c]).None?
  {
    forall j: nat
      ensures !OccursAt(s, [c], j)
    {
      if j + 1 <= |s| {
        assert s[j..j + 1][0] == s[j];
      }
    }
  }

  /** Digits with no leading zero are the integer part as they are. */
  lemma IntegerDigitsOf(s: string, d: string)
    requires DigitsOnly(s) == d && d != [] && d[0] != '0'
    ensures IntegerDigits(s) == d
  {
    assert StripLeadingChar(d, '0') == d;
  }

  // ---------------------------------------------------------------------
  // replaceFirst

  /** replaceFirst: the first occurrence of `search` is replaced by `replace`; no occurrence, no change. */
  function ReplaceFirst(search: string, replace: string, subject: string): string
  {
    match StrPos(subject, search)
    case Some(p) => subject[..p] + replace + subject[p + |search|..]
    case None => subject
  }

  /** An occurrence at `p` with none before it is the one replaced. */
  lemma ReplaceFirstLeftmost(search: string, replace: string, subject: string, p: nat)
    requires OccursAt(subject, search, p)
    requires forall j: nat :: j < p ==> !OccursAt(subject, search, j)
    ensures ReplaceFirst(search, replace, subject) == subject[..p] + replace + subject[p + |search|..]
  {
    match StrPos(subject, search)
    case Some(q) =>
      assert !(q < p) && !(p < q);
    case None =>
  }

  /** A subject that starts with `search` has that first occurrence replaced. */
  lemma ReplaceFirstAtStart(search: string, replace: string, rest: string)
    ensures ReplaceFirst(search, replace, search + rest) == replace + rest
  {
    var subject := search + rest;
    assert subject[..|search|] == search;
    assert OccursAt(subject, search, 0);
    ReplaceFirstLeftmost(search, replace, subject, 0);
    assert subject[..0] == [] && subject[|search|..] == rest;
  }

  /** Without an occurrence the subject comes back unchanged. */
  lemma ReplaceFirstNoMatch(search: string, replace: string, subject: string)
    requires forall p: nat :: !OccursAt(subject, search, p)
    ensures ReplaceFirst(search, replace, subject) == subject
  {
  }

  /** The new text sits where the first occurrence was; the rest of the subject is kept. */
  lemma ReplaceFirstAt(search: string, replace: string, subject: string)
    requires StrPos(subject, search).Some?
    ensures var p := StrPos(subject, search).value;
      var r := ReplaceFirst(search, replace, subject);
      |r| == |subject| - |search| + |replace| && r[..p] == subject[..p]
      && OccursAt(r, replace, p) && r[p + |replace|..] == subject[p + |search|..]
  {
    var p := StrPos(subject, search).value;
    var r := ReplaceFirst(search, replace, subject);
    assert r[p..p + |replace|] == replace;
  }

  /** Replacing the first occurrence with itself changes nothing. */
  lemma ReplaceFirstSelf(search: string, subject: string)
    ensures ReplaceFirst(search, search, subject) == subject
  {
    match StrPos(subject, search)
    case Some(p) =>
      assert subject == subject[..p] + subject[p..p + |search|] + subject[p + |search|..];
    case None =>
  }

  // ---------------------------------------------------------------------
  // camelToSeparator

  predicate IsUpperOrDigit(c: char) { IsUpper(c) || IsDigit(c) }

  /**
   * A separator preg_replace copies as plain text into `$1 separator $2`:
   * no backslash or `$`, which start references, and no leading digit,
   * which would be read as part of the number in `$1`. PairSplit below
   * describes the replacement only for such a separator.
   */
  predicate ReplacementLiteral(separator: string)
  {
    '\\' !in separator && '$' !in separator && (separator == [] || !IsDigit(separator[0]))
  }

  /**
   * preg_replace of `/(X)([A-Z])/` by `$1 separator $2`, where X is letters
   * (`letters`) or upper-case letters and digits: scanning left to right, a
   * matching pair gets the separator between its characters and scanning
   * resumes after the pair.
   */
  function PairSplit(s: string, separator: string, letters: bool): string
    decreases |s|
  {
    if |s| >= 2 && (if letters then IsAlpha(s[0]) else IsUpperOrDigit(s[0])) && IsUpper(s[1]) then
      [s[0]] + separator + [s[1]] + PairSplit(s[2..], separator, letters)
    else if s == [] then []
    else [s[0]] + PairSplit(s[1..], separator, letters)
  }

  /** camelToSeparator: a separator before each inner capital, then everything in lower case. */
  function CamelToSeparator(s: string, separator: string): (r: string)
    ensures NoUpper(r)
  {
    ToLower(PairSplit(PairSplit(s, separator, true), separator, false))
  }

  lemma {:induction false} PairSplitNoUpper(s: string, separator: string, letters: bool)
    requires NoUpper(s)
    ensures PairSplit(s, separator, letters) == s
    decreases |s|
  {
    if s != [] {
      PairSplitNoUpper(s[1..], separator, letters);
    }
  }

  /** Text without capitals goes through camelToSeparator unchanged. */
  lemma CamelToSeparatorNoUpper(s: string, separator: string)
    requires NoUpper(s)
    ensures CamelToSeparator(s, separator) == s
  {
    PairSplitNoUpper(s, separator, true);
    PairSplitNoUpper(s, separator, false);
  }

  /** A prefix without capitals is copied, up to its last character. */
  lemma {:induction false} PairSplitPrefix(u: string, t: string, separator: string, letters: bool)
    requires u != [] && NoUpper(u)
    ensures PairSplit(u + t, separator, letters) == u[..|u| - 1] + PairSplit([u[|u| - 1]] + t, separator, letters)
    decreases |u|
  {
    if |u| >= 2 {
      var s := u + t;
      assert s[1] == u[1];
      assert s[1..] == u[1..] + t;
      PairSplitPrefix(u[1..], t, separator, letters);
      assert u[..|u| - 1] == [u[0]] + u[1..][..|u[1..]| - 1];
    } else {
      assert u + t == [u[|u| - 1]] + t;
    }
  }

  /** A capital followed by text without capitals is left alone. */
  lemma PairSplitCapital(big: char, rest: string, separator: string, letters: bool)
    requires NoUpper(rest)
    ensures PairSplit([big] + rest, separator, letters) == [big] + rest
  {
    var w := [big] + rest;
    assert w[1..] == rest;
    if |w| >= 2 {
      assert w[1] == rest[0];
    }
    PairSplitNoUpper(rest, separator, letters);
  }

  /** A pair the pattern matches gets the separator between its characters. */
  lemma PairSplitPair(x: char, big: char, rest: string, separator: string, letters: bool)
    requires (if letters then IsAlpha(x) else IsUpperOrDigit(x)) && IsUpper(big)
    ensures PairSplit([x] + ([big] + rest), separator, letters) == [x] + separator + [big] + PairSplit(rest, separator, letters)
  {
    var t := [x] + ([big] + rest);
    assert t[0] == x && t[1] == big && t[2..] == rest;
  }

  /** A character the pattern cannot start a pair at is copied. */
  lemma PairSplitSkip(y: char, t: string, separator: string, letters: bool)
    requires !(if letters then IsAlpha(y) else IsUpperOrDigit(y))
    ensures PairSplit([y] + t, separator, letters) == [y] + PairSplit(t, separator, letters)
  {
    assert ([y] + t)[0] == y && ([y] + t)[1..] == t;
  }

  /** First pass: the last letter of `a` and the capital after it get the separator between them. */
  lemma FirstPassJoin(a: string, big: char, rest: string, separator: string)
    requires a != [] && NoUpper(a) && IsAlpha(a[|a| - 1]) && IsUpper(big) && NoUpper(rest)
    ensures PairSplit(a + [big] + rest, separator, true) == a + separator + [big] + rest
  {
    var x, front := a[|a| - 1], a[..|a| - 1];
    calc {
      PairSplit(a + [big] + rest, separator, true);
      { assert a + [big] + rest == a + ([big] + rest);
        PairSplitPrefix(a, [big] + rest, separator, true); }
      front + PairSplit([x] + ([big] + rest), separator, true);
      { PairSplitPair(x, big, rest, separator, true);
        PairSplitNoUpper(rest, separator, true); }
      front + ([x] + separator + [big] + rest);
      { LastSplit(a); }
      a + separator + [big] + rest;
    }
  }

  /** A non-empty string is its front and its last character. */
  lemma LastSplit(a: string)
    requires a != []
    ensures a == a[..|a| - 1] + [a[|a| - 1]]
  {
  }

  /** Second pass: the capital follows a character that is neither a capital nor a digit, so nothing changes. */
  lemma SecondPassJoin(u: string, big: char, rest: string, separator: string)
    requires u != [] && NoUpper(u) && !IsDigit(u[|u| - 1]) && NoUpper(rest)
    ensures PairSplit(u + [big] + rest, separator, false) == u + [big] + rest
  {
    var y, front := u[|u| - 1], u[..|u| - 1];
    calc {
      PairSplit(u + [big] + rest, separator, false);
      { assert u + [big] + rest == u + ([big] + rest);
        PairSplitPrefix(u, [big] + rest, separator, false); }
      front + PairSplit([y] + ([big] + rest), separator, false);
      { PairSplitSkip(y, [big] + rest, separator, false);
        PairSplitCapital(big, rest, separator, false); }
      front + ([y] + ([big] + rest));
      { assert u == front + [y]; }
      u + [big] + rest;
    }
  }

  /**
   * Two lower-case words joined by a capital become the words joined by the
   * separator: camelToSeparator(a + "Bc") == a + separator + "bc", for a
   * separator without capitals that does not end in a digit.
   */
  lemma CamelToSeparatorJoin(a: string, b: string, separator: string)
    requires a != [] && NoUpper(a) && IsLower(a[|a| - 1])
    requires b != [] && NoUpper(b) && IsLower(b[0])
    requires ReplacementLiteral(separator)
    requires NoUpper(separator) && (separator == [] || !IsDigit(separator[|separator| - 1]))
    ensures CamelToSeparator(a + [ToUpperChar(b[0])] + b[1..], separator) == a + separator + b
  {
    var big, rest := ToUpperChar(b[0]), b[1..];
    var u := a + separator;
    calc {
      PairSplit(PairSplit(a + [big] + rest, separator, true), separator, false);
      { FirstPassJoin(a, big, rest, separator); }
      PairSplit(a + separator + [big] + rest, separator, false);
      { assert u[|u| - 1] == if separator == [] then a[|a| - 1] else separator[|separator| - 1];
        SecondPassJoin(u, big, rest, separator); }
      u + [big] + rest;
    }
    LowerCapital(u, b);
  }

  /** Lowering a text without capitals but for the first letter of its second part. */
  lemma LowerCapital(u: string, b: string)
    requires NoUpper(u) && b != [] && NoUpper(b) && IsLower(b[0])
    ensures ToLower(u + [ToUpperChar(b[0])] + b[1..]) == u + b
  {
    var t := u + [ToUpperChar(b[0])] + b[1..];
    var r := ToLower(t);
    forall i | 0 <= i < |r|
      ensures r[i] == (u + b)[i]
    {
      if i == |u| {
        assert ToLowerChar(ToUpperChar(b[0])) == b[0];
      }
    }
  }

  // ---------------------------------------------------------------------
  // separatorToCamel

  /** str_replace(search, replace, s): every occurrence, left to right; an empty search changes nothing. */
  function ReplaceAll(s: string, search: string, replace: string): string
    decreases |s|
  {
    if search == [] || s == [] then s
    else if search <= s then replace + ReplaceAll(s[|search|..], search, replace)
    else [s[0]] + ReplaceAll(s[1..], search, replace)
  }

  /** The characters ucwords() treats as word delimiters by default. */
  predicate IsWordDelimiter(c: char)
  {
    c == ' ' || c == '\t' || c == '\r' || c == '\n' || c == '\U{000C}' || c == '\U{000B}'
  }

  /** ucwords: the first character, and each one after a delimiter, in upper case. */
  function UcWords(s: string): (r: string)
    ensures |r| == |s|
  {
    seq(|s|, i requires 0 <= i < |s| => if i == 0 || IsWordDelimiter(s[i - 1]) then ToUpperChar(s[i]) else s[i])
  }

  /** str_replace(' ', '', s) */
  function RemoveSpaces(s: string): (r: string)
    ensures forall i :: 0 <= i < |r| ==> r[i] != ' '
    ensures |r| <= |s|
  {
    if s == [] then [] else (if s[0] == ' ' then [] else [s[0]]) + RemoveSpaces(s[1..])
  }

  /** lcfirst */
  function LcFirst(s: string): (r: string)
  {
    if s == [] then s else [ToLowerChar(s[0])] + s[1..]
  }

  /**
   * separatorToCamel: lower case, separators to spaces, each word
   * capitalised, spaces removed, and the first character lowered unless
   * upper camel case is asked for.
   */
  function SeparatorToCamel(s: string, separator: string, upperCamelCase: bool): (r: string)
    ensures forall i :: 0 <= i < |r| ==> r[i] != ' '
  {
    var camelCased := RemoveSpaces(UcWords(ReplaceAll(ToLower(s), separator, " ")));
    if upperCamelCase then camelCased else
      var l := LcFirst(camelCased);
      assert l != [] ==> l[0] != ' ';
      assert l != [] ==> l[1..] == camelCased[1..];
      l
  }

  /** A word that contains neither the separator's character, a capital nor a delimiter. */
  predicate PlainWord(w: string, c: char)
  {
    w != [] && NoUpper(w) && forall i :: 0 <= i < |w| ==> w[i] != c && !IsWordDelimiter(w[i])
  }

  lemma {:induction false} ReplaceAllAbsent(w: string, c: char, replace: string)
    requires forall i :: 0 <= i < |w| ==> w[i] != c
    ensures ReplaceAll(w, [c], replace) == w
    decreases |w|
  {
    if w != [] {
      assert w[0] != c;
      assert !([c] <= w);
      ReplaceAllAbsent(w[1..], c, replace);
      assert w == [w[0]] + w[1..];
    }
  }

  lemma {:induction false} ReplaceAllJoin(a: string, b: string, c: char, replace: string)
    requires forall i :: 0 <= i < |a| ==> a[i] != c
    requires forall i :: 0 <= i < |b| ==> b[i] != c
    ensures ReplaceAll(a + [c] + b, [c], replace) == a + replace + b
    decreases |a|
  {
    var s := a + [c] + b;
    if a == [] {
      assert s == [c] + b && s[1..] == b;
      assert [c] <= s;
      ReplaceAllAbsent(b, c, replace);
    } else {
      assert s[0] == a[0] && a[0] != c;
      assert !([c] <= s);
      assert s[1..] == a[1..] + [c] + b;
      ReplaceAllJoin(a[1..], b, c, replace);
      assert ReplaceAll(s, [c], replace) == [a[0]] + (a[1..] + replace + b);
      assert a == [a[0]] + a[1..];
    }
  }

  lemma {:induction false} RemoveSpacesAbsent(w: string)
    requires forall i :: 0 <= i < |w| ==> w[i] != ' '
    ensures RemoveSpaces(w) == w
    decreases |w|
  {
    if w != [] {
      RemoveSpacesAbsent(w[1..]);
    }
  }

  lemma {:induction false} RemoveSpacesConcat(u: string, v: string)
    ensures RemoveSpaces(u + v) == RemoveSpaces(u) + RemoveSpaces(v)
    decreases |u|
  {
    if u != [] {
      assert (u + v)[1..] == u[1..] + v;
      RemoveSpacesConcat(u[1..], v);
    } else {
      assert u + v == v;
    }
  }

  /** The word with its first character in upper case. */
  function Capitalized(w: string): string
    requires w != []
  {
    [ToUpperChar(w[0])] + w[1..]
  }

  lemma UcWordsJoin(a: string, b: string, c: char)
    requires PlainWord(a, c) && PlainWord(b, c)
    ensures UcWords(a + [' '] + b) == Capitalized(a) + ([' '] + Capitalized(b))
  {
    var w := a + [' '] + b;
    var u := UcWords(w);
    var expected := Capitalized(a) + ([' '] + Capitalized(b));
    assert |u| == |expected|;
    forall i | 0 <= i < |u|
      ensures u[i] == expected[i]
    {
      if 0 < i < |a| {
        assert w[i - 1] == a[i - 1];
      } else if i > |a| + 1 {
        assert w[i - 1] == b[i - |a| - 2];
      }
    }
  }

  lemma RemoveSpacesSpace(w: string)
    ensures RemoveSpaces([' '] + w) == RemoveSpaces(w)
  {
    assert ([' '] + w)[1..] == w;
  }

  lemma RemoveSpacesJoin(up: string, down: string)
    requires forall i :: 0 <= i < |up| ==> up[i] != ' '
    requires forall i :: 0 <= i < |down| ==> down[i] != ' '
    ensures RemoveSpaces(up + ([' '] + down)) == up + down
  {
    RemoveSpacesConcat(up, [' '] + down);
    RemoveSpacesSpace(down);
    RemoveSpacesAbsent(up);
    RemoveSpacesAbsent(down);
  }

  lemma SeparatorToCamelUnfold(s: string, separator: string)
    ensures SeparatorToCamel(s, separator, false)
         == LcFirst(RemoveSpaces(UcWords(ReplaceAll(ToLower(s), separator, " "))))
  {
  }

  /**
   * Two plain lower-case words joined by a one-character separator become
   * camelCase: the second word gets its first letter in upper case.
   */
  lemma SeparatorToCamelJoin(a: string, b: string, c: char)
    requires PlainWord(a, c) && PlainWord(b, c) && !IsUpper(c)
    ensures SeparatorToCamel(a + [c] + b, [c], false) == a + Capitalized(b)
  {
    var s := a + [c] + b;
    var up, down := Capitalized(a), Capitalized(b);
    calc {
      RemoveSpaces(UcWords(ReplaceAll(ToLower(s), [c], " ")));
      { assert NoUpper(s); ToLowerNoUpper(s); }
      RemoveSpaces(UcWords(ReplaceAll(s, [c], " ")));
      { ReplaceAllJoin(a, b, c, " "); }
      RemoveSpaces(UcWords(a + [' '] + b));
      { UcWordsJoin(a, b, c); }
      RemoveSpaces(up + ([' '] + down));
      { assert ToUpperChar(a[0]) != ' ' && ToUpperChar(b[0]) != ' ';
        RemoveSpacesJoin(up, down); }
      up + down;
    }
    SeparatorToCamelUnfold(s, [c]);
    LcFirstCapitalized(a, down);
  }

  /** Lowering the first character of a capitalised word without capitals gives the word back. */
  lemma LcFirstCapitalized(a: string, rest: string)
    requires a != [] && NoUpper(a)
    ensures LcFirst(Capitalized(a) + rest) == a + rest
  {
    var t := Capitalized(a) + rest;
    calc {
      LcFirst(t);
      [ToLowerChar(t[0])] + t[1..];
      { assert t[0] == ToUpperChar(a[0]);
        assert ToLowerChar(ToUpperChar(a[0])) == a[0];
        assert t[1..] == a[1..] + rest; }
      [a[0]] + (a[1..] + rest);
      { assert a == [a[0]] + a[1..]; }
      a + rest;
    }
  }

  /**
   * camelToSeparator and separatorToCamel undo each other on two plain
   * lower-case words: "heyYou" and "hey_you".
   */
  lemma CamelSeparatorRoundTrip(a: string, b: string, c: char)
    requires PlainWord(a, c) && PlainWord(b, c) && IsLower(a[|a| - 1]) && IsLower(b[0])
    requires !IsUpper(c) && !IsDigit(c) && c != '\\' && c != '$'
    ensures SeparatorToCamel(CamelToSeparator(a + Capitalized(b), [c]), [c], false) == a + Capitalized(b)
  {
    assert a + Capitalized(b) == a + [ToUpperChar(b[0])] + b[1..];
    CamelToSeparatorJoin(a, b, [c]);
    SeparatorToCamelJoin(a, b, c);
  }

  // ---------------------------------------------------------------------
  // The unit tests' cases

  lemma IncrementExamples()
    ensures IncrementSeparated("a-name", "-") == "a-name-2"
    ensures IncrementSeparated("a-name-2", "-") == "a-name-3"
  {
    var s := "a-name";
    var separator := "-";
    assert s[|s| - 1] == 'e';
    IncrementTwice(s, separator);
    assert s + separator + "2" == "a-name-2";
    assert s + separator + "3" == "a-name-3";
  }

  lemma IncrementTwoDigitsExample()
    ensures IncrementSeparated("a-name-11", "-") == "a-name-12"
  {
    TwoDigitNames();
    IncrementNumber("a-name", "-", 11);
  }

  /** The test's names, written as base, separator and number. */
  lemma TwoDigitNames()
    ensures "a-name" + "-" + NatToDecimal(11) == "a-name-11"
    ensures "a-name" + "-" + NatToDecimal(12) == "a-name-12"
  {
    assert NatToDecimal(11) == "11";
    assert NatToDecimal(12) == "12";
  }

  lemma TruncateExample()
    ensures Truncate("abcdefghij", 5, "...") == "ab..."
  {
    var s := "abcdefghij";
    assert s[..2] == "ab";
  }

  lemma CamelToUnderscoreExample()
    ensures CamelToSeparator("heyYou", "_") == "hey_you"
  {
    var a, b := "hey", "you";
    CamelToSeparatorJoin(a, b, "_");
    assert a + [ToUpperChar(b[0])] + b[1..] == "heyYou";
    assert a + "_" + b == "hey_you";
  }

  lemma CamelToDashExample()
    ensures CamelToSeparator("heyYou", "-") == "hey-you"
  {
    var a, b := "hey", "you";
    CamelToSeparatorJoin(a, b, "-");
    assert a + [ToUpperChar(b[0])] + b[1..] == "heyYou";
    assert a + "-" + b == "hey-you";
  }

  lemma UnderscoreToCamelExample()
    ensures SeparatorToCamel("hey_you", "_", false) == "heyYou"
  {
    var a, b := "hey", "you";
    SeparatorToCamelJoin(a, b, '_');
    assert a + ['_'] + b == "hey_you";
    assert a + Capitalized(b) == "heyYou";
  }

  lemma DashToCamelExample()
    ensures SeparatorToCamel("hey-you", "-", false) == "heyYou"
  {
    var a, b := "hey", "you";
    SeparatorToCamelJoin(a, b, '-');
    assert a + ['-'] + b == "hey-you";
    assert a + Capitalized(b) == "heyYou";
  }

  lemma ReplaceFirstExample()
    ensures ReplaceFirst("one", "HEY", "one two tree one") == "HEY two tree one"
  {
    assert "one two tree one" == "one" + " two tree one";
    ReplaceFirstAtStart("one", "HEY", " two tree one");
    assert "HEY" + " two tree one" == "HEY two tree one";
  }

  lemma ReplaceFirstTwiceExample()
    ensures ReplaceFirst("one", "HEY", "oneone two tree") == "HEYone two tree"
  {
    assert "oneone two tree" == "one" + "one two tree";
    ReplaceFirstAtStart("one", "HEY", "one two tree");
    assert "HEY" + "one two tree" == "HEYone two tree";
  }

  lemma ReplaceFirstAbsentExample()
    ensures ReplaceFirst("nine", "HEY", "one two tree") == "one two tree"
  {
    var t := "one two tree";
    assert forall k :: 0 <= k < |t| ==> t[k] != 'i';
    forall p: nat
      ensures !OccursAt(t, "nine", p)
    {
      if p + 4 <= |t| {
        assert t[p..p + 4][1] == t[p + 1];
      }
    }
    ReplaceFirstNoMatch("nine", "HEY", t);
  }

  /**
   * The unit test expects "-1234567890.5" here; the code keeps neither the
   * '-' (it is not the first character) nor a decimal part (there is no '.'),
   * whatever the flags, and returns digits only.
   */
  lemma ToNumberNoiseExample(allowDecimal: bool, allowNegative: bool)
    ensures AllDigits(ToNumber("[)c-12345q67n890!!,5", allowDecimal, allowNegative))
    ensures ToNumber("[)c-12345q67n890!!,5", allowDecimal, allowNegative) != "-1234567890.5"
  {
    var s := "[)c-12345q67n890!!,5";
    NoiseShape();
    ToNumberNoDot(s, allowDecimal, allowNegative);
    var r := ToNumber(s, allowDecimal, allowNegative);
    assert r != [] ==> IsDigit(r[0]);
    assert !IsDigit("-1234567890.5"[0]);
  }

  lemma NoiseShape()
    ensures var s := "[)c-12345q67n890!!,5";
      !IsTrimChar(s[0]) && !IsTrimChar(s[|s| - 1]) && s[0] != '-' && forall i :: 0 <= i < |s| ==> s[i] != '.'
  {
  }

  /** A negative number with leading and trailing zeros keeps its sign and loses the zeros. */
  lemma NegativeDecimalExample()
    ensures ToNumber("-012.50", true, true) == "-12.5"
  {
    var t, a, b := "-012.50", "-012", "50";
    NegativeDecimalShape();
    TrimNoop(t);
    FirstDot(t, a, b);
    assert t[..|a|] == a;
    var d := DecimalPart(t, |a|, true);
    assert SplitAtDot(t, true) == (a, d);
    DecimalAfterDot(t, a, b, true);
    IntegerDigitsValue(a);
    NegativeDecimalInteger();
    NegativeDecimalFraction();
    var i, f := "12", "5";
    assert IntegerDigits(a) == i && d == "." + f;
    NegativeParts(t, true);
    var u := i + ("." + f);
    assert |u| == 4;
    NegativeDecimalText();
  }

  lemma NegativeDecimalText()
    ensures "-" + ("12" + ("." + "5")) == "-12.5"
  {
  }

  lemma NegativeDecimalShape()
    ensures var t, a, b := "-012.50", "-012", "50";
      t == a + "." + b && !IsTrimChar(t[0]) && !IsTrimChar(t[|t| - 1])
      && (forall i :: 0 <= i < |a| ==> a[i] != '.') && StartsWith(t, "-")
  {
    var t := "-012.50";
    assert "-" <= t;
  }

  /** The digits before the '.' in "-012.50", without leading zeros. */
  lemma NegativeDecimalInteger()
    ensures StripLeadingChar(DigitsOnly("-012"), '0') == "12"
  {
    var s, d := "-012", "012";
    assert s[0] == '-' && s[1..] == d;
    assert DigitsOnly(s) == d;
    assert d[0] == '0' && d[1..] == "12" && "12"[0] != '0';
  }

  /** The digits after the '.' in "-012.50", without trailing zeros. */
  lemma NegativeDecimalFraction()
    ensures StripTrailingChar(DigitsOnly("50"), '0') == "5"
  {
    var d := "50";
    assert AllDigits(d);
    assert d[1] == '0' && d[..1] == "5" && "5"[0] != '0';
  }
}
