# starlit-utils core, modelled in Dafny

This project models the core of the starlit-utils PHP library and proves properties of the model. The core has four parts:

- **The rule-based validator** (`Validator`):
  - a registry from field names to rule maps, with `addFieldsRuleProperties`, `removeFieldRuleProperties` and `getFieldRuleProperties`;
  - `validateValue`, which checks one value against one rule map;
  - `validate`, which checks a data array field by field and records validated values;
  - `getValidatedData` and the static list of rule properties.
- **The default validator translator:** its table of twelve message templates, and `trans`.
- **The string helpers of `Str`:**
  - prefix and suffix tests;
  - stripping, truncation, incrementing a numeric suffix;
  - filtering to a clean number;
  - first-occurrence replace;
  - camelCase and separated-word conversion.
- **The array helpers of `Arr`:**
  - membership;
  - prefixing, recursive emptiness, key filtering;
  - replacing existing keys;
  - ordering by an id list;
  - lookup with a default.

The built-ins follow PHP 8. The library's tests date from before PHP 8 (some extend `PHPUnit_Framework_TestCase`), and under older PHP a few built-ins answer differently:

- `strpos` with an empty needle finds it at offset 0. So `startsWith($s, '')` holds and `replaceFirst('', $r, $s)` is `$r . $s`. Before PHP 8 an empty needle gave false with a warning, so both would answer as for a missing search.
- `substr` past the end of the string gives "" rather than false.
- An array used as an array key in `isset` throws a TypeError (see "## Left out").

Files and modules:

| file | module | contents |
|---|---|---|
| `wrappers.dfy` | `Wrappers` | `Option` and `Result` |
| `php_strings.dfy` | `PhpStrings` | the PHP string built-ins the core calls, over ASCII `seq<char>` |
| `php_values.dfy` | `PhpValues` | PHP values as the core sees them: `empty()`, `is_scalar()`, the `(string)` cast, `is_numeric()` |
| `ordered_maps.dfy` | `OrderedMaps` | PHP arrays used as dictionaries; see below |
| `str.dfy` | `Str` | the string helpers |
| `arr.dfy` | `Arr` | the array helpers |
| `default_translator.dfy` | `DefaultTranslator` | the template table and `trans` |
| `validator.dfy` | `Validation` | the rules, the walk over a rule map, the pass over the registry, and the `Validator` class |

The `OrderedMaps` model represents a PHP array as a sequence of (key, value) pairs in insertion order. Its operations are:

- lookup;
- `$m[$k] = $v`;
- `unset`;
- `array_merge`.

How the source's form is kept:

- **`Validator` is a class.** Its fields `fieldsRuleProperties` and `validatedData` are updated in place by methods with `modifies` clauses.
- **The loops stay loops.** The loops of `addFieldsRuleProperties`, `validate` and `validateValue` are `while` loops. Each is proved equal to a recursive specification function: `Added`, `Run` and `Walk`.
- **The Arr loops are methods too.** The loops of `allIn`, `valuesWithPrefix`, `replaceExisting` and `sortByArray` are methods with invariants.
- **The rest are functions.** The remaining helpers are expressions in the source, so they are functions.

What the validator cannot see is a parameter:

- the translator, as an arrow `(id, parameters) -> string`;
- the outcomes of `preg_match`, `filter_var(FILTER_VALIDATE_EMAIL)` and `DateTime::createFromFormat`;
- `is_callable`, and the result of calling a custom rule's callable.

These outcomes are fields of the `Oracles` datatype.

A configuration error is a `Failure` of `Result`. The model does not tell PHP's error classes apart. A `Failure` stands for any of these:

- an `InvalidArgumentException`;
- the PHP `Error` raised when a closure is used as a regexp pattern, because the pattern is concatenated into a string;
- the PHP `Error` raised when a closure is the bound of min, max, minLength, maxLength or length. The closure fails the bound check, and the message of the `InvalidArgumentException` interpolates it, so the `Error` is raised before that exception is built (src/Validation/Validator.php:200, 214, 230, 243 and 256).

Source quirks that the model keeps:

- **Validated data accumulates.** `validate` never clears `validatedData`, so values accumulate across calls. A field that passed once and fails later is in both the error map and the validated data; `StaleValidatedData` exhibits this. For a validator that has validated nothing before, every field ends up in at most one of the two maps (`FreshRunDisjoint`). Validating the same data twice in a row still gives the same answer and the same validated data, because no field's check reads the validated data (`RunIdempotent`, `ValidateTwice`).
- **`length` and `trim` are missing from the static list.** `length` is handled by the switch but is absent from `getValidRuleProperties`, and so is `trim`; `ValidRulePropertiesGaps` states both.
- **`min` overwrites the field name.** A failing `min` check assigns its message to `$fieldName` as well. The model keeps this, and it is observable only when the translator returns a message PHP treats as false, so the walk goes on (`RuleStepName`, `WalkName`).
- **Two `toNumber` tests disagree with the code.** Both are in tests/StrTest.php:
  - Line 93 expects `'123.45'` from `toNumber('123.45')` under the default `allowDecimal = false`. The code drops the decimal part then (`ToNumberFlags`).
  - Line 94 expects `'-1234567890.5'` from `'[)c-12345q67n890!!,5'`. The code keeps neither the `-`, which is not the first character, nor a decimal part, since there is no `.` (`ToNumberNoiseExample`).

  The model follows the code.

## Model

| member | source | states |
|---|---|---|
| PhpStrings.ToLower | src/Str.php:52 | strtolower keeps the length, lowers each ASCII capital and leaves no capital |
| PhpStrings.ToLowerChar | src/Str.php:52 | strtolower on one character: a capital becomes its lowercase letter, anything else is kept |
| PhpStrings.ToUpperChar | src/Str.php:33 | ucwords on one character: a lowercase letter becomes its capital, anything else is kept |
| PhpStrings.Trim | src/Str.php:191 | the definition of trim (strip space, tab, newline, carriage return, NUL and vertical tab at both ends); its meaning is stated by the TrimShape and TrimNoop rows |
| PhpStrings.TrimShape | src/Validation/Validator.php:127 | trim leaves no whitespace at either end and never lengthens the string |
| PhpStrings.TrimNoop | src/Str.php:191 | trim leaves a string without whitespace at its ends unchanged |
| PhpStrings.StrPos | src/Str.php:232 | the definition of strpos as FindFrom from offset 0; its meaning is stated by the FindFrom row |
| PhpStrings.FindFrom | src/Str.php:232 | strpos: the leftmost occurrence at or after the start, or none when there is no occurrence at all |
| PhpStrings.SubstrFrom | src/Str.php:124 | substr(s, offset): the suffix from the clamped start (negative offsets count from the end) |
| PhpStrings.Substr | src/Str.php:84 | substr(s, offset, length): a slice of s at the clamped start, of the length PHP gives for positive and negative lengths |
| PhpStrings.NatToDecimal | src/Str.php:158-163 | the decimal form of a number is non-empty, all digits, and has no leading zero unless it is "0" |
| PhpStrings.DecimalRoundTrip | src/Str.php:158 | reading back the decimal form of n gives n |
| PhpStrings.IntToDecimal | src/Validation/Validator.php:262 | the decimal form of an integer, used to print a bound into a message, is never empty |
| PhpStrings.DigitsOnly | src/Str.php:198 | preg_replace('/[^0-9]/', '') keeps only digits and leaves a digit string unchanged |
| PhpStrings.DigitsOnlyConcat | src/Str.php:207 | the digits of a concatenation are the digits of each part, in order |
| PhpStrings.DigitsOnlyNone | src/Str.php:207 | a string without digits filters to the empty string |
| PhpStrings.StripLeadingChar | src/Str.php:207 | ltrim(s, '0') removes exactly the leading run of '0' |
| PhpStrings.StripTrailingChar | src/Str.php:198 | rtrim(s, '0') removes exactly the trailing run of '0' |
| PhpStrings.Strtr | src/Validation/DefaultValidatorTranslator.php:39 | the definition of strtr with an array of pairs; its meaning is stated by the LongestMatch, DefaultTranslator.StrtrLiteral, StrtrHole and StrtrFills rows |
| PhpStrings.LongestMatch | src/Validation/DefaultValidatorTranslator.php:39 | strtr tries the longest key that matches at a position, the first such key among equals, and none when no key matches |
| PhpValues.Empty | src/Arr.php:101 | the definition of empty() (null, false, 0, "", "0" and the empty array); its meaning is stated by the Arr.AllEmptyVersusEmpty, Validation.NonEmptyRule and Validation.NonEmptyExamples rows |
| PhpValues.StringForm | src/Validation/Validator.php:172 | the definition of the (string) cast ("" for null and false, "1" for true, decimal digits for an integer, "Array" for an array); its meaning is stated by the Validation.IsValueSetCases and Arr.ValuesWithPrefix rows |
| PhpValues.IsNumeric | src/Validation/Validator.php:199 | the definition of is_numeric over integers and optionally signed digit strings; its meaning is stated by the Validation.RuleStepThrows and Validation.BadBoundExamples rows |
| OrderedMaps.IndexOf | src/Arr.php:201 | array_key_exists: the first position holding the key, or none when no position holds it |
| OrderedMaps.Get | src/Arr.php:217 | a lookup succeeds exactly when the key is present |
| OrderedMaps.Set | src/Validation/Validator.php:144 | `$m[$k] = $v` keeps keys unique |
| OrderedMaps.SetGet | src/Validation/Validator.php:144 | after `$m[$k] = $v`, `$m[$k]` is v |
| OrderedMaps.SetOther | src/Validation/Validator.php:144 | `$m[$k] = $v` leaves every other key's value unchanged |
| OrderedMaps.SetKeys | src/Validation/Validator.php:142 | `$m[$k] = $v` keeps the key order and appends a new key at the end |
| OrderedMaps.SetSame | src/Validation/Validator.php:144 | `$m[$k] = $v` when `$m[$k]` already holds v leaves the array as it was |
| OrderedMaps.Remove | src/Validation/Validator.php:95 | unset removes the key, keeps every other key's value, and is the identity when the key is absent |
| OrderedMaps.Merge | src/Validation/Validator.php:80-83 | array_merge keeps all keys of the first array and keeps keys unique |
| OrderedMaps.MergeGet | src/Validation/Validator.php:80-83 | array_merge: a key of the second array takes its value there, any other key its value in the first |
| Str.StartsWith | src/Str.php:97-100 | startsWith holds iff search is a prefix of the string (the empty search is a prefix of everything) |
| Str.EndsWith | src/Str.php:109-112 | for a non-empty search, endsWith holds iff search is a suffix; for the empty search, iff the string is empty |
| Str.StripLeft | src/Str.php:121-128 | the string without the prefix when it starts with it, else the string unchanged |
| Str.StripRight | src/Str.php:137-144 | the string without the suffix when it ends with it, else the string unchanged |
| Str.StripLeftConcat | src/Str.php:121-128 | stripLeft(p + t, p) == t |
| Str.StripRightConcat | src/Str.php:137-144 | stripRight(t + p, p) == t |
| Str.StripLeftRestores | src/Str.php:121-128 | putting the prefix back in front of stripLeft's result restores the string |
| Str.StripRightRestores | src/Str.php:137-144 | putting the suffix back after stripRight's result restores the string |
| Str.Truncate | src/Str.php:81-88 | a string within maxLength is unchanged; a longer one is cut to maxLength - \|indicator\| characters plus the indicator, so its length is maxLength; the case of an indicator longer than maxLength follows mb_substr's negative length |
| Str.TruncateBound | src/Str.php:81-88 | with maxLength >= \|indicator\| the result is at most maxLength long and is a prefix of the string or ends with the indicator |
| Str.IncrementSeparated | src/Str.php:154-166 | the definition of incrementSeparated; its meaning is stated by the FirstSuffixMatchLeftmost, NumberedMatch, RenumberNumbered, IncrementNumbered, IncrementNumber, IncrementFresh, IncrementTwice and increment example rows |
| Str.FirstSuffixMatch | src/Str.php:156 | the position the pattern separator(\d+)$ matches at, at or after the start |
| Str.FirstSuffixMatchLeftmost | src/Str.php:156 | that match is the leftmost one, and no match means there is none at all |
| Str.MatchEndsInDigit | src/Str.php:156 | a match means the string ends in a digit |
| Str.MatchedDigits | src/Str.php:156 | the captured group is all digits |
| Str.SuffixMatchUnique | src/Str.php:156 | when the separator does not end in a digit, the pattern matches at one position only |
| Str.MatchBeforeMatch | src/Str.php:156 | two different match positions can occur only when the separator ends in a digit |
| Str.NumberedMatch | src/Str.php:156 | for a separator PCRE reads as plain text and not ending in a digit, base + separator + digits matches with exactly those digits captured |
| Str.RenumberNumbered | src/Str.php:157-163 | for a number below PHP_INT_MAX, stripping separator + digits and appending separator + (digits + 1) renumbers the suffix |
| Str.IncrementNumbered | src/Str.php:154-166 | for a separator PCRE reads as plain text and not ending in a digit, and n below PHP_INT_MAX, base + separator + digits n becomes base + separator + (n + 1) |
| Str.IncrementNumber | src/Str.php:154-166 | for a separator PCRE reads as plain text and not ending in a digit, and n below PHP_INT_MAX, base + separator + decimal(n) becomes base + separator + decimal(n + 1) |
| Str.IncrementFresh | src/Str.php:159-163 | for a separator PCRE reads as plain text, a string that does not end in a digit gets separator + "2" appended |
| Str.IncrementTwice | src/Str.php:154-166 | for a separator PCRE reads as plain text and not ending in a digit, incrementing a fresh string twice appends separator + "2", then turns it into separator + "3" |
| Str.DecimalPart | src/Str.php:196-201 | the decimal part is empty or '.' followed by digits without a trailing zero |
| Str.IntegerDigits | src/Str.php:207-208 | the integer part is digits with no leading zero, or "0" |
| Str.SplitAtDot | src/Str.php:194-205 | the split at the first '.' yields a clean decimal part, empty unless decimals are allowed |
| Str.NumberParts | src/Str.php:191-217 | toNumber's parts always form a well-formed number |
| Str.Signed | src/Str.php:210-217 | without a negative input the number is unchanged; a negative input keeps its digits and decimal part and gets a '-' exactly when the number is not zero; a negative input when negatives are not allowed answers "0"; no sign appears unless negatives are allowed |
| Str.ToNumber | src/Str.php:189-222 | the result is an optional '-', digits without leading zeros (or "0"), then an optional '.' and digits without trailing zeros; it is never empty and never "-0"; ToNumberNoDot, ToNumberWithDot and NegativeParts state its value |
| Str.TextNotMinusZero | src/Str.php:214-219 | a well-formed number never prints as "-0" or as the empty string |
| Str.ToNumberFlags | src/Str.php:196-213 | without allowDecimal there is no decimal part; without allowNegative there is no sign, and a leading '-' yields "0" |
| Str.ToNumberDigits | src/Str.php:189-222 | a digit string without a leading zero is its own number |
| Str.ToNumberNoDot | src/Str.php:189-222 | for a string without '.', without surrounding whitespace and not starting with '-', the result is the string's digits with leading zeros removed (or "0") |
| Str.ToNumberWithDot | src/Str.php:191-209 | for a trimmed string a + "." + b with no '.' in a and no leading '-', the result is a's digits without leading zeros (or "0"), followed, when decimals are allowed and any remain, by "." and b's digits without trailing zeros |
| Str.NegativeParts | src/Str.php:210-219 | for a trimmed string starting with '-' and negatives allowed, the result is '-' followed by the integer digits and the decimal part of the unsigned case, or "0" when those read "0" |
| Str.NumberPartsPlain | src/Str.php:194-208 | with no '.' and no leading '-', the number is the integer digits alone |
| Str.ReplaceFirst | src/Str.php:230-237 | the definition of replaceFirst; its meaning is stated by the ReplaceFirstLeftmost, ReplaceFirstAtStart, ReplaceFirstNoMatch, ReplaceFirstAt, ReplaceFirstSelf and replaceFirst example rows |
| Str.ReplaceFirstLeftmost | src/Str.php:230-234 | when search first occurs at p, the result is the text before p, then replace, then the text after that occurrence |
| Str.ReplaceFirstAtStart | src/Str.php:230-234 | replacing in search + rest gives replace + rest |
| Str.ReplaceFirstNoMatch | src/Str.php:236 | when search does not occur, the subject is returned unchanged |
| Str.ReplaceFirstAt | src/Str.php:230-234 | when search occurs, the result keeps the text before the first occurrence, holds replace there, and keeps the text after it; its length changes by \|replace\| - \|search\| |
| Str.ReplaceFirstSelf | src/Str.php:230-237 | replacing search by itself changes nothing |
| Str.CamelToSeparator | src/Str.php:47-53 | the result contains no uppercase ASCII letter |
| Str.PairSplitNoUpper | src/Str.php:49-50 | either regex pass leaves a string without capitals unchanged |
| Str.CamelToSeparatorNoUpper | src/Str.php:47-53 | camelToSeparator leaves a string without capitals unchanged |
| Str.PairSplitPair | src/Str.php:49-50 | a matching (letter or capital/digit) character before a capital gets the separator, as plain text, inserted between them, and matching resumes after the capital |
| Str.PairSplitSkip | src/Str.php:49-50 | a character that cannot start the pattern is kept and matching moves on |
| Str.FirstPassJoin | src/Str.php:49 | the first pass inserts the separator, as plain text, between a lowercase word and the capital that follows it |
| Str.SecondPassJoin | src/Str.php:50 | the second pass inserts nothing when the character before the capital is not a digit and no capitals follow |
| Str.CamelToSeparatorJoin | src/Str.php:47-53 | a + Capital(b) becomes a + separator + b for lowercase words a and b and a separator without capitals, not ending in a digit, that preg_replace copies as plain text |
| Str.LowerCapital | src/Str.php:52 | strtolower of u + Capital(b) is u + b |
| Str.UcWords | src/Str.php:33 | ucwords keeps the length |
| Str.RemoveSpaces | src/Str.php:34 | str_replace(' ', '') leaves no space and never lengthens the string |
| Str.SeparatorToCamel | src/Str.php:29-37 | the camel-cased result contains no space |
| Str.ReplaceAllAbsent | src/Str.php:32 | str_replace of a character the string lacks changes nothing |
| Str.ReplaceAllJoin | src/Str.php:32 | str_replace of c in a + c + b (a, b without c) gives a + replace + b |
| Str.RemoveSpacesConcat | src/Str.php:34 | removing spaces distributes over concatenation |
| Str.UcWordsJoin | src/Str.php:33 | ucwords of two space-separated plain words capitalises both |
| Str.RemoveSpacesJoin | src/Str.php:34 | removing the space between two space-free words joins them |
| Str.SeparatorToCamelUnfold | src/Str.php:29-37 | lower camel case is lcfirst(remove spaces(ucwords(separator to space(strtolower(s))))) |
| Str.SeparatorToCamelJoin | src/Str.php:29-37 | a + separator + b becomes a + Capital(b) for plain lowercase words |
| Str.LcFirstCapitalized | src/Str.php:36 | lcfirst undoes the capital of a lowercase word |
| Str.CamelSeparatorRoundTrip | src/Str.php:29-53 | separatorToCamel(camelToSeparator(a + Capital(b), c), c) == a + Capital(b) for lowercase words a, b and a separator c that is neither a capital, a digit, a backslash nor `$` |
| Str.IncrementExamples | tests/StrTest.php:99-100 | 'a-name' increments to 'a-name-2', and 'a-name-2' to 'a-name-3' |
| Str.IncrementTwoDigitsExample | tests/StrTest.php:101 | 'a-name-11' increments to 'a-name-12' |
| Str.TruncateExample | tests/StrTest.php:52-53 | truncate('abcdefghij', 5) == 'ab...' |
| Str.CamelToUnderscoreExample | tests/StrTest.php:31 | camelToSeparator('heyYou') == 'hey_you' |
| Str.CamelToDashExample | tests/StrTest.php:33 | camelToSeparator('heyYou', '-') == 'hey-you' |
| Str.UnderscoreToCamelExample | tests/StrTest.php:10 | separatorToCamel('hey_you') == 'heyYou' |
| Str.DashToCamelExample | tests/StrTest.php:11 | separatorToCamel('hey-you', '-') == 'heyYou' |
| Str.ReplaceFirstExample | tests/StrTest.php:127 | replaceFirst('one', 'HEY', 'one two tree one') == 'HEY two tree one' |
| Str.ReplaceFirstTwiceExample | tests/StrTest.php:128 | replaceFirst('one', 'HEY', 'oneone two tree') == 'HEYone two tree' |
| Str.ReplaceFirstAbsentExample | tests/StrTest.php:129 | replaceFirst('nine', 'HEY', 'one two tree') == 'one two tree' |
| Str.ToNumberNoiseExample | tests/StrTest.php:94 | whatever the flags, the result for '[)c-12345q67n890!!,5' is all digits, so it is not the '-1234567890.5' the test expects |
| Str.NegativeDecimalExample | src/Str.php:189-222 | toNumber('-012.50', true, true) == '-12.5': the sign is kept and leading and trailing zeros go |
| Arr.Intersect | src/Arr.php:29 | array_intersect keeps exactly the entries of the first array whose value is in the second |
| Arr.AnyIn | src/Arr.php:26-33 | for an array of needles, true iff some needle is in the haystack; for one needle, iff it is in the haystack |
| Arr.AllIn | src/Arr.php:43-61 | for an array of needles, true iff it is non-empty and every needle is in the haystack; for one needle, iff it is in the haystack |
| Arr.ValuesWithPrefix | src/Arr.php:70-79 | same length as the input, element i is prefix + (string) input[i]; an input holding a closure fails as PHP does |
| Arr.AllEmpty | src/Arr.php:90-103 | the definition of allEmpty; its meaning is stated by the AllEmptyLeaves, AllEmptyVersusEmpty and AllEmptyExamples rows |
| Arr.AllEmptyLeaves | src/Arr.php:90-103 | allEmpty holds iff every non-array leaf, at any depth, is empty() |
| Arr.AllEmptyVersusEmpty | src/Arr.php:90-103 | on a non-array allEmpty is empty(); every empty array is allEmpty, but an array of nulls is allEmpty and not empty() |
| Arr.AllEmptyExamples | tests/ArrTest.php:44-53 | ['one' => null, 'two' => 0, 'three' => ['subone' => '']] and [] are allEmpty; the same with 'two' => 1 is not |
| Arr.FilterKeys | src/Arr.php:115-124 | with a key list, the result holds exactly the input entries whose key is listed, and is no longer than the input |
| Arr.FilterKeysConcat | src/Arr.php:124 | filtering distributes over concatenation, so input order is kept |
| Arr.FilterKeysGet | src/Arr.php:124 | a listed key keeps its input value, an unlisted key is absent |
| Arr.FilterKeysExample | tests/ArrTest.php:58-59 | filterKeys(['a' => 1, 'b' => 2, 'c' => 3], ['c']) == ['c' => 3] |
| Arr.GetValue | src/Arr.php:215-218 | the value when the key is set and not null, the default otherwise |
| Arr.GetValueNull | src/Arr.php:217 | getValue answers null only when the default is null |
| Arr.GetValueSet | src/Arr.php:217 | after `$m[$k] = $v`, getValue answers v, or the default when v is null |
| Arr.Replaced | src/Arr.php:175-188 | replaceExisting's first n entries, when no TypeError occurs, number n |
| Arr.ReplacedNoneStays | src/Arr.php:181 | once a nested call fails on a non-array replacement, the whole call fails |
| Arr.ReplaceExisting | src/Arr.php:175-188 | the loop computes replaceExisting's result over all of array1 |
| Arr.ReplacedKeys | src/Arr.php:175-188 | the result has exactly the keys of array1, in array1's order |
| Arr.ReplacedFlat | src/Arr.php:177-184 | without recursion the call never fails, and each key takes array2's value where array2 has the key and keeps array1's otherwise |
| Arr.ReplacedRecursiveOther | src/Arr.php:177-184 | with recursion, an entry whose key replacements lacks or whose value in array1 is no array holds replacements's value where it has the key and array1's value otherwise |
| Arr.ReplacedNested | src/Arr.php:180-183 | with recursion, an array value of array1 is replaced into recursively: the nested result is the recursive call's and keeps array1's nested keys only |
| Arr.Picked | src/Arr.php:197-207 | the picked values are at most one per id and all come from sortArray |
| Arr.MapIds | src/Arr.php:200-203 | looking up each id gives one value per id |
| Arr.SortByArray | src/Arr.php:197-207 | the loop computes the values of sortArray for the ids of mapArray it has, in mapArray's order |
| Arr.PickedAll | src/Arr.php:197-207 | when every id is present, the output has one value per id, element i being sortArray[mapArray[i]] |
| Arr.PickedSkips | src/Arr.php:201 | an id missing from sortArray adds nothing |
| Arr.MapIdsMultiset | src/Arr.php:200-203 | permuting the ids permutes the picked values |
| Arr.SortByKeysPermutes | src/Arr.php:197-207 | when mapArray is a permutation of sortArray's keys, the output is a permutation of sortArray's values |
| Arr.SortByArrayExample | tests/ArrTest.php:133-158 | ids [4, 3, 5, 1] over entries 1, 3, 4, 5 give the values for 4, 3, 5, 1 in that order |
| DefaultTranslator.TemplatesTable | src/Validation/DefaultValidatorTranslator.php:18-31 | the table `Templates` (a constant, the model of $texts) has twelve ids, each once |
| DefaultTranslator.TemplateWellShaped | src/Validation/DefaultValidatorTranslator.php:18-31 | every template's literal text is free of '%' and its placeholders are %name% with no '%' inside |
| DefaultTranslator.NoneSpecifiedFieldWellShaped | src/Validation/DefaultValidatorTranslator.php:19 | 'Field' has no placeholder and no '%' |
| DefaultTranslator.FieldXIsRequiredWellShaped | src/Validation/DefaultValidatorTranslator.php:20 | '%field% must be filled in.' is well-shaped |
| DefaultTranslator.FieldMustBeMinNumberWellShaped | src/Validation/DefaultValidatorTranslator.php:21 | '%field% must be minimum %number%.' is well-shaped |
| DefaultTranslator.FieldMustBeMaxNumberWellShaped | src/Validation/DefaultValidatorTranslator.php:22 | '%field% must be maximum %number%.' is well-shaped |
| DefaultTranslator.FieldMustBeMinXLengthWellShaped | src/Validation/DefaultValidatorTranslator.php:23 | the minimum-length template is well-shaped |
| DefaultTranslator.FieldMustBeMaxXLengthWellShaped | src/Validation/DefaultValidatorTranslator.php:24 | the maximum-length template is well-shaped |
| DefaultTranslator.FieldMustBeXLengthWellShaped | src/Validation/DefaultValidatorTranslator.php:25 | the exact-length template is well-shaped |
| DefaultTranslator.FieldInvalidFormatWellShaped | src/Validation/DefaultValidatorTranslator.php:26 | '%field% has invalid format.' is well-shaped |
| DefaultTranslator.FieldValidCharactersAreXWellShaped | src/Validation/DefaultValidatorTranslator.php:27 | 'Valid characters are %characters%.' is well-shaped |
| DefaultTranslator.InvalidEmailWellShaped | src/Validation/DefaultValidatorTranslator.php:28 | the e-mail text has no '%' |
| DefaultTranslator.InvalidDateWellShaped | src/Validation/DefaultValidatorTranslator.php:29 | the date text has no '%' |
| DefaultTranslator.InvalidDateTimeWellShaped | src/Validation/DefaultValidatorTranslator.php:30 | the date/time text has no '%' |
| DefaultTranslator.Trans | src/Validation/DefaultValidatorTranslator.php:36-43 | the definition of trans; its meaning is stated by the TransUnknownId, TransRegistered, TransVerbatim, TransText, TransFixedTexts and TransRequired rows |
| DefaultTranslator.TransUnknownId | src/Validation/DefaultValidatorTranslator.php:42 | an id without a template comes back unchanged, whatever the parameters |
| DefaultTranslator.TransUnknownIdExample | tests/Validation/DefaultValidatorTranslatorTest.php:19 | trans('lemmeltag') == 'lemmeltag' |
| DefaultTranslator.StrtrLiteral | src/Validation/DefaultValidatorTranslator.php:39 | with %name% keys, strtr passes text without '%' through unchanged |
| DefaultTranslator.StrtrHole | src/Validation/DefaultValidatorTranslator.php:39 | with %name% keys, strtr replaces a placeholder by its parameter's value |
| DefaultTranslator.StrtrFills | src/Validation/DefaultValidatorTranslator.php:39 | strtr of a well-shaped template whose placeholders all have parameters is the template with each placeholder replaced by its value |
| DefaultTranslator.TransRegistered | src/Validation/DefaultValidatorTranslator.php:38-39 | trans of a registered id is its template with every placeholder replaced by its parameter's value |
| DefaultTranslator.TransVerbatim | src/Validation/DefaultValidatorTranslator.php:38-39 | a template without placeholders is returned verbatim, whatever %name% parameters are given |
| DefaultTranslator.TransText | src/Validation/DefaultValidatorTranslator.php:38-39 | an id whose template is one literal text translates to that text |
| DefaultTranslator.TransFixedTexts | src/Validation/DefaultValidatorTranslator.php:19-28 | 'errorTheNoneSpecifiedField' gives 'Field' and 'errorInvalidEmail' gives 'Email address is invalid.', whatever %name% parameters are given |
| DefaultTranslator.TransRequired | src/Validation/DefaultValidatorTranslator.php:20 | the required message is the field name followed by ' must be filled in.', whatever the name holds |
| DefaultTranslator.RequiredForGenericLabel | src/Validation/DefaultValidatorTranslator.php:19-20 | the required message for the generic label is 'Field must be filled in.' |
| Validation.IsValueSet | src/Validation/Validator.php:172 | the definition of $isValueSet; its meaning is stated by the IsValueSetCases row |
| Validation.IsValueSetCases | src/Validation/Validator.php:172 | a value is set iff it is true, an integer or a non-empty string |
| Validation.Report | src/Validation/Validator.php:335-337 | a message stops the walk iff PHP treats it as true, and then it is the answer |
| Validation.RuleStep | src/Validation/Validator.php:177-333 | the definition of one turn of the switch over rule kinds; its meaning is stated by the RuleStepThrows, UnsetValuePasses and RuleStepName rows and by one row per case: RequiredRule, NonEmptyRule, MinRule, MaxRule, MinLengthRule, MaxLengthRule, LengthRule, RegexpRule, EmailRule, DateRule and CustomRule |
| Validation.BadConfig | src/Validation/Validator.php:179-332 | the definition of the configurations the switch throws on; its meaning is stated by the RuleStepThrows and BadBoundExamples rows |
| Validation.LengthStep | src/Validation/Validator.php:228-266 | the definition of the minLength, maxLength and length cases; its meaning is stated by the LengthRule, UnsetValuePasses and LengthExamples rows |
| Validation.DateStep | src/Validation/Validator.php:297-322 | the definition of the date and dateTime cases; its meaning is stated by the RuleStepThrows and UnsetValuePasses rows |
| Validation.RuleStepThrows | src/Validation/Validator.php:177-332 | a rule throws iff its configuration is bad (an unknown kind; a non-bool required, nonEmpty, email, date or dateTime; a non-numeric min or max; a length bound that is not an integer >= 1; a falsy regexp; a non-callable custom), or a closure pattern meets a set value; an unknown kind throws UnknownRule |
| Validation.UnsetValuePasses | src/Validation/Validator.php:198-322 | for a value that is not set, min, max, minLength, maxLength, length, regexp, email, date and dateTime only throw on bad configuration or pass |
| Validation.RuleStepName | src/Validation/Validator.php:203-209 | a passing rule keeps the field name, except min, which can leave a message PHP treats as false in it |
| Validation.RequiredRule | src/Validation/Validator.php:178-187 | required true reports the required message for a value that is not set; otherwise it passes |
| Validation.NonEmptyRule | src/Validation/Validator.php:188-197 | nonEmpty true reports the required message for a value empty() accepts; otherwise it passes |
| Validation.LengthRule | src/Validation/Validator.php:254-266 | length n reports the length message for a set value whose length is not n; otherwise it passes |
| Validation.RegexpRule | src/Validation/Validator.php:267-286 | with a pattern string that is not empty(), a value that is not set or that the pattern matches passes; any other value reports the invalid-format message, followed by the valid-characters message filled with regexpExpl when that is given |
| Validation.MinRule | src/Validation/Validator.php:198-211 | with a numeric bound, a set value that is not numeric or lies below the bound gets the minimum message, which also becomes the field name when PHP treats it as false; any other value passes with the field name kept |
| Validation.MaxRule | src/Validation/Validator.php:212-227 | with a numeric bound, a set value that is not numeric or lies above the bound reports the maximum message; any other value passes |
| Validation.MinLengthRule | src/Validation/Validator.php:228-240 | with a bound of at least 1, a set value shorter than the bound reports the minimum-length message; any other value passes |
| Validation.MaxLengthRule | src/Validation/Validator.php:241-253 | with a bound of at least 1, a set value longer than the bound reports the maximum-length message; any other value passes |
| Validation.EmailRule | src/Validation/Validator.php:287-295 | email true reports the e-mail message for a set value the e-mail filter rejects; otherwise the rule passes |
| Validation.DateRule | src/Validation/Validator.php:297-322 | date or dateTime true reports the rule's message for a set value that parses in none of the rule's formats (Y-m-d; Y-m-d H:i or Y-m-d H:i:s); otherwise the rule passes |
| Validation.CustomRule | src/Validation/Validator.php:323-330 | with a callable, the callable's answer for the value, set or not, is the message |
| Validation.StepsStopTruthy | src/Validation/Validator.php:335-337 | every message that stops the walk is one PHP treats as true |
| Validation.Walk | src/Validation/Validator.php:174-338 | the definition of the loop over the rules; its meaning is stated by the WalkConcat, WalkOne, WalkStopTruthy, WalkStopsAt, WalkStopWitness, WalkPasses and WalkName rows |
| Validation.WalkConcat | src/Validation/Validator.php:174-338 | walking a + b walks a, and walks b (from a's field name) only when all of a passes |
| Validation.WalkOne | src/Validation/Validator.php:174-338 | walking one rule is that rule's step |
| Validation.WalkStopTruthy | src/Validation/Validator.php:335-337 | when every step reports only true messages, so does the walk |
| Validation.WalkStopsAt | src/Validation/Validator.php:335-337 | the first rule that does not pass decides the outcome; no later rule is looked at |
| Validation.WalkStopWitness | src/Validation/Validator.php:174-340 | a walk that does not pass stopped at some rule i, all rules before i having passed |
| Validation.WalkPasses | src/Validation/Validator.php:174-340 | the walk passes iff every rule passes, in order, with the field name the rules before it left |
| Validation.WalkName | src/Validation/Validator.php:203-209 | after a passing walk the field name is the label, or a message PHP treats as false |
| Validation.FieldLabel | src/Validation/Validator.php:159-164 | the definition of the field label; its meaning is stated by the TextKeyParts, TextKeyLabel and OneRule rows |
| Validation.Explanation | src/Validation/Validator.php:278-283 | the definition of the regexpExpl text a failing regexp appends; its meaning is stated by the RegexpRule and TextKeyParts rows |
| Validation.Rules | src/Validation/Validator.php:166-170 | the rules are the rule map without textKey, regexpExpl and trim, every other entry kept |
| Validation.RulesCons | src/Validation/Validator.php:166-170 | dropping the non-rule keys keeps the remaining rules in map order |
| Validation.ValidateValueSpec | src/Validation/Validator.php:156-341 | a message returned by validateValue is one PHP treats as true |
| Validation.NoRulesAccept | src/Validation/Validator.php:166-170 | a rule map holding only textKey, regexpExpl or trim accepts every value |
| Validation.OneRule | src/Validation/Validator.php:156-341 | a rule map of one rule answers that rule's case, with the generic field label |
| Validation.TextKeyParts | src/Validation/Validator.php:159-170 | with a textKey, the label is the translated textKey and the textKey is not a rule |
| Validation.OneRuleWithTextKey | src/Validation/Validator.php:159-170 | one rule plus a textKey answers that rule's case with the translated textKey as label |
| Validation.RequiredMessage | src/Validation/Validator.php:178-187 | required on a value that is not set reports the required message for the generic label |
| Validation.TextKeyLabel | tests/Validation/ValidatorTest.php:256-268 | required with a textKey, on null, reports the required message for the translated textKey |
| Validation.DefaultRequiredMessage | tests/Validation/DefaultValidatorTranslatorTest.php:9-13 | with the default translator, required on null reports 'Field must be filled in.' |
| Validation.LengthExamples | tests/Validation/ValidatorTest.php:181-191 | 'asd' fails length 5 and passes length 3; '' passes length 5 |
| Validation.NonEmptyExamples | tests/Validation/ValidatorTest.php:139-149 | nonEmpty rejects null and 0; nonEmpty false accepts null |
| Validation.BadRequiredExample | tests/Validation/ValidatorTest.php:127-131 | required configured with 's' throws |
| Validation.UnknownRuleExample | tests/Validation/ValidatorTest.php:250-254 | an unknown rule kind throws |
| Validation.BadBoundExamples | tests/Validation/ValidatorTest.php:151-197 | min 's', length 's' and regexp null throw |
| Validation.ResolveValue | src/Validation/Validator.php:122-135 | a field is skipped iff it is unset or null in the data and both required and nonEmpty are empty() |
| Validation.AbsentValue | src/Validation/Validator.php:130-135 | an unset field is skipped unless required or nonEmpty is non-empty, and is then checked as '' |
| Validation.ResolveTrims | src/Validation/Validator.php:125-128 | a present string is trimmed unless trim is set to something other than true |
| Validation.FieldStep | src/Validation/Validator.php:120-145 | a field is skipped exactly as ResolveValue says; a valid field's recorded value is the resolved value; an invalid field's message is one PHP treats as true |
| Validation.Advance | src/Validation/Validator.php:139-146 | the definition of recording one field's outcome; its meaning is stated by the AdvanceOther and AdvancePlace rows |
| Validation.AdvanceOther | src/Validation/Validator.php:141-145 | recording one field leaves every other field's message and validated value unchanged |
| Validation.AdvancePlace | src/Validation/Validator.php:141-145 | a skipped field records nothing, an invalid field records its message, and a valid field records its value |
| Validation.Run | src/Validation/Validator.php:117-149 | the definition of validate's pass over the registry; its meaning is stated by the RunPlaces and RunThrownStays rows |
| Validation.RunPlaces | src/Validation/Validator.php:117-149 | after validate, each field's outcome is in the error map or the validated data as its check says |
| Validation.RunThrownStays | src/Validation/Validator.php:138 | once a field throws, the later fields change nothing: the state is the one at the throw |
| Validation.RunUntouched | src/Validation/Validator.php:117-149 | a name that is not registered gets no message and keeps its earlier validated value |
| Validation.RunKeeps | src/Validation/Validator.php:120-146 | fields with other names, after the first k, leave a name's validated value as the first k fields left it |
| Validation.RunFrom | src/Validation/Validator.php:117-149 | a pass started from the validated data a whole pass left gives, after each prefix of the fields, the same messages and error as the first pass and unchanged validated data |
| Validation.RunIdempotent | src/Validation/Validator.php:117-149 | validate is idempotent: a second pass with the same data, from the validated data the first left, gives the same messages, error and validated data |
| Validation.FreshRunDisjoint | src/Validation/Validator.php:138-145 | on a validator that has validated nothing before, no field is both in the error map and in the validated data |
| Validation.StaleValidatedData | src/Validation/Validator.php:144 | a value validated by an earlier call stays in validatedData when the field fails a later call |
| Validation.RequiredFieldSteps | src/Validation/Validator.php:122-145 | a required field with value 'x' is valid, and a missing one is checked as '' and fails |
| Validation.AddField | src/Validation/Validator.php:79-86 | the definition of one turn of addFieldsRuleProperties' loop; its meaning is stated by the Added row |
| Validation.Added | src/Validation/Validator.php:76-88 | adding rule maps keeps field names unique |
| Validation.AddFieldGet | src/Validation/Validator.php:79-86 | adding one field merges the new rules over its old ones, or sets them for a new field, and leaves every other field alone |
| Validation.AddedGet | src/Validation/Validator.php:76-88 | after adding, a named field has its old rules merged with the new ones (or just the new ones), and every other field is unchanged |
| Validation.AddedRuleKinds | src/Validation/Validator.php:80-83 | an added field keeps its old rule kinds except those named anew, which take the new configuration |
| Validation.FieldRules | src/Validation/Validator.php:102-109 | a registered field's rules, or the empty map |
| Validation.RemoveField | src/Validation/Validator.php:93-109 | after removal the field's rules are the empty map, every other field's are unchanged, and removing an absent field changes nothing |
| Validation.ValidRulePropertiesGaps | src/Validation/Validator.php:21-35 | the static list has thirteen entries; every handled rule kind but length is on it, and neither length nor trim is; the list itself is the constant `ValidRuleProperties` |
| Validation.Validator.constructor | src/Validation/Validator.php:58-60 | a new validator holds the given rule maps and no validated data |
| Validation.Validator.AddFieldsRuleProperties | src/Validation/Validator.php:76-88 | the registry becomes Added of the old registry and the new rule maps; validated data is unchanged |
| Validation.Validator.RemoveFieldRuleProperties | src/Validation/Validator.php:93-96 | the registry loses the field and nothing else; validated data is unchanged |
| Validation.Validator.GetFieldRuleProperties | src/Validation/Validator.php:102-109 | the field's rules, or the empty map when it is not registered |
| Validation.Validator.GetValidatedData | src/Validation/Validator.php:348-355 | without a key, all validated data; with a key, its value when set and not null, else the default |
| Validation.Validator.ValidateValue | src/Validation/Validator.php:156-341 | the loop returns the first message of the rules in map order (none when all pass), or the error a rule throws |
| Validation.Validator.WalkRules | src/Validation/Validator.php:174-340 | the loop over the rules computes the walk: the first step that does not pass, or a pass |
| Validation.Validator.Validate | src/Validation/Validator.php:117-149 | the messages of the failing fields, with the passing fields' values added to validatedData, or the error a field throws; the registry is unchanged |
| Validation.Validator.ValidateFields | src/Validation/Validator.php:119-148 | the loop over the registry computes Run from the old validated data |
| Validation.ValidateTwice | src/Validation/Validator.php:117-149 | two validate calls in a row on one validator with the same data return the same answer, and the validated data after both is that after the first |

## Left out

- src/Url.php is not part of this model. It is built on parse_url, parse_str, http_build_query and urlencode.
- src/Validation/SymfonyTranslatorProxy.php is not part of this model. It only delegates to a Symfony translator.
- Validation.Validator.constructor: does not model the translator dispatch by PHP type (DefaultValidatorTranslator when none is given, wrapping a Symfony translator, and the InvalidArgumentException for anything else). The translator is a parameter.
- preg_match, filter_var(FILTER_VALIDATE_EMAIL), DateTime::createFromFormat with its error counts, is_callable and the custom callable's body are not modelled. Their outcomes are the `Oracles` fields, and a custom callable's result is taken as a string.
- Floats are not modelled. Numbers are integers, is_numeric accepts only optionally signed digit strings, and min and max compare integers.
- Arr.Intersect: array_intersect compares the string forms of the values (`(string)$a === (string)$b`), so the integer 5 matches the string "5" and any two arrays match (both read "Array"); the model compares values with plain equality.
- Arr.AnyIn: PHP compares one needle with in_array's loose `==` (under which "1e1" == "10") and an array of needles by string form through array_intersect, as for Arr.Intersect; the model compares values with plain equality.
- Arr.AllIn: in_array compares with PHP's loose `==`; the model compares values with plain equality.
- Str.IncrementSeparated: the separator is taken as plain text. PHP puts it unescaped into the pattern `/separator(\d+)$/`, so a separator holding a PCRE metacharacter or `/` matches something else or makes preg_match fail: "a+5" with separator "+" becomes "a+5+2" in PHP and "a+6" in the model. The lemmas about incrementSeparated require `PatternLiteral(separator)`.
- Str.IncrementSeparated: `(int)` of the matched digits stops at PHP_INT_MAX (9223372036854775807), and adding one then gives a float printed in exponent form ("a-9223372036854775807" becomes "a-9.2233720368548E+18"). The model counts with unbounded integers, and the lemmas that increment a number require it to be below PHP_INT_MAX.
- Str.CamelToSeparator: the separator is taken as plain text. PHP puts it unescaped into the replacement `$1 separator $2`, where a backslash or `$` starts a reference and a leading digit extends `$1`. The lemmas about camelToSeparator require `ReplacementLiteral(separator)`.
- Str.NumberedMatch: holds only for a separator `PatternLiteral` accepts (see Str.IncrementSeparated).
- Str.RenumberNumbered: holds only for a number below PHP_INT_MAX (see Str.IncrementSeparated).
- Str.IncrementNumbered: holds only for a separator `PatternLiteral` accepts and a number below PHP_INT_MAX.
- Str.IncrementNumber: holds only for a separator `PatternLiteral` accepts and a number below PHP_INT_MAX.
- Str.IncrementFresh: holds only for a separator `PatternLiteral` accepts; a separator such as "|" matches the empty string and PHP then appends the separator and 1.
- Str.IncrementTwice: holds only for a separator `PatternLiteral` accepts.
- Str.PairSplitPair: states one step of the model's pass, which copies the separator as plain text; PHP's step agrees only for a separator `ReplacementLiteral` accepts (see Str.CamelToSeparator).
- Str.FirstPassJoin: states the model's first pass, which copies the separator as plain text; PHP's first pass agrees only for a separator `ReplacementLiteral` accepts.
- Str.CamelToSeparatorJoin: holds only for a separator `ReplacementLiteral` accepts.
- Str.CamelSeparatorRoundTrip: holds only for a separator character other than a backslash or `$`.
- Integer array keys are not modelled. Keys are strings; PHP normalises "4" and 4 to one key, so this loses nothing for the helpers modelled. array_merge renumbering integer keys is not modelled.
- Str::random is not modelled: it draws from mt_rand.
- Str::uppercaseFirst is not modelled: it depends on multibyte case mapping (mb_strtoupper).
- mb_strlen and mb_substr are taken to count one `char` per character. Text is ASCII and no encoding is modelled.
- Arr::objectsMethodValues is not modelled: it calls methods by dynamic name.
- Arr::valuesWithType is not modelled: it depends on settype coercions.
- Arr.FilterKeys: models the key-list form only. The callable and default forms (src/Arr.php:117-120) filter keys by PHP truthiness and a callback.
- The string form of an array given as textKey or regexpExpl is "Array", and of a closure "". PHP raises an error for a closure there, and under PHP 8 the default translator also fails on an array textKey: `isset($this->texts[$id])` (src/Validation/DefaultValidatorTranslator.php:38) throws a TypeError for an array key. Neither error is modelled; the model translates the label "Array".
- Validation.Validator.ValidateValue: does not model min and max messages for non-integer bounds, which PHP prints as floats.
- The toFloat tests (tests/StrTest.php:111-122) are not modelled: they call a function the source does not define.
- Str.ToNumberNoiseExample: states that the result is all digits and differs from the test's expectation, not its exact digit string. Computing that digit string on the literal is beyond what the proof covers.
- The expectation of tests/StrTest.php:93 is not stated for its literal. ToNumberFlags shows that no decimal part is kept without allowDecimal, whatever the input.
