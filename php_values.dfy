/**
 * PHP values as the validator and the array helpers see them, and the PHP
 * tests and conversions applied to them: empty(), is_scalar(), the (string)
 * cast, is_numeric() and numeric comparison. Floats are not modelled, so a
 * number is an integer and a numeric string is an integer string.
 */
module PhpValues {
  import opened PhpStrings

  datatype Value =
    | Null
    | Bool(b: bool)
    | Int(i: int)
    | Str(s: string)
    | Arr(entries: seq<(string, Value)>)
    /** A closure object; `name` identifies its behaviour to the environment that calls it. */
    | Closure(name: string)

  /** is_scalar(v) */
  predicate IsScalar(v: Value)
  {
    v.Bool? || v.Int? || v.Str?
  }

  /** empty(v): null, false, 0, "", "0" and the empty array. */
  predicate Empty(v: Value)
  {
    match v
    case Null => true
    case Bool(b) => !b
    case Int(i) => i == 0
    case Str(s) => s == "" || s == "0"
    case Arr(es) => es == []
    case Closure(_) => false
  }

  /** A string PHP treats as true in a condition: neither "" nor "0". */
  predicate Truthy(s: string)
  {
    !Empty(Str(s))
  }

  /**
   * (string) v. An array converts to "Array"; a closure cannot be converted
   * at all, and "" stands in for it (the places where PHP would throw on it
   * test for a closure first).
   */
  function StringForm(v: Value): string
  {
    match v
    case Null => ""
    case Bool(b) => if b then "1" else ""
    case Int(i) => IntToDecimal(i)
    case Str(s) => s
    case Arr(_) => "Array"
    case Closure(_) => ""
  }

  /** An integer numeric string: an optional sign, then at least one digit. */
  predicate IsIntegerString(s: string)
  {
    if |s| > 0 && (s[0] == '+' || s[0] == '-') then |s| > 1 && AllDigits(s[1..])
    else |s| > 0 && AllDigits(s)
  }

  function IntegerStringValue(s: string): int
    requires IsIntegerString(s)
  {
    if s[0] == '-' then 0 - DecimalToNat(s[1..]) as int
    else if s[0] == '+' then DecimalToNat(s[1..])
    else DecimalToNat(s)
  }

  /** is_numeric(v) */
  predicate IsNumeric(v: Value)
  {
    v.Int? || (v.Str? && IsIntegerString(v.s))
  }

  /** The number PHP compares when both sides of `<` or `>` are numeric. */
  function NumericValue(v: Value): int
    requires IsNumeric(v)
  {
    if v.Int? then v.i else IntegerStringValue(v.s)
  }
}
