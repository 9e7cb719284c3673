/**
 * The rule-based validator: a registry from field names to rule maps, a
 * check of one value against one rule map (`validateValue`), and a pass
 * over the registry that checks a data array field by field (`validate`).
 *
 * What the validator cannot see is a parameter: the translator, and the
 * outcome of regular-expression, e-mail and date matching and of calling a
 * custom rule's callable.
 */
module Validation {
  import opened Wrappers
  import opened PhpStrings
  import opened PhpValues
  import opened OrderedMaps
  import DefaultTranslator

  /** A rule map: rule kinds (and the non-rule keys textKey, regexpExpl, trim) to their configuration. */
  type RuleMap = seq<(string, Value)>

  /** A translator: `trans(id, parameters)`, parameter values already converted to strings. */
  type Translator = (string, seq<(string, string)>) -> string

  /** The outcomes of the PHP library calls the rules make. */
  datatype Oracles = Oracles(
    /** preg_match('/' . pattern . '/', subject) finds a match */
    matches: (string, string) -> bool,
    /** filter_var(value, FILTER_VALIDATE_EMAIL) accepts the value */
    isEmail: string -> bool,
    /** DateTime::createFromFormat(format, value) succeeds with no warning and no error */
    parsesAs: (string, string) -> bool,
    /** is_callable for a string or an array (a closure is always callable) */
    callable: Value -> bool,
    /** what calling a callable on a value returns; a null or false result is "" */
    invoke: (Value, Value) -> string)

  /**
   * What a rule throws: an InvalidArgumentException, or the Error PHP raises
   * for a closure used as a pattern or as a bound (the exception message
   * interpolates the bound). The model does not tell the classes apart.
   */
  datatype ConfigError = InvalidRule(rule: string) | UnknownRule(rule: string) | NotAString(rule: string)

  /** What one rule does: pass on (with the field name later rules use), report a message, or throw. */
  datatype Step = Continue(fieldName: string) | Stop(message: string) | Throw(error: ConfigError)

  /** The rule kinds the switch of validateValue handles. */
  const HandledRules: set<string> :=
    {"required", "nonEmpty", "min", "max", "minLength", "maxLength", "length",
     "regexp", "email", "date", "dateTime", "custom"}

  /** The rule kinds that only look at a value that is set. */
  const SetOnlyRules: set<string> :=
    {"min", "max", "minLength", "maxLength", "length", "regexp", "email", "date", "dateTime"}

  /** The static list getValidRuleProperties returns. */
  const ValidRuleProperties: seq<string> :=
    ["required", "nonEmpty", "min", "max", "minLength", "maxLength", "regexp",
     "regexpExpl", "email", "textKey", "date", "dateTime", "custom"]

  // ---------------------------------------------------------------------
  // One value against one rule

  /** isValueSet: a scalar or null whose string form is not empty. */
  predicate IsValueSet(v: Value)
  {
    (IsScalar(v) || v.Null?) && StringForm(v) != ""
  }

  /** Exactly true, a number and a non-empty string are set. */
  lemma IsValueSetCases(v: Value)
    ensures IsValueSet(v) <==> v == Bool(true) || v.Int? || (v.Str? && v.s != "")
  {
    if v.Int? {
      assert IntToDecimal(v.i) != "";
    }
  }

  /** is_callable */
  predicate IsCallable(o: Oracles, v: Value)
  {
    v.Closure? || ((v.Str? || v.Arr?) && o.callable(v))
  }

  /** A message stops the walk when PHP treats it as true. */
  function Report(message: string, fieldName: string): (s: Step)
    ensures s.Stop? <==> Truthy(message)
    ensures s.Stop? ==> s.message == message
    ensures s.Continue? ==> s.fieldName == fieldName
  {
    if Truthy(message) then Stop(message) else Continue(fieldName)
  }

  /** A configuration the rule throws on, whatever the value. */
  predicate BadConfig(o: Oracles, rule: string, contents: Value)
  {
    rule !in HandledRules
    || (rule in {"required", "nonEmpty", "email", "date", "dateTime"} && !contents.Bool?)
    || (rule in {"min", "max"} && !IsNumeric(contents))
    || (rule in {"minLength", "maxLength", "length"} && !(contents.Int? && contents.i >= 1))
    || (rule == "regexp" && Empty(contents))
    || (rule == "custom" && !IsCallable(o, contents))
  }

  /** The error a bad configuration throws. */
  function ConfigErrorOf(rule: string): ConfigError
  {
    if rule in HandledRules then InvalidRule(rule) else UnknownRule(rule)
  }

  /** The length checks: minLength, maxLength and length. */
  function LengthStep(tr: Translator, rule: string, limit: int, value: Value, fieldName: string): Step
  {
    var n := |StringForm(value)|;
    var failed := if rule == "minLength" then n < limit else if rule == "maxLength" then n > limit else n != limit;
    var id := if rule == "minLength" then "errorFieldMustBeMinXLength"
      else if rule == "maxLength" then "errorFieldMustBeMaxXLength" else "errorFieldMustBeXLength";
    if IsValueSet(value) && failed then
      Report(tr(id, [("%field%", fieldName), ("%numberOf%", IntToDecimal(limit))]), fieldName)
    else Continue(fieldName)
  }

  /** The date checks: date wants Y-m-d, dateTime Y-m-d H:i or Y-m-d H:i:s. */
  function DateStep(tr: Translator, o: Oracles, rule: string, value: Value, fieldName: string): Step
  {
    var v := StringForm(value);
    var ok := if rule == "date" then o.parsesAs("Y-m-d", v)
      else o.parsesAs("Y-m-d H:i", v) || o.parsesAs("Y-m-d H:i:s", v);
    if IsValueSet(value) && !ok then
      Report(tr(if rule == "date" then "errorInvalidDate" else "errorInvalidDateTime", []), fieldName)
    else Continue(fieldName)
  }

  /**
   * One case of the switch of validateValue. `expl` is regexpExpl when it
   * is set. A failing min check also makes its message the field name,
   * which later rules see when that message is one PHP treats as false.
   */
  function RuleStep(tr: Translator, o: Oracles, rule: string, contents: Value, value: Value,
                    fieldName: string, expl: Option<string>): Step
  {
    var isSet := IsValueSet(value);
    var field := [("%field%", fieldName)];
    if BadConfig(o, rule, contents) then Throw(ConfigErrorOf(rule))
    else if rule == "required" then
      Report(if contents.b && !isSet then tr("errorFieldXIsRequired", field) else "", fieldName)
    else if rule == "nonEmpty" then
      Report(if contents.b && Empty(value) then tr("errorFieldXIsRequired", field) else "", fieldName)
    else if rule == "min" then
      if isSet && (!IsNumeric(value) || NumericValue(value) < NumericValue(contents)) then
        var m := tr("errorFieldMustBeMinNumber", field + [("%number%", StringForm(contents))]);
        Report(m, m)
      else Continue(fieldName)
    else if rule == "max" then
      if isSet && (!IsNumeric(value) || NumericValue(value) > NumericValue(contents)) then
        Report(tr("errorFieldMustBeMaxNumber", field + [("%number%", StringForm(contents))]), fieldName)
      else Continue(fieldName)
    else if rule in {"minLength", "maxLength", "length"} then
      LengthStep(tr, rule, contents.i, value, fieldName)
    else if rule == "regexp" then
      if !isSet then Continue(fieldName)
      else if contents.Closure? then Throw(NotAString(rule))
      else if o.matches(StringForm(contents), StringForm(value)) then Continue(fieldName)
      else
        var m := tr("errorFieldInvalidFormat", field);
        var m' := match expl
          case Some(x) => m + tr("errorFieldValidCharactersAreX", [("%characters%", x)])
          case None => m;
        Report(m', fieldName)
    else if rule == "email" then
      Report(if contents.b && isSet && !o.isEmail(StringForm(value)) then tr("errorInvalidEmail", []) else "", fieldName)
    else if rule in {"date", "dateTime"} then
      if contents.b then DateStep(tr, o, rule, value, fieldName) else Continue(fieldName)
    else
      Report(o.invoke(contents, value), fieldName)
  }

  /**
   * A rule throws exactly on a bad configuration, or on a closure given as
   * the pattern of a regexp when the value is set; the error names the rule.
   */
  lemma RuleStepThrows(tr: Translator, o: Oracles, rule: string, contents: Value, value: Value,
                       fieldName: string, expl: Option<string>)
    ensures RuleStep(tr, o, rule, contents, value, fieldName, expl).Throw? <==>
      BadConfig(o, rule, contents) || (rule == "regexp" && contents.Closure? && IsValueSet(value))
    ensures RuleStep(tr, o, rule, contents, value, fieldName, expl).Throw? ==>
      RuleStep(tr, o, rule, contents, value, fieldName, expl).error.rule == rule
    ensures rule !in HandledRules ==> RuleStep(tr, o, rule, contents, value, fieldName, expl) == Throw(UnknownRule(rule))
  {
  }

  /** For a value that is not set, the rules that test values only throw or pass, and keep the field name. */
  lemma UnsetValuePasses(tr: Translator, o: Oracles, rule: string, contents: Value, value: Value,
                         fieldName: string, expl: Option<string>)
    requires rule in SetOnlyRules && !IsValueSet(value)
    ensures RuleStep(tr, o, rule, contents, value, fieldName, expl) ==
      if BadConfig(o, rule, contents) then Throw(InvalidRule(rule)) else Continue(fieldName)
  {
  }

  /** Only min changes the field name, and only to a message PHP treats as false. */
  lemma RuleStepName(tr: Translator, o: Oracles, rule: string, contents: Value, value: Value,
                     fieldName: string, expl: Option<string>)
    ensures var s := RuleStep(tr, o, rule, contents, value, fieldName, expl);
      s.Continue? ==> s.fieldName == fieldName || (rule == "min" && !Truthy(s.fieldName))
  {
  }

  /** `length` with a valid bound: a set value whose length differs reports the length message. */
  lemma LengthRule(tr: Translator, o: Oracles, limit: int, value: Value, fieldName: string, expl: Option<string>)
    requires limit >= 1
    ensures RuleStep(tr, o, "length", Int(limit), value, fieldName, expl) ==
      if IsValueSet(value) && |StringForm(value)| != limit
      then Report(tr("errorFieldMustBeXLength", [("%field%", fieldName), ("%numberOf%", IntToDecimal(limit))]), fieldName)
      else Continue(fieldName)
  {
  }

  /** `required`: when true, a value that is not set reports the required message. */
  lemma RequiredRule(tr: Translator, o: Oracles, flag: bool, value: Value, fieldName: string, expl: Option<string>)
    ensures RuleStep(tr, o, "required", Bool(flag), value, fieldName, expl) ==
      Report(if flag && !IsValueSet(value) then tr("errorFieldXIsRequired", [("%field%", fieldName)]) else "", fieldName)
  {
  }

  /** `nonEmpty`: when true, a value PHP calls empty reports the required message. */
  lemma NonEmptyRule(tr: Translator, o: Oracles, flag: bool, value: Value, fieldName: string, expl: Option<string>)
    ensures RuleStep(tr, o, "nonEmpty", Bool(flag), value, fieldName, expl) ==
      Report(if flag && Empty(value) then tr("errorFieldXIsRequired", [("%field%", fieldName)]) else "", fieldName)
  {
  }

  /**
   * `regexp` with a pattern string PHP does not call empty: a set value the
   * pattern rejects reports the invalid-format message, followed by the
   * valid-characters message when regexpExpl is given.
   */
  lemma RegexpRule(tr: Translator, o: Oracles, pattern: string, value: Value, fieldName: string, expl: Option<string>)
    requires !Empty(Str(pattern))
    ensures RuleStep(tr, o, "regexp", Str(pattern), value, fieldName, expl) ==
      if !IsValueSet(value) || o.matches(pattern, StringForm(value)) then Continue(fieldName)
      else if expl.Some? then
        Report(tr("errorFieldInvalidFormat", [("%field%", fieldName)])
               + tr("errorFieldValidCharactersAreX", [("%characters%", expl.value)]), fieldName)
      else Report(tr("errorFieldInvalidFormat", [("%field%", fieldName)]), fieldName)
  {
  }

  /**
   * `min` with a numeric bound: a set value that is not numeric or lies
   * below the bound gets the minimum message, which also becomes the field
   * name when PHP treats it as false and the walk goes on.
   */
  lemma MinRule(tr: Translator, o: Oracles, bound: Value, value: Value, fieldName: string, expl: Option<string>)
    requires IsNumeric(bound)
    ensures var s := RuleStep(tr, o, "min", bound, value, fieldName, expl);
      var m := tr("errorFieldMustBeMinNumber", [("%field%", fieldName), ("%number%", StringForm(bound))]);
      if IsValueSet(value) && (!IsNumeric(value) || NumericValue(value) < NumericValue(bound))
      then (Truthy(m) ==> s == Stop(m)) && (!Truthy(m) ==> s == Continue(m))
      else s == Continue(fieldName)
  {
    assert [("%field%", fieldName)] + [("%number%", StringForm(bound))]
      == [("%field%", fieldName), ("%number%", StringForm(bound))];
  }

  /** `max` with a numeric bound: a set value that is not numeric or lies above the bound gets the maximum message. */
  lemma MaxRule(tr: Translator, o: Oracles, bound: Value, value: Value, fieldName: string, expl: Option<string>)
    requires IsNumeric(bound)
    ensures RuleStep(tr, o, "max", bound, value, fieldName, expl) ==
      if IsValueSet(value) && (!IsNumeric(value) || NumericValue(value) > NumericValue(bound))
      then Report(tr("errorFieldMustBeMaxNumber", [("%field%", fieldName), ("%number%", StringForm(bound))]), fieldName)
      else Continue(fieldName)
  {
    assert [("%field%", fieldName)] + [("%number%", StringForm(bound))]
      == [("%field%", fieldName), ("%number%", StringForm(bound))];
  }

  /** `minLength` with a valid bound: a set value shorter than the bound reports the minimum-length message. */
  lemma MinLengthRule(tr: Translator, o: Oracles, limit: int, value: Value, fieldName: string, expl: Option<string>)
    requires limit >= 1
    ensures RuleStep(tr, o, "minLength", Int(limit), value, fieldName, expl) ==
      if IsValueSet(value) && |StringForm(value)| < limit
      then Report(tr("errorFieldMustBeMinXLength", [("%field%", fieldName), ("%numberOf%", IntToDecimal(limit))]), fieldName)
      else Continue(fieldName)
  {
  }

  /** `maxLength` with a valid bound: a set value longer than the bound reports the maximum-length message. */
  lemma MaxLengthRule(tr: Translator, o: Oracles, limit: int, value: Value, fieldName: string, expl: Option<string>)
    requires limit >= 1
    ensures RuleStep(tr, o, "maxLength", Int(limit), value, fieldName, expl) ==
      if IsValueSet(value) && |StringForm(value)| > limit
      then Report(tr("errorFieldMustBeMaxXLength", [("%field%", fieldName), ("%numberOf%", IntToDecimal(limit))]), fieldName)
      else Continue(fieldName)
  {
  }

  /** `email`: when true, a set value the e-mail filter rejects reports the e-mail message. */
  lemma EmailRule(tr: Translator, o: Oracles, flag: bool, value: Value, fieldName: string, expl: Option<string>)
    ensures RuleStep(tr, o, "email", Bool(flag), value, fieldName, expl) ==
      Report(if flag && IsValueSet(value) && !o.isEmail(StringForm(value)) then tr("errorInvalidEmail", []) else "", fieldName)
  {
  }

  /**
   * `date` and `dateTime`: when true, a set value that parses in none of
   * the rule's formats (Y-m-d for date; Y-m-d H:i or Y-m-d H:i:s for
   * dateTime) reports the rule's message.
   */
  lemma DateRule(tr: Translator, o: Oracles, rule: string, flag: bool, value: Value, fieldName: string, expl: Option<string>)
    requires rule == "date" || rule == "dateTime"
    ensures var v := StringForm(value);
      RuleStep(tr, o, rule, Bool(flag), value, fieldName, expl) ==
      if flag && IsValueSet(value)
         && (if rule == "date" then !o.parsesAs("Y-m-d", v) else !o.parsesAs("Y-m-d H:i", v) && !o.parsesAs("Y-m-d H:i:s", v))
      then Report(tr(if rule == "date" then "errorInvalidDate" else "errorInvalidDateTime", []), fieldName)
      else Continue(fieldName)
  {
  }

  /** `custom` with a callable: whatever the value, set or not, the callable's answer is the message. */
  lemma CustomRule(tr: Translator, o: Oracles, f: Value, value: Value, fieldName: string, expl: Option<string>)
    requires IsCallable(o, f)
    ensures RuleStep(tr, o, "custom", f, value, fieldName, expl) == Report(o.invoke(f, value), fieldName)
  {
  }

  // ---------------------------------------------------------------------
  // The walk over the rules

  /** One rule of the walk for a fixed value: (rule, configuration, field name so far) to its step. */
  type Stepper = (string, Value, string) -> Step

  /** The switch of validateValue for one value and one regexpExpl. */
  function Steps(tr: Translator, o: Oracles, value: Value, expl: Option<string>): Stepper
  {
    (rule: string, contents: Value, fieldName: string) => RuleStep(tr, o, rule, contents, value, fieldName, expl)
  }

  /** Each step of the switch that stops reports a message PHP treats as true. */
  lemma StepsStopTruthy(tr: Translator, o: Oracles, value: Value, expl: Option<string>, rule: string,
                        contents: Value, fieldName: string)
    ensures var s := Steps(tr, o, value, expl)(rule, contents, fieldName);
      s.Stop? ==> Truthy(s.message)
  {
  }

  /** The rules in map order, from `fieldName` on: the first step that does not pass decides. */
  function Walk(step: Stepper, rules: RuleMap, fieldName: string): Step
    decreases |rules|
  {
    if rules == [] then Continue(fieldName)
    else
      match step(rules[0].0, rules[0].1, fieldName)
      case Continue(f) => Walk(step, rules[1..], f)
      case other => other
  }

  /** Walking `a + b` walks `a`, and walks `b` only when all of `a` passes. */
  lemma {:induction false} WalkConcat(step: Stepper, a: RuleMap, b: RuleMap, fieldName: string)
    ensures Walk(step, a + b, fieldName) ==
      match Walk(step, a, fieldName)
      case Continue(f) => Walk(step, b, f)
      case other => other
    decreases |a|
  {
    if a != [] {
      assert (a + b)[0] == a[0] && (a + b)[1..] == a[1..] + b;
      match step(a[0].0, a[0].1, fieldName)
      case Continue(f) => WalkConcat(step, a[1..], b, f);
      case _ =>
    } else {
      assert a + b == b;
    }
  }

  /** One rule walked on its own is its step. */
  lemma WalkOne(step: Stepper, e: (string, Value), fieldName: string)
    ensures Walk(step, [e], fieldName) == step(e.0, e.1, fieldName)
  {
    assert [e][1..] == [];
  }

  /** A walk that stops reports the message of a step, so one PHP treats as true when every step's is. */
  lemma {:induction false} WalkStopTruthy(step: Stepper, rules: RuleMap, fieldName: string)
    requires forall r, c, f :: step(r, c, f).Stop? ==> Truthy(step(r, c, f).message)
    ensures Walk(step, rules, fieldName).Stop? ==> Truthy(Walk(step, rules, fieldName).message)
    decreases |rules|
  {
    if rules != [] {
      match step(rules[0].0, rules[0].1, fieldName)
      case Continue(f) => WalkStopTruthy(step, rules[1..], f);
      case _ =>
    }
  }

  /**
   * Stopping at rule i: when every rule before i passes and rule i
   * reports or throws, that is the walk's outcome, and the rules after i
   * are not looked at.
   */
  lemma WalkStopsAt(step: Stepper, rules: RuleMap, i: nat, fieldName: string)
    requires i < |rules| && Walk(step, rules[..i], fieldName).Continue?
    requires !step(rules[i].0, rules[i].1, Walk(step, rules[..i], fieldName).fieldName).Continue?
    ensures Walk(step, rules, fieldName) == step(rules[i].0, rules[i].1, Walk(step, rules[..i], fieldName).fieldName)
    ensures Walk(step, rules, fieldName) == Walk(step, rules[..i + 1], fieldName)
  {
    var f := Walk(step, rules[..i], fieldName).fieldName;
    assert rules == rules[..i] + ([rules[i]] + rules[i + 1..]);
    WalkConcat(step, rules[..i], [rules[i]] + rules[i + 1..], fieldName);
    WalkConcat(step, [rules[i]], rules[i + 1..], f);
    WalkOne(step, rules[i], f);
    assert rules[..i + 1] == rules[..i] + [rules[i]];
    WalkConcat(step, rules[..i], [rules[i]], fieldName);
  }

  /** Conversely, a walk that does not pass stops at some rule i that every earlier rule passes. */
  lemma {:induction false} WalkStopWitness(step: Stepper, rules: RuleMap, fieldName: string)
    requires !Walk(step, rules, fieldName).Continue?
    ensures exists i :: (0 <= i < |rules| && Walk(step, rules[..i], fieldName).Continue? &&
      Walk(step, rules, fieldName) == step(rules[i].0, rules[i].1, Walk(step, rules[..i], fieldName).fieldName))
    decreases |rules|
  {
    assert rules[..0] == [];
    match step(rules[0].0, rules[0].1, fieldName)
    case Continue(f) =>
      var t := rules[1..];
      WalkStopWitness(step, t, f);
      var j :| 0 <= j < |t| && Walk(step, t[..j], f).Continue? &&
        Walk(step, t, f) == step(t[j].0, t[j].1, Walk(step, t[..j], f).fieldName);
      assert rules[..j + 1] == [rules[0]] + t[..j] by {
        assert rules == [rules[0]] + t;
      }
      WalkConcat(step, [rules[0]], t[..j], fieldName);
      WalkOne(step, rules[0], fieldName);
      assert rules[j + 1] == t[j];
    case _ =>
  }

  /** The walk passes exactly when every rule passes, each seeing the field name the rules before it leave. */
  lemma {:induction false} WalkPasses(step: Stepper, rules: RuleMap, fieldName: string)
    ensures Walk(step, rules, fieldName).Continue? <==>
      forall i :: 0 <= i < |rules| ==> (Walk(step, rules[..i], fieldName).Continue? &&
        step(rules[i].0, rules[i].1, Walk(step, rules[..i], fieldName).fieldName).Continue?)
  {
    if Walk(step, rules, fieldName).Continue? {
      forall i | 0 <= i < |rules|
        ensures Walk(step, rules[..i], fieldName).Continue? &&
          step(rules[i].0, rules[i].1, Walk(step, rules[..i], fieldName).fieldName).Continue?
      {
        assert rules == rules[..i] + rules[i..];
        WalkConcat(step, rules[..i], rules[i..], fieldName);
        if Walk(step, rules[..i], fieldName).Continue? {
          var f := Walk(step, rules[..i], fieldName).fieldName;
          assert rules[i..] == [rules[i]] + rules[i + 1..];
          WalkConcat(step, [rules[i]], rules[i + 1..], f);
          WalkOne(step, rules[i], f);
        }
      }
    } else {
      WalkStopWitness(step, rules, fieldName);
    }
  }

  /** The field name the switch's walk hands on is the one it started with, or a message PHP treats as false. */
  lemma {:induction false} WalkName(tr: Translator, o: Oracles, value: Value, expl: Option<string>,
                                    rules: RuleMap, fieldName: string)
    requires Walk(Steps(tr, o, value, expl), rules, fieldName).Continue?
    ensures var f := Walk(Steps(tr, o, value, expl), rules, fieldName).fieldName;
      f == fieldName || !Truthy(f)
    decreases |rules|
  {
    if rules != [] {
      var s := RuleStep(tr, o, rules[0].0, rules[0].1, value, fieldName, expl);
      RuleStepName(tr, o, rules[0].0, rules[0].1, value, fieldName, expl);
      WalkName(tr, o, value, expl, rules[1..], s.fieldName);
    }
  }

  // ---------------------------------------------------------------------
  // validateValue

  /** The field name messages use: the translated textKey when it is set, the generic label otherwise. */
  function FieldLabel(tr: Translator, ruleProperties: RuleMap): string
  {
    match Get(ruleProperties, "textKey")
    case Some(k) => if k != Null then tr(StringForm(k), []) else tr("errorTheNoneSpecifiedField", [])
    case None => tr("errorTheNoneSpecifiedField", [])
  }

  /** The rules of a rule map: everything but textKey, regexpExpl and trim, in map order. */
  function Rules(ruleProperties: RuleMap): (rules: RuleMap)
    ensures !HasKey(rules, "textKey") && !HasKey(rules, "regexpExpl") && !HasKey(rules, "trim")
    ensures forall k :: k !in {"textKey", "regexpExpl", "trim"} ==> Get(rules, k) == Get(ruleProperties, k)
    ensures forall e :: e in rules ==> e in ruleProperties
  {
    Remove(Remove(Remove(ruleProperties, "textKey"), "regexpExpl"), "trim")
  }

  /** Rules, one entry at a time: the non-rule keys drop out, the rules keep their order. */
  lemma RulesCons(e: (string, Value), rest: RuleMap)
    ensures Rules([e] + rest) == if e.0 in {"textKey", "regexpExpl", "trim"} then Rules(rest) else [e] + Rules(rest)
  {
    var afterTextKey := Remove(rest, "textKey");
    var afterExpl := Remove(afterTextKey, "regexpExpl");
    RemoveCons(e, rest, "textKey");
    if e.0 != "textKey" {
      RemoveCons(e, afterTextKey, "regexpExpl");
      if e.0 != "regexpExpl" {
        RemoveCons(e, afterExpl, "trim");
      }
    }
  }

  /** regexpExpl, as a string, when it is set. */
  function Explanation(ruleProperties: RuleMap): Option<string>
  {
    match Get(ruleProperties, "regexpExpl")
    case Some(x) => if x != Null then Some(StringForm(x)) else None
    case None => None
  }

  /** validateValue: the first message of the rules (None when all pass), or the error a rule throws. */
  function ValidateValueSpec(tr: Translator, o: Oracles, value: Value, ruleProperties: RuleMap)
    : (r: Result<Option<string>, ConfigError>)
    ensures r.Success? && r.value.Some? ==> Truthy(r.value.value)
  {
    var step := Steps(tr, o, value, Explanation(ruleProperties));
    forall r, c, f ensures step(r, c, f).Stop? ==> Truthy(step(r, c, f).message) {
      StepsStopTruthy(tr, o, value, Explanation(ruleProperties), r, c, f);
    }
    WalkStopTruthy(step, Rules(ruleProperties), FieldLabel(tr, ruleProperties));
    match Walk(step, Rules(ruleProperties), FieldLabel(tr, ruleProperties))
    case Continue(_) => Success(None)
    case Stop(m) => Success(Some(m))
    case Throw(e) => Failure(e)
  }

  /** A rule map with no rules in it (only textKey, regexpExpl or trim) accepts every value. */
  lemma NoRulesAccept(tr: Translator, o: Oracles, value: Value, ruleProperties: RuleMap)
    requires forall i :: 0 <= i < |ruleProperties| ==> ruleProperties[i].0 in {"textKey", "regexpExpl", "trim"}
    ensures ValidateValueSpec(tr, o, value, ruleProperties) == Success(None)
  {
    var rules := Rules(ruleProperties);
    if rules != [] {
      FirstIn(rules);
      assert false;
    }
  }

  lemma FirstIn(rules: RuleMap)
    requires rules != []
    ensures rules[0] in rules
  {
  }

  /**
   * A rule map with one rule: the outcome of that rule's case, with the
   * generic field label.
   */
  lemma OneRule(tr: Translator, o: Oracles, value: Value, rule: string, contents: Value)
    requires rule !in {"textKey", "regexpExpl", "trim"}
    ensures var s := RuleStep(tr, o, rule, contents, value, tr("errorTheNoneSpecifiedField", []), None);
      ValidateValueSpec(tr, o, value, [(rule, contents)])
      == match s case Continue(_) => Success(None) case Stop(m) => Success(Some(m)) case Throw(e) => Failure(e)
  {
    var step := Steps(tr, o, value, None);
    var noneLabel := tr("errorTheNoneSpecifiedField", []);
    assert Explanation([(rule, contents)]) == None;
    assert FieldLabel(tr, [(rule, contents)]) == noneLabel;
    assert Rules([(rule, contents)]) == [(rule, contents)];
    WalkOne(step, (rule, contents), noneLabel);
  }

  /** The translator of the validator's own tests, which answers "error" to everything. */
  function ErrorTranslator(id: string, parameters: seq<(string, string)>): string
  {
    "error"
  }

  /** `length`: 'asd' fails length 5 and passes length 3; '' is not set and passes length 5. */
  lemma LengthExamples(o: Oracles)
    ensures ValidateValueSpec(ErrorTranslator, o, Str("asd"), [("length", Int(5))]) == Success(Some("error"))
    ensures ValidateValueSpec(ErrorTranslator, o, Str("asd"), [("length", Int(3))]) == Success(None)
    ensures ValidateValueSpec(ErrorTranslator, o, Str(""), [("length", Int(5))]) == Success(None)
  {
    OneRule(ErrorTranslator, o, Str("asd"), "length", Int(5));
    OneRule(ErrorTranslator, o, Str("asd"), "length", Int(3));
    OneRule(ErrorTranslator, o, Str(""), "length", Int(5));
    LengthRule(ErrorTranslator, o, 5, Str("asd"), "error", None);
    LengthRule(ErrorTranslator, o, 3, Str("asd"), "error", None);
    LengthRule(ErrorTranslator, o, 5, Str(""), "error", None);
    assert IntToDecimal(5) == "5";
    assert IntToDecimal(3) == "3";
  }

  /** `nonEmpty` rejects null and 0, and `nonEmpty` false accepts null. */
  lemma NonEmptyExamples(o: Oracles)
    ensures ValidateValueSpec(ErrorTranslator, o, Null, [("nonEmpty", Bool(true))]) == Success(Some("error"))
    ensures ValidateValueSpec(ErrorTranslator, o, Int(0), [("nonEmpty", Bool(true))]) == Success(Some("error"))
    ensures ValidateValueSpec(ErrorTranslator, o, Null, [("nonEmpty", Bool(false))]) == Success(None)
  {
    OneRule(ErrorTranslator, o, Null, "nonEmpty", Bool(true));
    OneRule(ErrorTranslator, o, Int(0), "nonEmpty", Bool(true));
    OneRule(ErrorTranslator, o, Null, "nonEmpty", Bool(false));
    NonEmptyRule(ErrorTranslator, o, true, Null, "error", None);
    NonEmptyRule(ErrorTranslator, o, true, Int(0), "error", None);
    NonEmptyRule(ErrorTranslator, o, false, Null, "error", None);
  }

  /** `required` configured with a string throws. */
  lemma BadRequiredExample(o: Oracles)
    ensures ValidateValueSpec(ErrorTranslator, o, Null, [("required", Str("s"))]) == Failure(InvalidRule("required"))
  {
    OneRule(ErrorTranslator, o, Null, "required", Str("s"));
  }

  /** A rule kind the switch does not know throws. */
  lemma UnknownRuleExample(o: Oracles)
    ensures ValidateValueSpec(ErrorTranslator, o, Null, [("nonExistantRule", Null)]) == Failure(UnknownRule("nonExistantRule"))
  {
    OneRule(ErrorTranslator, o, Null, "nonExistantRule", Null);
  }

  /** min, length and regexp with configurations they reject throw. */
  lemma BadBoundExamples(o: Oracles)
    ensures ValidateValueSpec(ErrorTranslator, o, Null, [("min", Str("s"))]).Failure?
    ensures ValidateValueSpec(ErrorTranslator, o, Null, [("length", Str("s"))]).Failure?
    ensures ValidateValueSpec(ErrorTranslator, o, Null, [("regexp", Null)]).Failure?
  {
    OneRule(ErrorTranslator, o, Null, "min", Str("s"));
    OneRule(ErrorTranslator, o, Null, "length", Str("s"));
    OneRule(ErrorTranslator, o, Null, "regexp", Null);
    assert !IsIntegerString("s");
  }

  /**
   * `required` on a value that is not set reports the translator's required
   * message for the generic field label (when that message is not one PHP
   * treats as false).
   */
  lemma RequiredMessage(tr: Translator, o: Oracles, value: Value)
    requires !IsValueSet(value)
    requires Truthy(tr("errorFieldXIsRequired", [("%field%", tr("errorTheNoneSpecifiedField", []))]))
    ensures ValidateValueSpec(tr, o, value, [("required", Bool(true))])
         == Success(Some(tr("errorFieldXIsRequired", [("%field%", tr("errorTheNoneSpecifiedField", []))])))
  {
    OneRule(tr, o, value, "required", Bool(true));
    RequiredRule(tr, o, true, value, tr("errorTheNoneSpecifiedField", []), None);
  }

  /** A rule map of one rule and a textKey: the label is the translated textKey, the one rule remains. */
  lemma TextKeyParts(tr: Translator, rule: string, contents: Value, textKey: string)
    requires rule !in {"textKey", "regexpExpl", "trim"}
    ensures var ruleProperties := [(rule, contents), ("textKey", Str(textKey))];
      FieldLabel(tr, ruleProperties) == tr(textKey, []) && Explanation(ruleProperties) == None
      && Rules(ruleProperties) == [(rule, contents)]
  {
    var first := (rule, contents);
    var key := ("textKey", Str(textKey));
    assert [first, key] == [first] + [key];
    GetCons(first, [key], "textKey");
    GetCons(key, [], "textKey");
    GetCons(first, [key], "regexpExpl");
    GetCons(key, [], "regexpExpl");
    RulesCons(first, [key]);
    RulesCons(key, []);
  }

  /** A rule map of one rule and a textKey: the outcome of that rule's case, with the translated textKey as label. */
  lemma OneRuleWithTextKey(tr: Translator, o: Oracles, value: Value, rule: string, contents: Value, textKey: string)
    requires rule !in {"textKey", "regexpExpl", "trim"}
    ensures var s := RuleStep(tr, o, rule, contents, value, tr(textKey, []), None);
      ValidateValueSpec(tr, o, value, [(rule, contents), ("textKey", Str(textKey))])
      == match s case Continue(_) => Success(None) case Stop(m) => Success(Some(m)) case Throw(e) => Failure(e)
  {
    TextKeyParts(tr, rule, contents, textKey);
    WalkOne(Steps(tr, o, value, None), (rule, contents), tr(textKey, []));
  }

  /**
   * `required` on a value that is not set, with a textKey: the required
   * message for the translated textKey.
   */
  lemma TextKeyLabel(tr: Translator, o: Oracles, value: Value, textKey: string)
    requires !IsValueSet(value)
    requires Truthy(tr("errorFieldXIsRequired", [("%field%", tr(textKey, []))]))
    ensures ValidateValueSpec(tr, o, value, [("required", Bool(true)), ("textKey", Str(textKey))])
         == Success(Some(tr("errorFieldXIsRequired", [("%field%", tr(textKey, []))])))
  {
    OneRuleWithTextKey(tr, o, value, "required", Bool(true), textKey);
    RequiredRule(tr, o, true, value, tr(textKey, []), None);
  }

  /** With the default translator, `required` on null reports "Field must be filled in.". */
  lemma DefaultRequiredMessage(o: Oracles)
    ensures ValidateValueSpec(DefaultTranslator.Trans, o, Null, [("required", Bool(true))])
         == Success(Some("Field" + " must be filled in."))
  {
    DefaultTranslator.RequiredForGenericLabel();
    RequiredMessage(DefaultTranslator.Trans, o, Null);
  }

  // ---------------------------------------------------------------------
  // validate: one field

  /** What validate does with one field of the registry. */
  datatype FieldOutcome = Skipped | Invalid(message: string) | Valid(value: Value) | Threw(error: ConfigError)

  /**
   * The value validate checks: a set data value, trimmed when it is a string
   * and trim is absent or exactly true; '' for an absent field that is
   * required or nonEmpty; None (skip) for any other absent field.
   */
  function ResolveValue(data: seq<(string, Value)>, name: string, ruleProperties: RuleMap): (r: Option<Value>)
    ensures r.None? <==> ((!HasKey(data, name) || Get(data, name).value == Null) &&
      Empty(Get(ruleProperties, "required").GetOr(Null)) && Empty(Get(ruleProperties, "nonEmpty").GetOr(Null)))
  {
    match Get(data, name)
    case Some(v) =>
      if v != Null then
        var trim := Get(ruleProperties, "trim");
        if v.Str? && (trim.None? || trim.value == Null || trim.value == Bool(true)) then Some(Str(Trim(v.s)))
        else Some(v)
      else AbsentValue(ruleProperties)
    case None => AbsentValue(ruleProperties)
  }

  function AbsentValue(ruleProperties: RuleMap): (r: Option<Value>)
    ensures r.None? <==> Empty(Get(ruleProperties, "required").GetOr(Null)) && Empty(Get(ruleProperties, "nonEmpty").GetOr(Null))
    ensures r.Some? ==> r.value == Str("")
  {
    if Empty(Get(ruleProperties, "required").GetOr(Null)) && Empty(Get(ruleProperties, "nonEmpty").GetOr(Null)) then None
    else Some(Str(""))
  }

  /** A present string is trimmed unless trim is set to something other than true. */
  lemma ResolveTrims(data: seq<(string, Value)>, name: string, ruleProperties: RuleMap, s: string)
    requires Get(data, name) == Some(Str(s))
    ensures ResolveValue(data, name, ruleProperties) ==
      if HasKey(ruleProperties, "trim") && Get(ruleProperties, "trim").value !in {Null, Bool(true)}
      then Some(Str(s)) else Some(Str(Trim(s)))
  {
  }

  /** A field's outcome: skipped, or the value checked and the message or the passed value. */
  function FieldStep(tr: Translator, o: Oracles, data: seq<(string, Value)>, name: string, ruleProperties: RuleMap)
    : (r: FieldOutcome)
    ensures r.Skipped? <==> ResolveValue(data, name, ruleProperties).None?
    ensures r.Valid? ==> Some(r.value) == ResolveValue(data, name, ruleProperties)
    ensures r.Invalid? ==> Truthy(r.message)
  {
    match ResolveValue(data, name, ruleProperties)
    case None => Skipped
    case Some(v) =>
      match ValidateValueSpec(tr, o, v, ruleProperties)
      case Failure(e) => Threw(e)
      case Success(None) => Valid(v)
      case Success(Some(m)) => Invalid(m)
  }

  // ---------------------------------------------------------------------
  // validate: the pass over the registry

  /** Where validate is after some fields: the messages so far, the validated data, and an error if one was thrown. */
  datatype RunState = RunState(errors: seq<(string, string)>, validated: seq<(string, Value)>, thrown: Option<ConfigError>)

  /** What validate does with each field, for one data array: (field name, rule map) to its outcome. */
  type FieldStepper = (string, RuleMap) -> FieldOutcome

  function FieldSteps(tr: Translator, o: Oracles, data: seq<(string, Value)>): FieldStepper
  {
    (name: string, ruleProperties: RuleMap) => FieldStep(tr, o, data, name, ruleProperties)
  }

  /** The pass after one more field: its message or its value recorded, unless a field threw before. */
  function Advance(s: RunState, name: string, outcome: FieldOutcome): RunState
  {
    if s.thrown.Some? then s
    else
      match outcome
      case Skipped => s
      case Invalid(m) => s.(errors := Set(s.errors, name, m))
      case Valid(v) => s.(validated := Set(s.validated, name, v))
      case Threw(e) => s.(thrown := Some(e))
  }

  /** One more field changes neither map at any other name. */
  lemma AdvanceOther(s: RunState, name: string, outcome: FieldOutcome, other: string)
    requires name != other
    ensures Get(Advance(s, name, outcome).errors, other) == Get(s.errors, other)
    ensures Get(Advance(s, name, outcome).validated, other) == Get(s.validated, other)
  {
    if s.thrown.None? {
      match outcome
      case Invalid(m) => SetOther(s.errors, name, m, other);
      case Valid(v) => SetOther(s.validated, name, v, other);
      case _ =>
    }
  }

  /** One more field puts its message among the errors or its value in the validated data. */
  lemma AdvancePlace(s: RunState, name: string, outcome: FieldOutcome)
    requires s.thrown.None? && !outcome.Threw? && !HasKey(s.errors, name)
    ensures var s' := Advance(s, name, outcome);
      s'.thrown.None? &&
      match outcome
      case Skipped => !HasKey(s'.errors, name) && Get(s'.validated, name) == Get(s.validated, name)
      case Invalid(m) => Get(s'.errors, name) == Some(m) && Get(s'.validated, name) == Get(s.validated, name)
      case Valid(v) => !HasKey(s'.errors, name) && Get(s'.validated, name) == Some(v)
      case Threw(_) => false
  {
    match outcome
    case Invalid(m) => SetGet(s.errors, name, m);
    case Valid(v) => SetGet(s.validated, name, v);
    case _ =>
  }

  /** validate after the first `n` fields, from the validated data it starts with; a throw ends the pass. */
  function Run(fieldStep: FieldStepper, fields: seq<(string, RuleMap)>, validated: seq<(string, Value)>, n: nat)
    : (s: RunState)
    requires n <= |fields|
    decreases n
  {
    if n == 0 then RunState([], validated, None)
    else Advance(Run(fieldStep, fields, validated, n - 1), fields[n - 1].0, fieldStep(fields[n - 1].0, fields[n - 1].1))
  }

  /**
   * After a pass that did not throw, each of its fields is in exactly the one place its outcome
   * says: a skipped field in neither map (validated data as it was), an
   * invalid one among the errors only, a valid one in the validated data
   * only, with the value that was checked.
   */
  lemma {:induction false} RunPlaces(fieldStep: FieldStepper, fields: seq<(string, RuleMap)>,
                                     validated: seq<(string, Value)>, n: nat, i: nat)
    requires i < n <= |fields| && UniqueKeys(fields)
    requires Run(fieldStep, fields, validated, n).thrown.None?
    ensures var s := Run(fieldStep, fields, validated, n);
      var name := fields[i].0;
      match fieldStep(name, fields[i].1)
      case Skipped => !HasKey(s.errors, name) && Get(s.validated, name) == Get(validated, name)
      case Invalid(m) => Get(s.errors, name) == Some(m) && Get(s.validated, name) == Get(validated, name)
      case Valid(v) => !HasKey(s.errors, name) && Get(s.validated, name) == Some(v)
      case Threw(_) => false
    decreases n
  {
    var prev := Run(fieldStep, fields, validated, n - 1);
    var (name, ruleProperties) := fields[n - 1];
    assert prev.thrown.None?;
    if i < n - 1 {
      RunPlaces(fieldStep, fields, validated, n - 1, i);
      AdvanceOther(prev, name, fieldStep(name, ruleProperties), fields[i].0);
    } else {
      RunUntouched(fieldStep, fields, validated, n - 1, name);
      AdvancePlace(prev, name, fieldStep(name, ruleProperties));
    }
  }

  /** Once a field throws, the later fields are not looked at. */
  lemma {:induction false} RunThrownStays(fieldStep: FieldStepper, fields: seq<(string, RuleMap)>,
                                          validated: seq<(string, Value)>, n: nat, m: nat)
    requires n <= m <= |fields| && Run(fieldStep, fields, validated, n).thrown.Some?
    ensures Run(fieldStep, fields, validated, m) == Run(fieldStep, fields, validated, n)
    decreases m - n
  {
    if n < m {
      RunThrownStays(fieldStep, fields, validated, n, m - 1);
      assert Run(fieldStep, fields, validated, m - 1).thrown.Some?;
    }
  }

  /** Fields not yet reached leave both maps alone at their name. */
  lemma {:induction false} RunUntouched(fieldStep: FieldStepper, fields: seq<(string, RuleMap)>,
                                        validated: seq<(string, Value)>, n: nat, name: string)
    requires n <= |fields| && forall j :: 0 <= j < n ==> fields[j].0 != name
    ensures var s := Run(fieldStep, fields, validated, n);
      !HasKey(s.errors, name) && Get(s.validated, name) == Get(validated, name)
    decreases n
  {
    if n > 0 {
      RunUntouched(fieldStep, fields, validated, n - 1, name);
      AdvanceOther(Run(fieldStep, fields, validated, n - 1), fields[n - 1].0,
                   fieldStep(fields[n - 1].0, fields[n - 1].1), name);
    }
  }

  /** Fields after the first k that carry other names leave a name's validated value where the first k left it. */
  lemma {:induction false} RunKeeps(fieldStep: FieldStepper, fields: seq<(string, RuleMap)>,
                                    validated: seq<(string, Value)>, k: nat, n: nat, name: string)
    requires k <= n <= |fields| && forall j :: k <= j < n ==> fields[j].0 != name
    ensures Get(Run(fieldStep, fields, validated, n).validated, name)
         == Get(Run(fieldStep, fields, validated, k).validated, name)
    decreases n
  {
    if k < n {
      RunKeeps(fieldStep, fields, validated, k, n - 1, name);
      AdvanceOther(Run(fieldStep, fields, validated, n - 1), fields[n - 1].0,
                   fieldStep(fields[n - 1].0, fields[n - 1].1), name);
    }
  }

  /**
   * Starting again from the validated data a whole pass left: after the
   * first k fields the messages and the error are those of the first pass,
   * and the validated data is unchanged, since each valid field writes the
   * value it already holds.
   */
  lemma {:induction false} RunFrom(fieldStep: FieldStepper, fields: seq<(string, RuleMap)>,
                                   validated: seq<(string, Value)>, k: nat)
    requires k <= |fields| && UniqueKeys(fields)
    ensures var fin := Run(fieldStep, fields, validated, |fields|).validated;
      Run(fieldStep, fields, fin, k) == Run(fieldStep, fields, validated, k).(validated := fin)
    decreases k
  {
    if k > 0 {
      var fin := Run(fieldStep, fields, validated, |fields|).validated;
      RunFrom(fieldStep, fields, validated, k - 1);
      var a := Run(fieldStep, fields, validated, k - 1);
      var name := fields[k - 1].0;
      var outcome := fieldStep(name, fields[k - 1].1);
      if a.thrown.None? && outcome.Valid? {
        SetGet(a.validated, name, outcome.value);
        assert forall j :: k <= j < |fields| ==> fields[j].0 != name by {
          forall j | k <= j < |fields| ensures fields[j].0 != name {
            assert k - 1 < j;
          }
        }
        RunKeeps(fieldStep, fields, validated, k, |fields|, name);
        SetSame(fin, name, outcome.value);
      }
    }
  }

  /**
   * validate is idempotent: a second pass with the same check of each
   * field, from the validated data the first pass left, gives the same
   * messages, the same error and the same validated data.
   */
  lemma RunIdempotent(fieldStep: FieldStepper, fields: seq<(string, RuleMap)>, validated: seq<(string, Value)>)
    requires UniqueKeys(fields)
    ensures var first := Run(fieldStep, fields, validated, |fields|);
      Run(fieldStep, fields, first.validated, |fields|) == first
  {
    RunFrom(fieldStep, fields, validated, |fields|);
  }

  /** A pass over a fresh validator puts no field both among the errors and in the validated data. */
  lemma FreshRunDisjoint(fieldStep: FieldStepper, fields: seq<(string, RuleMap)>, i: nat)
    requires i < |fields| && UniqueKeys(fields) && Run(fieldStep, fields, [], |fields|).thrown.None?
    ensures var s := Run(fieldStep, fields, [], |fields|);
      !(HasKey(s.errors, fields[i].0) && HasKey(s.validated, fields[i].0))
  {
    RunPlaces(fieldStep, fields, [], |fields|, i);
  }

  /**
   * Validated data is kept from one validate call to the next: a value
   * that passed once stays even when the field fails in a later call, so
   * the field is then in both maps.
   */
  lemma StaleValidatedData(o: Oracles)
    ensures var fields := [("f", [("required", Bool(true))])];
      var first := Run(FieldSteps(ErrorTranslator, o, [("f", Str("x"))]), fields, [], 1);
      var second := Run(FieldSteps(ErrorTranslator, o, []), fields, first.validated, 1);
      second.errors == [("f", "error")] && second.validated == [("f", Str("x"))]
  {
    RequiredFieldSteps(o);
  }

  /** A required field "f": "x" passes, and a missing value is checked as "" and fails. */
  lemma RequiredFieldSteps(o: Oracles)
    ensures FieldStep(ErrorTranslator, o, [("f", Str("x"))], "f", [("required", Bool(true))]) == Valid(Str("x"))
    ensures FieldStep(ErrorTranslator, o, [], "f", [("required", Bool(true))]) == Invalid("error")
  {
    var rules := [("required", Bool(true))];
    assert Trim("x") == "x";
    assert ResolveValue([("f", Str("x"))], "f", rules) == Some(Str("x"));
    assert ResolveValue([], "f", rules) == Some(Str(""));
    OneRule(ErrorTranslator, o, Str("x"), "required", Bool(true));
    OneRule(ErrorTranslator, o, Str(""), "required", Bool(true));
    RequiredRule(ErrorTranslator, o, true, Str("x"), "error", None);
    RequiredRule(ErrorTranslator, o, true, Str(""), "error", None);
  }

  // ---------------------------------------------------------------------
  // The registry

  /** addFieldsRuleProperties for one field: a known field's rules merged with the new ones, a new field's rules as given. */
  function AddField(registry: seq<(string, RuleMap)>, name: string, newRules: RuleMap): seq<(string, RuleMap)>
  {
    match Get(registry, name)
    case Some(prior) => Set(registry, name, Merge(prior, newRules))
    case None => Set(registry, name, newRules)
  }

  /** The two branches of AddField, as the loop of addFieldsRuleProperties takes them. */
  lemma AddFieldCases(registry: seq<(string, RuleMap)>, name: string, newRules: RuleMap)
    ensures HasKey(registry, name) ==> AddField(registry, name, newRules) == Set(registry, name, Merge(Get(registry, name).value, newRules))
    ensures !HasKey(registry, name) ==> AddField(registry, name, newRules) == Set(registry, name, newRules)
  {
  }

  /** One more turn of the loop of addFieldsRuleProperties: merge into a known field, or add a new one. */
  lemma AddedNext(registry: seq<(string, RuleMap)>, newFields: seq<(string, RuleMap)>, i: nat)
    requires i < |newFields|
    ensures var prev := Added(registry, newFields, i);
      var (name, newRules) := newFields[i];
      Added(registry, newFields, i + 1) ==
        if HasKey(prev, name) then Set(prev, name, Merge(Get(prev, name).value, newRules))
        else Set(prev, name, newRules)
  {
    AddFieldCases(Added(registry, newFields, i), newFields[i].0, newFields[i].1);
  }

  /** addFieldsRuleProperties for the first `n` new fields. */
  function Added(registry: seq<(string, RuleMap)>, newFields: seq<(string, RuleMap)>, n: nat): (r: seq<(string, RuleMap)>)
    requires n <= |newFields|
    ensures UniqueKeys(registry) ==> UniqueKeys(r)
  {
    if n == 0 then registry
    else AddField(Added(registry, newFields, n - 1), newFields[n - 1].0, newFields[n - 1].1)
  }

  /**
   * After adding, a newly named field has its new rules merged over its
   * old ones (or just the new ones), and every other field is unchanged.
   */
  lemma {:induction false} AddedGet(registry: seq<(string, RuleMap)>, newFields: seq<(string, RuleMap)>, n: nat, k: string)
    requires n <= |newFields| && UniqueKeys(newFields)
    ensures Get(Added(registry, newFields, n), k) ==
      if HasKey(newFields[..n], k) then
        match Get(registry, k)
        case Some(prior) => Some(Merge(prior, Get(newFields[..n], k).value))
        case None => Get(newFields[..n], k)
      else Get(registry, k)
    decreases n
  {
    if n > 0 {
      var prev := Added(registry, newFields, n - 1);
      var e := newFields[n - 1];
      assert Added(registry, newFields, n) == AddField(prev, e.0, e.1);
      AddedGet(registry, newFields, n - 1, k);
      PrefixGet(newFields, n, k);
      AddFieldGet(prev, e.0, e.1, k);
    }
  }

  /** Growing a prefix of fields with unique names by one: only the last name's entry is new. */
  lemma PrefixGet(newFields: seq<(string, RuleMap)>, n: nat, k: string)
    requires 0 < n <= |newFields| && UniqueKeys(newFields)
    ensures Get(newFields[..n], k) == if newFields[n - 1].0 == k then Some(newFields[n - 1].1) else Get(newFields[..n - 1], k)
    ensures newFields[n - 1].0 == k ==> !HasKey(newFields[..n - 1], k)
  {
    var e := newFields[n - 1];
    assert newFields[..n] == newFields[..n - 1] + [e];
    IndexOfAppend(newFields[..n - 1], e, k);
    if e.0 == k {
      UniqueLast(newFields, n);
    }
  }

  /** One step of AddedGet: adding a field touches that field's rules only. */
  lemma AddFieldGet(registry: seq<(string, RuleMap)>, name: string, newRules: RuleMap, k: string)
    ensures Get(AddField(registry, name, newRules), k) ==
      if name == k then
        match Get(registry, k)
        case Some(prior) => Some(Merge(prior, newRules))
        case None => Some(newRules)
      else Get(registry, k)
  {
    match Get(registry, name)
    case Some(prior) =>
      if name == k { SetGet(registry, k, Merge(prior, newRules)); } else { SetOther(registry, name, Merge(prior, newRules), k); }
    case None =>
      if name == k { SetGet(registry, k, newRules); } else { SetOther(registry, name, newRules, k); }
  }

  /**
   * A field the new rules name keeps its old rule kinds except those named
   * anew, which take the new configuration.
   */
  lemma AddedRuleKinds(registry: seq<(string, RuleMap)>, newFields: seq<(string, RuleMap)>, k: string, rule: string)
    requires UniqueKeys(newFields) && HasKey(newFields, k) && UniqueKeys(Get(newFields, k).value)
    ensures Get(Added(registry, newFields, |newFields|), k).Some?
    ensures var rules := Get(Added(registry, newFields, |newFields|), k).value;
      var newRules := Get(newFields, k).value;
      Get(rules, rule) == if HasKey(newRules, rule) then Get(newRules, rule) else Get(Get(registry, k).GetOr([]), rule)
  {
    assert newFields[..|newFields|] == newFields;
    AddedGet(registry, newFields, |newFields|, k);
    var newRules := Get(newFields, k).value;
    if HasKey(registry, k) {
      MergeGet(Get(registry, k).value, newRules, rule);
    }
  }

  /** getFieldRuleProperties: the field's rule map, or the empty map. */
  function FieldRules(registry: seq<(string, RuleMap)>, name: string): (r: RuleMap)
    ensures HasKey(registry, name) ==> r == Get(registry, name).value
    ensures !HasKey(registry, name) ==> r == []
  {
    Get(registry, name).GetOr([])
  }

  /** Removing a field empties its rules and changes no other field; removing an absent one changes nothing. */
  lemma RemoveField(registry: seq<(string, RuleMap)>, name: string)
    ensures FieldRules(Remove(registry, name), name) == []
    ensures forall k :: k != name ==> FieldRules(Remove(registry, name), k) == FieldRules(registry, k)
    ensures !HasKey(registry, name) ==> Remove(registry, name) == registry
  {
  }

  /** `length` and `trim` are handled by the validator but not listed by getValidRuleProperties. */
  lemma ValidRulePropertiesGaps()
    ensures |ValidRuleProperties| == 13
    ensures "length" in HandledRules && "length" !in ValidRuleProperties
    ensures "trim" !in ValidRuleProperties
    ensures forall r :: r in HandledRules && r != "length" ==> r in ValidRuleProperties
  {
  }

  // ---------------------------------------------------------------------
  // The validator object

  class Validator {
    var fieldsRuleProperties: seq<(string, RuleMap)>
    var validatedData: seq<(string, Value)>
    const translator: Translator
    const oracles: Oracles

    ghost predicate Valid()
      reads this
    {
      UniqueKeys(fieldsRuleProperties) && UniqueKeys(validatedData)
    }

    constructor(fieldsRuleProperties: seq<(string, RuleMap)>, translator: Translator, oracles: Oracles)
      requires UniqueKeys(fieldsRuleProperties)
      ensures Valid()
      ensures this.fieldsRuleProperties == fieldsRuleProperties && validatedData == []
      ensures this.translator == translator && this.oracles == oracles
    {
      this.fieldsRuleProperties := fieldsRuleProperties;
      validatedData := [];
      this.translator := translator;
      this.oracles := oracles;
    }

    method AddFieldsRuleProperties(newFieldsRuleProperties: seq<(string, RuleMap)>)
      requires Valid()
      modifies this
      ensures Valid()
      ensures fieldsRuleProperties == Added(old(fieldsRuleProperties), newFieldsRuleProperties, |newFieldsRuleProperties|)
      ensures validatedData == old(validatedData)
    {
      // The loop assigns one field at a time; nothing reads the registry in between.
      var registry := fieldsRuleProperties;
      ghost var registry0 := registry;
      var i := 0;
      while i < |newFieldsRuleProperties|
        invariant 0 <= i <= |newFieldsRuleProperties|
        invariant registry == Added(registry0, newFieldsRuleProperties, i)
        modifies {}
      {
        var name := newFieldsRuleProperties[i].0;
        var newRuleProperties := newFieldsRuleProperties[i].1;
        AddedNext(registry0, newFieldsRuleProperties, i);
        if HasKey(registry, name) {
          registry := Set(registry, name, Merge(Get(registry, name).value, newRuleProperties));
        } else {
          registry := Set(registry, name, newRuleProperties);
        }
        i := i + 1;
      }
      fieldsRuleProperties := registry;
    }

    method RemoveFieldRuleProperties(fieldName: string)
      requires Valid()
      modifies this
      ensures Valid()
      ensures fieldsRuleProperties == Remove(old(fieldsRuleProperties), fieldName)
      ensures validatedData == old(validatedData)
    {
      fieldsRuleProperties := Remove(fieldsRuleProperties, fieldName);
    }

    function GetFieldRuleProperties(fieldName: string): (r: RuleMap)
      reads this
      ensures r == FieldRules(fieldsRuleProperties, fieldName)
    {
      if HasKey(fieldsRuleProperties, fieldName) then Get(fieldsRuleProperties, fieldName).value else []
    }

    /** getValidatedData: one value (the default when unset), or all of them as an array. */
    function GetValidatedData(key: Option<string>, default: Value): (r: Value)
      reads this
      ensures key.None? ==> r == Arr(validatedData)
      ensures key.Some? && HasKey(validatedData, key.value) && Get(validatedData, key.value).value != Null
        ==> r == Get(validatedData, key.value).value
      ensures key.Some? && (!HasKey(validatedData, key.value) || Get(validatedData, key.value).value == Null)
        ==> r == default
    {
      match key
      case None => Arr(validatedData)
      case Some(k) =>
        match Get(validatedData, k)
        case Some(v) => if v != Null then v else default
        case None => default
    }

    /** validateValue: the rules in map order, stopping at the first message. */
    method ValidateValue(value: Value, ruleProperties: RuleMap) returns (r: Result<Option<string>, ConfigError>)
      ensures r == ValidateValueSpec(translator, oracles, value, ruleProperties)
    {
      var fieldName := FieldLabel(translator, ruleProperties);
      var rules := Rules(ruleProperties);
      var expl := Explanation(ruleProperties);
      var s := WalkRules(Steps(translator, oracles, value, expl), rules, fieldName);
      r := match s
        case Continue(_) => Success(None)
        case Stop(m) => Success(Some(m))
        case Throw(e) => Failure(e);
    }

    /**
     * The loop of validateValue over the rules: each rule's step sees the
     * field name left by the one before; the first step that does not pass
     * is the answer.
     */
    static method WalkRules(step: Stepper, rules: RuleMap, startName: string) returns (s: Step)
      ensures s == Walk(step, rules, startName)
    {
      var fieldName := startName;
      var i := 0;
      while i < |rules|
        invariant 0 <= i <= |rules|
        invariant Walk(step, rules[..i], startName) == Continue(fieldName)
      {
        var (rule, ruleContents) := rules[i];
        var ruleStep := step(rule, ruleContents, fieldName);
        if !ruleStep.Continue? {
          WalkStopsAt(step, rules, i, startName);
          return ruleStep;
        }
        assert rules[..i + 1] == rules[..i] + [rules[i]];
        WalkConcat(step, rules[..i], [rules[i]], startName);
        WalkOne(step, rules[i], fieldName);
        fieldName := ruleStep.fieldName;
        i := i + 1;
      }
      assert rules[..|rules|] == rules;
      return Continue(fieldName);
    }

    /**
     * validate: each registered field in order; the messages of the
     * fields that fail, with the values of those that pass added to the
     * validated data. A throw leaves the validated data as far as it got.
     * Each field is checked by FieldStep, whose rule walk is the function
     * ValidateValue is proved to compute.
     */
    method Validate(data: seq<(string, Value)>) returns (r: Result<seq<(string, string)>, ConfigError>)
      requires Valid()
      modifies this
      ensures Valid()
      ensures var s := Run(FieldSteps(translator, oracles, data), fieldsRuleProperties, old(validatedData),
                           |fieldsRuleProperties|);
        validatedData == s.validated && r == (if s.thrown.Some? then Failure(s.thrown.value) else Success(s.errors))
      ensures fieldsRuleProperties == old(fieldsRuleProperties)
    {
      r := ValidateFields(FieldSteps(translator, oracles, data));
    }

    /** The loop of validate, for any check of one field. */
    method ValidateFields(check: FieldStepper) returns (r: Result<seq<(string, string)>, ConfigError>)
      requires Valid()
      modifies this
      ensures Valid()
      ensures var s := Run(check, fieldsRuleProperties, old(validatedData), |fieldsRuleProperties|);
        validatedData == s.validated && r == (if s.thrown.Some? then Failure(s.thrown.value) else Success(s.errors))
      ensures fieldsRuleProperties == old(fieldsRuleProperties)
    {
      ghost var validated0 := validatedData;
      var fields := fieldsRuleProperties;
      var errorMsgs: seq<(string, string)> := [];
      var i := 0;
      while i < |fields|
        invariant 0 <= i <= |fields| && Valid()
        invariant fieldsRuleProperties == fields
        invariant Run(check, fields, validated0, i) == RunState(errorMsgs, validatedData, None)
      {
        var (fieldName, ruleProperties) := fields[i];
        match check(fieldName, ruleProperties) {
          case Threw(e) =>
            RunThrownStays(check, fields, validated0, i + 1, |fields|);
            return Failure(e);
          case Invalid(errorMsg) =>
            errorMsgs := Set(errorMsgs, fieldName, errorMsg);
          case Valid(value) =>
            validatedData := Set(validatedData, fieldName, value);
          case Skipped =>
        }
        i := i + 1;
      }
      return Success(errorMsgs);
    }
  }

  /**
   * Two validate calls in a row with the same data give the same answer,
   * and the second leaves the validated data as the first left it.
   */
  method ValidateTwice(v: Validator, data: seq<(string, Value)>)
    returns (first: Result<seq<(string, string)>, ConfigError>, second: Result<seq<(string, string)>, ConfigError>)
    requires v.Valid()
    modifies v
    ensures v.Valid()
    ensures second == first
    ensures v.validatedData == Run(FieldSteps(v.translator, v.oracles, data), v.fieldsRuleProperties,
                                   old(v.validatedData), |v.fieldsRuleProperties|).validated
  {
    first := v.Validate(data);
    second := v.Validate(data);
    RunIdempotent(FieldSteps(v.translator, v.oracles, data), v.fieldsRuleProperties, old(v.validatedData));
  }
}
