/**
 * The default validator translator: a fixed table of English message
 * templates, and `trans`, which looks an id up in the table and fills the
 * template's `%name%` placeholders from the parameters with strtr. An id
 * the table does not have is returned as it is.
 */
module DefaultTranslator {
  import opened Wrappers
  import opened PhpStrings
  import opened OrderedMaps

  // ---------------------------------------------------------------------
  // Templates as literal text and placeholders.

  datatype Piece = Lit(text: string) | Hole(name: string)

  predicate NoPercent(s: string)
  {
    forall i :: 0 <= i < |s| ==> s[i] != '%'
  }

  function Placeholder(name: string): string
  {
    "%" + name + "%"
  }

  /** A parameter key strtr can only match at a placeholder: `%name%` with no `%` inside. */
  predicate IsPlaceholder(k: string)
  {
    |k| >= 2 && k[0] == '%' && k[|k| - 1] == '%' && NoPercent(k[1..|k| - 1])
  }

  predicate PlaceholderKeys(parameters: seq<(string, string)>)
  {
    forall i :: 0 <= i < |parameters| ==> IsPlaceholder(parameters[i].0)
  }

  /** Literal text without `%`, placeholders whose names have none. */
  predicate WellShaped(t: seq<Piece>)
  {
    forall i :: 0 <= i < |t| ==> match t[i] case Lit(x) => NoPercent(x) case Hole(n) => NoPercent(n)
  }

  /** Every placeholder of the template has a parameter. */
  predicate Covered(t: seq<Piece>, parameters: seq<(string, string)>)
  {
    forall i :: 0 <= i < |t| && t[i].Hole? ==> HasKey(parameters, Placeholder(t[i].name))
  }

  /** The template text. */
  function Render(t: seq<Piece>): string
  {
    if t == [] then []
    else (match t[0] case Lit(x) => x case Hole(n) => Placeholder(n)) + Render(t[1..])
  }

  /** The template with each placeholder replaced by its parameter's value. */
  function Fill(t: seq<Piece>, parameters: seq<(string, string)>): string
  {
    if t == [] then []
    else
      (match t[0]
       case Lit(x) => x
       case Hole(n) => Get(parameters, Placeholder(n)).GetOr(Placeholder(n)))
      + Fill(t[1..], parameters)
  }

  /**
   * The template table, in the order the class declares it. Each template
   * is written as its literal text and its placeholders; its text is
   * `Render` of them ("%field% must be filled in." for the second).
   */
  const Templates: seq<(string, seq<Piece>)> := [
    ("errorTheNoneSpecifiedField", NoneSpecifiedField),
    ("errorFieldXIsRequired", FieldXIsRequired),
    ("errorFieldMustBeMinNumber", FieldMustBeMinNumber),
    ("errorFieldMustBeMaxNumber", FieldMustBeMaxNumber),
    ("errorFieldMustBeMinXLength", FieldMustBeMinXLength),
    ("errorFieldMustBeMaxXLength", FieldMustBeMaxXLength),
    ("errorFieldMustBeXLength", FieldMustBeXLength),
    ("errorFieldInvalidFormat", FieldInvalidFormat),
    ("errorFieldValidCharactersAreX", FieldValidCharactersAreX),
    ("errorInvalidEmail", InvalidEmail),
    ("errorInvalidDate", InvalidDate),
    ("errorInvalidDateTime", InvalidDateTime)
  ]

  const NoneSpecifiedField: seq<Piece> := [Lit("Field")]
  const FieldXIsRequired: seq<Piece> := [Hole("field"), Lit(" must be filled in.")]
  const FieldMustBeMinNumber: seq<Piece> := [Hole("field"), Lit(" must be minimum "), Hole("number"), Lit(".")]
  const FieldMustBeMaxNumber: seq<Piece> := [Hole("field"), Lit(" must be maximum "), Hole("number"), Lit(".")]
  const FieldMustBeMinXLength: seq<Piece> := [Hole("field"), Lit(" must include minimum "), Hole("numberOf"), Lit(" characters.")]
  const FieldMustBeMaxXLength: seq<Piece> := [Hole("field"), Lit(" must include maximum "), Hole("numberOf"), Lit(" characters.")]
  const FieldMustBeXLength: seq<Piece> := [Hole("field"), Lit(" must consist of "), Hole("numberOf"), Lit(" characters.")]
  const FieldInvalidFormat: seq<Piece> := [Hole("field"), Lit(" has invalid format.")]
  const FieldValidCharactersAreX: seq<Piece> := [Lit("Valid characters are "), Hole("characters"), Lit(".")]
  const InvalidEmail: seq<Piece> := [Lit("Email address is invalid.")]
  const InvalidDate: seq<Piece> := [Lit("Date is invalid.")]
  const InvalidDateTime: seq<Piece> := [Lit("Date/time is invalid.")]

  /** trans(id, parameters): strtr on the id's template text, or the id itself. */
  function Trans(id: string, parameters: seq<(string, string)>): string
  {
    match Get(Templates, id)
    case Some(template) => Strtr(Render(template), parameters)
    case None => id
  }

  /** The table holds twelve ids, each once. */
  lemma TemplatesTable()
    ensures |Templates| == 12 && UniqueKeys(Templates)
  {
  }

  /** Every template is well shaped: no `%` in its literal text or placeholder names. */
  lemma TemplateWellShaped(i: nat)
    requires i < |Templates|
    ensures WellShaped(Templates[i].1)
  {
    NoneSpecifiedFieldWellShaped();
    FieldXIsRequiredWellShaped();
    FieldMustBeMinNumberWellShaped();
    FieldMustBeMaxNumberWellShaped();
    FieldMustBeMinXLengthWellShaped();
    FieldMustBeMaxXLengthWellShaped();
    FieldMustBeXLengthWellShaped();
    FieldInvalidFormatWellShaped();
    FieldValidCharactersAreXWellShaped();
    InvalidEmailWellShaped();
    InvalidDateWellShaped();
    InvalidDateTimeWellShaped();
  }

  // Each template is checked on its own; TemplateWellShaped gathers them.

  lemma NoneSpecifiedFieldWellShaped()
    ensures WellShaped(NoneSpecifiedField)
  {
  }

  lemma FieldXIsRequiredWellShaped()
    ensures WellShaped(FieldXIsRequired)
  {
  }

  lemma FieldMustBeMinNumberWellShaped()
    ensures WellShaped(FieldMustBeMinNumber)
  {
  }

  lemma FieldMustBeMaxNumberWellShaped()
    ensures WellShaped(FieldMustBeMaxNumber)
  {
  }

  lemma FieldMustBeMinXLengthWellShaped()
    ensures WellShaped(FieldMustBeMinXLength)
  {
  }

  lemma FieldMustBeMaxXLengthWellShaped()
    ensures WellShaped(FieldMustBeMaxXLength)
  {
  }

  lemma FieldMustBeXLengthWellShaped()
    ensures WellShaped(FieldMustBeXLength)
  {
  }

  lemma FieldInvalidFormatWellShaped()
    ensures WellShaped(FieldInvalidFormat)
  {
  }

  lemma FieldValidCharactersAreXWellShaped()
    ensures WellShaped(FieldValidCharactersAreX)
  {
  }

  lemma InvalidEmailWellShaped()
    ensures WellShaped(InvalidEmail)
  {
  }

  lemma InvalidDateWellShaped()
    ensures WellShaped(InvalidDate)
  {
  }

  lemma InvalidDateTimeWellShaped()
    ensures WellShaped(InvalidDateTime)
  {
  }

  /** An id with no template comes back unchanged, whatever the parameters. */
  lemma TransUnknownId(id: string, parameters: seq<(string, string)>)
    requires !HasKey(Templates, id)
    ensures Trans(id, parameters) == id
  {
  }

  lemma TransUnknownIdExample()
    ensures Trans("lemmeltag", []) == "lemmeltag"
  {
    forall j | 0 <= j < |Templates|
      ensures Templates[j].0 != "lemmeltag"
    {
      TemplateId(j);
      assert Templates[j].0[0] == 'e';
    }
    TransUnknownId("lemmeltag", []);
  }

  /** Every id of the table starts with "error". */
  lemma TemplateId(j: nat)
    requires j < |Templates|
    ensures "error" <= Templates[j].0
  {
  }

  lemma StrtrEmpty(parameters: seq<(string, string)>)
    ensures Strtr([], parameters) == []
  {
  }

  /** Literal text without `%` passes through strtr when every key is a placeholder. */
  lemma {:induction false} StrtrLiteral(x: string, rest: string, parameters: seq<(string, string)>)
    requires NoPercent(x) && PlaceholderKeys(parameters)
    ensures Strtr(x + rest, parameters) == x + Strtr(rest, parameters)
    decreases |x|
  {
    if x != [] {
      var s := x + rest;
      var m := LongestMatch(s, parameters);
      if m.Some? {
        assert false;
      }
      assert s[1..] == x[1..] + rest;
      StrtrLiteral(x[1..], rest, parameters);
      calc {
        Strtr(s, parameters);
        [s[0]] + Strtr(s[1..], parameters);
        [x[0]] + (x[1..] + Strtr(rest, parameters));
        { assert [x[0]] + x[1..] == x; }
        x + Strtr(rest, parameters);
      }
    } else {
      assert x + rest == rest;
    }
  }

  /** A placeholder key that is a prefix of `%name%...` is `%name%` itself. */
  lemma PlaceholderPrefix(k: string, name: string, rest: string)
    requires IsPlaceholder(k) && NoPercent(name) && k <= Placeholder(name) + rest
    ensures k == Placeholder(name)
  {
    var s := Placeholder(name) + rest;
    var j := |name| + 1;
    assert s[j] == '%' && s[|k| - 1] == '%';
    assert forall i :: 1 <= i < |k| - 1 ==> s[i] == k[1..|k| - 1][i - 1];
    assert forall i :: 1 <= i < j ==> s[i] == name[i - 1];
    assert |k| - 1 == j;
    assert k == s[..|k|];
  }

  /** A covered placeholder becomes its parameter's value, and strtr resumes after it. */
  lemma StrtrHole(name: string, rest: string, parameters: seq<(string, string)>)
    requires NoPercent(name) && PlaceholderKeys(parameters) && HasKey(parameters, Placeholder(name))
    ensures Strtr(Placeholder(name) + rest, parameters)
         == Get(parameters, Placeholder(name)).value + Strtr(rest, parameters)
  {
    var p := Placeholder(name);
    var s := p + rest;
    var i := IndexOf(parameters, p).value;
    assert KeyMatches(parameters[i].0, s);
    var j := LongestMatch(s, parameters).value;
    PlaceholderPrefix(parameters[j].0, name, rest);
    assert j == i;
    assert s[|p|..] == rest;
  }

  /** strtr with placeholder keys that cover a well-shaped template fills it. */
  lemma {:induction false} StrtrFills(t: seq<Piece>, parameters: seq<(string, string)>)
    requires WellShaped(t) && PlaceholderKeys(parameters) && Covered(t, parameters)
    ensures Strtr(Render(t), parameters) == Fill(t, parameters)
  {
    if t != [] {
      assert WellShaped(t[1..]) && Covered(t[1..], parameters) by {
        forall i | 0 <= i < |t| - 1 ensures t[1..][i] == t[i + 1] { }
      }
      StrtrFills(t[1..], parameters);
      match t[0]
      case Lit(x) =>
        assert NoPercent(x) by { assert t[0] == Lit(x); }
        StrtrLiteral(x, Render(t[1..]), parameters);
      case Hole(n) =>
        assert NoPercent(n) by { assert t[0] == Hole(n); }
        StrtrHole(n, Render(t[1..]), parameters);
    }
  }

  // ---------------------------------------------------------------------
  // What trans makes of the table's templates.

  /**
   * A registered id gives its template with every placeholder replaced by
   * its parameter's value, when the parameters are placeholders covering
   * the template.
   */
  lemma TransRegistered(id: string, parameters: seq<(string, string)>)
    requires HasKey(Templates, id) && PlaceholderKeys(parameters)
    requires Covered(Get(Templates, id).value, parameters)
    ensures Trans(id, parameters) == Fill(Get(Templates, id).value, parameters)
  {
    var i := IndexOf(Templates, id).value;
    TemplateWellShaped(i);
    StrtrFills(Templates[i].1, parameters);
  }

  /** A template without placeholders comes back verbatim, whatever placeholder parameters are given. */
  lemma TransVerbatim(id: string, parameters: seq<(string, string)>)
    requires HasKey(Templates, id) && PlaceholderKeys(parameters)
    requires forall i :: 0 <= i < |Get(Templates, id).value| ==> Get(Templates, id).value[i].Lit?
    ensures Trans(id, parameters) == Render(Get(Templates, id).value)
  {
    var t := Get(Templates, id).value;
    TransRegistered(id, parameters);
    FillWithoutHoles(t, parameters);
  }

  lemma {:induction false} FillWithoutHoles(t: seq<Piece>, parameters: seq<(string, string)>)
    requires forall i :: 0 <= i < |t| ==> t[i].Lit?
    ensures Fill(t, parameters) == Render(t)
  {
    if t != [] {
      FillWithoutHoles(t[1..], parameters);
    }
  }

  /** A template that is one piece of literal text comes back as that text. */
  lemma TransText(id: string, x: string, parameters: seq<(string, string)>)
    requires Get(Templates, id) == Some([Lit(x)]) && PlaceholderKeys(parameters)
    ensures Trans(id, parameters) == x
  {
    TransVerbatim(id, parameters);
    assert [Lit(x)][1..] == [];
  }

  /** The generic field label, and the e-mail message, ignore placeholder parameters. */
  lemma TransFixedTexts(parameters: seq<(string, string)>)
    requires PlaceholderKeys(parameters)
    ensures Trans("errorTheNoneSpecifiedField", parameters) == "Field"
    ensures Trans("errorInvalidEmail", parameters) == "Email address is invalid."
  {
    TemplatesTable();
    GetAt(Templates, 0);
    GetAt(Templates, 9);
    TransText("errorTheNoneSpecifiedField", "Field", parameters);
    TransText("errorInvalidEmail", "Email address is invalid.", parameters);
  }

  /** The required message for the generic field label. */
  lemma RequiredForGenericLabel()
    ensures Trans("errorFieldXIsRequired", [("%field%", Trans("errorTheNoneSpecifiedField", []))])
         == "Field" + " must be filled in."
  {
    TransFixedTexts([]);
    TransRequired("Field");
  }

  /** The required message puts the field name in front, whatever the name holds. */
  lemma TransRequired(fieldName: string)
    ensures Trans("errorFieldXIsRequired", [("%field%", fieldName)]) == fieldName + " must be filled in."
  {
    var parameters := [("%field%", fieldName)];
    TemplatesTable();
    GetAt(Templates, 1);
    var t := Templates[1].1;
    assert IsPlaceholder("%field%");
    assert Placeholder("field") == "%field%";
    assert Covered(t, parameters);
    TransRegistered("errorFieldXIsRequired", parameters);
    assert Get(parameters, "%field%") == Some(fieldName);
    assert t[1..][1..] == [];
    assert Fill(t[1..], parameters) == " must be filled in.";
    assert Fill(t, parameters) == fieldName + Fill(t[1..], parameters);
  }
}
