/** Equation validation (src/lib/chemistry/validator.ts): a format check of
    the raw text, a semantic check of a parsed equation, a hint for unknown
    element symbols and the older string-only variant of the semantic check.

    Every issue the source can report is a constructor of `Issue`; its
    severity, code, message and suggestion are functions of it, with the
    source's texts. */
module Validator {
  import opened Wrappers
  import opened JsString
  import opened ChemistryTypes
  import opened Parser

  datatype Severity = Error | Warning | Info

  datatype Issue =
    | Empty
    | MissingArrow
    | InvalidArrowCount
    | EmptyReactants
    | EmptyProducts
    | MissingReactantSeparator
    | MissingProductSeparator
    | NoReactants
    | NoProducts
    | UnknownElement(symbol: string)
    | ElementOnlyInReactants(symbol: string)
    | ElementOnlyInProducts(symbol: string)
    | ZeroCoefficientReactant(formula: string)
    | ZeroCoefficientProduct(formula: string)

  /** The `type` field of the reported error object. */
  function Kind(issue: Issue): Severity {
    match issue
    case MissingReactantSeparator => Warning
    case MissingProductSeparator => Warning
    case ElementOnlyInReactants(_) => Warning
    case ElementOnlyInProducts(_) => Warning
    case _ => Error
  }

  /** The `code` field. */
  function CodeName(issue: Issue): string {
    match issue
    case Empty => "EMPTY"
    case MissingArrow => "MISSING_ARROW"
    case InvalidArrowCount => "INVALID_ARROW_COUNT"
    case EmptyReactants => "EMPTY_REACTANTS"
    case EmptyProducts => "EMPTY_PRODUCTS"
    case MissingReactantSeparator => "MISSING_REACTANT_SEPARATOR"
    case MissingProductSeparator => "MISSING_PRODUCT_SEPARATOR"
    case NoReactants => "NO_REACTANTS"
    case NoProducts => "NO_PRODUCTS"
    case UnknownElement(_) => "UNKNOWN_ELEMENT"
    case ElementOnlyInReactants(_) => "ELEMENT_ONLY_IN_REACTANTS"
    case ElementOnlyInProducts(_) => "ELEMENT_ONLY_IN_PRODUCTS"
    case ZeroCoefficientReactant(_) => "ZERO_COEFFICIENT_REACTANT"
    case ZeroCoefficientProduct(_) => "ZERO_COEFFICIENT_PRODUCT"
  }

  /** The `message` field. */
  function Message(issue: Issue): string {
    match issue
    case Empty => "Equation cannot be empty"
    case MissingArrow => "Equation must contain an arrow (\U{2192}, ->, or =)"
    case InvalidArrowCount => "Equation must have exactly one arrow separating reactants and products"
    case EmptyReactants => "Reactants side cannot be empty"
    case EmptyProducts => "Products side cannot be empty"
    case MissingReactantSeparator => "Multiple reactants detected without + separator"
    case MissingProductSeparator => "Multiple products detected without + separator"
    case NoReactants => "Equation must have at least one reactant"
    case NoProducts => "Equation must have at least one product"
    case UnknownElement(x) => "Unknown element: \"" + x + "\""
    case ElementOnlyInReactants(x) => "Element \"" + x + "\" appears in reactants but not in products"
    case ElementOnlyInProducts(x) => "Element \"" + x + "\" appears in products but not in reactants"
    case ZeroCoefficientReactant(f) => "Reactant \"" + f + "\" has a coefficient of 0"
    case ZeroCoefficientProduct(f) => "Product \"" + f + "\" has a coefficient of 0"
  }

  /** The `suggestion` field (every issue carries one). */
  function Suggestion(issue: Issue): string {
    match issue
    case Empty => "Enter a chemical equation like H2 + O2 \U{2192} H2O"
    case MissingArrow => "Use \U{2192}, ->, or = to separate reactants from products"
    case InvalidArrowCount => "Remove extra arrows and use only one (\U{2192}, ->, or =)"
    case EmptyReactants => "Enter at least one reactant before the arrow"
    case EmptyProducts => "Enter at least one product after the arrow"
    case MissingReactantSeparator => "Use + to separate compounds, e.g., H2 + O2"
    case MissingProductSeparator => "Use + to separate compounds, e.g., CO2 + H2O"
    case NoReactants => "Add at least one compound before the arrow"
    case NoProducts => "Add at least one compound after the arrow"
    case UnknownElement(x) => ElementSuggestion(x)
    case ElementOnlyInReactants(x) => "Make sure \"" + x + "\" is included on both sides of the equation"
    case ElementOnlyInProducts(x) => "Make sure \"" + x + "\" is included on both sides of the equation"
    case ZeroCoefficientReactant(_) => "Remove the leading 0 from the compound"
    case ZeroCoefficientProduct(_) => "Remove the leading 0 from the compound"
  }

  /** `EnhancedValidationResult` */
  datatype Report = Report(valid: bool, errors: seq<Issue>)

  /** `errors.filter(e => e.type === 'error').length` */
  function CountErrors(errors: seq<Issue>): (n: nat)
    ensures n <= |errors|
    decreases |errors|
  {
    if errors == [] then 0
    else CountErrors(errors[..|errors| - 1]) + (if Kind(errors[|errors| - 1]) == Error then 1 else 0)
  }

  /** The list has no error-severity issue exactly when the count of errors is 0. */
  lemma {:induction false} CountErrorsZero(errors: seq<Issue>)
    ensures CountErrors(errors) == 0 <==> forall i :: 0 <= i < |errors| ==> Kind(errors[i]) != Error
    decreases |errors|
  {
    if errors != [] {
      var init := errors[..|errors| - 1];
      CountErrorsZero(init);
      assert forall i :: 0 <= i < |init| ==> init[i] == errors[i];
    }
  }

  lemma {:induction false} CountErrorsAppend(a: seq<Issue>, b: seq<Issue>)
    ensures CountErrors(a + b) == CountErrors(a) + CountErrors(b)
    decreases |b|
  {
    if b == [] {
      assert a + b == a;
    } else {
      var init := b[..|b| - 1];
      assert (a + b)[..|a + b| - 1] == a + init;
      assert (a + b)[|a + b| - 1] == b[|b| - 1];
      CountErrorsAppend(a, init);
    }
  }

  /** `{ valid: errors.filter(e => e.type === 'error').length === 0, errors }` */
  function MakeReport(errors: seq<Issue>): Report {
    Report(CountErrors(errors) == 0, errors)
  }

  /** A report is valid exactly when none of its issues has error severity. */
  lemma MakeReportValid(errors: seq<Issue>)
    ensures MakeReport(errors).valid <==> forall i :: 0 <= i < |errors| ==> Kind(errors[i]) != Error
  {
    CountErrorsZero(errors);
  }

  lemma CountErrorsOne(e: Issue)
    ensures CountErrors([e]) == if Kind(e) == Error then 1 else 0
  {
    assert [e][..0] == [];
  }

  // ===========================================================================
  // validateEquationString

  /** `equation.includes('→') || equation.includes('->') || equation.includes('=')` */
  predicate HasArrow(equation: string) {
    Includes(equation, "\U{2192}") || Includes(equation, "->") || Includes(equation, "=")
  }

  /** `normalized.split('->')` */
  function Sides(equation: string): (sides: seq<string>)
    ensures |sides| >= 1
  {
    Split(NormalizeArrows(equation), "->")
  }

  /** `!side.includes('+') && /\s{2,}/.test(side)` on a trimmed side. */
  predicate SeparatorMissing(side: string) {
    !Includes(side, "+") && HasWhitespaceRun(side)
  }

  /** `if (test) errors.push(issue)` */
  function PushIf(errors: seq<Issue>, test: bool, issue: Issue): (r: seq<Issue>)
    ensures forall x :: x in r <==> x in errors || (test && x == issue)
  {
    if test then errors + [issue] else errors
  }

  /** What the format check of text that is not blank tests, in the order it
      tests it: an arrow, the number of pieces, a blank reactant piece, a
      blank product piece, and the two separator tests (made only when there
      are exactly two pieces). */
  datatype Shape = Shape(
    hasArrow: bool,
    pieces: nat,
    reactantsBlank: bool,
    productsBlank: bool,
    reactantsUnseparated: bool,
    productsUnseparated: bool)

  function ShapeOf(equation: string): Shape {
    var sides := Sides(equation);
    Shape(
      HasArrow(equation),
      |sides|,
      Trim(sides[0]) == [],
      |sides| >= 2 && Trim(sides[1]) == [],
      |sides| == 2 && SeparatorMissing(Trim(sides[0])),
      |sides| == 2 && SeparatorMissing(Trim(sides[1])))
  }

  /** The issues pushed for a shape, in the order they are pushed: each
      kind is there exactly when its test fires, no other kind is there, and
      only the separator warnings do not count as errors. */
  function ShapeIssues(shape: Shape): (r: seq<Issue>)
    ensures MissingArrow in r <==> !shape.hasArrow
    ensures InvalidArrowCount in r <==> shape.pieces != 2
    ensures EmptyReactants in r <==> shape.reactantsBlank
    ensures EmptyProducts in r <==> shape.productsBlank
    ensures MissingReactantSeparator in r <==> shape.reactantsUnseparated
    ensures MissingProductSeparator in r <==> shape.productsUnseparated
    ensures forall x :: x in r ==>
      (x == MissingArrow || x == InvalidArrowCount || x == EmptyReactants || x == EmptyProducts ||
       x == MissingReactantSeparator || x == MissingProductSeparator)
  {
    var e0 := PushIf([], !shape.hasArrow, MissingArrow);
    var e1 := PushIf(e0, shape.pieces != 2, InvalidArrowCount);
    var e2 := PushIf(e1, shape.reactantsBlank, EmptyReactants);
    var e3 := PushIf(e2, shape.productsBlank, EmptyProducts);
    var e4 := PushIf(e3, shape.reactantsUnseparated, MissingReactantSeparator);
    PushIf(e4, shape.productsUnseparated, MissingProductSeparator)
  }

  /** The issues of a shape hold no error exactly when there is an arrow,
      two pieces and neither is blank: the separator warnings never count. */
  lemma ShapeIssuesErrors(shape: Shape)
    ensures CountErrors(ShapeIssues(shape)) == 0 <==>
      (shape.hasArrow && shape.pieces == 2 && !shape.reactantsBlank && !shape.productsBlank)
  {
    var r := ShapeIssues(shape);
    if shape.hasArrow && shape.pieces == 2 && !shape.reactantsBlank && !shape.productsBlank {
      forall i | 0 <= i < |r| ensures Kind(r[i]) != Error {
        var x := r[i];
        assert x in r;
        assert x != MissingArrow && x != InvalidArrowCount && x != EmptyReactants && x != EmptyProducts;
        assert x == MissingReactantSeparator || x == MissingProductSeparator;
      }
      CountErrorsZero(r);
    } else {
      var x := if !shape.hasArrow then MissingArrow
        else if shape.pieces != 2 then InvalidArrowCount
        else if shape.reactantsBlank then EmptyReactants
        else EmptyProducts;
      assert x in r;
      var i :| 0 <= i < |r| && r[i] == x;
      assert Kind(r[i]) == Error;
      CountErrorsZero(r);
    }
  }

  /** The issues of text that is not blank, in the order they are pushed. */
  function FormatIssues(equation: string): seq<Issue> {
    ShapeIssues(ShapeOf(equation))
  }

  /** `validateEquationString(equation)` */
  function ValidateEquationString(equation: string): Report {
    if Trim(equation) == [] then MakeReport([Empty]) else MakeReport(FormatIssues(equation))
  }

  /** Blank text, and only blank text, is reported as EMPTY alone, and it is
      never valid. */
  lemma EmptyExactly(equation: string)
    ensures IsBlank(equation) <==> ValidateEquationString(equation).errors == [Empty]
    ensures IsBlank(equation) ==> !ValidateEquationString(equation).valid
  {
    CountErrorsOne(Empty);
    if !IsBlank(equation) {
      assert Empty !in FormatIssues(equation);
    }
  }

  lemma IncludesAt(s: string, t: string, k: nat)
    requires OccursAt(s, t, k)
    ensures Includes(s, t)
  {
  }

  lemma IncludesChar(s: string, c: char)
    ensures Includes(s, [c]) <==> c in s
  {
    if c in s {
      var k :| 0 <= k < |s| && s[k] == c;
      assert s[k..k + 1] == [c];
      IncludesAt(s, [c], k);
    }
    if Includes(s, [c]) {
      var k: nat :| k <= |s| && OccursAt(s, [c], k);
      assert s[k..k + 1][0] == s[k];
    }
  }

  lemma IncludesMiddle(a: string, t: string, b: string)
    ensures Includes(a + t + b, t)
  {
    var s := a + t + b;
    assert s[|a|..|a| + |t|] == t;
    IncludesAt(s, t, |a|);
  }

  lemma NormalizeThree(a: string, b: string, c: string)
    ensures NormalizeArrows(a + b + c) == NormalizeArrows(a) + NormalizeArrows(b) + NormalizeArrows(c)
  {
    NormalizeArrowsAppend(a + b, c);
    NormalizeArrowsAppend(a, b);
  }

  /** An arrow character becomes "->". */
  lemma ArrowCharSplits(equation: string, k: nat)
    requires k < |equation| && (equation[k] == '\U{2192}' || equation[k] == '=')
    ensures Includes(NormalizeArrows(equation), "->")
  {
    var a, b, c := equation[..k], equation[k..k + 1], equation[k + 1..];
    assert equation == a + b + c;
    NormalizeThree(a, b, c);
    assert NormalizeArrows(b) == "->";
    IncludesMiddle(NormalizeArrows(a), "->", NormalizeArrows(c));
  }

  /** A "->" stays "->". */
  lemma ArrowStringSplits(equation: string, k: nat)
    requires OccursAt(equation, "->", k)
    ensures Includes(NormalizeArrows(equation), "->")
  {
    var a, b, c := equation[..k], equation[k..k + 2], equation[k + 2..];
    assert equation == a + b + c;
    NormalizeThree(a, b, c);
    assert b == "->";
    NormalizeArrowsIdentity(b);
    IncludesMiddle(NormalizeArrows(a), "->", NormalizeArrows(c));
  }

  /** The text has an arrow exactly when its rewritten form splits in more
      than one piece. */
  lemma ArrowIffSplits(equation: string)
    ensures HasArrow(equation) <==> |Sides(equation)| >= 2
  {
    SplitSingle(NormalizeArrows(equation), "->");
    IncludesChar(equation, '\U{2192}');
    IncludesChar(equation, '=');
    if '\U{2192}' in equation || '=' in equation {
      var k :| 0 <= k < |equation| && (equation[k] == '\U{2192}' || equation[k] == '=');
      ArrowCharSplits(equation, k);
    } else if Includes(equation, "->") {
      var k: nat :| k <= |equation| && OccursAt(equation, "->", k);
      ArrowStringSplits(equation, k);
    } else {
      NormalizeArrowsIdentity(equation);
    }
  }

  /** MISSING_ARROW is always accompanied by INVALID_ARROW_COUNT. */
  lemma MissingArrowImpliesArrowCount(equation: string)
    requires MissingArrow in ValidateEquationString(equation).errors
    ensures InvalidArrowCount in ValidateEquationString(equation).errors
  {
    ArrowIffSplits(equation);
  }

  /** The format check passes exactly when the text is not blank, has an
      arrow, splits in exactly two pieces and neither is blank; the
      separator warnings never decide it. */
  lemma ValidStringExactly(equation: string)
    ensures var sides := Sides(equation);
      ValidateEquationString(equation).valid <==>
        (!IsBlank(equation) && HasArrow(equation) && |sides| == 2 && !IsBlank(sides[0]) && !IsBlank(sides[1]))
  {
    CountErrorsOne(Empty);
    ShapeIssuesErrors(ShapeOf(equation));
  }

  /** A separator warning is issued exactly when the text is not blank, it
      splits in two pieces and that trimmed side has no `+` but has two
      whitespace characters in a row. */
  lemma SeparatorWarningExactly(equation: string)
    ensures var sides := Sides(equation);
      MissingReactantSeparator in ValidateEquationString(equation).errors <==>
        (!IsBlank(equation) && |sides| == 2 && !Includes(Trim(sides[0]), "+") && HasWhitespaceRun(Trim(sides[0])))
    ensures var sides := Sides(equation);
      MissingProductSeparator in ValidateEquationString(equation).errors <==>
        (!IsBlank(equation) && |sides| == 2 && !Includes(Trim(sides[1]), "+") && HasWhitespaceRun(Trim(sides[1])))
  {
  }

  // ===========================================================================
  // getElementSuggestion

  /** The `typos` record. */
  const Typos: map<string, string> := map[
    "CL" := "Did you mean Cl (Chlorine)?",
    "CL2" := "Did you mean Cl2 (Chlorine gas)?",
    "CO" := "Did you mean Co (Cobalt) or CO (Carbon monoxide)?",
    "MG" := "Did you mean Mg (Magnesium)?",
    "MN" := "Did you mean Mn (Manganese)?",
    "AL" := "Did you mean Al (Aluminum)?",
    "ZN" := "Did you mean Zn (Zinc)?",
    "AG" := "Did you mean Ag (Silver)?",
    "AU" := "Did you mean Au (Gold)?",
    "FE" := "Did you mean Fe (Iron)?",
    "CU" := "Did you mean Cu (Copper)?",
    "NA" := "Did you mean Na (Sodium)?",
    "K" := "K is Potassium. Did you mean something else?"]

  const NotANumberText := "Elements should start with a letter, not a number"
  const LowercaseText := "Element symbols start with an uppercase letter (e.g., H, He, Li)"
  const GenericText := "Check the spelling or use the periodic table to find the correct element symbol"

  /** `getElementSuggestion(element)`: the first rule that applies. */
  function ElementSuggestion(element: string): string {
    var upper := ToUpperAscii(element);
    if upper in Typos then Typos[upper]
    else if |element| > 0 && AllDigits(element) then NotANumberText
    else if |element| > 0 && IsLower(element[0]) then LowercaseText
    else if |element| == 1 && IsUpper(element[0]) then
      element + " is a valid element symbol. Add numbers for counts (e.g., " + element + "H2)"
    else GenericText
  }

  /** For a symbol the parser can produce, the hint is the typo hint of its
      upper-cased form, else the single-letter hint for one letter, else the
      generic one: the number and lowercase rules never fire. */
  lemma SuggestionForParsedSymbol(x: string)
    requires IsSymbolShape(x)
    ensures ToUpperAscii(x) in Typos ==> ElementSuggestion(x) == Typos[ToUpperAscii(x)]
    ensures ToUpperAscii(x) !in Typos && |x| == 1 ==> (ElementSuggestion(x) ==
      x + " is a valid element symbol. Add numbers for counts (e.g., " + x + "H2)")
    ensures ToUpperAscii(x) !in Typos && |x| == 2 ==> ElementSuggestion(x) == GenericText
  {
    assert !IsDigit(x[0]) && !IsLower(x[0]);
    assert !AllDigits(x);
  }

  /** Typo hints ignore letter case. */
  lemma TypoHintIgnoresCase(element: string)
    requires ToUpperAscii(element) in Typos
    ensures ElementSuggestion(element) == ElementSuggestion(ToUpperAscii(element))
  {
    var u := ToUpperAscii(element);
    ToUpperIdempotent(element);
  }

  // ===========================================================================
  // validateEquation

  /** The UNKNOWN_ELEMENT issues for the symbols `xs`, in order. */
  function UnknownIssues(xs: seq<string>, known: set<string>): seq<Issue>
    decreases |xs|
  {
    if xs == [] then []
    else
      var x := xs[|xs| - 1];
      UnknownIssues(xs[..|xs| - 1], known) + (if x in known then [] else [UnknownElement(x)])
  }

  /** The ELEMENT_ONLY_IN_… warnings for the symbols `xs` of one side given
      the symbols `others` of the opposite side. */
  function OnlyInIssues(xs: seq<string>, others: seq<string>, reactantSide: bool): seq<Issue>
    decreases |xs|
  {
    if xs == [] then []
    else
      var x := xs[|xs| - 1];
      OnlyInIssues(xs[..|xs| - 1], others, reactantSide) +
        (if x in others then []
         else if reactantSide then [ElementOnlyInReactants(x)] else [ElementOnlyInProducts(x)])
  }

  /** The ZERO_COEFFICIENT_… errors for the compounds of one side. */
  function ZeroIssues(compounds: seq<ParsedCompound>, reactantSide: bool): seq<Issue>
    decreases |compounds|
  {
    if compounds == [] then []
    else
      var c := compounds[|compounds| - 1];
      ZeroIssues(compounds[..|compounds| - 1], reactantSide) +
        (if c.coefficient != 0 then []
         else if reactantSide then [ZeroCoefficientReactant(c.formula)] else [ZeroCoefficientProduct(c.formula)])
  }

  /** The insertion-ordered set of the symbols of one side. */
  function SideSymbols(compounds: seq<ParsedCompound>): seq<string> {
    SetAddAll([], SymbolsOf(compounds))
  }

  /** NO_REACTANTS and NO_PRODUCTS. */
  function CountIssues(parsed: ParsedEquation): seq<Issue> {
    (if |parsed.reactants| == 0 then [NoReactants] else []) +
    (if |parsed.products| == 0 then [NoProducts] else [])
  }

  /** The checks `validateEquation` shares with the older variant: sides
      present, symbols known, symbols on both sides. */
  function StructureIssues(parsed: ParsedEquation, known: set<string>): seq<Issue> {
    var reactantElements := SideSymbols(parsed.reactants);
    var productElements := SideSymbols(parsed.products);
    CountIssues(parsed) +
    UnknownIssues(UniqueElements(parsed), known) +
    OnlyInIssues(reactantElements, productElements, true) +
    OnlyInIssues(productElements, reactantElements, false)
  }

  /** `validateEquation(parsed).errors`, as a reference definition; `known`
      is the set of symbols `isValidElement` accepts. */
  function ParsedIssues(parsed: ParsedEquation, known: set<string>): seq<Issue> {
    StructureIssues(parsed, known) + ZeroIssues(parsed.reactants, true) + ZeroIssues(parsed.products, false)
  }

  /** The unknown-element loop. */
  method PushUnknown(errors: seq<Issue>, allElements: seq<string>, known: set<string>)
    returns (updated: seq<Issue>)
    ensures updated == errors + UnknownIssues(allElements, known)
  {
    updated := errors;
    var i := 0;
    while i < |allElements|
      invariant 0 <= i <= |allElements|
      invariant updated == errors + UnknownIssues(allElements[..i], known)
      decreases |allElements| - i
    {
      var element := allElements[i];
      assert allElements[..i + 1][..i] == allElements[..i];
      if element !in known {
        updated := updated + [UnknownElement(element)];
      }
      i := i + 1;
    }
    assert allElements[..i] == allElements;
  }

  /** One of the two "only on one side" loops. */
  method PushOnlyIn(errors: seq<Issue>, elements: seq<string>, others: seq<string>, reactantSide: bool)
    returns (updated: seq<Issue>)
    ensures updated == errors + OnlyInIssues(elements, others, reactantSide)
  {
    updated := errors;
    var i := 0;
    while i < |elements|
      invariant 0 <= i <= |elements|
      invariant updated == errors + OnlyInIssues(elements[..i], others, reactantSide)
      decreases |elements| - i
    {
      var element := elements[i];
      assert elements[..i + 1][..i] == elements[..i];
      if element !in others {
        updated := updated + (if reactantSide then [ElementOnlyInReactants(element)] else [ElementOnlyInProducts(element)]);
      }
      i := i + 1;
    }
    assert elements[..i] == elements;
  }

  /** One of the two zero-coefficient loops. */
  method PushZero(errors: seq<Issue>, compounds: seq<ParsedCompound>, reactantSide: bool)
    returns (updated: seq<Issue>)
    ensures updated == errors + ZeroIssues(compounds, reactantSide)
  {
    updated := errors;
    var i := 0;
    while i < |compounds|
      invariant 0 <= i <= |compounds|
      invariant updated == errors + ZeroIssues(compounds[..i], reactantSide)
      decreases |compounds| - i
    {
      var compound := compounds[i];
      assert compounds[..i + 1][..i] == compounds[..i];
      if compound.coefficient == 0 {
        updated := updated + (if reactantSide then [ZeroCoefficientReactant(compound.formula)]
          else [ZeroCoefficientProduct(compound.formula)]);
      }
      i := i + 1;
    }
    assert compounds[..i] == compounds;
  }

  /** The checks shared by both variants, in the source's order. */
  method CheckStructure(parsed: ParsedEquation, table: PeriodicTable) returns (errors: seq<Issue>)
    ensures errors == StructureIssues(parsed, table.known)
  {
    errors := [];
    if |parsed.reactants| == 0 {
      errors := errors + [NoReactants];
    }
    if |parsed.products| == 0 {
      errors := errors + [NoProducts];
    }
    assert errors == CountIssues(parsed);
    var allElements := GetUniqueElements(parsed);
    errors := PushUnknown(errors, allElements, table.known);
    var reactantElements := AddSymbols([], parsed.reactants);
    var productElements := AddSymbols([], parsed.products);
    errors := PushOnlyIn(errors, reactantElements, productElements, true);
    errors := PushOnlyIn(errors, productElements, reactantElements, false);
  }

  /** `validateEquation(parsed)` */
  method ValidateEquation(parsed: ParsedEquation, table: PeriodicTable) returns (r: Report)
    ensures r == MakeReport(ParsedIssues(parsed, table.known))
  {
    var errors := CheckStructure(parsed, table);
    errors := PushZero(errors, parsed.reactants, true);
    errors := PushZero(errors, parsed.products, false);
    r := MakeReport(errors);
  }

  // ---------------------------------------------------------------------------
  // Properties of validateEquation

  /** An issue is among the UNKNOWN_ELEMENT issues exactly when it is one for
      a listed symbol that is not known. */
  lemma {:induction false} UnknownIssuesMember(xs: seq<string>, known: set<string>, issue: Issue)
    ensures issue in UnknownIssues(xs, known) <==>
      (issue.UnknownElement? && issue.symbol in xs && issue.symbol !in known)
    decreases |xs|
  {
    if xs != [] {
      var init := xs[..|xs| - 1];
      UnknownIssuesMember(init, known, issue);
      assert xs == init + [xs[|xs| - 1]];
    }
  }

  /** An issue is among the one-sided warnings of a side exactly when it is
      that side's kind of warning for a symbol of the side that the opposite
      side lacks. */
  lemma {:induction false} OnlyInIssuesMember(xs: seq<string>, others: seq<string>, reactantSide: bool, issue: Issue)
    ensures issue in OnlyInIssues(xs, others, reactantSide) <==>
      ((if reactantSide then issue.ElementOnlyInReactants? else issue.ElementOnlyInProducts?) &&
       issue.symbol in xs && issue.symbol !in others)
    decreases |xs|
  {
    if xs != [] {
      var init := xs[..|xs| - 1];
      OnlyInIssuesMember(init, others, reactantSide, issue);
      assert xs == init + [xs[|xs| - 1]];
    }
  }

  /** Some compound of the side has coefficient 0 and formula `f`. */
  predicate HasZeroCompound(compounds: seq<ParsedCompound>, f: string) {
    exists i :: 0 <= i < |compounds| && compounds[i].coefficient == 0 && compounds[i].formula == f
  }

  /** An issue is among the zero-coefficient issues of a side exactly when it
      is that side's kind of issue naming a compound whose coefficient is 0. */
  lemma {:induction false} ZeroIssuesMember(compounds: seq<ParsedCompound>, reactantSide: bool, issue: Issue)
    ensures issue in ZeroIssues(compounds, reactantSide) <==>
      ((if reactantSide then issue.ZeroCoefficientReactant? else issue.ZeroCoefficientProduct?) &&
       HasZeroCompound(compounds, issue.formula))
    decreases |compounds|
  {
    if compounds != [] {
      var init := compounds[..|compounds| - 1];
      ZeroIssuesMember(init, reactantSide, issue);
      if issue.ZeroCoefficientReactant? || issue.ZeroCoefficientProduct? {
        HasZeroCompoundLast(compounds, issue.formula);
      }
    }
  }

  lemma HasZeroCompoundLast(compounds: seq<ParsedCompound>, f: string)
    requires compounds != []
    ensures var c := compounds[|compounds| - 1];
      HasZeroCompound(compounds, f) <==>
        HasZeroCompound(compounds[..|compounds| - 1], f) || (c.coefficient == 0 && c.formula == f)
  {
    var init := compounds[..|compounds| - 1];
    assert forall i :: 0 <= i < |init| ==> init[i] == compounds[i];
  }

  /** Every UNKNOWN_ELEMENT issue is an error. */
  lemma {:induction false} UnknownIssuesAllErrors(xs: seq<string>, known: set<string>)
    ensures CountErrors(UnknownIssues(xs, known)) == |UnknownIssues(xs, known)|
    decreases |xs|
  {
    if xs != [] {
      var x := xs[|xs| - 1];
      var u := UnknownIssues(xs[..|xs| - 1], known);
      UnknownIssuesAllErrors(xs[..|xs| - 1], known);
      CountErrorsAppend(u, if x in known then [] else [UnknownElement(x)]);
      if x !in known { CountErrorsOne(UnknownElement(x)); }
    }
  }

  /** No one-sided warning is an error. */
  lemma OnlyInIssuesNoErrors(xs: seq<string>, others: seq<string>, reactantSide: bool)
    ensures CountErrors(OnlyInIssues(xs, others, reactantSide)) == 0
  {
    var o := OnlyInIssues(xs, others, reactantSide);
    forall i | 0 <= i < |o| ensures Kind(o[i]) != Error {
      OnlyInIssuesMember(xs, others, reactantSide, o[i]);
    }
    CountErrorsZero(o);
  }

  /** Every zero-coefficient issue is an error, and there is none exactly
      when no coefficient of the side is 0. */
  lemma ZeroIssuesAllErrors(compounds: seq<ParsedCompound>, reactantSide: bool)
    ensures CountErrors(ZeroIssues(compounds, reactantSide)) == |ZeroIssues(compounds, reactantSide)|
    ensures |ZeroIssues(compounds, reactantSide)| == 0 <==>
      forall i :: 0 <= i < |compounds| ==> compounds[i].coefficient != 0
  {
    ZeroIssuesCount(compounds, reactantSide);
    ZeroIssuesEmpty(compounds, reactantSide);
  }

  lemma {:induction false} ZeroIssuesCount(compounds: seq<ParsedCompound>, reactantSide: bool)
    ensures CountErrors(ZeroIssues(compounds, reactantSide)) == |ZeroIssues(compounds, reactantSide)|
    decreases |compounds|
  {
    if compounds != [] {
      var init := compounds[..|compounds| - 1];
      var c := compounds[|compounds| - 1];
      var t: seq<Issue> := if c.coefficient != 0 then []
        else if reactantSide then [ZeroCoefficientReactant(c.formula)] else [ZeroCoefficientProduct(c.formula)];
      ZeroIssuesCount(init, reactantSide);
      CountErrorsAppend(ZeroIssues(init, reactantSide), t);
      if t != [] {
        CountErrorsOne(t[0]);
      }
    }
  }

  lemma {:induction false} ZeroIssuesEmpty(compounds: seq<ParsedCompound>, reactantSide: bool)
    ensures |ZeroIssues(compounds, reactantSide)| == 0 <==>
      forall i :: 0 <= i < |compounds| ==> compounds[i].coefficient != 0
    decreases |compounds|
  {
    if compounds != [] {
      var init := compounds[..|compounds| - 1];
      ZeroIssuesEmpty(init, reactantSide);
      assert forall i :: 0 <= i < |init| ==> init[i] == compounds[i];
    }
  }

  /** All UNKNOWN_ELEMENT issues, with strictly increasing symbols. */
  predicate UnknownSymbolsIncrease(u: seq<Issue>) {
    (forall i :: 0 <= i < |u| ==> u[i].UnknownElement?) &&
    forall i, j :: 0 <= i < j < |u| ==> StrLt(u[i].symbol, u[j].symbol)
  }

  /** When the symbols are strictly increasing, so are the symbols of the
      UNKNOWN_ELEMENT issues. */
  lemma {:induction false} UnknownIssuesSorted(xs: seq<string>, known: set<string>)
    requires StrictlySorted(xs)
    ensures UnknownSymbolsIncrease(UnknownIssues(xs, known))
    decreases |xs|
  {
    if xs != [] {
      var init := xs[..|xs| - 1];
      var x := xs[|xs| - 1];
      assert StrictlySorted(init);
      UnknownIssuesSorted(init, known);
      var u := UnknownIssues(init, known);
      var u2 := UnknownIssues(xs, known);
      assert u2 == u + (if x in known then [] else [UnknownElement(x)]);
      forall i | 0 <= i < |u| ensures u[i].UnknownElement? && StrLt(u[i].symbol, x) {
        UnknownIssuesMember(init, known, u[i]);
        var k :| 0 <= k < |init| && init[k] == u[i].symbol;
        assert xs[k] == init[k];
      }
      forall i | 0 <= i < |u2| ensures u2[i].UnknownElement? {
        if i < |u| { assert u2[i] == u[i]; }
      }
      forall i, j | 0 <= i < j < |u2| ensures StrLt(u2[i].symbol, u2[j].symbol) {
        assert u2[i] == u[i];
        if j < |u| { assert u2[j] == u[j]; }
        else { assert u2[j] == UnknownElement(x); }
      }
    }
  }

  /** Membership in the issue list, piece by piece. */
  lemma IssueMember(parsed: ParsedEquation, known: set<string>, issue: Issue)
    ensures issue in ParsedIssues(parsed, known) <==>
      issue in CountIssues(parsed) ||
      (issue.UnknownElement? && issue.symbol in UniqueElements(parsed) && issue.symbol !in known) ||
      (issue.ElementOnlyInReactants? && issue.symbol in SideSymbols(parsed.reactants) &&
       issue.symbol !in SideSymbols(parsed.products)) ||
      (issue.ElementOnlyInProducts? && issue.symbol in SideSymbols(parsed.products) &&
       issue.symbol !in SideSymbols(parsed.reactants)) ||
      (issue.ZeroCoefficientReactant? && HasZeroCompound(parsed.reactants, issue.formula)) ||
      (issue.ZeroCoefficientProduct? && HasZeroCompound(parsed.products, issue.formula))
  {
    var re := SideSymbols(parsed.reactants);
    var pe := SideSymbols(parsed.products);
    UnknownIssuesMember(UniqueElements(parsed), known, issue);
    OnlyInIssuesMember(re, pe, true, issue);
    OnlyInIssuesMember(pe, re, false, issue);
    ZeroIssuesMember(parsed.reactants, true, issue);
    ZeroIssuesMember(parsed.products, false, issue);
  }

  /** UNKNOWN_ELEMENT is reported for a symbol exactly when it occurs in the
      equation and is not a known element. */
  lemma UnknownIssueExactly(parsed: ParsedEquation, known: set<string>, x: string)
    ensures UnknownElement(x) in ParsedIssues(parsed, known) <==> (OccursIn(parsed, x) && x !in known)
  {
    UniqueElementsFacts(parsed);
    IssueMember(parsed, known, UnknownElement(x));
  }

  /** ELEMENT_ONLY_IN_REACTANTS is reported for a symbol exactly when it
      occurs among the reactants and not among the products, and
      symmetrically for ELEMENT_ONLY_IN_PRODUCTS. */
  lemma OneSidedIssueExactly(parsed: ParsedEquation, known: set<string>, x: string)
    ensures ElementOnlyInReactants(x) in ParsedIssues(parsed, known) <==>
      (x in SymbolsOf(parsed.reactants) && x !in SymbolsOf(parsed.products))
    ensures ElementOnlyInProducts(x) in ParsedIssues(parsed, known) <==>
      (x in SymbolsOf(parsed.products) && x !in SymbolsOf(parsed.reactants))
  {
    SetAddAllFacts([], SymbolsOf(parsed.reactants));
    SetAddAllFacts([], SymbolsOf(parsed.products));
    IssueMember(parsed, known, ElementOnlyInReactants(x));
    IssueMember(parsed, known, ElementOnlyInProducts(x));
  }

  /** ZERO_COEFFICIENT_REACTANT names exactly the reactants whose
      coefficient is 0, and symmetrically for products. */
  lemma ZeroIssueExactly(parsed: ParsedEquation, known: set<string>, f: string)
    ensures ZeroCoefficientReactant(f) in ParsedIssues(parsed, known) <==> HasZeroCompound(parsed.reactants, f)
    ensures ZeroCoefficientProduct(f) in ParsedIssues(parsed, known) <==> HasZeroCompound(parsed.products, f)
  {
    IssueMember(parsed, known, ZeroCoefficientReactant(f));
    IssueMember(parsed, known, ZeroCoefficientProduct(f));
  }

  /** The UNKNOWN_ELEMENT issues name distinct symbols in increasing order. */
  lemma UnknownIssuesOrdered(parsed: ParsedEquation, known: set<string>)
    ensures UnknownSymbolsIncrease(UnknownIssues(UniqueElements(parsed), known))
  {
    UniqueElementsFacts(parsed);
    UnknownIssuesSorted(UniqueElements(parsed), known);
  }

  /** There is no UNKNOWN_ELEMENT issue exactly when every symbol that occurs
      is known. */
  lemma NoUnknownExactly(parsed: ParsedEquation, known: set<string>)
    ensures |UnknownIssues(UniqueElements(parsed), known)| == 0 <==> (forall x :: OccursIn(parsed, x) ==> x in known)
  {
    var u := UnknownIssues(UniqueElements(parsed), known);
    UniqueElementsFacts(parsed);
    if exists x :: OccursIn(parsed, x) && x !in known {
      var x :| OccursIn(parsed, x) && x !in known;
      UnknownIssuesMember(UniqueElements(parsed), known, UnknownElement(x));
    }
    if |u| > 0 {
      UnknownIssuesMember(UniqueElements(parsed), known, u[0]);
    }
  }

  /** NO_REACTANTS and NO_PRODUCTS are errors. */
  lemma CountIssuesErrors(parsed: ParsedEquation)
    ensures CountErrors(CountIssues(parsed)) == |CountIssues(parsed)|
    ensures |CountIssues(parsed)| == 0 <==> (|parsed.reactants| > 0 && |parsed.products| > 0)
  {
    var a: seq<Issue> := if |parsed.reactants| == 0 then [NoReactants] else [];
    var b: seq<Issue> := if |parsed.products| == 0 then [NoProducts] else [];
    CountErrorsAppend(a, b);
    CountErrorsOne(NoReactants);
    CountErrorsOne(NoProducts);
  }

  /** The number of errors among the checks shared with the older variant. */
  lemma StructureErrorCount(parsed: ParsedEquation, known: set<string>)
    ensures CountErrors(StructureIssues(parsed, known)) ==
      |CountIssues(parsed)| + |UnknownIssues(UniqueElements(parsed), known)|
  {
    var re := SideSymbols(parsed.reactants);
    var pe := SideSymbols(parsed.products);
    var h := CountIssues(parsed);
    var u := UnknownIssues(UniqueElements(parsed), known);
    var o1 := OnlyInIssues(re, pe, true);
    var o2 := OnlyInIssues(pe, re, false);
    CountErrorsAppend(h, u);
    CountErrorsAppend(h + u, o1);
    CountErrorsAppend(h + u + o1, o2);
    CountIssuesErrors(parsed);
    UnknownIssuesAllErrors(UniqueElements(parsed), known);
    OnlyInIssuesNoErrors(re, pe, true);
    OnlyInIssuesNoErrors(pe, re, false);
  }

  /** The number of errors in the full list, piece by piece. */
  lemma ParsedErrorCount(parsed: ParsedEquation, known: set<string>)
    ensures CountErrors(ParsedIssues(parsed, known)) ==
      |CountIssues(parsed)| + |UnknownIssues(UniqueElements(parsed), known)| +
      |ZeroIssues(parsed.reactants, true)| + |ZeroIssues(parsed.products, false)|
  {
    var st := StructureIssues(parsed, known);
    var z1 := ZeroIssues(parsed.reactants, true);
    var z2 := ZeroIssues(parsed.products, false);
    StructureErrorCount(parsed, known);
    CountErrorsAppend(st, z1);
    CountErrorsAppend(st + z1, z2);
    ZeroIssuesAllErrors(parsed.reactants, true);
    ZeroIssuesAllErrors(parsed.products, false);
  }

  /** The semantic check passes exactly when both sides have compounds, every
      symbol that occurs is known and no coefficient is 0; the
      "only on one side" warnings never decide it. */
  lemma ValidParsedExactly(parsed: ParsedEquation, known: set<string>)
    ensures MakeReport(ParsedIssues(parsed, known)).valid <==>
      (|parsed.reactants| > 0 && |parsed.products| > 0 &&
       (forall x :: OccursIn(parsed, x) ==> x in known) &&
       (forall i :: 0 <= i < |parsed.reactants| ==> parsed.reactants[i].coefficient != 0) &&
       (forall i :: 0 <= i < |parsed.products| ==> parsed.products[i].coefficient != 0))
  {
    ParsedErrorCount(parsed, known);
    CountIssuesErrors(parsed);
    NoUnknownExactly(parsed, known);
    ZeroIssuesAllErrors(parsed.reactants, true);
    ZeroIssuesAllErrors(parsed.products, false);
  }

  // ===========================================================================
  // validateEquationLegacy

  /** `ValidationResult` */
  datatype LegacyResult = LegacyResult(valid: bool, errors: seq<string>)

  /** The text the older check pushes for an issue. */
  function LegacyText(issue: Issue): string {
    match issue
    case NoReactants => "Equation must have at least one reactant"
    case NoProducts => "Equation must have at least one product"
    case UnknownElement(x) => "Unknown element: " + x
    case ElementOnlyInReactants(x) => "Element " + x + " appears in reactants but not in products"
    case ElementOnlyInProducts(x) => "Element " + x + " appears in products but not in reactants"
    case _ => Message(issue)
  }

  /** `validateEquationLegacy(parsed)`: the checks of `validateEquation`
      without the zero-coefficient ones, pushed as the older texts; every
      message counts as an error, warnings included. */
  method ValidateEquationLegacy(parsed: ParsedEquation, table: PeriodicTable) returns (r: LegacyResult)
    ensures |r.errors| == |StructureIssues(parsed, table.known)|
    ensures forall i :: 0 <= i < |r.errors| ==> r.errors[i] == LegacyText(StructureIssues(parsed, table.known)[i])
    ensures r.valid <==> |r.errors| == 0
  {
    var issues := CheckStructure(parsed, table);
    var texts := seq(|issues|, i requires 0 <= i < |issues| => LegacyText(issues[i]));
    r := LegacyResult(|texts| == 0, texts);
  }

  /** A one-sided element makes the older check fail, while for the newer
      one it is only a warning. */
  lemma LegacyStricterOnOneSidedElements(parsed: ParsedEquation, known: set<string>, x: string)
    requires x in SymbolsOf(parsed.reactants) && x !in SymbolsOf(parsed.products)
    ensures ElementOnlyInReactants(x) in StructureIssues(parsed, known)
    ensures Kind(ElementOnlyInReactants(x)) == Warning
  {
    var re := SideSymbols(parsed.reactants);
    var pe := SideSymbols(parsed.products);
    SetAddAllFacts([], SymbolsOf(parsed.reactants));
    SetAddAllFacts([], SymbolsOf(parsed.products));
    OnlyInIssuesMember(re, pe, true, ElementOnlyInReactants(x));
  }
}
