/** `classifyReaction`, `getReactionTypeColor` and `formatReactionType`
    (src/lib/chemistry/reactionClassifier.ts). */
module ReactionClassifier {
  import opened ChemistryTypes

  /** Some compound has an entry for oxygen (its count is not read). */
  predicate HasOxygenReactant(compounds: seq<ParsedCompound>) {
    exists i, j :: 0 <= i < |compounds| && 0 <= j < |compounds[i].elements| &&
      compounds[i].elements[j].symbol == "O"
  }

  /** Some compound's formula is one of `names`. */
  predicate HasFormula(compounds: seq<ParsedCompound>, names: set<string>) {
    exists i :: 0 <= i < |compounds| && compounds[i].formula in names
  }

  /** The number of compounds whose entry list length satisfies `p`. */
  function CountEntries(compounds: seq<ParsedCompound>, p: nat -> bool): (n: nat)
    ensures n <= |compounds|
    decreases |compounds|
  {
    if compounds == [] then 0
    else (if p(|compounds[0].elements|) then 1 else 0) + CountEntries(compounds[1..], p)
  }

  /** hydrocarbon + O2 → CO2 + H2O */
  predicate CombustionShape(parsed: ParsedEquation) {
    HasOxygenReactant(parsed.reactants) &&
    HasFormula(parsed.products, {"CO2"}) && HasFormula(parsed.products, {"H2O", "HOH"})
  }

  /** `classifyReaction(parsed).type`: the first matching rule among
      combustion, synthesis, decomposition, single and double replacement. */
  function Classify(parsed: ParsedEquation): ReactionType {
    var numReactants := |parsed.reactants|;
    var numProducts := |parsed.products|;
    if CombustionShape(parsed) then Combustion
    else if numReactants >= 2 && numProducts == 1 then Synthesis
    else if numReactants == 1 && numProducts >= 2 then Decomposition
    else if numReactants == 2 && numProducts == 2 &&
      CountEntries(parsed.reactants, n => n == 1) == 1 then SingleReplacement
    else if numReactants == 2 && numProducts == 2 &&
      CountEntries(parsed.reactants, n => n >= 2) == 2 then DoubleReplacement
    else Unknown
  }

  /** The fixed description returned with each type. */
  function Description(t: ReactionType): string {
    match t
    case Combustion => "Combustion reaction - a substance reacts with oxygen to produce carbon dioxide and water, releasing energy."
    case Synthesis => "Synthesis (Combination) reaction - two or more substances combine to form a single product."
    case Decomposition => "Decomposition reaction - a single compound breaks down into two or more simpler substances."
    case SingleReplacement => "Single Replacement reaction - one element replaces another element in a compound."
    case DoubleReplacement => "Double Replacement reaction - the positive and negative ions of two compounds switch places."
    case Unknown => "Complex or unclassified reaction type."
  }

  datatype Classification = Classification(reactionType: ReactionType, description: string)

  /** `classifyReaction(parsed)` */
  function ClassifyReaction(parsed: ParsedEquation): (c: Classification)
    ensures c.description == Description(c.reactionType)
  {
    var t := Classify(parsed);
    Classification(t, Description(t))
  }

  /** `getReactionTypeColor(type)`: every entry of the colour table is the
      same four Tailwind classes around one colour name. */
  function ReactionTypeColor(t: ReactionType): string {
    "bg-" + ColorName(t) + ColorClasses(ColorName(t))
  }

  /** The classes after the leading `bg-<c>`. */
  function ColorClasses(c: string): (r: string)
    ensures |r| > 0 && r[0] == '-'
  {
    "-500/10 text-" + c + "-700 dark:text-" + c + "-400 border-" + c + "-500/20"
  }

  function ColorName(t: ReactionType): (name: string)
    ensures |name| > 0 && forall k :: 0 <= k < |name| ==> 'a' <= name[k] <= 'z'
  {
    match t
    case Synthesis => "green"
    case Decomposition => "red"
    case SingleReplacement => "blue"
    case DoubleReplacement => "purple"
    case Combustion => "orange"
    case Unknown => "gray"
  }

  /** `formatReactionType(type)` */
  function FormatReactionType(t: ReactionType): string {
    match t
    case Synthesis => "Synthesis"
    case Decomposition => "Decomposition"
    case SingleReplacement => "Single Replacement"
    case DoubleReplacement => "Double Replacement"
    case Combustion => "Combustion"
    case Unknown => "Unknown"
  }

  // ---------------------------------------------------------------------------
  // Properties

  /** Combustion wins whenever its three conditions hold, whatever the
      numbers of compounds. */
  lemma CombustionExactly(parsed: ParsedEquation)
    ensures Classify(parsed) == Combustion <==>
      ((exists i, j :: 0 <= i < |parsed.reactants| && 0 <= j < |parsed.reactants[i].elements| &&
          parsed.reactants[i].elements[j].symbol == "O") &&
       (exists i :: 0 <= i < |parsed.products| && parsed.products[i].formula == "CO2") &&
       (exists i :: 0 <= i < |parsed.products| &&
          (parsed.products[i].formula == "H2O" || parsed.products[i].formula == "HOH")))
  {
  }

  /** Two or more reactants and one product is a synthesis unless it is a
      combustion; one reactant and two or more products a decomposition. */
  lemma SynthesisDecompositionExactly(parsed: ParsedEquation)
    ensures Classify(parsed) == Synthesis <==>
      (!CombustionShape(parsed) && |parsed.reactants| >= 2 && |parsed.products| == 1)
    ensures Classify(parsed) == Decomposition <==>
      (!CombustionShape(parsed) && |parsed.reactants| == 1 && |parsed.products| >= 2)
  {
  }

  /** The replacement rules only apply to two reactants and two products:
      exactly one single-entry reactant gives single replacement, two
      reactants of two or more entries double replacement. */
  lemma ReplacementExactly(parsed: ParsedEquation)
    ensures Classify(parsed) == SingleReplacement <==>
      (!CombustionShape(parsed) && |parsed.reactants| == 2 && |parsed.products| == 2 &&
       ((|parsed.reactants[0].elements| == 1) != (|parsed.reactants[1].elements| == 1)))
    ensures Classify(parsed) == DoubleReplacement <==>
      (!CombustionShape(parsed) && |parsed.reactants| == 2 && |parsed.products| == 2 &&
       |parsed.reactants[0].elements| >= 2 && |parsed.reactants[1].elements| >= 2)
  {
    if |parsed.reactants| == 2 {
      PairCount(parsed.reactants, n => n == 1);
      PairCount(parsed.reactants, n => n >= 2);
    }
  }

  lemma PairCount(cs: seq<ParsedCompound>, p: nat -> bool)
    requires |cs| == 2
    ensures CountEntries(cs, p) ==
      (if p(|cs[0].elements|) then 1 else 0) + (if p(|cs[1].elements|) then 1 else 0)
  {
    assert cs[1..][1..] == [];
  }

  /** Two reactants that are both single entries (A + B → C + D) fall
      through every rule. */
  lemma TwoSingleEntryReactantsUnknown(parsed: ParsedEquation)
    requires !CombustionShape(parsed)
    requires |parsed.reactants| == 2 && |parsed.products| == 2
    requires |parsed.reactants[0].elements| == 1 && |parsed.reactants[1].elements| == 1
    ensures Classify(parsed) == Unknown
  {
    PairCount(parsed.reactants, n => n == 1);
    PairCount(parsed.reactants, n => n >= 2);
  }

  /** Compounds that agree on formula and entries; coefficients and states
      may differ. */
  predicate SameShape(a: seq<ParsedCompound>, b: seq<ParsedCompound>) {
    |a| == |b| &&
    forall i :: 0 <= i < |a| ==> a[i].formula == b[i].formula && a[i].elements == b[i].elements
  }

  lemma {:induction false} CountEntriesShape(a: seq<ParsedCompound>, b: seq<ParsedCompound>, p: nat -> bool)
    requires SameShape(a, b)
    ensures CountEntries(a, p) == CountEntries(b, p)
    decreases |a|
  {
    if a != [] {
      assert SameShape(a[1..], b[1..]) by {
        forall i | 0 <= i < |a[1..]| ensures a[1..][i] == a[i + 1] && b[1..][i] == b[i + 1] { }
      }
      CountEntriesShape(a[1..], b[1..], p);
    }
  }

  /** Coefficients and states are never read: equations of the same shape
      get the same classification. */
  lemma ClassifyIgnoresCoefficientsAndStates(x: ParsedEquation, y: ParsedEquation)
    requires SameShape(x.reactants, y.reactants) && SameShape(x.products, y.products)
    ensures Classify(x) == Classify(y)
  {
    CountEntriesShape(x.reactants, y.reactants, n => n == 1);
    CountEntriesShape(x.reactants, y.reactants, n => n >= 2);
    assert CombustionShape(x) == CombustionShape(y) by {
      if HasOxygenReactant(x.reactants) {
        var i, j :| 0 <= i < |x.reactants| && 0 <= j < |x.reactants[i].elements| &&
          x.reactants[i].elements[j].symbol == "O";
        assert y.reactants[i].elements[j].symbol == "O";
      }
      if HasOxygenReactant(y.reactants) {
        var i, j :| 0 <= i < |y.reactants| && 0 <= j < |y.reactants[i].elements| &&
          y.reactants[i].elements[j].symbol == "O";
        assert x.reactants[i].elements[j].symbol == "O";
      }
      assert HasFormula(x.products, {"CO2"}) == HasFormula(y.products, {"CO2"});
      assert HasFormula(x.products, {"H2O", "HOH"}) == HasFormula(y.products, {"H2O", "HOH"});
    }
  }

  /** The labels tell the six types apart. */
  lemma LabelsDistinct(s: ReactionType, t: ReactionType)
    ensures FormatReactionType(s) == FormatReactionType(t) ==> s == t
  {
    var a, b := FormatReactionType(s), FormatReactionType(t);
    if s != t {
      assert |a| != |b| || a[0] != b[0];
    }
  }

  /** Each reaction type has its own badge colour classes. */
  lemma ColorsDistinct(s: ReactionType, t: ReactionType)
    ensures ReactionTypeColor(s) == ReactionTypeColor(t) ==> s == t
  {
    if ReactionTypeColor(s) == ReactionTypeColor(t) {
      var a, m, n := ReactionTypeColor(s), ColorName(s), ColorName(t);
      ColorPrefix(s);
      ColorPrefix(t);
      if |m| < |n| {
        assert false;
      } else if |n| < |m| {
        assert false;
      } else {
        assert m == a[3..3 + |m|] == n;
        ColorNamesDistinct(s, t);
      }
    }
  }

  /** The colour name follows `bg-` and is followed by `-`. */
  lemma ColorPrefix(t: ReactionType)
    ensures var c, n := ReactionTypeColor(t), ColorName(t);
      |c| > |n| + 3 && c[3..3 + |n|] == n && c[3 + |n|] == '-'
  {
    var c, n := ReactionTypeColor(t), ColorName(t);
    assert c == "bg-" + n + ColorClasses(n);
    assert c[3..3 + |n|] == n;
  }

  lemma ColorNamesDistinct(s: ReactionType, t: ReactionType)
    ensures ColorName(s) == ColorName(t) ==> s == t
  {
    if s != t {
      assert ColorName(s) != ColorName(t);
    }
  }
}
