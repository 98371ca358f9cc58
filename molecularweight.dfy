/** `calculateMolecularWeight` (src/lib/chemistry/molecularWeight.ts): the
    mass of a formula as the sum of atomic mass times count over its parsed
    element counts, failing on a symbol without an element record. */
module MolecularWeightCalc {
  import opened Wrappers
  import opened ChemistryTypes
  import opened Parser

  /** The `Unknown element: <symbol>` error, carrying the symbol. */
  datatype MassError = UnknownSymbol(symbol: string)

  /** Every entry has an element record. */
  predicate AllKnown(es: seq<ElementCount>, mass: map<string, real>) {
    forall i :: 0 <= i < |es| ==> es[i].symbol in mass
  }

  /** Σ mass(symbol) × count over the entries. */
  function Weight(es: seq<ElementCount>, mass: map<string, real>): real
    requires AllKnown(es, mass)
    decreases |es|
  {
    if es == [] then 0.0
    else
      var e := es[|es| - 1];
      Weight(es[..|es| - 1], mass) + mass[e.symbol] * (e.count as real)
  }

  /** The index of the first entry without an element record, if any. */
  function FirstUnknown(es: seq<ElementCount>, mass: map<string, real>): (k: Option<nat>)
    ensures k.None? <==> AllKnown(es, mass)
    ensures k.Some? ==> (k.value < |es| && es[k.value].symbol !in mass &&
      forall j :: 0 <= j < k.value ==> es[j].symbol in mass)
    decreases |es|
  {
    if es == [] then None
    else if es[0].symbol !in mass then Some(0)
    else match FirstUnknown(es[1..], mass)
      case None => None
      case Some(k) => Some(k + 1)
  }

  /** `calculateMolecularWeight(formula)`, with `mass` the atomic mass of
      every symbol the element lookup finds. The result is the formula, the
      weight Σ mass × count and the parsed breakdown in parse order; the
      error names the first symbol without a record. */
  method CalculateMolecularWeight(formula: string, mass: map<string, real>)
    returns (r: Result<MolecularWeight, MassError>)
    ensures var es := FormulaCounts(formula);
      r.Ok? <==> AllKnown(es, mass)
    ensures var es := FormulaCounts(formula);
      r.Ok? ==> AllKnown(es, mass) && r.value == MolecularWeight(formula, Weight(es, mass), es)
    ensures var es := FormulaCounts(formula);
      r.Err? ==> (FirstUnknown(es, mass).Some? && r.error == UnknownSymbol(es[FirstUnknown(es, mass).value].symbol))
  {
    var elements := ParseFormula(formula);
    var totalWeight := 0.0;
    var breakdown: seq<ElementCount> := [];
    var i := 0;
    while i < |elements|
      invariant 0 <= i <= |elements|
      invariant AllKnown(elements[..i], mass)
      invariant breakdown == elements[..i]
      invariant totalWeight == Weight(elements[..i], mass)
      decreases |elements| - i
    {
      var symbol := elements[i].symbol;
      var count := elements[i].count;
      if symbol !in mass {
        assert FirstUnknown(elements, mass) == Some(i) by {
          assert forall j :: 0 <= j < i ==> elements[..i][j] == elements[j];
          FirstUnknownAt(elements, mass, i);
        }
        return Err(UnknownSymbol(symbol));
      }
      var weight := mass[symbol] * (count as real);
      WeightStep(elements, mass, i);
      totalWeight := totalWeight + weight;
      breakdown := breakdown + [ElementCount(symbol, count)];
      assert breakdown == elements[..i + 1];
      i := i + 1;
    }
    assert elements[..i] == elements;
    r := Ok(MolecularWeight(formula, totalWeight, breakdown));
  }

  /** One more known entry adds its mass times its count. */
  lemma WeightStep(es: seq<ElementCount>, mass: map<string, real>, i: nat)
    requires i < |es| && AllKnown(es[..i], mass) && es[i].symbol in mass
    ensures AllKnown(es[..i + 1], mass)
    ensures Weight(es[..i + 1], mass) == Weight(es[..i], mass) + mass[es[i].symbol] * (es[i].count as real)
  {
    assert es[..i + 1][..i] == es[..i];
  }

  /** The first unknown entry is the one at `i` when every earlier entry is
      known. */
  lemma {:induction false} FirstUnknownAt(es: seq<ElementCount>, mass: map<string, real>, i: nat)
    requires i < |es| && es[i].symbol !in mass
    requires forall j :: 0 <= j < i ==> es[j].symbol in mass
    ensures FirstUnknown(es, mass) == Some(i)
    decreases i
  {
    if i > 0 {
      FirstUnknownAt(es[1..], mass, i - 1);
    }
  }

  /** The weight of concatenated breakdowns is the sum of their weights. */
  lemma {:induction false} WeightAppend(a: seq<ElementCount>, b: seq<ElementCount>, mass: map<string, real>)
    requires AllKnown(a, mass) && AllKnown(b, mass)
    ensures AllKnown(a + b, mass)
    ensures Weight(a + b, mass) == Weight(a, mass) + Weight(b, mass)
    decreases |b|
  {
    if b == [] {
      assert a + b == a;
    } else {
      var init := b[..|b| - 1];
      assert (a + b)[..|a + b| - 1] == a + init;
      WeightAppend(a, init, mass);
    }
  }

  /** With non-negative masses the weight is non-negative, and it is 0 when
      every count is 0. */
  lemma {:induction false} WeightNonNegative(es: seq<ElementCount>, mass: map<string, real>)
    requires AllKnown(es, mass)
    requires forall s :: s in mass ==> mass[s] >= 0.0
    ensures Weight(es, mass) >= 0.0
    ensures (forall i :: 0 <= i < |es| ==> es[i].count == 0) ==> Weight(es, mass) == 0.0
    decreases |es|
  {
    if es != [] {
      WeightNonNegative(es[..|es| - 1], mass);
    }
  }

  /** A formula without element tokens weighs 0 and has an empty breakdown. */
  lemma NoTokensWeighsNothing(formula: string, mass: map<string, real>)
    requires Tokens(formula) == []
    ensures FormulaCounts(formula) == [] && AllKnown([], mass) && Weight([], mass) == 0.0
  {
  }
}
