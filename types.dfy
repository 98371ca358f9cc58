/** The records the chemistry code passes around (src/types/chemistry.ts). */
module ChemistryTypes {
  import opened Wrappers

  /** One element symbol and its atom count within a formula. */
  datatype ElementCount = ElementCount(symbol: string, count: nat)

  /** One compound of an equation side: its formula text without
      coefficient and state, the parsed element counts, the leading
      coefficient and the optional state letters. */
  datatype ParsedCompound = ParsedCompound(
    formula: string,
    elements: seq<ElementCount>,
    coefficient: nat,
    state: Option<string>)

  datatype ParsedEquation = ParsedEquation(
    reactants: seq<ParsedCompound>,
    products: seq<ParsedCompound>)

  /** The atom counts of one element on the two sides, as shown in a step. */
  datatype SideCounts = SideCounts(symbol: string, reactants: nat, products: nat)

  /** One entry of the explanation trace. The prose description is left out;
      `counts` holds the numbers that the description prints. */
  datatype Step = Step(
    title: string,
    counts: seq<SideCounts>,
    matrix: Option<seq<seq<int>>>,
    coefficients: Option<seq<nat>>)

  datatype ReactionType =
    | Synthesis
    | Decomposition
    | SingleReplacement
    | DoubleReplacement
    | Combustion
    | Unknown

  datatype MolecularWeight = MolecularWeight(
    compound: string,
    weight: real,
    breakdown: seq<ElementCount>)

  datatype Metadata = Metadata(
    reactionType: ReactionType,
    molecularWeights: seq<MolecularWeight>)

  datatype BalancedResult = BalancedResult(
    original: string,
    balanced: string,
    coefficients: seq<nat>,
    steps: seq<Step>,
    metadata: Metadata)

  datatype EquationHistoryItem = EquationHistoryItem(
    id: string,
    equation: string,
    balanced: string,
    timestamp: int)

  /** The periodic-table data module, which is not part of this model, as
      two independent lookups: the symbols `isValidElement` accepts, and the
      atomic mass of every symbol `getElement` finds a record for. */
  datatype PeriodicTable = PeriodicTable(
    known: set<string>,
    atomicMass: map<string, real>)
}
