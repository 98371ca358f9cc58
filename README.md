# Chemical equation balancer — a verified model of its core

This project models the logic behind a web chemical-equation balancer: the
formula and equation parser, the two validation passes, the balancing
pipeline around a null-space solver, the reaction classifier, the
molecular-weight calculator, the application state reducer, the persisted
equation history and the display-formatting helpers. Each source file is one
Dafny module:

| module | source |
|---|---|
| `JsString` | the ECMAScript string built-ins the code relies on (`trim`, `split`, `includes`, `parseInt`, `toUpperCase`, default `sort`) |
| `ChemistryTypes` | src/types/chemistry.ts |
| `Parser` | src/lib/chemistry/parser.ts |
| `Validator` | src/lib/chemistry/validator.ts |
| `Balancer` | src/lib/chemistry/balancer.ts |
| `ReactionClassifier` | src/lib/chemistry/reactionClassifier.ts |
| `MolecularWeightCalc` | src/lib/chemistry/molecularWeight.ts |
| `EquationContext` | src/lib/context/EquationContext.tsx |
| `HistoryStorage` | src/lib/utils/localStorage.ts |
| `Formatting` | src/lib/utils/formatting.ts |

The index-driven loops of the source are `method`s. Each method is proved
equal to a reference function:
- `ParseGroup` against `Tally(elements, TokensFrom(str, 0, multiplier))`;
- `CountElementOnSide` against `SideTotal`;
- `GetUniqueElements` against `UniqueElements`;
- `BuildAtomMatrix` against `AtomMatrix`;
- the validator's `push` loops against `ParsedIssues`;
- `NormalizeCoefficients` against `Normalized`;
- `CalculateMolecularWeight` against `Weight`.

The properties the program promises are lemmas about those functions. The
browser's `localStorage` is a `Store` class whose field holds the stored
text. Its methods state the new stored value and the returned list.

Three things the code calls but does not contain are parameters of the
model:
- the periodic table, as a set of known symbols and a map of atomic masses;
- the result of `math.null`, as a `NullSpace` value: the solver threw, or
  it returned some basis;
- whether `localStorage.setItem` fails because the quota is exceeded.

Where the documented behaviour and the code disagree, the model follows the
code, with one exception: an `(` that is the last character of a scanned
text. As written, the scan then recurses on the text `(` itself and never
returns. The model's scan reads such a group as empty, and
`TokensAsWritten` models the code as written beside it (see "## Findings"
and "## Left out"). Otherwise:
- An unmatched `(` is not rejected. The scan runs to the end of the text and
  the group content loses the last character (`UnmatchedParenDropsLastChar`).
  Neither validator checks parentheses.
- A state suffix is `(` + any non-empty run of the letters `s l g a q` +
  `)`, not only `(s)`, `(l)`, `(g)` and `(aq)`. Every such marker is removed
  from a formula before it is scanned, wherever it occurs.
- The two-column shortcut of `solveMatrix` is taken without checking the
  matrix, so it can return a vector that does not balance
  (`ShortcutCanBeUnbalanced`).

## Model

Some operations are plain functions whose properties are stated by lemmas
about them rather than by their own contracts:
- `Parser.ParseCompound`: `ParseCompoundFacts`, `ParseCompoundState`,
  `MarkerSplit`.
- `Parser.ParseCompounds`: `PieceCompounds`, `ParsePiecesAppend`.
- `Parser.ParseEquation`: `ParseEquationFails`, `SecondArrowIgnored`,
  `SamePiecesSameEquation`, `Balancer.FormatEquationRoundTrip`.
- `Validator.ValidateEquationString`: `EmptyExactly`, `ShapeIssues`,
  `ShapeIssuesErrors`, `ValidStringExactly`, `SeparatorWarningExactly`.
- `Balancer.FormatEquation`, `FormatSide`, `FormatCompound`:
  `FormatCompoundCoefficient`, `FormatCompoundState`, `FormatSideShort`,
  `FormatSideCons`, `PrintedArrowSplit` and the three round trips.
- `ReactionClassifier.ReactionTypeColor`: `ColorsDistinct`.
- `ReactionClassifier.FormatReactionType`: `LabelsDistinct`.
- `Formatting.FormatChemicalFormula`: `Subscripts`, `SubscriptsRoundTrip`,
  `WrapDigitsRoundTrip`, `WrapDigitsRun`, `FormatChemicalFormulaRoundTrip`.
- `Formatting.FormatChemicalEquation`: `ShownOperator`, `ShownFormula`.
- `Formatting.SplitKeepingOperators`: `SplitKeepingOperatorsConcat`,
  `SplitKeepingOperatorsLength`.
- `Balancer.Gcd2`: `Gcd2Facts`.
- `Balancer.FindGcd`: `FindGcdFacts`, `DividedCoprime`.
- `Balancer.IntegerTail`: `IntegerTailCoprime`.
- `ReactionClassifier.Classify`: `CombustionExactly`,
  `SynthesisDecompositionExactly`, `ReplacementExactly`,
  `TwoSingleEntryReactantsUnknown`, `ClassifyIgnoresCoefficientsAndStates`.
- `ReactionClassifier.Description`: `ClassifyReaction`.
- `Validator.ElementSuggestion`: `SuggestionForParsedSymbol`,
  `TypoHintIgnoresCase`.
- `EquationContext.Reduce`: `ReducePreserves`, `Reachable`,
  `AddToHistoryFront`, `TogglesInvolutive`, `SettersIdempotent`,
  `FieldOwnership`, `OutcomeActions`, `UnknownActionIgnored`,
  `ReduceAllAppend`.
- `EquationContext.InitialState` (a constant): `Reachable`.
- `HistoryStorage.MoveToFront`: `MoveToFrontNew`, `MoveToFrontReplaces`,
  `MoveToFrontDistinct`, `MoveToFrontIdempotent`.
- `HistoryStorage.WithoutId`: `WithoutIdMember`, `WithoutIdAppend`,
  `WithoutIdIdempotent`.
- `JsString.Split`: `SplitJoin`, `SplitSingle`.
- `JsString.Sort`: `SortDistinct`.
- `JsString.NatToString`, `JsString.DecimalValue`: `DecimalOfNatToString`.

| member | source | states |
|---|---|---|
| JsString.Trim | src/lib/chemistry/parser.ts:106 | the trimmed text is the input with only whitespace cut off at each end; it is empty exactly when the input is all whitespace, and otherwise neither starts nor ends with whitespace |
| JsString.SplitJoin | src/lib/chemistry/parser.ts:87 | joining the pieces of `split(sep)` with `sep` gives back the text, and no piece contains the separator |
| JsString.SplitSingle | src/lib/chemistry/validator.ts:49-51 | `split` gives a single piece exactly when the separator does not occur |
| JsString.DecimalOfNatToString | src/lib/utils/formatting.ts:56 | `parseInt` of the printed decimal form of a number is that number |
| JsString.SortDistinct | src/lib/chemistry/parser.ts:159 | the default `sort` of a duplicate-free list is strictly increasing and has the same members |
| JsString.StrLtTotal | src/lib/chemistry/parser.ts:159 | the string order `sort` uses is total on distinct strings (with `StrLtIrreflexive` and `StrLtTransitive`, a strict total order) |
| JsString.ToUpperAscii | src/lib/chemistry/validator.ts:237 | upper-casing keeps the length and leaves no lowercase ASCII letter: each one becomes its capital and every other character is kept |
| JsString.ToUpperWithoutLower | src/lib/chemistry/validator.ts:237 | text without lowercase ASCII letters is unchanged by upper-casing |
| JsString.ToUpperIdempotent | src/lib/chemistry/validator.ts:237 | upper-casing twice is upper-casing once |
| Parser.ScanGroupEnd | src/lib/chemistry/parser.ts:18-25 | the depth-counting loop stops where `CloseScan` says: after the `)` that closes the group, or at the end of the text |
| Parser.ReadElement | src/lib/chemistry/parser.ts:43-62 | the symbol is the capital plus at most one lowercase letter, the count is the digit run after it (1 when there is none), and the scan resumes after the digits |
| Parser.ParseGroup | src/lib/chemistry/parser.ts:13-68 | the record after the scan is the old one with every contribution of the text, scaled by the multiplier, added in scan order |
| Parser.ParseFormula | src/lib/chemistry/parser.ts:7-76 | `parseFormula` returns the tally of the contributions of the formula after its state markers are removed |
| Parser.GroupTokens | src/lib/chemistry/parser.ts:17-41 | a group contributes its content's tokens with the multiplier times the digit run after `)`, then the scan resumes after those digits |
| Parser.ElementTokens | src/lib/chemistry/parser.ts:43-63 | an element token contributes its symbol with its digit count times the enclosing multiplier |
| Parser.SymbolWithoutDigits | src/lib/chemistry/parser.ts:54-59 | a symbol with no digits after it counts 1, times the enclosing multiplier |
| Parser.ZeroCountKept | src/lib/chemistry/parser.ts:59-62 | `H0` gives the entry H with count 0; a zero count is not rejected |
| Parser.TokensScale | src/lib/chemistry/parser.ts:30-39 | scanning under multiplier m gives the contributions under multiplier 1 with every count multiplied by m, so nested multipliers compose |
| Parser.TokenSymbolShape | src/lib/chemistry/parser.ts:43-52 | every symbol produced is one uppercase letter optionally followed by one lowercase letter |
| Parser.SkipOtherCharacter | src/lib/chemistry/parser.ts:64-66 | a character that is neither `(` nor uppercase (digit, lowercase, `)`, space) is skipped without effect |
| Parser.UnmatchedParenDropsLastChar | src/lib/chemistry/parser.ts:17-28 | an `(` with no `)` after it makes the group run to the end, and its content leaves out the last character |
| Parser.TallyFacts | src/lib/chemistry/parser.ts:62 | after adding contributions, a symbol's total is its old total plus its contributions, a symbol is present exactly when it was present or contributed, and symbols stay distinct |
| Parser.FormulaCountsFacts | src/lib/chemistry/parser.ts:62-75 | the entries have distinct symbols, listed in order of first appearance, and each total is the sum of that symbol's contributions |
| Parser.TallyOrder | src/lib/chemistry/parser.ts:72-75 | the record's keys are the first occurrences of the contributed symbols, in order |
| Parser.FirstOccurrencesFacts | src/lib/chemistry/parser.ts:72-75 | the first occurrences of a list are duplicate-free and have the same members as the list |
| Parser.NormalizeArrows | src/lib/chemistry/parser.ts:84 | after the rewrite no `→` or `=` is left |
| Parser.NormalizeArrowsAppend | src/lib/chemistry/parser.ts:84 | the arrow rewrite works character by character, so it distributes over concatenation |
| Parser.ParseEquationFails | src/lib/chemistry/parser.ts:82-98 | `parseEquation` throws exactly when the rewritten text has no `->` or one of the first two pieces is the empty string; a whitespace-only side passes and gives no compounds |
| Parser.SecondArrowIgnored | src/lib/chemistry/parser.ts:87-95 | text after a second arrow does not change the parsed equation |
| Parser.SamePiecesSameEquation | src/lib/chemistry/parser.ts:87-95 | only the first two pieces of the split decide the parsed equation |
| Parser.PieceCompounds | src/lib/chemistry/parser.ts:104-109 | a `+`-piece that is blank after trimming gives no compound; any other gives the one compound parsed from its trimmed text |
| Parser.ParsePiecesAppend | src/lib/chemistry/parser.ts:104-109 | each piece is parsed independently of the others |
| Parser.StateSuffix | src/lib/chemistry/parser.ts:126-132 | a state suffix found is an `(` followed by one or more state letters and a final `)` |
| Parser.StateSuffixComplete | src/lib/chemistry/parser.ts:127 | every text that ends in `(`, one or more state letters and `)` has that suffix found, at its `(` |
| Parser.MarkerSplit | src/lib/chemistry/parser.ts:126-129 | with such a suffix the state is its letters and the formula is the trimmed text before it; without one there is no state and the text is kept |
| Parser.StatePart | src/lib/chemistry/parser.ts:126-129 | a state, when there is one, is a non-empty run of the letters s, l, g, a, q |
| Parser.ParseCompoundFacts | src/lib/chemistry/parser.ts:115-143 | the coefficient is the leading digit run (1 when there is none) and the rest is trimmed; a state suffix of that rest gives the state and the trimmed formula before it, and otherwise there is no state and the rest is the formula; the entries are those of the formula |
| Parser.ParseCompoundState | src/lib/chemistry/parser.ts:126-129 | a parsed state, when there is one, is a non-empty run of the letters s, l, g, a, q |
| Parser.GetUniqueElements | src/lib/chemistry/parser.ts:148-160 | the loops return the sorted list of symbols collected from both sides |
| Parser.UniqueElementsFacts | src/lib/chemistry/parser.ts:148-160 | the unique elements are strictly increasing, and a symbol is among them exactly when some compound on either side has an entry for it |
| Parser.AddSymbols | src/lib/chemistry/parser.ts:152-158 | the nested `forEach` loops add every entry symbol to the insertion-ordered set |
| Parser.SetAddAllFacts | src/lib/chemistry/parser.ts:152-158 | adding to a duplicate-free set keeps it duplicate-free, and its members become the old ones plus the added ones |
| Parser.CountElementOnSide | src/lib/chemistry/parser.ts:165-179 | the loop returns the sum of count × coefficient over the compounds that have an entry for the element |
| Parser.SideTotalAppend | src/lib/chemistry/parser.ts:165-179 | the total of a concatenation of sides is the sum of their totals |
| Parser.SideTotalAbsent | src/lib/chemistry/parser.ts:172-175 | an element no compound has totals 0 |
| Parser.TrailingParenIgnored | src/lib/chemistry/parser.ts:28 | corrected reading: an `(` that is the last character contributes nothing |
| Parser.TrailingParenDiverges | src/lib/chemistry/parser.ts:28 | as written, the group of a lone `(` is `(` again, so no recursion depth is enough |
| Parser.TrailingParenDivergesInFormula | src/lib/chemistry/parser.ts:28 | as written, scanning `H2O(` never finishes, whatever the depth bound |
| Parser.AsWrittenAgrees | src/lib/chemistry/parser.ts:17-41 | whenever the scan as written finishes, it gives the contributions of the corrected reading |
| Parser.AsWrittenWithoutGroups | src/lib/chemistry/parser.ts:13-68 | a text without `(` is scanned as written with no recursion at all, with the corrected reading's contributions |
| Validator.CountErrorsZero | src/lib/chemistry/validator.ts:106-109 | the error count is 0 exactly when no issue has error severity |
| Validator.MakeReportValid | src/lib/chemistry/validator.ts:106-109 | a report is valid exactly when no issue is an error; warnings never make it invalid |
| Validator.EmptyExactly | src/lib/chemistry/validator.ts:26-34 | blank text, and only blank text, is reported as exactly one EMPTY error, and such a report is invalid |
| Validator.ShapeIssues | src/lib/chemistry/validator.ts:37-104 | each format issue is reported exactly when its test fires, and no other kind of issue is reported |
| Validator.ArrowIffSplits | src/lib/chemistry/validator.ts:37-51 | an arrow occurs exactly when the rewritten text splits into at least two pieces |
| Validator.MissingArrowImpliesArrowCount | src/lib/chemistry/validator.ts:37-58 | text without an arrow gets both MISSING_ARROW and INVALID_ARROW_COUNT |
| Validator.ShapeIssuesErrors | src/lib/chemistry/validator.ts:51-109 | the format check finds no error exactly when there is an arrow, two pieces and neither side is blank |
| Validator.ValidStringExactly | src/lib/chemistry/validator.ts:23-110 | the text check passes exactly when the text is not blank, has an arrow, splits into exactly two pieces and neither piece is blank |
| Validator.SeparatorWarningExactly | src/lib/chemistry/validator.ts:79-104 | a separator warning is raised exactly when there are two sides and that trimmed side has no `+` but has two adjacent whitespace characters |
| Validator.SuggestionForParsedSymbol | src/lib/chemistry/validator.ts:219-258 | for a symbol the parser can produce, the hint is the typo hint of its upper-cased form, else the single-letter hint, else the generic one; the digit and lowercase rules never fire |
| Validator.TypoHintIgnoresCase | src/lib/chemistry/validator.ts:237-240 | the typo rule looks at the upper-cased symbol, so case does not change a typo hint |
| Validator.PushUnknown | src/lib/chemistry/validator.ts:138-149 | the loop appends the UNKNOWN_ELEMENT issues of the unknown symbols, in order |
| Validator.PushOnlyIn | src/lib/chemistry/validator.ts:164-185 | the loop appends a one-sided-element warning for each symbol missing from the other side |
| Validator.PushZero | src/lib/chemistry/validator.ts:188-208 | the loop appends a zero-coefficient error for each compound whose coefficient is 0 |
| Validator.CheckStructure | src/lib/chemistry/validator.ts:119-185 | the side, unknown-element and one-sided checks push exactly the reference issue list |
| Validator.ValidateEquation | src/lib/chemistry/validator.ts:115-214 | `validateEquation` returns the reference issue list with validity by error count |
| Validator.IssueMember | src/lib/chemistry/validator.ts:115-214 | an issue is reported exactly when its own condition holds on the parsed equation |
| Validator.UnknownIssueExactly | src/lib/chemistry/validator.ts:138-149 | UNKNOWN_ELEMENT(x) is reported exactly when x occurs in the equation and is not a known element |
| Validator.UnknownIssuesOrdered | src/lib/chemistry/validator.ts:138-149 | the UNKNOWN_ELEMENT issues come in strictly increasing symbol order, one per symbol |
| Validator.NoUnknownExactly | src/lib/chemistry/validator.ts:138-149 | there is no UNKNOWN_ELEMENT issue exactly when every symbol that occurs is known |
| Validator.OneSidedIssueExactly | src/lib/chemistry/validator.ts:152-185 | a one-sided warning for x is reported exactly when x is on that side and not on the other |
| Validator.ZeroIssueExactly | src/lib/chemistry/validator.ts:188-208 | a zero-coefficient error names a formula exactly when some compound on that side has that formula and coefficient 0 |
| Validator.CountIssuesErrors | src/lib/chemistry/validator.ts:119-135 | NO_REACTANTS and NO_PRODUCTS are errors, and there is none exactly when both sides have compounds |
| Validator.ParsedErrorCount | src/lib/chemistry/validator.ts:115-214 | the error count is the number of side, unknown-element and zero-coefficient issues; the one-sided warnings do not count |
| Validator.ValidParsedExactly | src/lib/chemistry/validator.ts:115-214 | a parsed equation is valid exactly when both sides have compounds, every symbol is known and no coefficient is 0 |
| Validator.ValidateEquationLegacy | src/lib/chemistry/validator.ts:263-308 | the older check reports the same issues without the zero-coefficient ones, with its own texts, and is valid only when it reports nothing |
| Validator.LegacyStricterOnOneSidedElements | src/lib/chemistry/validator.ts:292-307 | an element on one side only makes the older check fail but is only a warning for the newer one |
| Balancer.AtomMatrix | src/lib/chemistry/balancer.ts:81-104 | one row per unique element and one column per compound |
| Balancer.BuildRow | src/lib/chemistry/balancer.ts:89-100 | the row loop gives +count for a reactant column, −count for a product column, and 0 when the compound has no entry |
| Balancer.BuildAtomMatrix | src/lib/chemistry/balancer.ts:81-104 | the nested loops build the signed atom matrix over the sorted unique elements and the compounds, reactants first |
| Balancer.NullVectorIffBalanced | src/lib/chemistry/balancer.ts:81-104 | a coefficient vector is a null vector of the atom matrix exactly when applying it balances every element |
| Balancer.AbsentFromBoth | src/lib/chemistry/balancer.ts:81-104 | an element that occurs nowhere totals 0 on both sides whatever the coefficients |
| Balancer.SolveMatrix | src/lib/chemistry/balancer.ts:110-141 | every returned value is non-negative |
| Balancer.TwoColumnsIgnoreEntries | src/lib/chemistry/balancer.ts:115-117 | with two columns the result is `[1, 1]` whatever the entries and the solver |
| Balancer.SolveMatrixLength | src/lib/chemistry/balancer.ts:119-141 | when the solver throws or returns an empty basis the result is `cols` ones, and otherwise it has one value per basis row |
| Balancer.SameSignNullVectorSolves | src/lib/chemistry/balancer.ts:130-136 | when the first basis vector is a null vector with all entries of one sign, the returned absolute values solve the matrix |
| Balancer.ShortcutCanBeUnbalanced | src/lib/chemistry/balancer.ts:115-117 | the shortcut returns `[1, 1]` for the matrix `[[2, −1]]`, which it does not solve |
| Balancer.Gcd2Facts | src/lib/chemistry/balancer.ts:196-198 | Euclid's `gcd2` is a positive common divisor that every common divisor divides |
| Balancer.FindGcdFacts | src/lib/chemistry/balancer.ts:195-201 | on positive integers `findGCD` is a positive common divisor of all of them, and every common divisor divides it |
| Balancer.MinPositive | src/lib/chemistry/balancer.ts:153-158 | the minimum is positive, is an entry and is at most every positive entry |
| Balancer.FirstMultiplier | src/lib/chemistry/balancer.ts:164-178 | the loop's multiplier is the first one up to 1000 that brings every ratio within 0.01 of an integer, or 1 when there is none |
| Balancer.FindMultiplier | src/lib/chemistry/balancer.ts:164-178 | the `for` loop with `break` returns that first multiplier |
| Balancer.Normalized | src/lib/chemistry/balancer.ts:148-190 | normalising keeps the length and every coefficient is at least 1 |
| Balancer.NormalizeCoefficients | src/lib/chemistry/balancer.ts:148-190 | the method computes the normalised vector |
| Balancer.NoPositiveGivesOnes | src/lib/chemistry/balancer.ts:153-156 | when every entry is below 1e-10 the result is all ones |
| Balancer.DividedCoprime | src/lib/chemistry/balancer.ts:183-186 | after dividing by the GCD of the positive entries, the entries that are positive share no divisor greater than 1 |
| Balancer.IntegerTailCoprime | src/lib/chemistry/balancer.ts:183-189 | after dividing by the GCD and clamping, the whole vector shares no divisor greater than 1 (once an entry is clamped to 1 this holds for that reason alone; `DividedCoprime` states it for the divided positive entries) |
| Balancer.NormalizedCoprime | src/lib/chemistry/balancer.ts:148-190 | a non-empty normalised vector has no common divisor greater than 1 |
| Balancer.ApplyCoefficients | src/lib/chemistry/balancer.ts:206-220 | reactant i takes coefficient i and product i takes coefficient numReactants + i; formula, entries, state and side lengths are unchanged |
| Balancer.RowTimesCoefficients | src/lib/chemistry/balancer.ts:206-220 | a matrix row times the coefficients is the element's reactant total minus its product total after applying them |
| Balancer.FormatCompoundCoefficient | src/lib/chemistry/balancer.ts:227-229 | a printed compound starts with the coefficient's digits when it exceeds 1, and with the formula otherwise |
| Balancer.FormatCompoundState | src/lib/chemistry/balancer.ts:228-229 | a printed compound ends with `(state)` when it has a state, and with the formula otherwise |
| Balancer.FormatSideShort | src/lib/chemistry/balancer.ts:232-233 | an empty side prints as nothing and a one-compound side as that compound alone |
| Balancer.FormatSideCons | src/lib/chemistry/balancer.ts:232-233 | compounds of a side are printed with ` + ` between them |
| Balancer.PrintedArrowSplit | src/lib/chemistry/balancer.ts:235 | the ` → ` between the printed sides is the only arrow, so the equation splits there into the two sides |
| Balancer.FormatCompoundRoundTrip | src/lib/chemistry/balancer.ts:226-230 | a compound with a positive coefficient, a formula of symbols, digits and parentheses not starting with a digit, and its own formula's entries, parses back from its printed text |
| Balancer.FormatSideRoundTrip | src/lib/chemistry/balancer.ts:232-233 | splitting a printed side at `+` and parsing each piece gives back its compounds |
| Balancer.FormatEquationRoundTrip | src/lib/chemistry/balancer.ts:225-236 | parsing the printed equation gives back the equation |
| Balancer.Imbalanced | src/lib/chemistry/balancer.ts:269-271 | the imbalanced elements are exactly the counted ones whose two sides differ |
| Balancer.CountAtoms | src/lib/chemistry/balancer.ts:251-257 | the loop records both side totals of every element, in element order |
| Balancer.GenerateSteps | src/lib/chemistry/balancer.ts:241-315 | there are 4 steps, or 3 when nothing is imbalanced; the first holds the original counts; only the matrix step carries the matrix and coefficients; the last is `Verify balance` with the balanced counts |
| Balancer.VerifyStepBalancedIffNullVector | src/lib/chemistry/balancer.ts:296-303 | the verify step shows equal counts for every element exactly when the coefficients are a null vector of the atom matrix |
| Balancer.MolecularWeights | src/lib/chemistry/balancer.ts:48-59 | one weight entry per compound, reactants then products; a failed calculation gives weight 0 and the compound's own entries |
| Balancer.ValidStringParses | src/lib/chemistry/balancer.ts:14-20 | text that passes the format check always parses |
| Balancer.BalanceParsed | src/lib/chemistry/balancer.ts:28-73 | the result holds both printed equations, the normalised coefficients, steps ending in the verify step, the classification and the weight entries |
| Balancer.BalanceEquation | src/lib/chemistry/balancer.ts:12-74 | invalid text fails with the format issues and an invalid parse fails with the structure issues, before any matrix work; otherwise the result is the success record |
| ReactionClassifier.ClassifyReaction | src/lib/chemistry/reactionClassifier.ts:7-85 | the description is the one of the returned type |
| ReactionClassifier.CombustionExactly | src/lib/chemistry/reactionClassifier.ts:27-38 | combustion is returned exactly when some reactant has an O entry, some product is CO2 and some product is H2O or HOH, whatever the numbers of compounds |
| ReactionClassifier.SynthesisDecompositionExactly | src/lib/chemistry/reactionClassifier.ts:41-54 | when it is not combustion, ≥2 reactants and 1 product is synthesis, and 1 reactant and ≥2 products is decomposition |
| ReactionClassifier.ReplacementExactly | src/lib/chemistry/reactionClassifier.ts:57-77 | 2 → 2 with exactly one single-entry reactant is single replacement; 2 → 2 with both reactants having ≥2 entries is double replacement |
| ReactionClassifier.TwoSingleEntryReactantsUnknown | src/lib/chemistry/reactionClassifier.ts:57-84 | 2 → 2 with two single-entry reactants is unknown |
| ReactionClassifier.ClassifyIgnoresCoefficientsAndStates | src/lib/chemistry/reactionClassifier.ts:11-31 | equations differing only in coefficients and states are classified alike |
| ReactionClassifier.LabelsDistinct | src/lib/chemistry/reactionClassifier.ts:106-117 | the display labels of the six types are pairwise different |
| ReactionClassifier.ColorsDistinct | src/lib/chemistry/reactionClassifier.ts:90-101 | the badge colour classes of the six types are pairwise different |
| MolecularWeightCalc.FirstUnknown | src/lib/chemistry/molecularWeight.ts:16-19 | it finds the first symbol without an element record, and finds none exactly when every symbol has one |
| MolecularWeightCalc.CalculateMolecularWeight | src/lib/chemistry/molecularWeight.ts:9-35 | it fails exactly when some parsed symbol has no record, naming the first such symbol; otherwise the compound is the input, the breakdown is the parsed entries in order, and the weight is Σ mass × count |
| MolecularWeightCalc.WeightAppend | src/lib/chemistry/molecularWeight.ts:15-22 | the weight of a concatenation of breakdowns is the sum of their weights |
| MolecularWeightCalc.WeightNonNegative | src/lib/chemistry/molecularWeight.ts:21-22 | with non-negative masses the weight is non-negative, and 0 when every count is 0 |
| MolecularWeightCalc.NoTokensWeighsNothing | src/lib/chemistry/molecularWeight.ts:12-34 | a formula with no element tokens gives an empty breakdown and weight 0 |
| EquationContext.ReducePreserves | src/lib/context/EquationContext.tsx:47-113 | every action keeps the history within 100 items and leaves `isValid` and `validationErrors` alone |
| EquationContext.Reachable | src/lib/context/EquationContext.tsx:33-113 | every state reached from the initial state keeps the history within 100 items, with `isValid` true and no validation errors |
| EquationContext.AddToHistoryFront | src/lib/context/EquationContext.tsx:79-83 | the new history starts with the item, continues with the old history in order, and is at most 100 long |
| EquationContext.TogglesInvolutive | src/lib/context/EquationContext.tsx:94-103 | toggling dark mode or the periodic table twice restores the state |
| EquationContext.SettersIdempotent | src/lib/context/EquationContext.tsx:49-109 | every action except the toggles and ADD_TO_HISTORY gives the same state when applied twice |
| EquationContext.FieldOwnership | src/lib/context/EquationContext.tsx:49-109 | each field changes only under the actions that write it |
| EquationContext.OutcomeActions | src/lib/context/EquationContext.tsx:49-109 | what SET_EQUATION, CLEAR_ERROR, CLEAR_HISTORY, SET_RESULT, SET_ERROR and RESET_RESULT set and clear |
| EquationContext.UnknownActionIgnored | src/lib/context/EquationContext.tsx:110-111 | an action of any other type, such as REMOVE_FROM_HISTORY, leaves the state unchanged |
| EquationContext.ReduceAllAppend | src/lib/context/EquationContext.tsx:47-113 | dispatching two action sequences one after the other is dispatching their concatenation |
| HistoryStorage.Decode | src/lib/utils/localStorage.ts:22-33 | only a stored JSON array gives a non-empty history, and it gives its items |
| HistoryStorage.Store.SaveHistory | src/lib/utils/localStorage.ts:9-17 | the first min(100, n) items are stored, so what is saved decodes to at most 100 items, the first ones of the list; a refused write leaves the old value |
| HistoryStorage.Store.LoadHistory | src/lib/utils/localStorage.ts:22-33 | the stored array, or `[]` when nothing is stored, the text is empty, not JSON or not an array |
| HistoryStorage.Store.ClearHistory | src/lib/utils/localStorage.ts:38-44 | after clearing, loading gives `[]` |
| HistoryStorage.Store.AddHistoryItem | src/lib/utils/localStorage.ts:49-69 | returns the item followed by the stored list without its first entry of equal equation, and stores the first 100 of that |
| HistoryStorage.Store.RemoveHistoryItem | src/lib/utils/localStorage.ts:74-79 | returns and stores the stored list without the items of that id, in order |
| HistoryStorage.FindEquation | src/lib/utils/localStorage.ts:53-55 | the first index whose item has the equation, or none exactly when no item has it |
| HistoryStorage.MoveToFrontNew | src/lib/utils/localStorage.ts:57-63 | with no item of the same equation the item is simply put first |
| HistoryStorage.MoveToFrontReplaces | src/lib/utils/localStorage.ts:53-63 | with one, the length is unchanged, the item is first and the rest is the old list minus that entry |
| HistoryStorage.MoveToFrontDistinct | src/lib/utils/localStorage.ts:53-63 | a history without repeated equations keeps that property |
| HistoryStorage.MoveToFrontIdempotent | src/lib/utils/localStorage.ts:49-69 | adding the same item twice gives the same list as adding it once |
| HistoryStorage.WithoutIdMember | src/lib/utils/localStorage.ts:76 | an item survives removal exactly when it was there and has another id |
| HistoryStorage.WithoutIdAppend | src/lib/utils/localStorage.ts:76 | removal by id works item by item, so order is kept |
| HistoryStorage.WithoutIdIdempotent | src/lib/utils/localStorage.ts:76 | removing the same id twice is removing it once |
| Formatting.Subscripts | src/lib/utils/formatting.ts:9-24 | the subscript form has the input's length and no ASCII digit |
| Formatting.SubscriptsRoundTrip | src/lib/utils/formatting.ts:9-24 | mapping subscripts back to digits restores the formula, and every non-digit is unchanged |
| Formatting.WrapDigitsRoundTrip | src/lib/utils/formatting.ts:6-8 | removing the `<sub>` tags from the HTML form restores a formula without `<` |
| Formatting.WrapDigitsRun | src/lib/utils/formatting.ts:6-8 | each maximal digit run is wrapped in one `<sub>…</sub>` and the text around it is unchanged |
| Formatting.FormatChemicalFormulaRoundTrip | src/lib/utils/formatting.ts:5-26 | for a formula without `<` or subscript digits, removing the tags (HTML form) or mapping subscripts back (plain form) restores it |
| Formatting.SplitKeepingOperatorsConcat | src/lib/utils/formatting.ts:33 | the pieces of the capturing split make up the equation |
| Formatting.SplitKeepingOperatorsLength | src/lib/utils/formatting.ts:33 | there is one piece more than twice the number of separators |
| Formatting.ShownOperator | src/lib/utils/formatting.ts:33-39 | every odd-numbered piece is a separator and is shown as it is |
| Formatting.ShownFormula | src/lib/utils/formatting.ts:33-42 | every even-numbered piece contains no separator and is shown trimmed and formatted |
| Formatting.ParseCompoundString | src/lib/utils/formatting.ts:50-60 | the formula is a non-empty suffix of the input, the prefix before it is digits, and the coefficient is their value, or 1 when there are none |
| Formatting.ParseCompoundStringUnmatched | src/lib/utils/formatting.ts:51-54 | empty input, input not starting with a digit, or input with a line terminator gives coefficient 1 and the input as the formula |
| Formatting.ParseCompoundStringAllDigits | src/lib/utils/formatting.ts:51-57 | for an all-digit string the last digit stays in the formula |
| Formatting.ParseCompoundStringRoundTrip | src/lib/utils/formatting.ts:50-60 | a printed coefficient followed by a formula that does not start with a digit gives back that coefficient and formula |
| Formatting.SubscriptExample | src/lib/utils/formatting.ts:3 | `H2O` is shown as `H₂O` |
| Formatting.HtmlExample | src/lib/utils/formatting.ts:3 | `H2O` is shown as `H<sub>2</sub>O` in HTML mode |
| Formatting.ParseExample | src/lib/utils/formatting.ts:47-48 | `2H2O` gives coefficient 2 and formula `H2O` |

## Left out

- IEEE-754 arithmetic. Molecular weights and the floating part of
  `normalizeCoefficients` use exact reals, with `Math.round(x)` as
  ⌊x + 0.5⌋. The 1e-10 and 0.01 thresholds and the search up to 1000 are
  modelled with those constants. Rounding error is not modelled.
- Balancer.Normalized: no lemma states that the normalised vector balances
  the equation. That depends on the solver and on floating-point closeness.
- The null-space solver is a `NullSpace` parameter: the solver threw, or it
  returned some rectangular basis. Jagged bases are not modelled.
- `applyCoefficients` reads `undefined` past the end of the coefficient
  list. This happens when the solver's basis has fewer rows than there are
  compounds. It also happens when the atom matrix has no rows (an equation
  such as `2 -> 3`, with no element at all): the column count is then
  undefined and the fallback `Array(undefined).fill(1)` is `[1]`, so every
  compound after the first reads past the end. The model uses 0 there. The formatter prints nothing for either
  value, but the verify step of `generateSteps` also reads it through
  `countElementOnSide` (src/lib/chemistry/balancer.ts:296-303,
  src/lib/chemistry/parser.ts:174): there the source's total becomes `NaN`,
  while the model's counts that compound as 0. `NaN` is not modelled.
- The message `balanceEquation` throws joins error objects. The model's
  error carries the list of issues instead of that text.
- The prose of step descriptions and of the `console` messages. Step titles,
  the counts a description prints, and the matrix and coefficients are
  modelled.
- The periodic-table data module is not part of this model. It is the
  `PeriodicTable` parameter: the symbols `isValidElement` accepts and the
  atomic masses `getElement` finds.
- Strings are sequences of Unicode scalar values, not of UTF-16 code units.
  `sort` compares by scalar value, which differs from code-unit order only
  outside the Basic Multilingual Plane. `ToUpperAscii` upper-cases ASCII
  letters only. `\s` and `trim` use the ECMAScript whitespace and
  line-terminator sets.
- `parseInt` on digit runs is exact. Precision loss above 2^53 is not
  modelled.
- Parser.ParseGroup, Parser.ParseFormula, Parser.TokensFrom,
  Parser.FormulaCounts, Parser.ParseCompound, Parser.ParseEquation,
  Parser.CountElementOnSide, Validator.ValidateEquation,
  Balancer.BalanceEquation and MolecularWeightCalc.CalculateMolecularWeight:
  these use the corrected reading of a group opened by the last character
  (it contributes nothing). On such text the source never returns, so their
  results there are not what the source computes. `AsWrittenAgrees` shows
  that the two readings agree whenever the source's scan finishes.
- Parser.TokensAsWritten: the as-written scan has a fuel bound on group
  nesting. It models the unbounded recursion of the trailing-`(` case as
  running out of every bound, not as the stack overflow it causes.
- `JSON.stringify` and `JSON.parse` are assumed to round-trip a history
  list exactly. `StoredText` records what the stored text decodes to.
- `localStorage.getItem` and `removeItem` are assumed not to throw. Only a
  `setItem` failure, such as an exceeded quota, is modelled.
- ReactionClassifier.LabelsDistinct: the display labels and (with
  `ColorsDistinct`) the colour classes are shown to be distinct. The
  descriptions are a total map over the six types, but their distinctness
  is not stated.
- The unused `Set`s that `classifyReaction` builds, which nothing reads.
- `calculatePercentComposition`, `formatNumber` and `formatMolecularWeight`
  are floating-point division and `toFixed` rendering.
- The React provider and hook of the state context, every component, and
  the browser plumbing (clipboard, URL sharing, keyboard shortcuts,
  animation).

## Findings

| source | as written | input that shows it | evidently intended | confidence | as-written member | corrected member |
|---|---|---|---|---|---|---|
| src/lib/chemistry/parser.ts:28 | when the `(` is the last character of the scanned text, the scan stops at `j = i + 1`. Then `substring(i + 1, j - 1)` swaps its arguments and returns `"("` again, so `parseGroup` recurses on the same text until the stack overflows | `H2O( -> H2O`, which passes the text check, or any formula ending in `(` | an unmatched trailing `(` opens an empty group that contributes nothing, as an unmatched `(` elsewhere already does | not executed | Parser.TrailingParenDiverges, Parser.TrailingParenDivergesInFormula | Parser.TrailingParenIgnored |
