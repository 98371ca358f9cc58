/** The balancing pipeline (src/lib/chemistry/balancer.ts): the signed atom
    matrix, the null-space step around an opaque solver, normalisation to
    small positive integers, applying and printing the coefficients, the
    explanation trace, and the orchestrating `balanceEquation`. */
module Balancer {
  import opened Wrappers
  import opened JsString
  import opened ChemistryTypes
  import opened Parser
  import opened Validator
  import opened MolecularWeightCalc
  import opened ReactionClassifier

  // ===========================================================================
  // buildAtomMatrix

  /** `[...parsed.reactants, ...parsed.products]`: the matrix columns. */
  function Compounds(parsed: ParsedEquation): seq<ParsedCompound> {
    parsed.reactants + parsed.products
  }

  /** The entry of `element` in column `j`: the compound's count for it (0
      without an entry), negated for a product. */
  function AtomEntry(parsed: ParsedEquation, element: string, j: nat): int
    requires j < |Compounds(parsed)|
  {
    var count: int := EntryCount(Compounds(parsed)[j].elements, element);
    if j < |parsed.reactants| then count else -count
  }

  /** The matrix row of one element. */
  function AtomRow(parsed: ParsedEquation, element: string): (row: seq<int>)
    ensures |row| == |Compounds(parsed)|
  {
    seq(|Compounds(parsed)|, j requires 0 <= j < |Compounds(parsed)| => AtomEntry(parsed, element, j))
  }

  /** One row per unique element, in sorted order. */
  function AtomMatrix(parsed: ParsedEquation): (matrix: seq<seq<int>>)
    ensures |matrix| == |UniqueElements(parsed)|
    ensures forall i :: 0 <= i < |matrix| ==> |matrix[i]| == |Compounds(parsed)|
  {
    var elements := UniqueElements(parsed);
    seq(|elements|, i requires 0 <= i < |elements| => AtomRow(parsed, elements[i]))
  }

  /** The inner `compounds.forEach` of `buildAtomMatrix`. */
  method BuildRow(parsed: ParsedEquation, compounds: seq<ParsedCompound>, numReactants: nat, element: string)
    returns (row: seq<int>)
    requires compounds == Compounds(parsed) && numReactants == |parsed.reactants|
    ensures row == AtomRow(parsed, element)
  {
    row := [];
    var index := 0;
    while index < |compounds|
      invariant 0 <= index <= |compounds|
      invariant row == AtomRow(parsed, element)[..index]
      decreases |compounds| - index
    {
      var elementCount := FindEntry(compounds[index].elements, element);
      var count: int := if elementCount.Some? then compounds[index].elements[elementCount.value].count else 0;
      row := row + [if index < numReactants then count else -count];
      assert AtomRow(parsed, element)[..index + 1] == AtomRow(parsed, element)[..index] + [AtomEntry(parsed, element, index)];
      index := index + 1;
    }
    assert AtomRow(parsed, element)[..index] == AtomRow(parsed, element);
  }

  /** `buildAtomMatrix(parsed)`: rows are the sorted unique elements,
      columns the reactants then the products. */
  method BuildAtomMatrix(parsed: ParsedEquation)
    returns (matrix: seq<seq<int>>, elements: seq<string>, compounds: seq<ParsedCompound>)
    ensures elements == UniqueElements(parsed)
    ensures compounds == Compounds(parsed)
    ensures matrix == AtomMatrix(parsed)
  {
    elements := GetUniqueElements(parsed);
    compounds := parsed.reactants + parsed.products;
    var numReactants := |parsed.reactants|;
    matrix := [];
    var i := 0;
    while i < |elements|
      invariant 0 <= i <= |elements|
      invariant matrix == AtomMatrix(parsed)[..i]
      decreases |elements| - i
    {
      var row := BuildRow(parsed, compounds, numReactants, elements[i]);
      matrix := matrix + [row];
      assert AtomMatrix(parsed)[..i + 1] == AtomMatrix(parsed)[..i] + [AtomRow(parsed, elements[i])];
      i := i + 1;
    }
    assert AtomMatrix(parsed)[..i] == AtomMatrix(parsed);
  }

  // ===========================================================================
  // applyCoefficients

  /** `coefficients[index]`; an index past the end reads `undefined`, which
      is modelled as 0. */
  function CoefficientAt(coefficients: seq<nat>, index: nat): nat {
    if index < |coefficients| then coefficients[index] else 0
  }

  /** `applyCoefficients(parsed, coefficients)`: reactant `i` takes
      coefficient `i` and product `i` takes coefficient `numReactants + i`;
      nothing else changes. */
  function ApplyCoefficients(parsed: ParsedEquation, coefficients: seq<nat>): (r: ParsedEquation)
    ensures |r.reactants| == |parsed.reactants| && |r.products| == |parsed.products|
    ensures forall i :: 0 <= i < |parsed.reactants| ==>
      r.reactants[i] == parsed.reactants[i].(coefficient := CoefficientAt(coefficients, i))
    ensures forall i :: 0 <= i < |parsed.products| ==>
      r.products[i] == parsed.products[i].(coefficient := CoefficientAt(coefficients, |parsed.reactants| + i))
  {
    var numReactants := |parsed.reactants|;
    ParsedEquation(
      seq(|parsed.reactants|, i requires 0 <= i < |parsed.reactants| =>
        parsed.reactants[i].(coefficient := CoefficientAt(coefficients, i))),
      seq(|parsed.products|, i requires 0 <= i < |parsed.products| =>
        parsed.products[i].(coefficient := CoefficientAt(coefficients, numReactants + i))))
  }

  // ---------------------------------------------------------------------------
  // The matrix and conservation of atoms

  /** Σ row[j] × x[j] */
  function Dot(row: seq<int>, x: seq<int>): int
    requires |row| == |x|
    decreases |row|
  {
    if row == [] then 0
    else Dot(row[..|row| - 1], x[..|x| - 1]) + row[|row| - 1] * x[|x| - 1]
  }

  lemma {:induction false} DotAppend(a: seq<int>, b: seq<int>, x: seq<int>, y: seq<int>)
    requires |a| == |x| && |b| == |y|
    ensures Dot(a + b, x + y) == Dot(a, x) + Dot(b, y)
    decreases |b|
  {
    if b == [] {
      assert a + b == a && x + y == x;
    } else {
      var b', y' := b[..|b| - 1], y[..|y| - 1];
      assert (a + b)[..|a + b| - 1] == a + b';
      assert (x + y)[..|x + y| - 1] == x + y';
      DotAppend(a, b', x, y');
    }
  }

  /** The count of `element` in each compound. */
  function CountsRow(compounds: seq<ParsedCompound>, element: string): (row: seq<int>)
    ensures |row| == |compounds|
  {
    seq(|compounds|, j requires 0 <= j < |compounds| => EntryCount(compounds[j].elements, element) as int)
  }

  function Negated(row: seq<int>): (r: seq<int>)
    ensures |r| == |row|
  {
    seq(|row|, j requires 0 <= j < |row| => -row[j])
  }

  lemma {:induction false} DotNegated(row: seq<int>, x: seq<int>)
    requires |row| == |x|
    ensures Dot(Negated(row), x) == -Dot(row, x)
    decreases |row|
  {
    if row != [] {
      assert Negated(row)[..|row| - 1] == Negated(row[..|row| - 1]);
      DotNegated(row[..|row| - 1], x[..|x| - 1]);
    }
  }

  /** The compounds with coefficients `x`, one for one. */
  function WithCoefficients(compounds: seq<ParsedCompound>, x: seq<nat>): (r: seq<ParsedCompound>)
    requires |x| == |compounds|
    ensures |r| == |compounds|
  {
    seq(|compounds|, j requires 0 <= j < |compounds| => compounds[j].(coefficient := x[j]))
  }

  /** The atoms of `element` on a side with coefficients `x` is the counts
      row times `x`. */
  lemma {:induction false} SideTotalIsDot(compounds: seq<ParsedCompound>, x: seq<nat>, element: string)
    requires |x| == |compounds|
    ensures SideTotal(WithCoefficients(compounds, x), element) == Dot(CountsRow(compounds, element), x)
    decreases |compounds|
  {
    if compounds != [] {
      var n := |compounds| - 1;
      assert WithCoefficients(compounds, x)[..n] == WithCoefficients(compounds[..n], x[..n]);
      assert CountsRow(compounds, element)[..n] == CountsRow(compounds[..n], element);
      SideTotalIsDot(compounds[..n], x[..n], element);
    }
  }

  lemma AtomRowSplit(parsed: ParsedEquation, element: string)
    ensures AtomRow(parsed, element) ==
      CountsRow(parsed.reactants, element) + Negated(CountsRow(parsed.products, element))
  {
  }

  lemma ApplySplit(parsed: ParsedEquation, x: seq<nat>)
    requires |x| == |Compounds(parsed)|
    ensures var nr := |parsed.reactants|;
      ApplyCoefficients(parsed, x).reactants == WithCoefficients(parsed.reactants, x[..nr]) &&
      ApplyCoefficients(parsed, x).products == WithCoefficients(parsed.products, x[nr..])
  {
  }

  /** Row `element` of the matrix times a full coefficient vector is the
      element's reactant-side atoms minus its product-side atoms once the
      coefficients are applied. */
  lemma RowTimesCoefficients(parsed: ParsedEquation, x: seq<nat>, element: string)
    requires |x| == |Compounds(parsed)|
    ensures var balanced := ApplyCoefficients(parsed, x);
      Dot(AtomRow(parsed, element), x) ==
        SideTotal(balanced.reactants, element) - SideTotal(balanced.products, element)
  {
    var nr := |parsed.reactants|;
    var xr, xp := x[..nr], x[nr..];
    assert x == xr + xp;
    AtomRowSplit(parsed, element);
    ApplySplit(parsed, x);
    DotAppend(CountsRow(parsed.reactants, element), Negated(CountsRow(parsed.products, element)), xr, xp);
    DotNegated(CountsRow(parsed.products, element), xp);
    SideTotalIsDot(parsed.reactants, xr, element);
    SideTotalIsDot(parsed.products, xp, element);
  }

  /** Every element has as many atoms on both sides. */
  ghost predicate Balanced(parsed: ParsedEquation) {
    forall x :: SideTotal(parsed.reactants, x) == SideTotal(parsed.products, x)
  }

  /** A coefficient vector is a null vector of the atom matrix exactly when
      applying it balances the equation. */
  lemma NullVectorIffBalanced(parsed: ParsedEquation, x: seq<nat>)
    requires |x| == |Compounds(parsed)|
    ensures (forall i :: 0 <= i < |AtomMatrix(parsed)| ==> Dot(AtomMatrix(parsed)[i], x) == 0) <==>
      Balanced(ApplyCoefficients(parsed, x))
  {
    if forall i :: 0 <= i < |AtomMatrix(parsed)| ==> Dot(AtomMatrix(parsed)[i], x) == 0 {
      NullVectorBalances(parsed, x);
    }
    if Balanced(ApplyCoefficients(parsed, x)) {
      BalancedIsNullVector(parsed, x);
    }
  }

  lemma NullVectorBalances(parsed: ParsedEquation, x: seq<nat>)
    requires |x| == |Compounds(parsed)|
    requires forall i :: 0 <= i < |AtomMatrix(parsed)| ==> Dot(AtomMatrix(parsed)[i], x) == 0
    ensures Balanced(ApplyCoefficients(parsed, x))
  {
    var m := AtomMatrix(parsed);
    var elements := UniqueElements(parsed);
    var balanced := ApplyCoefficients(parsed, x);
    UniqueElementsFacts(parsed);
    forall e ensures SideTotal(balanced.reactants, e) == SideTotal(balanced.products, e) {
      if e in elements {
        var i :| 0 <= i < |elements| && elements[i] == e;
        RowTimesCoefficients(parsed, x, e);
        assert m[i] == AtomRow(parsed, e);
      } else {
        AbsentFromBoth(parsed, x, e);
      }
    }
  }

  lemma BalancedIsNullVector(parsed: ParsedEquation, x: seq<nat>)
    requires |x| == |Compounds(parsed)|
    requires Balanced(ApplyCoefficients(parsed, x))
    ensures forall i :: 0 <= i < |AtomMatrix(parsed)| ==> Dot(AtomMatrix(parsed)[i], x) == 0
  {
    var m := AtomMatrix(parsed);
    var elements := UniqueElements(parsed);
    forall i | 0 <= i < |m| ensures Dot(m[i], x) == 0 {
      assert m[i] == AtomRow(parsed, elements[i]);
      BalancedRow(parsed, x, elements[i]);
    }
  }

  lemma BalancedRow(parsed: ParsedEquation, x: seq<nat>, e: string)
    requires |x| == |Compounds(parsed)|
    requires Balanced(ApplyCoefficients(parsed, x))
    ensures Dot(AtomRow(parsed, e), x) == 0
  {
    var balanced := ApplyCoefficients(parsed, x);
    RowTimesCoefficients(parsed, x, e);
    assert SideTotal(balanced.reactants, e) == SideTotal(balanced.products, e);
  }

  /** An element that occurs nowhere has no atoms on either side. */
  lemma AbsentFromBoth(parsed: ParsedEquation, x: seq<nat>, e: string)
    requires |x| == |Compounds(parsed)|
    requires !OccursIn(parsed, e)
    ensures SideTotal(ApplyCoefficients(parsed, x).reactants, e) == 0
    ensures SideTotal(ApplyCoefficients(parsed, x).products, e) == 0
  {
    var b := ApplyCoefficients(parsed, x);
    forall i | 0 <= i < |b.reactants| ensures FindEntry(b.reactants[i].elements, e).None? { }
    forall i | 0 <= i < |b.products| ensures FindEntry(b.products[i].elements, e).None? { }
    SideTotalAbsent(b.reactants, e);
    SideTotalAbsent(b.products, e);
  }

  // ===========================================================================
  // solveMatrix

  /** What `math.null(m)` does, which is not part of this model: it throws,
      or it returns the null-space basis as a list of rows whose column `k`
      is the `k`-th basis vector. */
  datatype NullSpace = Threw | Basis(rows: seq<seq<real>>)

  /** The library returns a matrix: its rows have one length. */
  predicate Rectangular(rows: seq<seq<real>>) {
    forall i :: 0 <= i < |rows| ==> |rows[i]| == |rows[0]|
  }

  /** `m.size()[1]`: a matrix without rows has size `[0]`, so its column
      count is undefined. */
  function Columns(matrix: seq<seq<int>>): Option<nat> {
    if |matrix| == 0 then None else Some(|matrix[0]|)
  }

  /** `Array(cols).fill(1)`; `Array(undefined)` is a one-slot array, so an
      undefined column count gives `[1]`. */
  function Ones(cols: Option<nat>): (r: seq<real>)
    ensures forall i :: 0 <= i < |r| ==> r[i] == 1.0
    ensures cols.Some? ==> |r| == cols.value
    ensures cols.None? ==> |r| == 1
  {
    match cols
    case None => [1.0]
    case Some(n) => seq(n, _ => 1.0)
  }

  function Abs(x: real): (r: real)
    ensures r >= 0.0 && (r == x || r == -x)
  {
    if x < 0.0 then -x else x
  }

  /** `solveMatrix(matrix)` with `nullSpace` what the library does for this
      matrix. */
  function SolveMatrix(matrix: seq<seq<int>>, nullSpace: NullSpace): (r: seq<real>)
    requires nullSpace.Basis? ==> Rectangular(nullSpace.rows)
    ensures forall i :: 0 <= i < |r| ==> r[i] >= 0.0
  {
    if Columns(matrix) == Some(2) then [1.0, 1.0]
    else match nullSpace
      case Threw => Ones(Columns(matrix))
      case Basis(rows) =>
        if |rows| == 0 || |rows[0]| == 0 then Ones(Columns(matrix))
        else seq(|rows|, i requires 0 <= i < |rows| => Abs(rows[i][0]))
  }

  /** Two columns give `[1, 1]` whatever the entries and whatever the
      library would have returned. */
  lemma TwoColumnsIgnoreEntries(m1: seq<seq<int>>, m2: seq<seq<int>>, n1: NullSpace, n2: NullSpace)
    requires n1.Basis? ==> Rectangular(n1.rows)
    requires n2.Basis? ==> Rectangular(n2.rows)
    requires Columns(m1) == Some(2) && Columns(m2) == Some(2)
    ensures SolveMatrix(m1, n1) == SolveMatrix(m2, n2) == [1.0, 1.0]
  {
  }

  /** Otherwise a failing or empty null space gives all ones, one per column
      (a single one for a matrix without rows); a basis of `cols` rows gives
      a vector of `cols` entries. */
  lemma SolveMatrixLength(matrix: seq<seq<int>>, nullSpace: NullSpace)
    requires nullSpace.Basis? ==> Rectangular(nullSpace.rows)
    requires Columns(matrix) != Some(2)
    ensures (nullSpace.Threw? || |nullSpace.rows| == 0 || |nullSpace.rows[0]| == 0) ==>
      SolveMatrix(matrix, nullSpace) == Ones(Columns(matrix))
    ensures nullSpace.Basis? && |nullSpace.rows| > 0 && |nullSpace.rows[0]| > 0 ==>
      |SolveMatrix(matrix, nullSpace)| == |nullSpace.rows|
  {
  }

  /** Σ row[j] × v[j] over reals. */
  function RDot(row: seq<int>, v: seq<real>): real
    requires |row| == |v|
    decreases |row|
  {
    if row == [] then 0.0
    else RDot(row[..|row| - 1], v[..|v| - 1]) + (row[|row| - 1] as real) * v[|v| - 1]
  }

  lemma {:induction false} RDotNegated(row: seq<int>, v: seq<real>, w: seq<real>)
    requires |row| == |v| == |w|
    requires forall j :: 0 <= j < |v| ==> w[j] == -v[j]
    ensures RDot(row, w) == -RDot(row, v)
    decreases |row|
  {
    if row != [] {
      RDotNegated(row[..|row| - 1], v[..|v| - 1], w[..|w| - 1]);
    }
  }

  /** The first basis vector. */
  function FirstColumn(rows: seq<seq<real>>): (v: seq<real>)
    requires Rectangular(rows) && |rows| > 0 && |rows[0]| > 0
    ensures |v| == |rows|
  {
    seq(|rows|, i requires 0 <= i < |rows| => rows[i][0])
  }

  /** Taking absolute values keeps a null vector a null vector when its
      entries all have one sign; the result of a basis with mixed signs
      need not solve the system. */
  lemma SameSignNullVectorSolves(matrix: seq<seq<int>>, rows: seq<seq<real>>)
    requires Rectangular(rows) && |rows| > 0 && |rows[0]| > 0
    requires Columns(matrix) != Some(2)
    requires forall i :: 0 <= i < |matrix| ==> |matrix[i]| == |rows|
    requires forall i :: 0 <= i < |matrix| ==> RDot(matrix[i], FirstColumn(rows)) == 0.0
    requires (forall j :: 0 <= j < |rows| ==> rows[j][0] >= 0.0) ||
             (forall j :: 0 <= j < |rows| ==> rows[j][0] <= 0.0)
    ensures var r := SolveMatrix(matrix, Basis(rows));
      |r| == |rows| && forall i :: 0 <= i < |matrix| ==> RDot(matrix[i], r) == 0.0
  {
    var v := FirstColumn(rows);
    var r := SolveMatrix(matrix, Basis(rows));
    if forall j :: 0 <= j < |rows| ==> rows[j][0] >= 0.0 {
      assert r == v;
    } else {
      forall i | 0 <= i < |matrix| ensures RDot(matrix[i], r) == 0.0 {
        RDotNegated(matrix[i], v, r);
      }
    }
  }

  /** With two columns the shortcut answers `[1, 1]` even where that does
      not balance: for `H2 -> H` the matrix is `[[2, -1]]`. */
  lemma ShortcutCanBeUnbalanced()
    ensures var m: seq<seq<int>> := [[2, -1]];
      SolveMatrix(m, Threw) == [1.0, 1.0] && RDot(m[0], [1.0, 1.0]) == 1.0
  {
    var row: seq<int> := [2, -1];
    assert row[..1] == [2];
    assert row[..1][..0] == [];
  }

  // ===========================================================================
  // findGCD

  /** `gcd2(a, b)`: Euclid's algorithm; on non-negative integers the
      remainder operator is the mathematical one. */
  function Gcd2(a: nat, b: nat): nat
    decreases b
  {
    if b == 0 then a else Gcd2(b, a % b)
  }

  ghost predicate Divides(d: nat, n: int) {
    d > 0 && exists k :: n == d * k
  }

  /** `d` divides every entry. */
  ghost predicate DividesAll(d: nat, ns: seq<int>) {
    forall i :: 0 <= i < |ns| ==> Divides(d, ns[i])
  }

  /** `numbers.reduce((acc, num) => gcd2(acc, Math.round(num)))` over a
      non-empty list of integers (the list is never empty where it is
      called, and `Math.round` of an integer is itself). */
  function FindGcd(numbers: seq<nat>): nat
    requires |numbers| > 0
    decreases |numbers|
  {
    if |numbers| == 1 then numbers[0]
    else Gcd2(FindGcd(numbers[..|numbers| - 1]), numbers[|numbers| - 1])
  }

  lemma DividesCombination(d: nat, a: int, b: int, q: int)
    requires Divides(d, a) && Divides(d, b)
    ensures Divides(d, a - q * b)
  {
    var ka :| a == d * ka;
    var kb :| b == d * kb;
    assert a - q * b == d * (ka - q * kb);
  }

  /** A common divisor of `a` and `b` is one of `b` and `a % b`, and back. */
  lemma ModStep(d: nat, a: nat, b: nat)
    requires b > 0
    ensures Divides(d, a) && Divides(d, b) ==> Divides(d, a % b)
    ensures Divides(d, b) && Divides(d, a % b) ==> Divides(d, a)
  {
    assert a % b == a - (a / b) * b;
    if Divides(d, a) && Divides(d, b) {
      DividesCombination(d, a, b, a / b);
    }
    if Divides(d, b) && Divides(d, a % b) {
      DividesCombination(d, a % b, b, -(a / b));
    }
  }

  /** `Gcd2(a, b)` is a common divisor of `a` and `b` (positive unless both
      are 0), and every common divisor divides it. */
  lemma {:induction false} Gcd2Facts(a: nat, b: nat)
    ensures (a > 0 || b > 0) ==> Gcd2(a, b) > 0 && Divides(Gcd2(a, b), a) && Divides(Gcd2(a, b), b)
    ensures forall d: nat :: Divides(d, a) && Divides(d, b) ==> Divides(d, Gcd2(a, b))
    decreases b
  {
    if b == 0 {
      assert a == a * 1 && 0 == a * 0;
    } else {
      Gcd2Facts(b, a % b);
      var g := Gcd2(b, a % b);
      ModStep(g, a, b);
      forall d: nat | Divides(d, a) && Divides(d, b) ensures Divides(d, Gcd2(a, b)) {
        ModStep(d, a, b);
      }
    }
  }

  /** On positive integers the result is a positive common divisor of all of
      them, and every common divisor divides it: the greatest one. */
  lemma {:induction false} FindGcdFacts(numbers: seq<nat>)
    requires |numbers| > 0
    requires forall i :: 0 <= i < |numbers| ==> numbers[i] > 0
    ensures FindGcd(numbers) > 0 && DividesAll(FindGcd(numbers), numbers)
    ensures forall d: nat :: DividesAll(d, numbers) ==> Divides(d, FindGcd(numbers))
    decreases |numbers|
  {
    if |numbers| == 1 {
      assert numbers[0] == numbers[0] * 1;
    } else {
      var init := numbers[..|numbers| - 1];
      var last := numbers[|numbers| - 1];
      FindGcdFacts(init);
      var g := FindGcd(init);
      Gcd2Facts(g, last);
      var h := Gcd2(g, last);
      forall i | 0 <= i < |numbers| ensures Divides(h, numbers[i]) {
        if i < |init| {
          assert Divides(g, init[i]);
          DividesTransitive(h, g, init[i]);
        }
      }
      forall d: nat | DividesAll(d, numbers) ensures Divides(d, h) {
        assert DividesAll(d, init) by {
          forall i | 0 <= i < |init| ensures Divides(d, init[i]) { assert init[i] == numbers[i]; }
        }
        assert Divides(d, last);
      }
    }
  }

  lemma DividesTransitive(a: nat, b: nat, c: int)
    requires Divides(a, b) && Divides(b, c)
    ensures Divides(a, c)
  {
    var k :| b == a * k;
    var l :| c == b * l;
    assert c == a * (k * l);
  }

  // ===========================================================================
  // normalizeCoefficients

  /** `1e-10` */
  const Tiny: real := 0.0000000001

  /** `Math.round`: halves go up. */
  function Round(x: real): int {
    (x + 0.5).Floor
  }

  /** `coefficients.map(c => Math.abs(c) < 1e-10 ? 0 : c)` */
  function Cleaned(cs: seq<real>): (r: seq<real>)
    ensures |r| == |cs|
  {
    seq(|cs|, i requires 0 <= i < |cs| => if Abs(cs[i]) < Tiny then 0.0 else cs[i])
  }

  predicate HasPositive(xs: seq<real>) {
    exists i :: 0 <= i < |xs| && xs[i] > 0.0
  }

  /** `Math.min(...xs.filter(c => c > 0))` */
  function MinPositive(xs: seq<real>): (m: real)
    requires HasPositive(xs)
    ensures m > 0.0
    ensures exists i :: 0 <= i < |xs| && xs[i] == m
    ensures forall i :: 0 <= i < |xs| && xs[i] > 0.0 ==> m <= xs[i]
    decreases |xs|
  {
    if !HasPositive(xs[1..]) then
      assert forall i :: 1 <= i < |xs| ==> xs[1..][i - 1] == xs[i];
      xs[0]
    else
      var m := MinPositive(xs[1..]);
      assert forall i :: 1 <= i < |xs| ==> xs[1..][i - 1] == xs[i];
      if xs[0] > 0.0 && xs[0] <= m then xs[0] else m
  }

  /** `cleaned.map(c => c / minVal)` */
  function Ratios(cleaned: seq<real>): (r: seq<real>)
    requires HasPositive(cleaned)
    ensures |r| == |cleaned|
  {
    var minVal := MinPositive(cleaned);
    seq(|cleaned|, i requires 0 <= i < |cleaned| => cleaned[i] / minVal)
  }

  /** `Math.abs(n - Math.round(n)) < 0.01` */
  predicate NearInteger(x: real) {
    Abs(x - Round(x) as real) < 0.01
  }

  /** Multiplying every ratio by `mult` lands near an integer. */
  predicate AllNearIntegers(ns: seq<real>, mult: nat) {
    forall i :: 0 <= i < |ns| ==> NearInteger(ns[i] * mult as real)
  }

  /** `precision` */
  const Precision: nat := 1000

  /** The first multiplier from `mult` up to 1000 that makes every ratio
      near an integer, or 1 when there is none. */
  function FirstMultiplier(ns: seq<real>, mult: nat): (m: nat)
    requires mult >= 1
    ensures (exists k :: mult <= k <= Precision && AllNearIntegers(ns, k)) ==>
      (mult <= m <= Precision && AllNearIntegers(ns, m) &&
       forall k :: mult <= k < m ==> !AllNearIntegers(ns, k))
    ensures !(exists k :: mult <= k <= Precision && AllNearIntegers(ns, k)) ==> m == 1
    decreases Precision + 1 - mult
  {
    if mult > Precision then 1
    else if AllNearIntegers(ns, mult) then mult
    else FirstMultiplier(ns, mult + 1)
  }

  /** The `for (let mult = 1; mult <= precision; mult++)` search with its
      `break`. */
  method FindMultiplier(normalized: seq<real>) returns (multiplier: nat)
    ensures multiplier == FirstMultiplier(normalized, 1)
  {
    multiplier := 1;
    var mult := 1;
    while mult <= Precision
      invariant 1 <= mult <= Precision + 1
      invariant FirstMultiplier(normalized, mult) == FirstMultiplier(normalized, 1)
      decreases Precision + 1 - mult
    {
      var isAllIntegers := AllNearIntegers(normalized, mult);
      if isAllIntegers {
        multiplier := mult;
        break;
      }
      mult := mult + 1;
    }
  }

  /** `normalized.map(n => Math.round(n * multiplier))` */
  function Scaled(ns: seq<real>, multiplier: nat): (r: seq<int>)
    ensures |r| == |ns|
  {
    seq(|ns|, i requires 0 <= i < |ns| => Round(ns[i] * multiplier as real))
  }

  /** `normalized.filter(n => n > 0)` */
  function Positives(ns: seq<int>): (r: seq<nat>)
    ensures forall i :: 0 <= i < |r| ==> r[i] > 0 && r[i] in ns
    ensures forall i :: 0 <= i < |ns| && ns[i] > 0 ==> ns[i] in r
    decreases |ns|
  {
    if ns == [] then []
    else (if ns[0] > 0 then [ns[0] as nat] else []) + Positives(ns[1..])
  }

  /** `normalized.map(n => Math.round(n / gcd))` */
  function DivideBy(ns: seq<int>, g: nat): (r: seq<int>)
    requires g > 0
    ensures |r| == |ns|
  {
    seq(|ns|, i requires 0 <= i < |ns| => Round(ns[i] as real / g as real))
  }

  /** `normalized.map(n => Math.max(1, n))` */
  function ClampToOne(ns: seq<int>): (r: seq<nat>)
    ensures |r| == |ns|
    ensures forall i :: 0 <= i < |r| ==> r[i] >= 1
  {
    seq(|ns|, i requires 0 <= i < |ns| => if ns[i] < 1 then 1 else ns[i])
  }

  /** The integer tail: divide by the GCD of the positive entries when it
      exceeds 1, then raise every entry to at least 1. */
  function IntegerTail(ns: seq<int>): (r: seq<nat>)
    requires |Positives(ns)| > 0
    ensures |r| == |ns|
  {
    var g := FindGcd(Positives(ns));
    ClampToOne(if g > 1 then DivideBy(ns, g) else ns)
  }

  /** `normalizeCoefficients(coefficients)` on exact reals. */
  function Normalized(coefficients: seq<real>): (r: seq<nat>)
    ensures |r| == |coefficients|
    ensures forall i :: 0 <= i < |r| ==> r[i] >= 1
  {
    var cleaned := Cleaned(coefficients);
    if !HasPositive(cleaned) then seq(|coefficients|, _ => 1)
    else
      var ns := Ratios(cleaned);
      var scaled := Scaled(ns, FirstMultiplier(ns, 1));
      ScaledHasPositive(cleaned, FirstMultiplier(ns, 1));
      IntegerTail(scaled)
  }

  lemma DivSelf(x: real)
    requires x > 0.0
    ensures x / x == 1.0
  {
    assert x / x * x == x;
  }

  /** `Math.round` of an integer is that integer. */
  lemma RoundInt(n: int)
    ensures Round(n as real) == n
  {
  }

  /** The smallest positive entry becomes 1 and then the multiplier, so the
      GCD is taken over a non-empty list. */
  lemma ScaledHasPositive(cleaned: seq<real>, multiplier: nat)
    requires HasPositive(cleaned) && multiplier >= 1
    ensures |Positives(Scaled(Ratios(cleaned), multiplier))| > 0
  {
    var m := MinPositive(cleaned);
    var k :| 0 <= k < |cleaned| && cleaned[k] == m;
    var ns := Ratios(cleaned);
    DivSelf(m);
    assert ns[k] == 1.0;
    assert ns[k] * multiplier as real == multiplier as real;
    RoundInt(multiplier);
    var scaled := Scaled(ns, multiplier);
    assert scaled[k] == multiplier;
    assert scaled[k] in Positives(scaled);
  }

  /** `normalizeCoefficients(coefficients)`. */
  method NormalizeCoefficients(coefficients: seq<real>) returns (r: seq<nat>)
    ensures r == Normalized(coefficients)
  {
    var cleaned := Cleaned(coefficients);
    if !HasPositive(cleaned) {
      return seq(|coefficients|, _ => 1);
    }
    var normalized := Ratios(cleaned);
    var multiplier := FindMultiplier(normalized);
    ScaledHasPositive(cleaned, multiplier);
    var rounded := Scaled(normalized, multiplier);
    var gcd := FindGcd(Positives(rounded));
    if gcd > 1 {
      rounded := DivideBy(rounded, gcd);
    }
    r := ClampToOne(rounded);
  }

  // ---------------------------------------------------------------------------
  // Properties of normalizeCoefficients

  /** When no entry reaches 1e-10 the result is all ones. */
  lemma NoPositiveGivesOnes(coefficients: seq<real>)
    requires forall i :: 0 <= i < |coefficients| ==> coefficients[i] < Tiny
    ensures Normalized(coefficients) == seq(|coefficients|, _ => 1)
  {
    var cleaned := Cleaned(coefficients);
    assert !HasPositive(cleaned) by {
      forall i | 0 <= i < |cleaned| ensures cleaned[i] <= 0.0 { }
    }
  }

  /** Dividing an exact multiple rounds to the exact quotient, and a
      non-positive entry stays non-positive. */
  lemma DivideEntry(n: int, g: nat)
    requires g > 0
    ensures Divides(g, n) ==> g * Round(n as real / g as real) == n
    ensures n <= 0 ==> Round(n as real / g as real) <= 0
  {
    if Divides(g, n) {
      var q :| n == g * q;
      assert n as real == (g as real) * (q as real);
      assert n as real / g as real == q as real;
      RoundInt(q);
    }
    if n <= 0 {
      assert n as real / g as real <= 0.0;
    }
  }

  /** No integer greater than 1 divides every entry. */
  ghost predicate NoCommonDivisor(ns: seq<int>) {
    forall d: nat :: DividesAll(d, ns) ==> d <= 1
  }

  /** `d` divides the quotient `q` of `n` by `g`, so `d·g` divides `n`. */
  lemma ProductDivides(d: nat, g: nat, q: int, n: int)
    requires g > 0 && n == g * q && Divides(d, q)
    ensures Divides(d * g, n)
  {
    var k :| q == d * k;
    assert n == (d * g) * k;
  }

  /** A positive multiple of `a` is at least `a`. */
  lemma DivisorBound(a: nat, b: nat)
    requires b > 0 && Divides(a, b)
    ensures a <= b
  {
    var k :| b == a * k;
    assert k > 0;
    assert a * k >= a * 1;
  }

  function NatProduct(d: nat, g: nat): (e: nat)
    ensures e == d * g
  {
    d * g
  }

  lemma ProductBound(d: nat, g: nat)
    requires g > 0 && d * g <= g
    ensures d <= 1
  {
  }

  /** An entry of the tail that stays positive is the quotient of a
      positive entry whose every divisor `d`, times the GCD, divides it. */
  lemma TailEntryDivides(n: int, g: nat, d: nat)
    requires g >= 1 && Divides(g, n)
    requires var t := if g > 1 then Round(n as real / g as real) else n;
      t >= 1 && Divides(d, t)
    ensures n > 0 && Divides(d * g, n)
  {
    var t := if g > 1 then Round(n as real / g as real) else n;
    DivideEntry(n, g);
    if g > 1 {
      ProductDivides(d, g, t, n);
    } else {
      assert d * g == d;
    }
  }

  /** When no entry is clamped, `d` times the GCD divides every positive
      entry, so `d` is at most 1. */
  lemma UnclampedTail(ns: seq<int>, d: nat)
    requires |Positives(ns)| > 0
    requires var g := FindGcd(Positives(ns));
      var divided := if g > 1 then DivideBy(ns, g) else ns;
      forall i :: 0 <= i < |ns| ==> divided[i] >= 1 && Divides(d, divided[i])
    ensures d <= 1
  {
    var ps := Positives(ns);
    var g := FindGcd(ps);
    FindGcdFacts(ps);
    UnclampedAll(ns, d, g, if g > 1 then DivideBy(ns, g) else ns);
    DivisorBound(d * g, g);
    ProductBound(d, g);
  }

  lemma UnclampedAll(ns: seq<int>, d: nat, g: nat, divided: seq<int>)
    requires |Positives(ns)| > 0 && g == FindGcd(Positives(ns))
    requires divided == if g > 1 then DivideBy(ns, g) else ns
    requires forall i :: 0 <= i < |ns| ==> divided[i] >= 1 && Divides(d, divided[i])
    ensures DividesAll(d * g, Positives(ns))
  {
    var ps := Positives(ns);
    var e: nat := NatProduct(d, g);
    assert AllDividedBy(divided, |ns|, d);
    forall k | 0 <= k < |ps| ensures Divides(e, ps[k]) {
      UnclampedPositive(ns, d, g, divided, k);
    }
  }

  /** The first `n` entries are at least 1 and divisible by `d`. */
  ghost predicate AllDividedBy(divided: seq<int>, n: nat, d: nat) {
    n <= |divided| && forall i :: 0 <= i < n ==> divided[i] >= 1 && Divides(d, divided[i])
  }

  lemma UnclampedPositive(ns: seq<int>, d: nat, g: nat, divided: seq<int>, k: nat)
    requires k < |Positives(ns)| && g == FindGcd(Positives(ns))
    requires divided == if g > 1 then DivideBy(ns, g) else ns
    requires AllDividedBy(divided, |ns|, d)
    ensures Divides(d * g, Positives(ns)[k])
  {
    var v := Positives(ns)[k];
    assert v in ns;
    var i :| 0 <= i < |ns| && ns[i] == v;
    assert divided[i] >= 1 && Divides(d, divided[i]);
    UnclampedEntry(ns, d, g, i);
  }

  lemma UnclampedEntry(ns: seq<int>, d: nat, g: nat, i: nat)
    requires |Positives(ns)| > 0 && g == FindGcd(Positives(ns)) && i < |ns| && ns[i] in Positives(ns)
    requires var divided := if g > 1 then DivideBy(ns, g) else ns;
      divided[i] >= 1 && Divides(d, divided[i])
    ensures Divides(d * g, ns[i])
  {
    FindGcdFacts(Positives(ns));
    assert Divides(g, ns[i]);
    assert (if g > 1 then DivideBy(ns, g) else ns)[i] == if g > 1 then Round(ns[i] as real / g as real) else ns[i];
    TailEntryDivides(ns[i], g, d);
  }

  /** After dividing by the GCD of the positive entries, those entries share
      no divisor greater than 1, whether or not other entries are clamped
      afterwards. */
  lemma DividedCoprime(ns: seq<int>)
    requires |Positives(ns)| > 0
    ensures var g := FindGcd(Positives(ns));
      NoCommonDivisor(Positives(if g > 1 then DivideBy(ns, g) else ns))
  {
    var ps := Positives(ns);
    var g := FindGcd(ps);
    var divided := if g > 1 then DivideBy(ns, g) else ns;
    FindGcdFacts(ps);
    forall d: nat | DividesAll(d, Positives(divided)) ensures d <= 1 {
      var e := NatProduct(d, g);
      DividedCommonDivisor(ns, d, g, divided);
      assert Divides(e, g);
      DivisorBound(e, g);
      ProductBound(d, g);
    }
  }

  lemma DividedCommonDivisor(ns: seq<int>, d: nat, g: nat, divided: seq<int>)
    requires |Positives(ns)| > 0 && g == FindGcd(Positives(ns))
    requires divided == if g > 1 then DivideBy(ns, g) else ns
    requires DividesAll(d, Positives(divided))
    ensures DividesAll(NatProduct(d, g), Positives(ns))
  {
    var ps := Positives(ns);
    forall k | 0 <= k < |ps| ensures Divides(NatProduct(d, g), ps[k]) {
      DividedPositive(ns, d, g, divided, k);
    }
  }

  lemma DividedPositive(ns: seq<int>, d: nat, g: nat, divided: seq<int>, k: nat)
    requires k < |Positives(ns)| && g == FindGcd(Positives(ns))
    requires divided == if g > 1 then DivideBy(ns, g) else ns
    requires DividesAll(d, Positives(divided))
    ensures Divides(NatProduct(d, g), Positives(ns)[k])
  {
    var v := Positives(ns)[k];
    assert v in ns;
    var i :| 0 <= i < |ns| && ns[i] == v;
    QuotientPositive(ns, g, divided, i);
    var qs := Positives(divided);
    assert divided[i] in qs;
    var j :| 0 <= j < |qs| && qs[j] == divided[i];
    assert Divides(d, divided[i]);
    UnclampedEntry(ns, d, g, i);
  }

  /** A positive entry stays positive after the division. */
  lemma QuotientPositive(ns: seq<int>, g: nat, divided: seq<int>, i: nat)
    requires |Positives(ns)| > 0 && g == FindGcd(Positives(ns))
    requires divided == if g > 1 then DivideBy(ns, g) else ns
    requires i < |ns| && ns[i] > 0
    ensures divided[i] >= 1
  {
    var ps := Positives(ns);
    FindGcdFacts(ps);
    assert ns[i] in ps;
    var k :| 0 <= k < |ps| && ps[k] == ns[i];
    assert Divides(g, ns[i]);
    if g > 1 {
      DivideEntry(ns[i], g);
      assert divided[i] == Round(ns[i] as real / g as real);
      PositiveFactor(g, divided[i], ns[i]);
    }
  }

  lemma PositiveFactor(g: nat, q: int, n: int)
    requires g > 0 && g * q == n && n > 0
    ensures q >= 1
  {
  }

  /** The integer tail leaves entries with no common divisor greater than 1. */
  lemma IntegerTailCoprime(ns: seq<int>)
    requires |Positives(ns)| > 0
    ensures NoCommonDivisor(IntegerTail(ns))
  {
    var g := FindGcd(Positives(ns));
    var divided := if g > 1 then DivideBy(ns, g) else ns;
    var r := IntegerTail(ns);
    assert r == ClampToOne(divided);
    forall d: nat | DividesAll(d, r) ensures d <= 1 {
      if exists i :: 0 <= i < |ns| && divided[i] < 1 {
        var i :| 0 <= i < |ns| && divided[i] < 1;
        assert r[i] == 1 && Divides(d, r[i]);
        DivisorBound(d, 1);
      } else {
        forall i | 0 <= i < |ns| ensures divided[i] >= 1 && Divides(d, divided[i]) {
          assert Divides(d, r[i]) && r[i] == divided[i];
        }
        UnclampedTail(ns, d);
      }
    }
  }

  /** The normalised coefficients of a non-empty vector share no divisor
      greater than 1. */
  lemma NormalizedCoprime(coefficients: seq<real>)
    requires |coefficients| > 0
    ensures NoCommonDivisor(Normalized(coefficients))
  {
    var cleaned := Cleaned(coefficients);
    var r := Normalized(coefficients);
    if !HasPositive(cleaned) {
      forall d: nat | DividesAll(d, r) ensures d <= 1 {
        assert Divides(d, r[0]);
      }
    } else {
      var ns := Ratios(cleaned);
      ScaledHasPositive(cleaned, FirstMultiplier(ns, 1));
      IntegerTailCoprime(Scaled(ns, FirstMultiplier(ns, 1)));
    }
  }

  // ===========================================================================
  // formatEquation

  /** One compound: the coefficient only when it exceeds 1, the formula,
      and the state in parentheses when there is a non-empty one. */
  function FormatCompound(c: ParsedCompound): string {
    CoefficientText(c.coefficient) + c.formula + StateText(c.state)
  }

  function CoefficientText(n: nat): string {
    if n > 1 then NatToString(n) else ""
  }

  function StateText(state: Option<string>): string {
    if state.Some? && state.value != [] then "(" + state.value + ")" else ""
  }

  function FormatSide(compounds: seq<ParsedCompound>): string {
    Join(seq(|compounds|, i requires 0 <= i < |compounds| => FormatCompound(compounds[i])), " + ")
  }

  /** `formatEquation(parsed)` */
  function FormatEquation(parsed: ParsedEquation): string {
    FormatSide(parsed.reactants) + " \U{2192} " + FormatSide(parsed.products)
  }

  /** The characters `formatCompound` can print for a compound whose formula
      is made of element symbols, digits and parentheses. */
  predicate FormulaChar(c: char) {
    IsUpper(c) || IsLower(c) || IsDigit(c) || c == '(' || c == ')'
  }

  /** A compound whose printed text reads back as its formula, coefficient
      and state: a positive coefficient, a formula of symbols, digits and
      parentheses that does not start with a digit (or it would be read as
      part of the coefficient) and does not end in a state marker when there
      is no state, and a state, if any, of one or more state letters. */
  predicate Printable(c: ParsedCompound) {
    c.coefficient >= 1 && |c.formula| > 0 && !IsDigit(c.formula[0]) &&
    (forall k :: 0 <= k < |c.formula| ==> FormulaChar(c.formula[k])) &&
    (c.state.None? ==> forall p: nat :: p < |c.formula| ==> !EndsInStateAt(c.formula, p)) &&
    (c.state.Some? ==> |c.state.value| > 0 && StateLetterRun(c.state.value))
  }

  /** A printable compound whose entries are its formula's own counts, as
      `parseCompound` makes them: the printed equation gives it back. */
  predicate Reparsable(c: ParsedCompound) {
    Printable(c) && c.elements == FormulaCounts(c.formula)
  }

  /** The printed compound starts with the coefficient's digits exactly
      when the coefficient exceeds 1, and with the formula otherwise. */
  lemma FormatCompoundCoefficient(c: ParsedCompound)
    requires Printable(c)
    ensures var t := FormatCompound(c);
      c.coefficient > 1 ==> t[..|NatToString(c.coefficient)|] == NatToString(c.coefficient)
    ensures var t := FormatCompound(c);
      c.coefficient <= 1 ==> t[..|c.formula|] == c.formula
  {
  }

  /** The printed compound ends with the state in parentheses exactly when
      there is a (non-empty) state, and with the formula otherwise. */
  lemma FormatCompoundState(c: ParsedCompound)
    requires Printable(c)
    ensures var t := FormatCompound(c);
      c.state.Some? ==> |t| >= |c.state.value| + 2 && t[|t| - |c.state.value| - 2..] == "(" + c.state.value + ")"
    ensures var t := FormatCompound(c);
      c.state.None? ==> |t| >= |c.formula| && t[|t| - |c.formula|..] == c.formula
  {
  }

  /** The formula and state text of a printable compound are made of
      formula characters. */
  lemma BodyChars(c: ParsedCompound)
    requires Printable(c)
    ensures var rest := c.formula + StateText(c.state);
      |rest| > 0 && forall k :: 0 <= k < |rest| ==> FormulaChar(rest[k])
  {
    var state := StateText(c.state);
    var rest := c.formula + state;
    forall k | 0 <= k < |rest| ensures FormulaChar(rest[k]) {
      if k < |c.formula| {
        assert rest[k] == c.formula[k];
      } else {
        assert rest[k] == state[k - |c.formula|];
        if c.state.Some? && 0 < k - |c.formula| < |state| - 1 {
          assert state[k - |c.formula|] == c.state.value[k - |c.formula| - 1];
        }
      }
    }
  }

  /** The printed compound is non-empty and made of formula characters. */
  lemma FormatCompoundChars(c: ParsedCompound)
    requires Printable(c)
    ensures var t := FormatCompound(c);
      |t| > 0 && forall k :: 0 <= k < |t| ==> FormulaChar(t[k])
  {
    var coef := CoefficientText(c.coefficient);
    var rest := c.formula + StateText(c.state);
    assert FormatCompound(c) == coef + rest;
    BodyChars(c);
    DigitsThenFormulaChars(coef, rest);
  }

  lemma DigitsThenFormulaChars(coef: string, rest: string)
    requires AllDigits(coef) && forall k :: 0 <= k < |rest| ==> FormulaChar(rest[k])
    ensures forall k :: 0 <= k < |coef + rest| ==> FormulaChar((coef + rest)[k])
  {
    var t := coef + rest;
    forall k | 0 <= k < |t| ensures FormulaChar(t[k]) {
      if k < |coef| {
        assert t[k] == coef[k] && IsDigit(coef[k]);
      } else {
        assert t[k] == rest[k - |coef|];
      }
    }
  }

  /** Text of formula characters is its own trim. */
  lemma FormulaTextTrimmed(t: string)
    requires |t| > 0 && forall k :: 0 <= k < |t| ==> FormulaChar(t[k])
    ensures Trim(t) == t
  {
    assert FormulaChar(t[0]) && FormulaChar(t[|t| - 1]);
    TrimUnchanged(t);
  }

  /** A printable formula is its own trim. */
  lemma FormulaTrimmed(c: ParsedCompound)
    requires Printable(c)
    ensures Trim(c.formula) == c.formula
  {
    assert FormulaChar(c.formula[0]) && FormulaChar(c.formula[|c.formula| - 1]);
    TrimUnchanged(c.formula);
  }

  /** A printed compound and the text after its coefficient are their own
      trims. */
  lemma PrintedTrimmed(c: ParsedCompound)
    requires Printable(c)
    ensures Trim(FormatCompound(c)) == FormatCompound(c)
    ensures Trim(c.formula + StateText(c.state)) == c.formula + StateText(c.state)
  {
    FormatCompoundChars(c);
    FormulaTextTrimmed(FormatCompound(c));
    BodyChars(c);
    FormulaTextTrimmed(c.formula + StateText(c.state));
  }

  /** The digit run that starts a printed compound is the coefficient's
      text. */
  lemma PrintedDigits(c: ParsedCompound)
    requires Printable(c)
    ensures var t := FormatCompound(c);
      var d := DigitEnd(t, 0);
      d == |CoefficientText(c.coefficient)| &&
      t[..d] == CoefficientText(c.coefficient) && t[d..] == c.formula + StateText(c.state)
  {
    var coef := CoefficientText(c.coefficient);
    var rest := c.formula + StateText(c.state);
    var t := FormatCompound(c);
    assert t == coef + rest;
    assert t[..|coef|] == coef && t[|coef|..] == rest;
    assert rest[0] == c.formula[0];
    forall m | 0 <= m < |coef| ensures IsDigit(t[m]) {
      assert t[m] == coef[m];
    }
    DigitEndAt(t, 0, |coef|);
  }

  /** The coefficient of a printed compound is read back, and what follows
      it is the formula and the state text. */
  lemma PrintedCoefficient(c: ParsedCompound)
    requires Printable(c)
    ensures SplitCoefficient(FormatCompound(c)) == (c.coefficient, c.formula + StateText(c.state))
  {
    if c.coefficient > 1 {
      PrintedCoefficientValue(c);
      PrintedCoefficientRest(c);
    } else {
      PrintedNoCoefficient(c);
    }
  }

  lemma PrintedCoefficientValue(c: ParsedCompound)
    requires Printable(c) && c.coefficient > 1
    ensures SplitCoefficient(FormatCompound(c)).0 == c.coefficient
  {
    var t := FormatCompound(c);
    PrintedDigits(c);
    SplitCoefficientAt(t, DigitEnd(t, 0));
    DecimalOfNatToString(c.coefficient);
  }

  lemma PrintedCoefficientRest(c: ParsedCompound)
    requires Printable(c) && c.coefficient > 1
    ensures SplitCoefficient(FormatCompound(c)).1 == c.formula + StateText(c.state)
  {
    var t := FormatCompound(c);
    PrintedTrimmed(c);
    PrintedDigits(c);
    SplitCoefficientAt(t, DigitEnd(t, 0));
  }

  lemma PrintedNoCoefficient(c: ParsedCompound)
    requires Printable(c) && c.coefficient <= 1
    ensures SplitCoefficient(FormatCompound(c)) == (c.coefficient, c.formula + StateText(c.state))
  {
    var t := FormatCompound(c);
    PrintedDigits(c);
    SplitCoefficientAt(t, DigitEnd(t, 0));
  }

  lemma StateTextSlice(formula: string, st: string)
    requires st != []
    ensures var rest := formula + StateText(Some(st));
      |rest| == |formula| + |st| + 2 && rest[..|formula|] == formula &&
      rest[|formula| + 1..|rest| - 1] == st
  {
    var rest := formula + StateText(Some(st));
    assert rest == formula + "(" + st + ")";
    assert rest[..|formula|] == formula;
    assert rest[|formula| + 1..|rest| - 1] == st;
  }

  /** A printed state is a state marker at the end of the text. */
  lemma PrintedMarker(c: ParsedCompound)
    requires Printable(c) && c.state.Some?
    ensures EndsInStateAt(c.formula + StateText(c.state), |c.formula|)
  {
    var rest := c.formula + StateText(c.state);
    var st := c.state.value;
    assert rest[|c.formula|] == '(' && rest[|rest| - 1] == ')';
    assert forall j :: |c.formula| < j < |rest| - 1 ==> rest[j] == st[j - |c.formula| - 1];
  }

  /** The state marker of a printed compound is found again, and the text
      before it is the formula. */
  lemma PrintedState(c: ParsedCompound)
    requires Printable(c)
    ensures var rest := c.formula + StateText(c.state);
      FormulaPart(rest) == c.formula && StatePart(rest) == c.state
  {
    if c.state.Some? {
      PrintedStateLetters(c);
      PrintedFormula(c);
    } else {
      var rest := c.formula + StateText(c.state);
      assert rest == c.formula;
      MarkerSplit(rest);
    }
  }

  lemma PrintedStateLetters(c: ParsedCompound)
    requires Printable(c) && c.state.Some?
    ensures StatePart(c.formula + StateText(c.state)) == c.state
  {
    var rest := c.formula + StateText(c.state);
    PrintedMarker(c);
    StateTextSlice(c.formula, c.state.value);
    StateSuffixComplete(rest, |c.formula|);
  }

  lemma PrintedFormula(c: ParsedCompound)
    requires Printable(c) && c.state.Some?
    ensures FormulaPart(c.formula + StateText(c.state)) == c.formula
  {
    var rest := c.formula + StateText(c.state);
    PrintedMarker(c);
    StateTextSlice(c.formula, c.state.value);
    StateSuffixComplete(rest, |c.formula|);
    FormulaTrimmed(c);
  }

  /** `parseCompound` reads a printed compound back into that compound. */
  lemma FormatCompoundRoundTrip(c: ParsedCompound)
    requires Reparsable(c)
    ensures ParseCompound(FormatCompound(c)) == c
  {
    PrintedTrimmed(c);
    PrintedCoefficient(c);
    PrintedState(c);
    ParseCompoundFrom(FormatCompound(c), c, c.formula + StateText(c.state));
  }

  /** An empty side prints as nothing and a one-compound side as that
      compound alone, with no separator. */
  lemma FormatSideShort(cs: seq<ParsedCompound>)
    ensures |cs| == 0 ==> FormatSide(cs) == ""
    ensures |cs| == 1 ==> FormatSide(cs) == FormatCompound(cs[0])
  {
  }

  /** Two or more compounds are printed with ` + ` between them. */
  lemma FormatSideCons(cs: seq<ParsedCompound>)
    requires |cs| >= 2
    ensures FormatSide(cs) == FormatCompound(cs[0]) + " + " + FormatSide(cs[1..])
  {
    var ps := seq(|cs|, i requires 0 <= i < |cs| => FormatCompound(cs[i]));
    var tail := cs[1..];
    var qs := seq(|tail|, i requires 0 <= i < |tail| => FormatCompound(tail[i]));
    forall i | 0 <= i < |qs| ensures ps[1..][i] == qs[i] {
      assert ps[1..][i] == ps[i + 1] && tail[i] == cs[i + 1];
    }
    assert ps[1..] == qs;
    assert Join(ps, " + ") == ps[0] + " + " + Join(ps[1..], " + ");
  }

  /** A character a printed side can hold. */
  predicate SideChar(c: char) {
    FormulaChar(c) || c == ' ' || c == '+'
  }

  /** Printed side text: side characters, and no whitespace at either end. */
  predicate SideText(t: string) {
    (forall k :: 0 <= k < |t| ==> SideChar(t[k])) &&
    (t == [] || (!IsWhitespace(t[0]) && !IsWhitespace(t[|t| - 1])))
  }

  lemma SideTextOne(h: string)
    requires |h| > 0 && forall k :: 0 <= k < |h| ==> FormulaChar(h[k])
    ensures SideText(h)
  {
    assert FormulaChar(h[0]) && FormulaChar(h[|h| - 1]);
  }

  lemma SideTextCons(h: string, r: string)
    requires |h| > 0 && forall k :: 0 <= k < |h| ==> FormulaChar(h[k])
    requires SideText(r) && r != []
    ensures SideText(h + " + " + r)
  {
    var t := h + " + " + r;
    forall k | 0 <= k < |t| ensures SideChar(t[k]) {
      if k < |h| {
        assert t[k] == h[k];
      } else if k >= |h| + 3 {
        assert t[k] == r[k - |h| - 3];
      }
    }
    assert t[0] == h[0] && FormulaChar(h[0]);
    assert t[|t| - 1] == r[|r| - 1];
  }

  /** A printed side of printable compounds is side text, and it is empty
      only for an empty side. */
  lemma {:induction false} FormatSideShape(cs: seq<ParsedCompound>)
    requires forall i :: 0 <= i < |cs| ==> Printable(cs[i])
    ensures SideText(FormatSide(cs))
    ensures |cs| > 0 ==> FormatSide(cs) != []
    decreases |cs|
  {
    if |cs| == 1 {
      assert FormatSide(cs) == FormatCompound(cs[0]);
      FormatCompoundChars(cs[0]);
      SideTextOne(FormatCompound(cs[0]));
    } else if |cs| >= 2 {
      FormatSideCons(cs);
      FormatCompoundChars(cs[0]);
      FormatSideShape(cs[1..]);
      SideTextCons(FormatCompound(cs[0]), FormatSide(cs[1..]));
    }
  }

  lemma BlankAvoidsPlus(a: string)
    requires IsBlank(a)
    ensures AvoidsChars(a, "+")
  {
    forall k | 0 <= k < |a| ensures a[k] !in "+" {
      assert IsWhitespace(a[k]);
    }
  }

  /** A printed compound between blanks holds no `+`. */
  lemma PieceAvoidsPlus(a: string, c: ParsedCompound, b: string)
    requires IsBlank(a) && IsBlank(b) && Printable(c)
    ensures AvoidsChars(a + FormatCompound(c) + b, "+")
  {
    var h := FormatCompound(c);
    var p := a + h + b;
    FormatCompoundChars(c);
    forall k | 0 <= k < |p| ensures p[k] !in "+" {
      if k < |a| {
        assert p[k] == a[k] && IsWhitespace(a[k]);
      } else if k < |a| + |h| {
        assert p[k] == h[k - |a|] && FormulaChar(h[k - |a|]);
      } else {
        assert p[k] == b[k - |a| - |h|] && IsWhitespace(b[k - |a| - |h|]);
      }
    }
  }

  /** A printed compound between blanks is read back as that compound. */
  lemma PieceRoundTrip(a: string, c: ParsedCompound, b: string)
    requires IsBlank(a) && IsBlank(b) && Reparsable(c)
    ensures PieceCompounds(a + FormatCompound(c) + b) == [c]
  {
    var h := FormatCompound(c);
    FormatCompoundChars(c);
    assert FormulaChar(h[0]) && FormulaChar(h[|h| - 1]);
    TrimPadded(a, h, b);
    assert !IsBlank(a + h + b) by {
      assert (a + h + b)[|a|] == h[0];
    }
    FormatCompoundRoundTrip(c);
  }

  lemma SideRoundTripEmpty(a: string)
    requires IsBlank(a)
    ensures ParsePieces(Split(a, "+")) == []
  {
    BlankAvoidsPlus(a);
    SplitAvoiding(a, "+");
    ParsePiecesCons(a, []);
  }

  lemma SideRoundTripOne(a: string, c: ParsedCompound)
    requires IsBlank(a) && Reparsable(c)
    ensures ParsePieces(Split(a + FormatCompound(c), "+")) == [c]
  {
    var p := a + FormatCompound(c) + "";
    assert a + FormatCompound(c) == p;
    PieceAvoidsPlus(a, c, "");
    SplitAvoiding(p, "+");
    PieceRoundTrip(a, c, "");
    ParsePiecesCons(p, []);
  }

  /** The first `+` of a printed side of two or more compounds ends the
      first compound's piece. */
  lemma SideSplitCons(a: string, cs: seq<ParsedCompound>)
    requires IsBlank(a) && |cs| >= 2 && Printable(cs[0])
    ensures Split(a + FormatSide(cs), "+") ==
      [a + FormatCompound(cs[0]) + " "] + Split(" " + FormatSide(cs[1..]), "+")
  {
    FormatSideCons(cs);
    PieceAvoidsPlus(a, cs[0], " ");
    SplitAtPlus(a, FormatCompound(cs[0]), FormatSide(cs[1..]));
  }

  lemma SplitAtPlus(a: string, h: string, r: string)
    requires AvoidsChars(a + h + " ", "+")
    ensures Split(a + (h + " + " + r), "+") == [a + h + " "] + Split(" " + r, "+")
  {
    assert a + (h + " + " + r) == (a + h + " ") + "+" + (" " + r);
    SplitAtSeparator(a + h + " ", " " + r, "+");
  }

  /** `parseCompounds` reads a printed side, after any leading blank, back
      into its compounds. */
  lemma {:induction false} FormatSideRoundTrip(a: string, cs: seq<ParsedCompound>)
    requires IsBlank(a)
    requires forall i :: 0 <= i < |cs| ==> Reparsable(cs[i])
    ensures ParsePieces(Split(a + FormatSide(cs), "+")) == cs
    decreases |cs|
  {
    if |cs| == 0 {
      assert a + FormatSide(cs) == a;
      SideRoundTripEmpty(a);
    } else if |cs| == 1 {
      assert FormatSide(cs) == FormatCompound(cs[0]);
      SideRoundTripOne(a, cs[0]);
    } else {
      FormatSideRoundTrip(" ", cs[1..]);
      SideRoundTripCons(a, cs);
    }
  }

  lemma SideRoundTripCons(a: string, cs: seq<ParsedCompound>)
    requires IsBlank(a) && |cs| >= 2 && Reparsable(cs[0])
    requires ParsePieces(Split(" " + FormatSide(cs[1..]), "+")) == cs[1..]
    ensures ParsePieces(Split(a + FormatSide(cs), "+")) == cs
  {
    SideSplitCons(a, cs);
    PieceRoundTrip(a, cs[0], " ");
    PiecesCons(a + FormatCompound(cs[0]) + " ", Split(" " + FormatSide(cs[1..]), "+"), cs);
  }

  lemma PiecesCons(p: string, tail: seq<string>, cs: seq<ParsedCompound>)
    requires |cs| >= 1 && PieceCompounds(p) == [cs[0]] && ParsePieces(tail) == cs[1..]
    ensures ParsePieces([p] + tail) == cs
  {
    ParsePiecesCons(p, tail);
    assert cs == [cs[0]] + cs[1..];
  }

  lemma SideNoArrow(t: string)
    requires SideText(t)
    ensures '\U{2192}' !in t && '=' !in t
  {
    forall k | 0 <= k < |t| ensures t[k] != '\U{2192}' && t[k] != '=' {
      assert SideChar(t[k]);
    }
  }

  lemma SideAvoidsArrow(r: string, q: string)
    requires SideText(r) && SideText(q)
    ensures AvoidsChars(r + " ", "->") && AvoidsChars(" " + q, "->")
  {
    forall k | 0 <= k < |r + " "| ensures (r + " ")[k] !in "->" {
      if k < |r| {
        assert (r + " ")[k] == r[k] && SideChar(r[k]);
      }
    }
    forall k | 0 <= k < |" " + q| ensures (" " + q)[k] !in "->" {
      if k > 0 {
        assert (" " + q)[k] == q[k - 1] && SideChar(q[k - 1]);
      }
    }
  }

  /** Rewriting the printed equation turns its arrow into `->` and
      changes nothing else. */
  lemma PrintedArrowNormalized(r: string, q: string)
    requires SideText(r) && SideText(q)
    ensures NormalizeArrows(r + " \U{2192} " + q) == (r + " ") + "->" + (" " + q)
  {
    SideNoArrow(r);
    SideNoArrow(q);
    NormalizeArrowsIdentity(r);
    NormalizeArrowsIdentity(q);
    ArrowRewritten(r, q);
    ArrowRegrouped(r, q);
  }

  lemma ArrowRewritten(r: string, q: string)
    requires NormalizeArrows(r) == r && NormalizeArrows(q) == q
    ensures NormalizeArrows(r + (" \U{2192} " + q)) == r + (" -> " + q)
  {
    NormalizeArrowsAppend(r, " \U{2192} " + q);
    NormalizeArrowsAppend(" \U{2192} ", q);
    assert NormalizeArrows(" \U{2192} ") == " -> ";
  }

  lemma ArrowRegrouped(r: string, q: string)
    ensures r + " \U{2192} " + q == r + (" \U{2192} " + q)
    ensures r + (" -> " + q) == (r + " ") + "->" + (" " + q)
  {
  }

  /** The printed arrow is the only `->` of the rewritten text, so the split
      gives the two sides with the spaces around the arrow. */
  lemma PrintedArrowSplit(r: string, q: string)
    requires SideText(r) && SideText(q)
    ensures Split(NormalizeArrows(r + " \U{2192} " + q), "->") == [r + " ", " " + q]
  {
    PrintedArrowNormalized(r, q);
    SideAvoidsArrow(r, q);
    SplitAtSeparator(r + " ", " " + q, "->");
    SplitAvoiding(" " + q, "->");
  }

  lemma SidesTrimmed(r: string, q: string)
    requires SideText(r) && SideText(q)
    ensures Trim(r + " ") == r && Trim(" " + q) == q
  {
    TrimPadded("", r, " ");
    assert "" + r + " " == r + " ";
    TrimPadded(" ", q, "");
    assert " " + q + "" == " " + q;
  }

  /** Parsing the printed equation gives the equation back: the balanced
      text that `balanceEquation` returns reads as the balanced equation. */
  lemma FormatEquationRoundTrip(parsed: ParsedEquation)
    requires forall i :: 0 <= i < |parsed.reactants| ==> Reparsable(parsed.reactants[i])
    requires forall i :: 0 <= i < |parsed.products| ==> Reparsable(parsed.products[i])
    ensures ParseEquation(FormatEquation(parsed)) == Some(parsed)
  {
    var r := FormatSide(parsed.reactants);
    var q := FormatSide(parsed.products);
    FormatSideShape(parsed.reactants);
    FormatSideShape(parsed.products);
    PrintedArrowSplit(r, q);
    ParseEquationFrom(FormatEquation(parsed), r + " ", " " + q);
    SidesTrimmed(r, q);
    SidesRoundTrip(parsed);
  }

  lemma SidesRoundTrip(parsed: ParsedEquation)
    requires forall i :: 0 <= i < |parsed.reactants| ==> Reparsable(parsed.reactants[i])
    requires forall i :: 0 <= i < |parsed.products| ==> Reparsable(parsed.products[i])
    ensures ParseCompounds(FormatSide(parsed.reactants)) == parsed.reactants
    ensures ParseCompounds(FormatSide(parsed.products)) == parsed.products
  {
    FormatSideRoundTrip("", parsed.reactants);
    assert "" + FormatSide(parsed.reactants) == FormatSide(parsed.reactants);
    FormatSideRoundTrip("", parsed.products);
    assert "" + FormatSide(parsed.products) == FormatSide(parsed.products);
  }

  // ===========================================================================
  // generateSteps

  const CountTitle := "Count atoms on each side"
  const ImbalanceTitle := "Identify imbalanced elements"
  const MatrixTitle := "Build atom matrix and solve"
  const VerifyTitle := "Verify balance"

  /** The `{reactants, products}` record of every element, in element order. */
  function CountsOf(eq: ParsedEquation, elements: seq<string>): (r: seq<SideCounts>)
    ensures |r| == |elements|
  {
    seq(|elements|, i requires 0 <= i < |elements| =>
      SideCounts(elements[i], SideTotal(eq.reactants, elements[i]), SideTotal(eq.products, elements[i])))
  }

  /** The `elements.forEach` that fills a counts record. */
  method CountAtoms(eq: ParsedEquation, elements: seq<string>) returns (counts: seq<SideCounts>)
    ensures counts == CountsOf(eq, elements)
  {
    counts := [];
    var i := 0;
    while i < |elements|
      invariant 0 <= i <= |elements|
      invariant counts == CountsOf(eq, elements)[..i]
      decreases |elements| - i
    {
      var r := CountElementOnSide(eq.reactants, elements[i]);
      var p := CountElementOnSide(eq.products, elements[i]);
      counts := counts + [SideCounts(elements[i], r, p)];
      assert CountsOf(eq, elements)[..i + 1] == CountsOf(eq, elements)[..i] + [CountsOf(eq, elements)[i]];
      i := i + 1;
    }
    assert CountsOf(eq, elements)[..i] == CountsOf(eq, elements);
  }

  /** `elements.filter(el => counts[el].reactants !== counts[el].products)`,
      kept with their counts. */
  function Imbalanced(counts: seq<SideCounts>): (r: seq<SideCounts>)
    ensures |r| <= |counts|
    ensures forall c :: c in r <==> c in counts && c.reactants != c.products
    decreases |counts|
  {
    if counts == [] then []
    else (if counts[0].reactants != counts[0].products then [counts[0]] else []) + Imbalanced(counts[1..])
  }

  /** `generateSteps(original, balanced, elements, matrix, coefficients)`
      without the prose: the original counts, the imbalanced elements when
      there are any, the matrix with the coefficients, and the counts after
      balancing. */
  method GenerateSteps(original: ParsedEquation, balanced: ParsedEquation, elements: seq<string>,
                       matrix: seq<seq<int>>, coefficients: seq<nat>)
    returns (steps: seq<Step>)
    ensures var imbalanced := Imbalanced(CountsOf(original, elements));
      |steps| == (if imbalanced == [] then 3 else 4) &&
      steps[0] == Step(CountTitle, CountsOf(original, elements), None, None) &&
      (imbalanced != [] ==> steps[1] == Step(ImbalanceTitle, imbalanced, None, None))
    ensures steps[|steps| - 2] == Step(MatrixTitle, [], Some(matrix), Some(coefficients))
    ensures steps[|steps| - 1] == Step(VerifyTitle, CountsOf(balanced, elements), None, None)
    ensures forall i :: 0 <= i < |steps| ==>
      (steps[i].matrix.Some? <==> steps[i].title == MatrixTitle) &&
      (steps[i].coefficients.Some? <==> steps[i].title == MatrixTitle)
  {
    steps := [];
    var originalCounts := CountAtoms(original, elements);
    steps := steps + [Step(CountTitle, originalCounts, None, None)];
    var imbalanced := Imbalanced(originalCounts);
    if |imbalanced| > 0 {
      steps := steps + [Step(ImbalanceTitle, imbalanced, None, None)];
    }
    steps := steps + [Step(MatrixTitle, [], Some(matrix), Some(coefficients))];
    var balancedCounts := CountAtoms(balanced, elements);
    steps := steps + [Step(VerifyTitle, balancedCounts, None, None)];
  }

  /** The last step shows equal counts for every element exactly when the
      coefficients are a null vector of the matrix. */
  lemma VerifyStepBalancedIffNullVector(parsed: ParsedEquation, x: seq<nat>)
    requires |x| == |Compounds(parsed)|
    ensures var counts := CountsOf(ApplyCoefficients(parsed, x), UniqueElements(parsed));
      (forall i :: 0 <= i < |counts| ==> counts[i].reactants == counts[i].products) <==>
      (forall i :: 0 <= i < |AtomMatrix(parsed)| ==> Dot(AtomMatrix(parsed)[i], x) == 0)
  {
    var elements := UniqueElements(parsed);
    var counts := CountsOf(ApplyCoefficients(parsed, x), elements);
    var m := AtomMatrix(parsed);
    forall i | 0 <= i < |elements|
      ensures (counts[i].reactants == counts[i].products) <==> Dot(m[i], x) == 0
    {
      RowTimesCoefficients(parsed, x, elements[i]);
    }
  }

  // ===========================================================================
  // balanceEquation

  /** The two thrown errors, carrying the issues whose messages they join. */
  datatype BalanceError =
    | InvalidString(issues: seq<Issue>)
    | InvalidStructure(issues: seq<Issue>)

  /** The molecular weight entry of one compound: the computed one, or
      weight 0 with the compound's own entries when the computation throws. */
  function WeightEntry(c: ParsedCompound, mass: map<string, real>): MolecularWeight {
    var es := FormulaCounts(c.formula);
    if AllKnown(es, mass) then MolecularWeight(c.formula, Weight(es, mass), es)
    else MolecularWeight(c.formula, 0.0, c.elements)
  }

  /** `[...reactants, ...products].map(...)` with its `try`/`catch`. */
  method MolecularWeights(compounds: seq<ParsedCompound>, mass: map<string, real>)
    returns (weights: seq<MolecularWeight>)
    ensures |weights| == |compounds|
    ensures forall i :: 0 <= i < |compounds| ==> weights[i] == WeightEntry(compounds[i], mass)
  {
    weights := [];
    var i := 0;
    while i < |compounds|
      invariant 0 <= i <= |compounds|
      invariant |weights| == i
      invariant forall k :: 0 <= k < i ==> weights[k] == WeightEntry(compounds[k], mass)
      decreases |compounds| - i
    {
      var compound := compounds[i];
      var result := CalculateMolecularWeight(compound.formula, mass);
      match result {
        case Ok(w) =>
          weights := weights + [w];
        case Err(_) =>
          weights := weights + [MolecularWeight(compound.formula, 0.0, compound.elements)];
      }
      i := i + 1;
    }
  }

  /** An equation that passes the text check parses. */
  lemma ValidStringParses(equation: string)
    requires ValidateEquationString(equation).valid
    ensures ParseEquation(equation).Some?
  {
    ValidStringExactly(equation);
    var sides := Sides(equation);
    assert sides[0] != [] && sides[1] != [];
  }

  /** What a successful balance returns for a parsed equation: the
      normalised solution as coefficients, both equations printed, steps
      ending with the balanced counts, the classification, and one weight
      entry per compound, reactants then products. */
  ghost predicate SuccessFor(parsed: ParsedEquation, table: PeriodicTable, nullSpace: NullSpace, res: BalancedResult)
    requires nullSpace.Basis? ==> Rectangular(nullSpace.rows)
  {
    var coefficients := Normalized(SolveMatrix(AtomMatrix(parsed), nullSpace));
    var balanced := ApplyCoefficients(parsed, coefficients);
    res.original == FormatEquation(parsed) &&
    res.balanced == FormatEquation(balanced) &&
    res.coefficients == coefficients &&
    |res.steps| >= 3 &&
    res.steps[|res.steps| - 1] == Step(VerifyTitle, CountsOf(balanced, UniqueElements(parsed)), None, None) &&
    res.metadata.reactionType == Classify(parsed) &&
    |res.metadata.molecularWeights| == |Compounds(parsed)| &&
    forall i :: 0 <= i < |Compounds(parsed)| ==>
      res.metadata.molecularWeights[i] == WeightEntry(Compounds(parsed)[i], table.atomicMass)
  }

  /** Steps 4 to 11 of `balanceEquation`, once both checks have passed. */
  method BalanceParsed(parsed: ParsedEquation, table: PeriodicTable, nullSpace: NullSpace)
    returns (res: BalancedResult)
    requires nullSpace.Basis? ==> Rectangular(nullSpace.rows)
    ensures SuccessFor(parsed, table, nullSpace, res)
  {
    var matrix, elements, compounds := BuildAtomMatrix(parsed);
    var coefficients := SolveMatrix(matrix, nullSpace);
    var normalizedCoefficients := NormalizeCoefficients(coefficients);
    var balancedParsed := ApplyCoefficients(parsed, normalizedCoefficients);
    var original := FormatEquation(parsed);
    var balanced := FormatEquation(balancedParsed);
    var steps := GenerateSteps(parsed, balancedParsed, elements, matrix, normalizedCoefficients);
    var molecularWeights := MolecularWeights(compounds, table.atomicMass);
    var reactionInfo := ClassifyReaction(parsed);
    res := BalancedResult(original, balanced, normalizedCoefficients, steps,
      Metadata(reactionInfo.reactionType, molecularWeights));
  }

  /** `balanceEquation(equation)`, with `table` the periodic-table lookups
      and `nullSpace` what the null-space solver does for the atom matrix.
      An invalid text or an invalid parse fails before any matrix work. */
  method BalanceEquation(equation: string, table: PeriodicTable, nullSpace: NullSpace)
    returns (r: Result<BalancedResult, BalanceError>)
    requires nullSpace.Basis? ==> Rectangular(nullSpace.rows)
    ensures !ValidateEquationString(equation).valid ==>
      r == Err(InvalidString(ValidateEquationString(equation).errors))
    ensures ValidateEquationString(equation).valid ==> ParseEquation(equation).Some?
    ensures ValidateEquationString(equation).valid ==>
      var parsed := ParseEquation(equation).value;
      var report := MakeReport(ParsedIssues(parsed, table.known));
      (!report.valid ==> r == Err(InvalidStructure(report.errors))) &&
      (report.valid ==> r.Ok? && SuccessFor(parsed, table, nullSpace, r.value))
  {
    var stringValidation := ValidateEquationString(equation);
    if !stringValidation.valid {
      return Err(InvalidString(stringValidation.errors));
    }
    ValidStringParses(equation);
    var parsed := ParseEquation(equation).value;
    var validation := ValidateEquation(parsed, table);
    if !validation.valid {
      return Err(InvalidStructure(validation.errors));
    }
    var res := BalanceParsed(parsed, table, nullSpace);
    r := Ok(res);
  }
}
