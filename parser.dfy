/** The formula and equation parser (src/lib/chemistry/parser.ts).

    `parseFormula` scans a formula left to right: an uppercase letter starts
    an element symbol, an optional lowercase letter extends it, and a digit
    run gives its count; `(` opens a group whose matching `)` is found by
    depth counting, and the group is scanned again with the multiplier that
    follows it. The scan is modelled twice: `TokensFrom` is the reference
    definition (the sequence of symbol/count contributions, in scan order),
    and `ParseGroup` is the source's imperative loop, proved to fold those
    contributions into the `elements` record. */
module Parser {
  import opened Wrappers
  import opened JsString
  import opened ChemistryTypes

  // ===========================================================================
  // State notation: formula.replace(/\([slgaq]+\)/g, '')

  predicate IsStateLetter(c: char) {
    c == 's' || c == 'l' || c == 'g' || c == 'a' || c == 'q'
  }

  /** The end of the run of state letters that starts at `i`. */
  function StateRunEnd(s: string, i: nat): (k: nat)
    requires i <= |s|
    ensures i <= k <= |s|
    ensures forall j :: i <= j < k ==> IsStateLetter(s[j])
    ensures k < |s| ==> !IsStateLetter(s[k])
    decreases |s| - i
  {
    if i < |s| && IsStateLetter(s[i]) then StateRunEnd(s, i + 1) else i
  }

  /** A marker `(` + one or more state letters + `)` starts at index `i`. */
  predicate StateMarkerAt(s: string, i: nat)
    requires i <= |s|
  {
    i < |s| && s[i] == '(' &&
    var k := StateRunEnd(s, i + 1);
    k > i + 1 && k < |s| && s[k] == ')'
  }

  /** Every state marker removed, scanning left to right without rescanning
      what a removal joins together. */
  function StripStates(s: string): (r: string)
    ensures |r| <= |s|
    decreases |s|
  {
    if s == [] then []
    else if StateMarkerAt(s, 0) then StripStates(s[StateRunEnd(s, 1) + 1..])
    else [s[0]] + StripStates(s[1..])
  }

  /** A formula without `(` is left alone. */
  lemma {:induction false} StripStatesNoParen(s: string)
    requires '(' !in s
    ensures StripStates(s) == s
    decreases |s|
  {
    if s != [] {
      assert '(' !in s[1..];
      StripStatesNoParen(s[1..]);
    }
  }

  // ===========================================================================
  // The scan, as a reference definition

  /** Where the scan for the `)` matching an `(` stops: `depth` counts the
      open parentheses; the loop ends after the one that brings it to 0, or
      at the end of the string. */
  function CloseScan(s: string, j: nat, depth: int): (k: nat)
    requires j <= |s|
    ensures j <= k <= |s|
    ensures j < |s| && depth > 0 ==> j < k
    decreases |s| - j
  {
    if j < |s| && depth > 0 then
      CloseScan(s, j + 1, depth + (if s[j] == '(' then 1 else 0) - (if s[j] == ')' then 1 else 0))
    else j
  }

  /** The text of the group opened at `i` when the depth scan stopped at
      `j`: `str.substring(i + 1, j - 1)`, empty when the `(` is the last
      character (see `TokensAsWritten` for what the source does then). */
  function GroupContent(s: string, i: nat, j: nat): (g: string)
    requires i < j <= |s|
    ensures |g| < |s|
  {
    if j >= i + 2 then s[i + 1..j - 1] else []
  }

  /** The end of the symbol that starts with the uppercase letter at `i`. */
  function SymbolEnd(s: string, i: nat): (e: nat)
    requires i < |s|
    ensures i < e <= |s| && e <= i + 2
  {
    if i + 1 < |s| && IsLower(s[i + 1]) then i + 2 else i + 1
  }

  /** `numStr ? parseInt(numStr, 10) : 1` */
  function RunCount(ds: string): nat
    requires AllDigits(ds)
  {
    if ds == [] then 1 else DecimalValue(ds)
  }

  /** The contributions (symbol, local count × multiplier) of the scan of
      `s` from index `i` on, in scan order, where `m` is the product of the
      multipliers of the enclosing groups. */
  function TokensFrom(s: string, i: nat, m: nat): seq<ElementCount>
    requires i <= |s|
    decreases |s|, |s| - i
  {
    if i == |s| then []
    else if s[i] == '(' then
      var j := CloseScan(s, i + 1, 1);
      var k := DigitEnd(s, j);
      TokensFrom(GroupContent(s, i, j), 0, m * RunCount(s[j..k])) + TokensFrom(s, k, m)
    else if IsUpper(s[i]) then
      var e := SymbolEnd(s, i);
      var k := DigitEnd(s, e);
      [ElementCount(s[i..e], RunCount(s[e..k]) * m)] + TokensFrom(s, k, m)
    else
      TokensFrom(s, i + 1, m)
  }

  /** The contributions of a whole formula, after state markers are removed. */
  function Tokens(formula: string): seq<ElementCount> {
    TokensFrom(StripStates(formula), 0, 1)
  }

  // ===========================================================================
  // The `elements` record: symbol -> running total, in insertion order

  /** `compound.elements.find(el => el.symbol === x)` */
  function FindEntry(es: seq<ElementCount>, x: string): (r: Option<nat>)
    ensures r.Some? ==> (r.value < |es| && es[r.value].symbol == x &&
      forall j :: 0 <= j < r.value ==> es[j].symbol != x)
    ensures r.None? ==> forall j :: 0 <= j < |es| ==> es[j].symbol != x
    decreases |es|
  {
    if es == [] then None
    else if es[0].symbol == x then Some(0)
    else match FindEntry(es[1..], x)
      case None => None
      case Some(k) => Some(k + 1)
  }

  /** The count of the first entry for `x`, or 0 when there is none. */
  function EntryCount(es: seq<ElementCount>, x: string): nat {
    match FindEntry(es, x)
    case None => 0
    case Some(k) => es[k].count
  }

  /** `elements[t.symbol] = (elements[t.symbol] || 0) + t.count` on a record
      whose keys keep their insertion order. */
  function AddCount(acc: seq<ElementCount>, t: ElementCount): seq<ElementCount> {
    match FindEntry(acc, t.symbol)
    case None => acc + [t]
    case Some(k) => acc[k := ElementCount(t.symbol, acc[k].count + t.count)]
  }

  /** The record after adding the contributions `ts` one by one. */
  function Tally(acc: seq<ElementCount>, ts: seq<ElementCount>): seq<ElementCount>
    decreases |ts|
  {
    if ts == [] then acc else Tally(AddCount(acc, ts[0]), ts[1..])
  }

  /** `parseFormula(formula)`: the element counts of a formula. */
  function FormulaCounts(formula: string): seq<ElementCount> {
    Tally([], Tokens(formula))
  }

  // ===========================================================================
  // The source's imperative scan

  /** The depth-counting loop after the `(` at `i`: the index it stops at. */
  method ScanGroupEnd(str: string, i: nat) returns (j: nat)
    requires i < |str|
    ensures j == CloseScan(str, i + 1, 1)
  {
    var depth := 1;
    j := i + 1;
    while j < |str| && depth > 0
      invariant i + 1 <= j <= |str|
      invariant CloseScan(str, j, depth) == CloseScan(str, i + 1, 1)
      decreases |str| - j
    {
      if str[j] == '(' { depth := depth + 1; }
      if str[j] == ')' { depth := depth - 1; }
      j := j + 1;
    }
  }

  /** The loop collecting the digits from `j` into `numStr`. */
  method ScanDigits(str: string, j: nat) returns (k: nat, numStr: string)
    requires j <= |str|
    ensures k == DigitEnd(str, j) && numStr == str[j..k]
  {
    k := j;
    numStr := "";
    while k < |str| && IsDigit(str[k])
      invariant j <= k <= |str|
      invariant numStr == str[j..k]
      invariant DigitEnd(str, k) == DigitEnd(str, j)
      decreases |str| - k
    {
      numStr := numStr + [str[k]];
      k := k + 1;
    }
  }

  /** The element branch of the loop: the symbol that starts with the
      uppercase letter at `i`, the count that follows it, and where the
      scan continues. */
  method ReadElement(str: string, i: nat) returns (element: string, count: nat, next: nat)
    requires i < |str| && IsUpper(str[i])
    ensures var e := SymbolEnd(str, i);
      next == DigitEnd(str, e) && element == str[i..e] && count == RunCount(str[e..next])
  {
    element := [str[i]];
    var j := i + 1;
    if j < |str| && IsLower(str[j]) {
      element := element + [str[j]];
      j := j + 1;
    }
    assert j == SymbolEnd(str, i) && element == str[i..j];
    var numStr;
    next, numStr := ScanDigits(str, j);
    count := if numStr != "" then DecimalValue(numStr) else 1;
  }

  /** `parseGroup(str, multiplier)`, with the closure's `elements` record
      passed in and returned. */
  method ParseGroup(str: string, multiplier: nat, elements: seq<ElementCount>)
    returns (updated: seq<ElementCount>)
    ensures updated == Tally(elements, TokensFrom(str, 0, multiplier))
    decreases |str|
  {
    updated := elements;
    var i := 0;
    while i < |str|
      invariant 0 <= i <= |str|
      invariant Tally(updated, TokensFrom(str, i, multiplier)) == Tally(elements, TokensFrom(str, 0, multiplier))
      decreases |str| - i
    {
      if str[i] == '(' {
        var j := ScanGroupEnd(str, i);
        var groupContent := GroupContent(str, i, j);
        var k, numStr := ScanDigits(str, j);
        var groupMultiplier := if numStr != "" then DecimalValue(numStr) else 1;
        assert groupMultiplier == RunCount(str[j..k]);
        GroupTokens(str, i, multiplier);
        TallyAppend(updated, TokensFrom(groupContent, 0, multiplier * groupMultiplier), TokensFrom(str, k, multiplier));
        updated := ParseGroup(groupContent, multiplier * groupMultiplier, updated);
        i := k;
      } else if IsUpper(str[i]) {
        var element, count, k := ReadElement(str, i);
        ElementTokens(str, i, multiplier);
        updated := AddCount(updated, ElementCount(element, count * multiplier));
        i := k;
      } else {
        assert TokensFrom(str, i, multiplier) == TokensFrom(str, i + 1, multiplier);
        i := i + 1;
      }
    }
  }

  /** One unfolding of the scan at an `(`. */
  lemma GroupTokens(s: string, i: nat, m: nat)
    requires i < |s| && s[i] == '('
    ensures var j := CloseScan(s, i + 1, 1);
      var k := DigitEnd(s, j);
      TokensFrom(s, i, m) == TokensFrom(GroupContent(s, i, j), 0, m * RunCount(s[j..k])) + TokensFrom(s, k, m)
  {
  }

  /** One unfolding of the scan at an uppercase letter. */
  lemma ElementTokens(s: string, i: nat, m: nat)
    requires i < |s| && s[i] != '(' && IsUpper(s[i])
    ensures var e := SymbolEnd(s, i);
      var k := DigitEnd(s, e);
      TokensFrom(s, i, m) == [ElementCount(s[i..e], RunCount(s[e..k]) * m)] + TokensFrom(s, k, m)
  {
  }

  /** `parseFormula(formula)` */
  method ParseFormula(formula: string) returns (counts: seq<ElementCount>)
    ensures counts == FormulaCounts(formula)
  {
    var cleanFormula := StripStates(formula);
    counts := ParseGroup(cleanFormula, 1, []);
  }

  // ===========================================================================
  // Properties of the record

  lemma {:induction false} TallyAppend(acc: seq<ElementCount>, a: seq<ElementCount>, b: seq<ElementCount>)
    ensures Tally(acc, a + b) == Tally(Tally(acc, a), b)
    decreases |a|
  {
    if a != [] {
      assert (a + b)[0] == a[0] && (a + b)[1..] == a[1..] + b;
      assert Tally(acc, a + b) == Tally(AddCount(acc, a[0]), a[1..] + b);
      TallyAppend(AddCount(acc, a[0]), a[1..], b);
    } else {
      assert a + b == b;
    }
  }

  predicate DistinctSymbols(es: seq<ElementCount>) {
    forall i, j :: 0 <= i < j < |es| ==> es[i].symbol != es[j].symbol
  }

  /** The symbols of the entries, in order. */
  function SymbolList(es: seq<ElementCount>): (r: seq<string>)
    ensures |r| == |es| && forall j :: 0 <= j < |es| ==> r[j] == es[j].symbol
  {
    seq(|es|, j requires 0 <= j < |es| => es[j].symbol)
  }

  /** The symbols of a non-empty list: the first entry's, then the rest's. */
  lemma SymbolListCons(es: seq<ElementCount>)
    requires |es| > 0
    ensures SymbolList(es) == [es[0].symbol] + SymbolList(es[1..])
  {
    var r := [es[0].symbol] + SymbolList(es[1..]);
    assert forall j :: 0 <= j < |es| ==> r[j] == es[j].symbol by {
      forall j | 0 <= j < |es| ensures r[j] == es[j].symbol {
        if j > 0 { assert r[j] == SymbolList(es[1..])[j - 1]; }
      }
    }
  }

  /** The sum of the contributions for `x`. */
  function SumFor(ts: seq<ElementCount>, x: string): nat
    decreases |ts|
  {
    if ts == [] then 0 else (if ts[0].symbol == x then ts[0].count else 0) + SumFor(ts[1..], x)
  }

  /** The first entry for `x` is at `k`. */
  lemma FindEntryAt(es: seq<ElementCount>, x: string, k: nat)
    requires k < |es| && es[k].symbol == x
    requires forall j :: 0 <= j < k ==> es[j].symbol != x
    ensures FindEntry(es, x) == Some(k)
  {
    match FindEntry(es, x)
    case None =>
    case Some(v) =>
  }

  lemma AddCountEffect(acc: seq<ElementCount>, t: ElementCount, x: string)
    ensures EntryCount(AddCount(acc, t), x) == EntryCount(acc, x) + (if t.symbol == x then t.count else 0)
    ensures (x in SymbolList(AddCount(acc, t))) <==> (x in SymbolList(acc) || x == t.symbol)
    ensures DistinctSymbols(acc) ==> DistinctSymbols(AddCount(acc, t))
  {
    AddCountEntry(acc, t, x);
    AddCountSymbols(acc, t);
    if DistinctSymbols(acc) {
      AddCountDistinct(acc, t);
    }
  }

  lemma AddCountEntry(acc: seq<ElementCount>, t: ElementCount, x: string)
    ensures EntryCount(AddCount(acc, t), x) == EntryCount(acc, x) + (if t.symbol == x then t.count else 0)
  {
    var r := AddCount(acc, t);
    match FindEntry(acc, t.symbol)
    case None =>
      assert r == acc + [t];
      if t.symbol == x {
        FindEntryAt(r, x, |acc|);
      } else {
        match FindEntry(acc, x)
        case None =>
          assert FindEntry(r, x).None?;
        case Some(v) =>
          FindEntryAt(r, x, v);
      }
    case Some(k) =>
      assert |r| == |acc| && forall j :: 0 <= j < |acc| ==> r[j].symbol == acc[j].symbol;
      match FindEntry(acc, x)
      case None =>
        assert FindEntry(r, x).None?;
      case Some(v) =>
        FindEntryAt(r, x, v);
  }

  lemma AddCountDistinct(acc: seq<ElementCount>, t: ElementCount)
    requires DistinctSymbols(acc)
    ensures DistinctSymbols(AddCount(acc, t))
  {
    AddCountSymbols(acc, t);
  }

  /** Adding contributions one by one keeps symbols distinct, sums the counts
      per symbol, and lists exactly the symbols seen. */
  lemma TallyFacts(acc: seq<ElementCount>, ts: seq<ElementCount>, x: string)
    ensures EntryCount(Tally(acc, ts), x) == EntryCount(acc, x) + SumFor(ts, x)
    ensures (x in SymbolList(Tally(acc, ts))) <==> (x in SymbolList(acc) || x in SymbolList(ts))
    ensures DistinctSymbols(acc) ==> DistinctSymbols(Tally(acc, ts))
  {
    TallyCount(acc, ts, x);
    TallyMember(acc, ts, x);
    if DistinctSymbols(acc) {
      TallyDistinct(acc, ts);
    }
  }

  lemma {:induction false} TallyCount(acc: seq<ElementCount>, ts: seq<ElementCount>, x: string)
    ensures EntryCount(Tally(acc, ts), x) == EntryCount(acc, x) + SumFor(ts, x)
    decreases |ts|
  {
    if ts != [] {
      AddCountEntry(acc, ts[0], x);
      TallyCount(AddCount(acc, ts[0]), ts[1..], x);
    }
  }

  lemma {:induction false} TallyMember(acc: seq<ElementCount>, ts: seq<ElementCount>, x: string)
    ensures (x in SymbolList(Tally(acc, ts))) <==> (x in SymbolList(acc) || x in SymbolList(ts))
    decreases |ts|
  {
    if ts != [] {
      AddCountEffect(acc, ts[0], x);
      TallyMember(AddCount(acc, ts[0]), ts[1..], x);
      assert SymbolList(ts) == [ts[0].symbol] + SymbolList(ts[1..]);
    }
  }

  lemma {:induction false} TallyDistinct(acc: seq<ElementCount>, ts: seq<ElementCount>)
    requires DistinctSymbols(acc)
    ensures DistinctSymbols(Tally(acc, ts))
    decreases |ts|
  {
    if ts != [] {
      AddCountDistinct(acc, ts[0]);
      TallyDistinct(AddCount(acc, ts[0]), ts[1..]);
    }
  }

  /** The members of `xs` at their first occurrence, in order: what a
      JavaScript `Set` or record filled by successive insertions lists. */
  function FirstOccurrences(xs: seq<string>): (r: seq<string>)
    decreases |xs|
  {
    if xs == [] then []
    else
      var init := xs[..|xs| - 1];
      var last := xs[|xs| - 1];
      if last in init then FirstOccurrences(init) else FirstOccurrences(init) + [last]
  }

  lemma {:induction false} FirstOccurrencesFacts(xs: seq<string>)
    ensures Distinct(FirstOccurrences(xs))
    ensures forall y :: y in FirstOccurrences(xs) <==> y in xs
    decreases |xs|
  {
    if xs != [] {
      var init := xs[..|xs| - 1];
      FirstOccurrencesFacts(init);
      assert xs == init + [xs[|xs| - 1]];
    }
  }

  /** A record's keys after one addition: the symbol is appended when new. */
  lemma AddCountSymbols(acc: seq<ElementCount>, t: ElementCount)
    ensures SymbolList(AddCount(acc, t)) == SetAdd(SymbolList(acc), t.symbol)
  {
    FindEntryMember(acc, t.symbol);
    match FindEntry(acc, t.symbol)
    case None =>
      assert AddCount(acc, t) == acc + [t];
    case Some(k) =>
  }

  lemma {:induction false} TallySymbols(acc: seq<ElementCount>, ts: seq<ElementCount>)
    ensures SymbolList(Tally(acc, ts)) == SetAddAll(SymbolList(acc), SymbolList(ts))
    decreases |ts|
  {
    if ts != [] {
      AddCountSymbols(acc, ts[0]);
      TallySymbols(AddCount(acc, ts[0]), ts[1..]);
      assert SymbolList(ts)[1..] == SymbolList(ts[1..]);
    } else {
      assert SymbolList(ts) == [];
    }
  }

  /** Adding to an empty insertion-ordered set keeps the first occurrences. */
  lemma {:induction false} SetAddAllFirstOccurrences(xs: seq<string>)
    ensures SetAddAll([], xs) == FirstOccurrences(xs)
    decreases |xs|
  {
    if xs != [] {
      var init := xs[..|xs| - 1];
      var x := xs[|xs| - 1];
      assert xs == init + [x];
      SetAddAllFirstOccurrences(init);
      SetAddAllAppend([], init, [x]);
      SetAddAllFacts([], init);
    }
  }

  /** Starting from an empty record, the record's keys are the contributed
      symbols at their first occurrence, in order. */
  lemma TallyOrder(ts: seq<ElementCount>)
    ensures SymbolList(Tally([], ts)) == FirstOccurrences(SymbolList(ts))
  {
    TallySymbols([], ts);
    assert SymbolList([]) == [];
    SetAddAllFirstOccurrences(SymbolList(ts));
  }

  // ===========================================================================
  // Properties of parseFormula

  /** The output has one entry per symbol; the symbols are exactly those of
      the scan, listed in order of first appearance; and each symbol's count
      is the sum of its contributions. */
  lemma FormulaCountsFacts(formula: string)
    ensures DistinctSymbols(FormulaCounts(formula))
    ensures SymbolList(FormulaCounts(formula)) == FirstOccurrences(SymbolList(Tokens(formula)))
    ensures forall x :: EntryCount(FormulaCounts(formula), x) == SumFor(Tokens(formula), x)
  {
    forall x ensures EntryCount(FormulaCounts(formula), x) == SumFor(Tokens(formula), x) {
      TallyFacts([], Tokens(formula), x);
    }
    TallyFacts([], Tokens(formula), "");
    TallyOrder(Tokens(formula));
  }

  /** Every contribution scaled by `m`. */
  function Scaled(ts: seq<ElementCount>, m: nat): (r: seq<ElementCount>)
    ensures |r| == |ts|
    ensures forall j :: 0 <= j < |ts| ==> r[j] == ElementCount(ts[j].symbol, ts[j].count * m)
  {
    seq(|ts|, j requires 0 <= j < |ts| => ElementCount(ts[j].symbol, ts[j].count * m))
  }

  /** Multipliers compose: scanning under multiplier `m` yields the
      contributions of the unscaled scan, each multiplied by `m`. So every
      contribution is the local digit count times the product of the
      multipliers of all groups around it. */
  lemma {:induction false} TokensScale(s: string, i: nat, m: nat)
    requires i <= |s|
    ensures TokensFrom(s, i, m) == Scaled(TokensFrom(s, i, 1), m)
    decreases |s|, |s| - i
  {
    if i == |s| {
    } else if s[i] == '(' {
      var j := CloseScan(s, i + 1, 1);
      var k := DigitEnd(s, j);
      var g := GroupContent(s, i, j);
      var n := RunCount(s[j..k]);
      TokensScale(g, 0, m * n);
      TokensScale(g, 0, 1 * n);
      TokensScale(s, k, m);
      assert 1 * n == n;
      ScaleCompose(TokensFrom(g, 0, 1), TokensFrom(s, k, 1), m, n);
    } else if IsUpper(s[i]) {
      var e := SymbolEnd(s, i);
      var k := DigitEnd(s, e);
      TokensScale(s, k, m);
      var head := [ElementCount(s[i..e], RunCount(s[e..k]) * 1)];
      ScaledAppend(head, TokensFrom(s, k, 1), m);
    } else {
      TokensScale(s, i + 1, m);
    }
  }

  /** Scaling a group's contributions by `n` and then everything by `m`. */
  lemma ScaleCompose(base: seq<ElementCount>, rest: seq<ElementCount>, m: nat, n: nat)
    ensures Scaled(base, m * n) + Scaled(rest, m) == Scaled(Scaled(base, n) + rest, m)
  {
    assert Scaled(base, m * n) == Scaled(Scaled(base, n), m) by {
      forall t | 0 <= t < |base| ensures base[t].count * (m * n) == base[t].count * n * m {
        MulAssoc(base[t].count, m, n);
      }
    }
    ScaledAppend(Scaled(base, n), rest, m);
  }

  lemma MulAssoc(c: nat, m: nat, n: nat)
    ensures c * (m * n) == c * n * m
  {
  }

  lemma ScaledAppend(a: seq<ElementCount>, b: seq<ElementCount>, m: nat)
    ensures Scaled(a + b, m) == Scaled(a, m) + Scaled(b, m)
  {
  }

  predicate IsSymbolShape(x: string) {
    (|x| == 1 && IsUpper(x[0])) || (|x| == 2 && IsUpper(x[0]) && IsLower(x[1]))
  }

  /** A symbol with no digit run after it counts once, times the enclosing
      multiplier. */
  lemma SymbolWithoutDigits(s: string, i: nat, m: nat)
    requires i < |s| && IsUpper(s[i])
    requires var e := SymbolEnd(s, i); e == |s| || !IsDigit(s[e])
    ensures var e := SymbolEnd(s, i);
      TokensFrom(s, i, m) == [ElementCount(s[i..e], m)] + TokensFrom(s, e, m)
  {
    var e := SymbolEnd(s, i);
    assert DigitEnd(s, e) == e;
    assert s[e..e] == [];
  }

  /** A written count of 0 is kept as a zero count, not rejected. */
  lemma ZeroCountKept()
    ensures FormulaCounts("H0") == [ElementCount("H", 0)]
  {
    StripStatesNoParen("H0");
    assert DigitEnd("H0", 1) == 2;
    assert "H0"[1..2] == "0";
    assert DecimalValue("0") == 0;
  }

  /** Every symbol the scan produces is one uppercase letter, optionally
      followed by one lowercase letter. */
  lemma {:induction false} TokenSymbolShape(s: string, i: nat, m: nat)
    requires i <= |s|
    ensures forall t :: t in TokensFrom(s, i, m) ==> IsSymbolShape(t.symbol)
    decreases |s|, |s| - i
  {
    if i == |s| {
    } else if s[i] == '(' {
      var j := CloseScan(s, i + 1, 1);
      var k := DigitEnd(s, j);
      TokenSymbolShape(GroupContent(s, i, j), 0, m * RunCount(s[j..k]));
      TokenSymbolShape(s, k, m);
    } else if IsUpper(s[i]) {
      var e := SymbolEnd(s, i);
      TokenSymbolShape(s, DigitEnd(s, e), m);
    } else {
      TokenSymbolShape(s, i + 1, m);
    }
  }

  /** A character that is neither `(` nor an uppercase letter at the scan
      position (a stray digit, a lowercase letter, a `)`, a space) is skipped
      without effect. */
  lemma SkipOtherCharacter(s: string, i: nat, m: nat)
    requires i < |s| && s[i] != '(' && !IsUpper(s[i])
    ensures TokensFrom(s, i, m) == TokensFrom(s, i + 1, m)
  {
  }

  lemma {:induction false} CloseScanNoClose(s: string, j: nat, depth: int)
    requires j <= |s| && depth > 0
    requires forall t :: j <= t < |s| ==> s[t] != ')'
    ensures CloseScan(s, j, depth) == |s|
    decreases |s| - j
  {
    if j < |s| { CloseScanNoClose(s, j + 1, depth + (if s[j] == '(' then 1 else 0)); }
  }

  /** An `(` with no `)` after it opens a group that runs to the end of the
      string, and the group's content leaves out the final character. */
  lemma UnmatchedParenDropsLastChar(s: string, i: nat, m: nat)
    requires i + 2 <= |s| && s[i] == '('
    requires forall t :: i < t < |s| ==> s[t] != ')'
    ensures TokensFrom(s, i, m) == TokensFrom(s[i + 1..|s| - 1], 0, m)
  {
    CloseScanNoClose(s, i + 1, 1);
    assert DigitEnd(s, |s|) == |s|;
    assert s[|s|..|s|] == [];
  }

  /** An `(` that is the last character contributes nothing (the corrected
      reading of `substring(i + 1, j - 1)` for `j == i + 1`). */
  lemma TrailingParenIgnored(s: string, m: nat)
    requires |s| > 0 && s[|s| - 1] == '('
    ensures TokensFrom(s, |s| - 1, m) == []
  {
    var i := |s| - 1;
    assert CloseScan(s, i + 1, 1) == |s|;
    assert DigitEnd(s, |s|) == |s|;
    assert s[|s|..|s|] == [];
    assert GroupContent(s, i, |s|) == [];
  }

  // ===========================================================================
  // The scan as written, for the trailing `(`

  /** `str.substring(a, b)`, which swaps its arguments when `a > b`. */
  function JsSubstring(s: string, a: nat, b: nat): string
    requires a <= |s| && b <= |s|
  {
    if a <= b then s[a..b] else s[b..a]
  }

  /** The scan exactly as written, with `substring`'s argument swap, and a
      `fuel` bound on the depth of group recursion; `None` means the fuel ran
      out. */
  function TokensAsWritten(s: string, i: nat, m: nat, fuel: nat): Option<seq<ElementCount>>
    requires i <= |s|
    decreases fuel, |s| - i
  {
    if i == |s| then Some([])
    else if s[i] == '(' then
      if fuel == 0 then None
      else
        var j := CloseScan(s, i + 1, 1);
        var k := DigitEnd(s, j);
        var inner := TokensAsWritten(JsSubstring(s, i + 1, j - 1), 0, m * RunCount(s[j..k]), fuel - 1);
        var rest := TokensAsWritten(s, k, m, fuel);
        if inner.None? || rest.None? then None else Some(inner.value + rest.value)
    else if IsUpper(s[i]) then
      var e := SymbolEnd(s, i);
      var k := DigitEnd(s, e);
      var rest := TokensAsWritten(s, k, m, fuel);
      if rest.None? then None else Some([ElementCount(s[i..e], RunCount(s[e..k]) * m)] + rest.value)
    else
      TokensAsWritten(s, i + 1, m, fuel)
  }

  /** As written, a group opened by the last character recurses on the
      one-character string "(" itself, so no recursion depth suffices. */
  lemma {:induction false} TrailingParenDiverges(m: nat, fuel: nat)
    ensures TokensAsWritten("(", 0, m, fuel) == None
    decreases fuel
  {
    if fuel > 0 {
      var s := "(";
      assert CloseScan(s, 1, 1) == 1;
      assert DigitEnd(s, 1) == 1;
      assert JsSubstring(s, 1, 0) == s;
      TrailingParenDiverges(m * RunCount(s[1..1]), fuel - 1);
    }
  }

  /** As written, an `(` that is the last character of the scanned string
      never finishes. */
  lemma TrailingParenAsWritten(s: string, m: nat, fuel: nat)
    requires |s| > 0 && s[|s| - 1] == '('
    ensures TokensAsWritten(s, |s| - 1, m, fuel) == None
  {
    if fuel > 0 {
      var i := |s| - 1;
      assert CloseScan(s, i + 1, 1) == |s|;
      assert DigitEnd(s, |s|) == |s|;
      assert JsSubstring(s, i + 1, i) == "(";
      TrailingParenDiverges(m * RunCount(s[|s|..|s|]), fuel - 1);
    }
  }

  /** Whenever the scan as written finishes, it gives the contributions of
      the corrected reading: the two differ only on a group opened by the
      last character, where the scan as written never returns. */
  lemma {:induction false} AsWrittenAgrees(s: string, i: nat, m: nat, fuel: nat)
    requires i <= |s|
    ensures AgreesAt(s, i, m, fuel)
    decreases fuel, |s| - i
  {
    if i < |s| {
      if s[i] == '(' {
        if fuel > 0 {
          var j := CloseScan(s, i + 1, 1);
          var k := DigitEnd(s, j);
          AsWrittenAgrees(s, k, m, fuel);
          if j >= i + 2 {
            AsWrittenAgrees(GroupContent(s, i, j), 0, m * RunCount(s[j..k]), fuel - 1);
          }
          AgreesAtGroup(s, i, m, fuel);
        }
      } else if IsUpper(s[i]) {
        AsWrittenAgrees(s, DigitEnd(s, SymbolEnd(s, i)), m, fuel);
      } else {
        AsWrittenAgrees(s, i + 1, m, fuel);
      }
    }
  }

  /** The scan as written, when it finishes, agrees with the corrected one. */
  predicate AgreesAt(s: string, i: nat, m: nat, fuel: nat)
    requires i <= |s|
  {
    TokensAsWritten(s, i, m, fuel).Some? ==> TokensAsWritten(s, i, m, fuel).value == TokensFrom(s, i, m)
  }

  /** A group agrees when its content and the rest of the text do. */
  lemma AgreesAtGroup(s: string, i: nat, m: nat, fuel: nat)
    requires i < |s| && s[i] == '(' && fuel > 0
    requires var j := CloseScan(s, i + 1, 1);
      AgreesAt(s, DigitEnd(s, j), m, fuel) &&
      (j >= i + 2 ==> AgreesAt(GroupContent(s, i, j), 0, m * RunCount(s[j..DigitEnd(s, j)]), fuel - 1))
    ensures AgreesAt(s, i, m, fuel)
  {
    var j := CloseScan(s, i + 1, 1);
    if j >= i + 2 {
      AgreesAtClosedGroup(s, i, m, fuel);
    } else {
      AgreesAtTrailingParen(s, i, m, fuel);
    }
  }

  lemma AgreesAtClosedGroup(s: string, i: nat, m: nat, fuel: nat)
    requires i < |s| && s[i] == '(' && fuel > 0
    requires var j := CloseScan(s, i + 1, 1);
      j >= i + 2 && AgreesAt(s, DigitEnd(s, j), m, fuel) &&
      AgreesAt(GroupContent(s, i, j), 0, m * RunCount(s[j..DigitEnd(s, j)]), fuel - 1)
    ensures AgreesAt(s, i, m, fuel)
  {
    var j := CloseScan(s, i + 1, 1);
    var k := DigitEnd(s, j);
    var m' := m * RunCount(s[j..k]);
    var g := GroupContent(s, i, j);
    AsWrittenAtGroup(s, i, m, fuel);
    var inner := TokensAsWritten(g, 0, m', fuel - 1);
    var rest := TokensAsWritten(s, k, m, fuel);
    if inner.Some? && rest.Some? {
      assert inner.value == TokensFrom(g, 0, m');
      assert rest.value == TokensFrom(s, k, m);
    }
  }

  /** One step of both scans at a group whose `)` was found. */
  lemma AsWrittenAtGroup(s: string, i: nat, m: nat, fuel: nat)
    requires i < |s| && s[i] == '(' && fuel > 0 && CloseScan(s, i + 1, 1) >= i + 2
    ensures var j := CloseScan(s, i + 1, 1);
      var k := DigitEnd(s, j);
      var m' := m * RunCount(s[j..k]);
      var inner := TokensAsWritten(GroupContent(s, i, j), 0, m', fuel - 1);
      var rest := TokensAsWritten(s, k, m, fuel);
      TokensAsWritten(s, i, m, fuel) == (if inner.None? || rest.None? then None else Some(inner.value + rest.value)) &&
      TokensFrom(s, i, m) == TokensFrom(GroupContent(s, i, j), 0, m') + TokensFrom(s, k, m)
  {
    var j := CloseScan(s, i + 1, 1);
    assert JsSubstring(s, i + 1, j - 1) == GroupContent(s, i, j);
  }

  lemma AgreesAtTrailingParen(s: string, i: nat, m: nat, fuel: nat)
    requires i < |s| && s[i] == '(' && fuel > 0 && CloseScan(s, i + 1, 1) < i + 2
    ensures TokensAsWritten(s, i, m, fuel) == None
  {
    var j := CloseScan(s, i + 1, 1);
    var k := DigitEnd(s, j);
    var m' := m * RunCount(s[j..k]);
    assert JsSubstring(s, i + 1, j - 1) == "(";
    TrailingParenDiverges(m', fuel - 1);
  }

  /** Without any `(` the scan as written finishes at once and agrees with
      the corrected reading. */
  lemma {:induction false} AsWrittenWithoutGroups(s: string, i: nat, m: nat)
    requires i <= |s| && forall k :: i <= k < |s| ==> s[k] != '('
    ensures TokensAsWritten(s, i, m, 0) == Some(TokensFrom(s, i, m))
    decreases |s| - i
  {
    if i < |s| {
      if IsUpper(s[i]) {
        AsWrittenWithoutGroups(s, DigitEnd(s, SymbolEnd(s, i)), m);
      } else {
        AsWrittenWithoutGroups(s, i + 1, m);
      }
    }
  }

  /** The same for `H2O(`: the scan reaches the final `(` and never returns. */
  lemma TrailingParenDivergesInFormula(fuel: nat)
    ensures TokensAsWritten("H2O(", 0, 1, fuel) == None
  {
    var s := "H2O(";
    TrailingParenAsWritten(s, 1, fuel);
    assert TokensAsWritten(s, 2, 1, fuel) == None by {
      assert s[2] == 'O' && SymbolEnd(s, 2) == 3;
      assert DigitEnd(s, 3) == 3;
    }
    assert TokensAsWritten(s, 0, 1, fuel) == None by {
      assert s[0] == 'H' && SymbolEnd(s, 0) == 1;
      assert DigitEnd(s, 2) == 2;
      assert DigitEnd(s, 1) == 2;
    }
  }

  // ===========================================================================
  // parseEquation, parseCompounds, parseCompound

  /** `equation.replace(/→|=/g, '->')` */
  function NormalizeArrows(s: string): (r: string)
    ensures '\U{2192}' !in r && '=' !in r
    decreases |s|
  {
    if s == [] then []
    else (if s[0] == '\U{2192}' || s[0] == '=' then "->" else [s[0]]) + NormalizeArrows(s[1..])
  }

  /** The start of the maximal run of state letters that ends at `e`. */
  function StateRunStart(f: string, e: nat): (q: nat)
    requires e <= |f|
    ensures q <= e
    ensures forall j :: q <= j < e ==> IsStateLetter(f[j])
    ensures q > 0 ==> !IsStateLetter(f[q - 1])
    decreases e
  {
    if e > 0 && IsStateLetter(f[e - 1]) then StateRunStart(f, e - 1) else e
  }

  /** `f` ends in a state marker whose `(` is at index `p`: the `(`, one or
      more state letters and a final `)`. */
  predicate EndsInStateAt(f: string, p: nat) {
    p + 2 < |f| && f[p] == '(' && f[|f| - 1] == ')' &&
    forall j :: p < j < |f| - 1 ==> IsStateLetter(f[j])
  }

  /** `/\(([slgaq]+)\)$/`: the index of the `(` of a state marker that ends
      the string. */
  function StateSuffix(f: string): (p: Option<nat>)
    ensures p.Some? ==> EndsInStateAt(f, p.value)
  {
    if |f| >= 3 && f[|f| - 1] == ')' then
      var q := StateRunStart(f, |f| - 1);
      if 1 <= q < |f| - 1 && f[q - 1] == '(' then Some(q - 1) else None
    else None
  }

  /** The run of state letters ending at `e` starts at `q` when `q` is
      preceded by something other than a state letter. */
  lemma {:induction false} StateRunStartAt(f: string, q: nat, e: nat)
    requires q <= e <= |f|
    requires forall j :: q <= j < e ==> IsStateLetter(f[j])
    requires q > 0 && !IsStateLetter(f[q - 1])
    ensures StateRunStart(f, e) == q
    decreases e
  {
    if e > q {
      StateRunStartAt(f, q, e - 1);
    }
  }

  /** A state marker ending the string is always found, at its own `(`;
      with the direction in `StateSuffix`'s contract, the marker is found
      exactly when there is one, and there is at most one. */
  lemma StateSuffixComplete(f: string, p: nat)
    requires EndsInStateAt(f, p)
    ensures StateSuffix(f) == Some(p)
  {
    assert !IsStateLetter(f[p]);
    StateRunStartAt(f, p + 1, |f| - 1);
  }

  /** The coefficient and the rest of a trimmed compound: a leading digit
      run read as a decimal number, the rest trimmed again; or 1 and the
      whole text when there is no leading digit. */
  function SplitCoefficient(trimmed: string): (nat, string) {
    var d := DigitEnd(trimmed, 0);
    if d > 0 then
      assert trimmed[0..d] == trimmed[..d];
      (DecimalValue(trimmed[..d]), Trim(trimmed[d..]))
    else (1, trimmed)
  }

  lemma SplitCoefficientAt(trimmed: string, d: nat)
    requires d == DigitEnd(trimmed, 0)
    ensures d > 0 ==> SplitCoefficient(trimmed) == (DecimalValue(trimmed[..d]), Trim(trimmed[d..]))
    ensures d == 0 ==> SplitCoefficient(trimmed) == (1, trimmed)
  {
  }

  /** `parseCompound(compoundStr)`: a leading digit run is the coefficient
      (default 1), a trailing state marker is the state, the rest is the
      formula. */
  function ParseCompound(compoundStr: string): ParsedCompound {
    var (coefficient, f) := SplitCoefficient(Trim(compoundStr));
    var formula := FormulaPart(f);
    ParsedCompound(formula, FormulaCounts(formula), coefficient, StatePart(f))
  }

  /** The text before the state suffix, trimmed, or all of it when there is
      no suffix. */
  function FormulaPart(f: string): string {
    match StateSuffix(f)
    case Some(p) => Trim(f[..p])
    case None => f
  }

  /** The letters between the state's parentheses; a state, when there is
      one, is a non-empty run of state letters. */
  function StatePart(f: string): (state: Option<string>)
    ensures state.Some? ==> (|state.value| > 0 && StateLetterRun(state.value))
  {
    match StateSuffix(f)
    case Some(p) =>
      StateLetters(f, p);
      Some(f[p + 1..|f| - 1])
    case None => None
  }

  lemma TrimIdempotent(s: string)
    ensures Trim(Trim(s)) == Trim(s)
  {
    var t := Trim(s);
    if t != [] {
      assert ContentStart(t, 0) == 0;
      assert ContentEnd(t, 0, |t|) == |t|;
    }
  }

  /** The compound's formula has no surrounding whitespace and its entries
      are the formula's element counts; the coefficient is the leading digit
      run's value, or 1 when the trimmed text does not start with a digit. */
  lemma ParseCompoundFacts(compoundStr: string)
    ensures var c := ParseCompound(compoundStr);
      c.formula == Trim(c.formula) && c.elements == FormulaCounts(c.formula)
    ensures var t := Trim(compoundStr);
      var d := DigitEnd(t, 0);
      ParseCompound(compoundStr).coefficient == if d == 0 then 1 else DecimalValue(t[..d])
    ensures var t := Trim(compoundStr);
      var d := DigitEnd(t, 0);
      SplitCoefficient(t).1 == if d == 0 then t else Trim(t[d..])
    ensures var f := SplitCoefficient(Trim(compoundStr)).1;
      var c := ParseCompound(compoundStr);
      forall p: nat :: EndsInStateAt(f, p) ==> c.state == Some(f[p + 1..|f| - 1]) && c.formula == Trim(f[..p])
    ensures var f := SplitCoefficient(Trim(compoundStr)).1;
      var c := ParseCompound(compoundStr);
      (forall p: nat :: !EndsInStateAt(f, p)) ==> c.state == None && c.formula == f
  {
    var t := Trim(compoundStr);
    var d := DigitEnd(t, 0);
    var f := SplitCoefficient(t).1;
    TrimIdempotent(compoundStr);
    TrimIdempotent(t[d..]);
    match StateSuffix(f) {
      case Some(p) =>
        TrimIdempotent(f[..p]);
      case None =>
    }
    MarkerSplit(f);
  }

  /** How the text after the coefficient splits into formula and state. */
  lemma MarkerSplit(f: string)
    ensures forall p: nat :: EndsInStateAt(f, p) ==> StatePart(f) == Some(f[p + 1..|f| - 1]) && FormulaPart(f) == Trim(f[..p])
    ensures (forall p: nat :: !EndsInStateAt(f, p)) ==> StatePart(f) == None && FormulaPart(f) == f
  {
    forall p: nat | EndsInStateAt(f, p)
      ensures StatePart(f) == Some(f[p + 1..|f| - 1]) && FormulaPart(f) == Trim(f[..p])
    {
      StateSuffixComplete(f, p);
    }
  }

  /** The compound parsed from a text is `c` when the text splits into
      `c`'s coefficient and a rest whose formula and state are `c`'s, and
      `c`'s entries are its formula's counts. */
  lemma ParseCompoundFrom(compoundStr: string, c: ParsedCompound, f: string)
    requires SplitCoefficient(Trim(compoundStr)) == (c.coefficient, f)
    requires FormulaPart(f) == c.formula && StatePart(f) == c.state
    requires c.elements == FormulaCounts(c.formula)
    ensures ParseCompound(compoundStr) == c
  {
  }

  /** A state, when there is one, is a non-empty run of state letters. */
  lemma ParseCompoundState(compoundStr: string)
    ensures var c := ParseCompound(compoundStr);
      c.state.Some? ==> (|c.state.value| > 0 &&
        forall j :: 0 <= j < |c.state.value| ==> IsStateLetter(c.state.value[j]))
  {
  }

  predicate StateLetterRun(st: string) {
    forall j :: 0 <= j < |st| ==> IsStateLetter(st[j])
  }

  lemma StateLetters(f: string, p: nat)
    requires StateSuffix(f) == Some(p)
    ensures |f[p + 1..|f| - 1]| > 0 && StateLetterRun(f[p + 1..|f| - 1])
  {
    var st := f[p + 1..|f| - 1];
    assert forall j :: 0 <= j < |st| ==> st[j] == f[p + 1 + j];
  }

  /** The compounds of the trimmed, non-empty `+`-pieces, in order. */
  function ParsePieces(pieces: seq<string>): seq<ParsedCompound>
    decreases |pieces|
  {
    if pieces == [] then [] else PieceCompounds(pieces[0]) + ParsePieces(pieces[1..])
  }

  /** The compounds of one piece: none when it is blank after trimming, else
      the one parsed from its trimmed text. */
  function PieceCompounds(piece: string): (r: seq<ParsedCompound>)
    ensures IsBlank(piece) ==> r == []
    ensures !IsBlank(piece) ==> r == [ParseCompound(Trim(piece))]
  {
    var t := Trim(piece);
    if t == [] then [] else [ParseCompound(t)]
  }

  /** Pieces are parsed independently, so the compounds of a concatenation
      are the compounds of each part. */
  lemma {:induction false} ParsePiecesAppend(a: seq<string>, b: seq<string>)
    ensures ParsePieces(a + b) == ParsePieces(a) + ParsePieces(b)
    decreases |a|
  {
    if a == [] {
      assert a + b == b;
    } else {
      ParsePiecesAppend(a[1..], b);
      ParsePiecesAppendStep(a, b);
    }
  }

  lemma ParsePiecesAppendStep(a: seq<string>, b: seq<string>)
    requires a != [] && ParsePieces(a[1..] + b) == ParsePieces(a[1..]) + ParsePieces(b)
    ensures ParsePieces(a + b) == ParsePieces(a) + ParsePieces(b)
  {
    var h, x, y := PieceCompounds(a[0]), ParsePieces(a[1..]), ParsePieces(b);
    ConsAppend(a, b);
    assert ParsePieces(a + b) == h + (x + y);
    assert ParsePieces(a) == h + x;
    AppendAssoc(h, x, y);
  }

  lemma ParsePiecesCons(p: string, tail: seq<string>)
    ensures ParsePieces([p] + tail) == PieceCompounds(p) + ParsePieces(tail)
  {
    assert ([p] + tail)[0] == p && ([p] + tail)[1..] == tail;
  }

  /** `parseCompounds(side)`: `side.split('+').map(trim).filter(s => s).map(parseCompound)`. */
  function ParseCompounds(side: string): seq<ParsedCompound> {
    ParsePieces(Split(side, "+"))
  }

  /** `parseEquation(equation)`: `None` where the source throws. */
  function ParseEquation(equation: string): Option<ParsedEquation> {
    var pieces := Split(NormalizeArrows(equation), "->");
    if |pieces| < 2 || pieces[0] == [] || pieces[1] == [] then None
    else Some(ParsedEquation(ParseCompounds(Trim(pieces[0])), ParseCompounds(Trim(pieces[1]))))
  }

  /** The equation parsed from a text that splits into exactly two
      non-empty pieces at its arrow. */
  lemma ParseEquationFrom(equation: string, lhs: string, rhs: string)
    requires Split(NormalizeArrows(equation), "->") == [lhs, rhs]
    requires lhs != [] && rhs != []
    ensures ParseEquation(equation) ==
      Some(ParsedEquation(ParseCompounds(Trim(lhs)), ParseCompounds(Trim(rhs))))
  {
  }

  /** `parseEquation` fails exactly when the rewritten text has no arrow or
      one of the first two pieces is the empty string; a side made only of
      whitespace passes and gives an empty compound list. */
  lemma ParseEquationFails(equation: string)
    ensures var pieces := Split(NormalizeArrows(equation), "->");
      ParseEquation(equation).None? <==>
        (!Includes(NormalizeArrows(equation), "->") || pieces[0] == [] || pieces[1] == [])
    ensures var pieces := Split(NormalizeArrows(equation), "->");
      ParseEquation(equation).Some? && IsBlank(pieces[0]) ==> ParseEquation(equation).value.reactants == []
    ensures var pieces := Split(NormalizeArrows(equation), "->");
      ParseEquation(equation).Some? && IsBlank(pieces[1]) ==> ParseEquation(equation).value.products == []
  {
    var pieces := Split(NormalizeArrows(equation), "->");
    SplitSingle(NormalizeArrows(equation), "->");
    BlankSideIsEmpty();
  }

  lemma BlankSideIsEmpty()
    ensures ParseCompounds("") == []
  {
    FindFromMissing("", "+");
    assert Split("", "+") == [""];
  }

  lemma NormalizeArrowsAppend(a: string, b: string)
    ensures NormalizeArrows(a + b) == NormalizeArrows(a) + NormalizeArrows(b)
    decreases |a|
  {
    if a != [] {
      assert (a + b)[0] == a[0] && (a + b)[1..] == a[1..] + b;
      NormalizeArrowsAppend(a[1..], b);
    } else {
      assert a + b == b;
    }
  }

  lemma {:induction false} NormalizeArrowsIdentity(a: string)
    requires '\U{2192}' !in a && '=' !in a
    ensures NormalizeArrows(a) == a
    decreases |a|
  {
    if a != [] {
      var c, t := a[0], a[1..];
      assert c in a;
      assert forall x :: x in t ==> x in a;
      NormalizeArrowsIdentity(t);
      assert a == [c] + t;
    }
  }

  /** The first "->" of `a + "->" + y` is the one after `a` when `a` has none. */
  lemma SplitAtArrow(a: string, y: string)
    requires !Includes(a, "->")
    ensures Split(a + "->" + y, "->") == [a] + Split(y, "->")
  {
    var x := a + "->" + y;
    assert OccursAt(x, "->", |a|) by { assert x[|a|..|a| + 2] == "->"; }
    var k := FindFrom(x, "->", 0);
    forall j: nat | j < |a| ensures !OccursAt(x, "->", j) {
      if j + 2 <= |a| {
        assert a[j..j + 2] == x[j..j + 2];
        assert !OccursAt(a, "->", j);
      } else {
        assert x[j + 1] == '-';
      }
    }
    assert k == |a|;
    assert x[..|a|] == a;
    assert x[|a| + 2..] == y;
  }

  /** Text after a second arrow is ignored. */
  lemma SecondArrowIgnored(a: string, b: string, rest: string)
    requires '\U{2192}' !in a && '=' !in a && !Includes(a, "->")
    requires '\U{2192}' !in b && '=' !in b && !Includes(b, "->")
    ensures ParseEquation(a + "->" + b + "->" + rest) == ParseEquation(a + "->" + b)
  {
    LongPieces(a, b, rest);
    ShortPieces(a, b);
    SamePiecesSameEquation(a + "->" + b + "->" + rest, a + "->" + b);
  }

  lemma LongPieces(a: string, b: string, rest: string)
    requires '\U{2192}' !in a && '=' !in a && !Includes(a, "->")
    requires '\U{2192}' !in b && '=' !in b && !Includes(b, "->")
    ensures var pieces := Split(NormalizeArrows(a + "->" + b + "->" + rest), "->");
      |pieces| >= 2 && pieces[0] == a && pieces[1] == b
  {
    var arrow := "->";
    NormalizeArrowsSide(a);
    NormalizeArrowsSide(b);
    var r := NormalizeArrows(rest);
    AppendAssoc(a + arrow, b + arrow, rest);
    AppendAssoc(a + arrow, b, arrow);
    NormalizeArrowsAppend(a + arrow, b + arrow + rest);
    NormalizeArrowsAppend(b + arrow, rest);
    SplitAtArrow(a, b + arrow + r);
    SplitAtArrow(b, r);
  }

  lemma ShortPieces(a: string, b: string)
    requires '\U{2192}' !in a && '=' !in a && !Includes(a, "->")
    requires '\U{2192}' !in b && '=' !in b && !Includes(b, "->")
    ensures Split(NormalizeArrows(a + "->" + b), "->") == [a, b]
  {
    NormalizeArrowsSide(a);
    NormalizeArrowsAppend(a + "->", b);
    NormalizeArrowsIdentity(b);
    SplitAtArrow(a, b);
    FindFromMissing(b, "->");
  }

  /** A side without arrows followed by an arrow is left as it is. */
  lemma NormalizeArrowsSide(a: string)
    requires '\U{2192}' !in a && '=' !in a
    ensures NormalizeArrows(a + "->") == a + "->"
  {
    NormalizeArrowsIdentity(a);
    NormalizeArrowsIdentity("->");
    NormalizeArrowsAppend(a, "->");
  }

  /** `parseEquation` reads only the first two pieces. */
  lemma SamePiecesSameEquation(e1: string, e2: string)
    requires var p1 := Split(NormalizeArrows(e1), "->");
      var p2 := Split(NormalizeArrows(e2), "->");
      |p1| >= 2 && |p2| >= 2 && p1[0] == p2[0] && p1[1] == p2[1]
    ensures ParseEquation(e1) == ParseEquation(e2)
  {
  }

  // ===========================================================================
  // getUniqueElements and countElementOnSide

  /** The symbols of the element entries of `compounds`, compound by compound. */
  function SymbolsOf(compounds: seq<ParsedCompound>): seq<string>
    decreases |compounds|
  {
    if compounds == [] then [] else SymbolList(compounds[0].elements) + SymbolsOf(compounds[1..])
  }

  /** `set.add(x)` on a set kept in insertion order. */
  function SetAdd(seen: seq<string>, x: string): seq<string> {
    if x in seen then seen else seen + [x]
  }

  function SetAddAll(seen: seq<string>, xs: seq<string>): seq<string>
    decreases |xs|
  {
    if xs == [] then seen else SetAddAll(SetAdd(seen, xs[0]), xs[1..])
  }

  /** The inner `forEach`: every symbol of one compound's entries added. */
  method AddEntrySymbols(seen: seq<string>, elements: seq<ElementCount>) returns (r: seq<string>)
    ensures r == SetAddAll(seen, SymbolList(elements))
  {
    r := seen;
    var j := 0;
    while j < |elements|
      invariant 0 <= j <= |elements|
      invariant SetAddAll(r, SymbolList(elements[j..])) == SetAddAll(seen, SymbolList(elements))
      decreases |elements| - j
    {
      SymbolListCons(elements[j..]);
      assert elements[j..][1..] == elements[j + 1..];
      r := SetAdd(r, elements[j].symbol);
      j := j + 1;
    }
    assert SymbolList(elements[j..]) == [];
  }

  /** Adding every element symbol of `compounds` to an insertion-ordered set,
      as the nested `forEach` loops of the source do. */
  method AddSymbols(seen: seq<string>, compounds: seq<ParsedCompound>) returns (r: seq<string>)
    ensures r == SetAddAll(seen, SymbolsOf(compounds))
  {
    r := seen;
    var i := 0;
    while i < |compounds|
      invariant 0 <= i <= |compounds|
      invariant SetAddAll(r, SymbolsOf(compounds[i..])) == SetAddAll(seen, SymbolsOf(compounds))
      decreases |compounds| - i
    {
      assert compounds[i..][1..] == compounds[i + 1..];
      SetAddAllAppend(r, SymbolList(compounds[i].elements), SymbolsOf(compounds[i + 1..]));
      r := AddEntrySymbols(r, compounds[i].elements);
      i := i + 1;
    }
    assert compounds[i..] == [];
  }

  lemma {:induction false} SetAddAllAppend(seen: seq<string>, a: seq<string>, b: seq<string>)
    ensures SetAddAll(seen, a + b) == SetAddAll(SetAddAll(seen, a), b)
    decreases |a|
  {
    if a != [] {
      assert (a + b)[0] == a[0] && (a + b)[1..] == a[1..] + b;
      SetAddAllAppend(SetAdd(seen, a[0]), a[1..], b);
    } else {
      assert a + b == b;
    }
  }

  lemma {:induction false} SetAddAllFacts(seen: seq<string>, xs: seq<string>)
    requires Distinct(seen)
    ensures Distinct(SetAddAll(seen, xs))
    ensures forall y :: y in SetAddAll(seen, xs) <==> y in seen || y in xs
    decreases |xs|
  {
    if xs != [] {
      SetAddAllFacts(SetAdd(seen, xs[0]), xs[1..]);
    }
  }

  /** `getUniqueElements(parsed)`, as a reference definition. */
  function UniqueElements(parsed: ParsedEquation): seq<string> {
    Sort(SetAddAll(SetAddAll([], SymbolsOf(parsed.reactants)), SymbolsOf(parsed.products)))
  }

  /** `getUniqueElements(parsed)`: the element symbols of both sides, without
      duplicates, sorted. */
  method GetUniqueElements(parsed: ParsedEquation) returns (symbols: seq<string>)
    ensures symbols == UniqueElements(parsed)
  {
    var elements := AddSymbols([], parsed.reactants);
    elements := AddSymbols(elements, parsed.products);
    symbols := Sort(elements);
  }

  lemma FindEntryMember(es: seq<ElementCount>, x: string)
    ensures FindEntry(es, x).Some? <==> x in SymbolList(es)
  {
  }

  lemma {:induction false} SymbolsOfMembers(compounds: seq<ParsedCompound>, x: string)
    ensures (x in SymbolsOf(compounds)) <==>
      exists i :: 0 <= i < |compounds| && FindEntry(compounds[i].elements, x).Some?
    decreases |compounds|
  {
    if compounds != [] {
      SymbolsOfMembers(compounds[1..], x);
      FindEntryMember(compounds[0].elements, x);
      if exists i :: 0 <= i < |compounds| && FindEntry(compounds[i].elements, x).Some? {
        var i :| 0 <= i < |compounds| && FindEntry(compounds[i].elements, x).Some?;
        if i > 0 { assert compounds[1..][i - 1] == compounds[i]; }
      }
      if x in SymbolsOf(compounds[1..]) {
        var i :| 0 <= i < |compounds[1..]| && FindEntry(compounds[1..][i].elements, x).Some?;
        assert compounds[i + 1] == compounds[1..][i];
      }
    }
  }

  /** A compound of either side has an entry for the symbol. */
  predicate OccursIn(parsed: ParsedEquation, x: string) {
    (exists i :: 0 <= i < |parsed.reactants| && FindEntry(parsed.reactants[i].elements, x).Some?) ||
    (exists i :: 0 <= i < |parsed.products| && FindEntry(parsed.products[i].elements, x).Some?)
  }

  /** The unique elements are strictly increasing, so duplicate-free and
      sorted, and they are exactly the symbols that occur on either side. */
  lemma UniqueElementsFacts(parsed: ParsedEquation)
    ensures StrictlySorted(UniqueElements(parsed))
    ensures forall x :: x in UniqueElements(parsed) <==> OccursIn(parsed, x)
  {
    var r := SymbolsOf(parsed.reactants);
    var p := SymbolsOf(parsed.products);
    SetAddAllFacts([], r);
    SetAddAllFacts(SetAddAll([], r), p);
    SortDistinct(SetAddAll(SetAddAll([], r), p));
    forall x ensures x in UniqueElements(parsed) <==> OccursIn(parsed, x) {
      SymbolsOfMembers(parsed.reactants, x);
      SymbolsOfMembers(parsed.products, x);
    }
  }

  /** What one compound adds to a side's atom total for `x`. */
  function CompoundAtoms(compound: ParsedCompound, x: string): nat {
    EntryCount(compound.elements, x) * compound.coefficient
  }

  /** Σ count × coefficient over the compounds that have an entry for `x`. */
  function SideTotal(compounds: seq<ParsedCompound>, x: string): nat
    decreases |compounds|
  {
    if compounds == [] then 0
    else SideTotal(compounds[..|compounds| - 1], x) + CompoundAtoms(compounds[|compounds| - 1], x)
  }

  /** `countElementOnSide(compounds, element)` */
  method CountElementOnSide(compounds: seq<ParsedCompound>, element: string) returns (total: nat)
    ensures total == SideTotal(compounds, element)
  {
    total := 0;
    var i := 0;
    while i < |compounds|
      invariant 0 <= i <= |compounds|
      invariant total == SideTotal(compounds[..i], element)
      decreases |compounds| - i
    {
      var compound := compounds[i];
      assert compounds[..i + 1][..i] == compounds[..i];
      var elementCount := FindEntry(compound.elements, element);
      if elementCount.Some? {
        total := total + compound.elements[elementCount.value].count * compound.coefficient;
      }
      i := i + 1;
    }
    assert compounds[..i] == compounds;
  }

  lemma {:induction false} SideTotalAppend(a: seq<ParsedCompound>, b: seq<ParsedCompound>, x: string)
    ensures SideTotal(a + b, x) == SideTotal(a, x) + SideTotal(b, x)
    decreases |b|
  {
    if b != [] {
      var init := b[..|b| - 1];
      assert (a + b)[..|a + b| - 1] == a + init;
      assert (a + b)[|a + b| - 1] == b[|b| - 1];
      SideTotalAppend(a, init, x);
    } else {
      assert a + b == a;
    }
  }

  /** A symbol that no compound has an entry for has total 0. */
  lemma {:induction false} SideTotalAbsent(compounds: seq<ParsedCompound>, x: string)
    requires forall i :: 0 <= i < |compounds| ==> FindEntry(compounds[i].elements, x).None?
    ensures SideTotal(compounds, x) == 0
    decreases |compounds|
  {
    if compounds != [] { SideTotalAbsent(compounds[..|compounds| - 1], x); }
  }
}
