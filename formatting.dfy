/** Display helpers for formulas and equations (src/lib/utils/formatting.ts). */
module Formatting {
  import opened JsString

  // ---------------------------------------------------------------------------
  // formatChemicalFormula, plain-text mode

  /** The Unicode subscript digits U+2080 to U+2089. */
  predicate IsSubscriptDigit(c: char) {
    0x2080 <= c as int <= 0x2089
  }

  /** The entry of `subscriptMap` for an ASCII digit. */
  function SubscriptOf(c: char): (r: char)
    requires IsDigit(c)
    ensures IsSubscriptDigit(r) && !IsDigit(r)
  {
    (0x2080 + DigitValue(c)) as char
  }

  /** Every digit replaced by its subscript. */
  function Subscripts(formula: string): (r: string)
    ensures |r| == |formula|
    ensures forall i :: 0 <= i < |r| ==> !IsDigit(r[i])
  {
    seq(|formula|, i requires 0 <= i < |formula| =>
      if IsDigit(formula[i]) then SubscriptOf(formula[i]) else formula[i])
  }

  /** The reverse mapping, from subscript digits back to ASCII digits. */
  function PlainDigits(text: string): (r: string)
    ensures |r| == |text|
  {
    seq(|text|, i requires 0 <= i < |text| =>
      if IsSubscriptDigit(text[i]) then ('0' as int + (text[i] as int - 0x2080)) as char else text[i])
  }

  /** Subscripting loses nothing: on a formula without subscript characters
      the reverse mapping gives it back, and every non-digit character is
      left where it was. */
  lemma SubscriptsRoundTrip(formula: string)
    requires forall i :: 0 <= i < |formula| ==> !IsSubscriptDigit(formula[i])
    ensures PlainDigits(Subscripts(formula)) == formula
    ensures forall i :: 0 <= i < |formula| && !IsDigit(formula[i]) ==> Subscripts(formula)[i] == formula[i]
  {
    var r := Subscripts(formula);
    forall i | 0 <= i < |formula|
      ensures PlainDigits(r)[i] == formula[i]
    {
      if IsDigit(formula[i]) {
        assert r[i] == SubscriptOf(formula[i]);
      }
    }
  }

  // ---------------------------------------------------------------------------
  // formatChemicalFormula, HTML mode

  const OpenTag := "<sub>"
  const CloseTag := "</sub>"

  /** `formula.replace(/(\d+)/g, '<sub>$1</sub>')`: each maximal run of
      digits wrapped in a `sub` element. */
  function WrapDigits(s: string): string
    decreases |s|
  {
    if s == [] then []
    else if IsDigit(s[0]) then
      var k := DigitEnd(s, 0);
      OpenTag + s[..k] + CloseTag + WrapDigits(s[k..])
    else [s[0]] + WrapDigits(s[1..])
  }

  /** The text with every `<sub>` and `</sub>` tag deleted. */
  function StripTags(t: string): string
    decreases |t|
  {
    if t == [] then []
    else if |t| >= |OpenTag| && t[..|OpenTag|] == OpenTag then StripTags(t[|OpenTag|..])
    else if |t| >= |CloseTag| && t[..|CloseTag|] == CloseTag then StripTags(t[|CloseTag|..])
    else [t[0]] + StripTags(t[1..])
  }

  /** A text with no `<` loses nothing but its tags. */
  lemma {:induction false} StripPlain(p: string, rest: string)
    requires forall i :: 0 <= i < |p| ==> p[i] != '<'
    ensures StripTags(p + rest) == p + StripTags(rest)
    decreases |p|
  {
    if p != [] {
      var t := p + rest;
      assert t[0] == p[0] && t[1..] == p[1..] + rest;
      StripPlain(p[1..], rest);
      assert p == [p[0]] + p[1..];
    } else {
      assert p + rest == rest;
    }
  }

  /** Stripping one wrapped run gives back its digits. */
  lemma StripRun(ds: string, rest: string)
    requires AllDigits(ds)
    ensures StripTags(OpenTag + ds + CloseTag + rest) == ds + StripTags(rest)
  {
    var u := CloseTag + rest;
    var v := ds + u;
    AppendAssoc(OpenTag + ds, CloseTag, rest);
    AppendAssoc(OpenTag, ds, u);
    var t := OpenTag + v;
    assert t[..|OpenTag|] == OpenTag && t[|OpenTag|..] == v;
    forall i | 0 <= i < |ds|
      ensures ds[i] != '<'
    {
      assert IsDigit(ds[i]);
    }
    StripPlain(ds, u);
    assert u[..|OpenTag|] != OpenTag by { assert u[1] == '/'; }
    assert u[..|CloseTag|] == CloseTag && u[|CloseTag|..] == rest;
  }

  /** Removing the tags again gives the formula back. */
  lemma {:induction false} WrapDigitsRoundTrip(s: string)
    requires forall i :: 0 <= i < |s| ==> s[i] != '<'
    ensures StripTags(WrapDigits(s)) == s
    decreases |s|
  {
    if s != [] {
      if IsDigit(s[0]) {
        var k := DigitEnd(s, 0);
        WrapDigitsRoundTrip(s[k..]);
        StripRun(s[..k], WrapDigits(s[k..]));
        assert s == s[..k] + s[k..];
      } else {
        WrapDigitsRoundTrip(s[1..]);
        StripPlain([s[0]], WrapDigits(s[1..]));
        assert s == [s[0]] + s[1..];
      }
    }
  }

  /** The runs wrapped are the maximal ones: text without digits is copied,
      and a whole digit run, ended by a non-digit or by the end of the text,
      becomes one element. */
  lemma WrapDigitsRun(p: string, ds: string, q: string)
    requires forall i :: 0 <= i < |p| ==> !IsDigit(p[i])
    requires |ds| > 0 && AllDigits(ds)
    requires q == [] || !IsDigit(q[0])
    ensures WrapDigits(p + ds + q) == p + OpenTag + ds + CloseTag + WrapDigits(q)
  {
    AppendAssoc(p, ds, q);
    WrapDigitsPlain(p, ds + q);
    WrapDigitsAtRun(ds, q);
    var w := WrapDigits(q);
    AppendAssoc(OpenTag + ds, CloseTag, w);
    AppendAssoc(OpenTag, ds, CloseTag + w);
    AppendAssoc(p, OpenTag, ds + (CloseTag + w));
    AppendAssoc(p + OpenTag, ds, CloseTag + w);
    AppendAssoc(p + OpenTag + ds, CloseTag, w);
  }

  lemma {:induction false} WrapDigitsPlain(p: string, rest: string)
    requires forall i :: 0 <= i < |p| ==> !IsDigit(p[i])
    ensures WrapDigits(p + rest) == p + WrapDigits(rest)
    decreases |p|
  {
    if p != [] {
      var t := p + rest;
      assert t[0] == p[0] && t[1..] == p[1..] + rest;
      WrapDigitsPlain(p[1..], rest);
      assert p == [p[0]] + p[1..];
    } else {
      assert p + rest == rest;
    }
  }

  lemma WrapDigitsAtRun(ds: string, q: string)
    requires |ds| > 0 && AllDigits(ds)
    requires q == [] || !IsDigit(q[0])
    ensures WrapDigits(ds + q) == OpenTag + ds + CloseTag + WrapDigits(q)
  {
    var s := ds + q;
    DigitRunEnd(ds, q);
    assert s[0] == ds[0];
    assert s[..|ds|] == ds && s[|ds|..] == q;
  }

  lemma DigitRunEnd(ds: string, q: string)
    requires AllDigits(ds)
    requires q == [] || !IsDigit(q[0])
    ensures DigitEnd(ds + q, 0) == |ds|
  {
    DigitRunEndFrom(ds, q, 0);
  }

  lemma {:induction false} DigitRunEndFrom(ds: string, q: string, j: nat)
    requires AllDigits(ds) && j <= |ds|
    requires q == [] || !IsDigit(q[0])
    ensures DigitEnd(ds + q, j) == |ds|
    decreases |ds| - j
  {
    var s := ds + q;
    if j < |ds| {
      assert s[j] == ds[j];
      DigitRunEndFrom(ds, q, j + 1);
    } else if q != [] {
      assert s[j] == q[0];
    }
  }

  /** `formatChemicalFormula(formula, useHtml)` */
  function FormatChemicalFormula(formula: string, useHtml: bool): string {
    if useHtml then WrapDigits(formula) else Subscripts(formula)
  }

  /** The formatted formula gives the formula back: by removing the tags in
      HTML mode, by mapping the subscript digits back otherwise. */
  lemma FormatChemicalFormulaRoundTrip(formula: string, useHtml: bool)
    requires forall i :: 0 <= i < |formula| ==> formula[i] != '<' && !IsSubscriptDigit(formula[i])
    ensures useHtml ==> StripTags(FormatChemicalFormula(formula, useHtml)) == formula
    ensures !useHtml ==> PlainDigits(FormatChemicalFormula(formula, useHtml)) == formula
  {
    if useHtml {
      WrapDigitsRoundTrip(formula);
    } else {
      SubscriptsRoundTrip(formula);
    }
  }

  // ---------------------------------------------------------------------------
  // formatChemicalEquation

  /** The length of the separator `/(→|\+|->|=)/` matches at `k`, or 0. */
  function OperatorAt(s: string, k: nat): (n: nat)
    requires k <= |s|
    ensures k + n <= |s|
  {
    if k == |s| then 0
    else if s[k] == '→' || s[k] == '+' || s[k] == '=' then 1
    else if s[k] == '-' && k + 1 < |s| && s[k + 1] == '>' then 2
    else 0
  }

  /** What matches is a separator. */
  lemma OperatorAtMatches(s: string, k: nat)
    requires k <= |s| && OperatorAt(s, k) > 0
    ensures IsOperator(s[k..k + OperatorAt(s, k)])
  {
    if OperatorAt(s, k) == 1 {
      assert s[k..k + 1] == [s[k]];
    } else {
      assert s[k..k + 2] == [s[k], s[k + 1]];
    }
  }

  predicate IsOperator(t: string) {
    t == "→" || t == "+" || t == "->" || t == "="
  }

  /** The first position at or after `k` where a separator matches, or the
      length of `s`. */
  function NextOperator(s: string, k: nat): (j: nat)
    requires k <= |s|
    ensures k <= j <= |s|
    ensures j < |s| ==> OperatorAt(s, j) > 0
    ensures forall i :: k <= i < j ==> OperatorAt(s, i) == 0
    decreases |s| - k
  {
    if k == |s| || OperatorAt(s, k) > 0 then k else NextOperator(s, k + 1)
  }

  /** `equation.split(/(→|\+|->|=)/)`: the pieces between separators, with
      each captured separator kept as a piece of its own. */
  function SplitKeepingOperators(s: string): (parts: seq<string>)
    ensures |parts| > 0
    decreases |s|
  {
    var j := NextOperator(s, 0);
    if j == |s| then [s]
    else
      var n := OperatorAt(s, j);
      [s[..j], s[j..j + n]] + SplitKeepingOperators(s[j + n..])
  }

  /** All pieces written one after the other. */
  function Concat(parts: seq<string>): string
    decreases |parts|
  {
    if parts == [] then [] else parts[0] + Concat(parts[1..])
  }

  /** No separator matches anywhere inside `t`. */
  predicate OperatorFree(t: string) {
    forall i :: 0 <= i < |t| ==> OperatorAt(t, i) == 0
  }

  lemma OperatorFreePrefix(s: string, j: nat)
    requires j <= |s|
    requires forall i :: 0 <= i < j ==> OperatorAt(s, i) == 0
    ensures OperatorFree(s[..j])
  {
    var t := s[..j];
    forall i | 0 <= i < |t|
      ensures OperatorAt(t, i) == 0
    {
      assert OperatorAt(s, i) == 0;
      assert t[i] == s[i];
      if i + 1 < |t| {
        assert t[i + 1] == s[i + 1];
      }
    }
  }

  lemma ConcatPair(a: string, b: string, rest: seq<string>)
    ensures Concat([a, b] + rest) == a + b + Concat(rest)
  {
    var parts := [a, b] + rest;
    assert parts[1..] == [b] + rest;
    assert parts[1..][1..] == rest;
  }

  /** The pieces put back together give the equation. */
  lemma {:induction false} SplitKeepingOperatorsConcat(s: string)
    ensures Concat(SplitKeepingOperators(s)) == s
    decreases |s|
  {
    var j := NextOperator(s, 0);
    if j == |s| {
      assert s[..j] == s;
      assert Concat([s]) == s + Concat([]);
    } else {
      var n := OperatorAt(s, j);
      SplitKeepingOperatorsConcat(s[j + n..]);
      ConcatStep(s, j, j + n, SplitKeepingOperators(s[j + n..]));
    }
  }

  lemma ConcatStep(s: string, j: nat, k: nat, rest: seq<string>)
    requires j <= k <= |s| && Concat(rest) == s[k..]
    ensures Concat([s[..j], s[j..k]] + rest) == s
  {
    ConcatPair(s[..j], s[j..k], rest);
    SliceSplit(s, j, k);
  }

  /** The number of separators the split matches. */
  function SeparatorCount(s: string): nat
    decreases |s|
  {
    var j := NextOperator(s, 0);
    if j == |s| then 0 else 1 + SeparatorCount(s[j + OperatorAt(s, j)..])
  }

  /** Each separator matched adds itself and the piece after it. */
  lemma {:induction false} SplitKeepingOperatorsLength(s: string)
    ensures |SplitKeepingOperators(s)| == 2 * SeparatorCount(s) + 1
    decreases |s|
  {
    var j := NextOperator(s, 0);
    if j < |s| {
      SplitKeepingOperatorsLength(s[j + OperatorAt(s, j)..]);
    }
  }

  /** The odd-numbered pieces are the separators matched, ... */
  lemma {:induction false} SplitKeepingOperatorsOdd(s: string, m: nat)
    requires 2 * m + 1 < |SplitKeepingOperators(s)|
    ensures IsOperator(SplitKeepingOperators(s)[2 * m + 1])
    decreases |s|
  {
    var j := NextOperator(s, 0);
    if m == 0 {
      OperatorAtMatches(s, j);
    } else {
      var n := OperatorAt(s, j);
      assert SplitKeepingOperators(s)[2 * m + 1] == SplitKeepingOperators(s[j + n..])[2 * (m - 1) + 1];
      SplitKeepingOperatorsOdd(s[j + n..], m - 1);
    }
  }

  /** ... and no separator occurs within the even-numbered ones. */
  lemma {:induction false} SplitKeepingOperatorsEven(s: string, m: nat)
    requires 2 * m < |SplitKeepingOperators(s)|
    ensures OperatorFree(SplitKeepingOperators(s)[2 * m])
    decreases |s|
  {
    var j := NextOperator(s, 0);
    if m == 0 {
      OperatorFreePrefix(s, j);
      if j == |s| {
        assert s[..j] == s;
      }
    } else {
      var n := OperatorAt(s, j);
      assert SplitKeepingOperators(s)[2 * m] == SplitKeepingOperators(s[j + n..])[2 * (m - 1)];
      SplitKeepingOperatorsEven(s[j + n..], m - 1);
    }
  }

  /** The text an equation piece is shown as: a separator unchanged, anything
      else trimmed and formatted. */
  function RenderPart(part: string, useHtml: bool): string {
    var trimmed := Trim(part);
    if IsOperator(trimmed) then trimmed else FormatChemicalFormula(trimmed, useHtml)
  }

  /** What each piece of the equation is shown as, in order. */
  function ShownParts(equation: string, useHtml: bool): (shown: seq<string>)
    ensures |shown| == |SplitKeepingOperators(equation)|
  {
    var parts := SplitKeepingOperators(equation);
    seq(|parts|, i requires 0 <= i < |parts| => RenderPart(parts[i], useHtml))
  }

  /** `formatChemicalEquation(equation, useHtml)`: the shown pieces joined by
      single spaces. */
  function FormatChemicalEquation(equation: string, useHtml: bool): string {
    Join(ShownParts(equation, useHtml), " ")
  }

  /** The pieces make up the equation (`SplitKeepingOperatorsConcat`); an
      odd-numbered one is a separator and is shown as it is, ... */
  lemma ShownOperator(equation: string, useHtml: bool, m: nat)
    requires 2 * m + 1 < |SplitKeepingOperators(equation)|
    ensures IsOperator(SplitKeepingOperators(equation)[2 * m + 1])
    ensures ShownParts(equation, useHtml)[2 * m + 1] == SplitKeepingOperators(equation)[2 * m + 1]
  {
    SplitKeepingOperatorsOdd(equation, m);
    TrimOperator(SplitKeepingOperators(equation)[2 * m + 1]);
  }

  /** ... and an even-numbered one holds no separator and is shown trimmed
      and formatted. */
  lemma ShownFormula(equation: string, useHtml: bool, m: nat)
    requires 2 * m < |SplitKeepingOperators(equation)|
    ensures OperatorFree(SplitKeepingOperators(equation)[2 * m])
    ensures ShownParts(equation, useHtml)[2 * m] ==
      FormatChemicalFormula(Trim(SplitKeepingOperators(equation)[2 * m]), useHtml)
  {
    SplitKeepingOperatorsEven(equation, m);
    OperatorFreeTrim(SplitKeepingOperators(equation)[2 * m]);
  }

  lemma TrimOperator(t: string)
    requires IsOperator(t)
    ensures Trim(t) == t
  {
    var r := Trim(t);
    assert |r| <= |t|;
    assert !IsBlank(t) by { assert !IsWhitespace(t[0]); }
  }

  /** A piece without a separator does not trim to one. */
  lemma OperatorFreeTrim(t: string)
    requires OperatorFree(t)
    ensures !IsOperator(Trim(t))
  {
    var a := ContentStart(t, 0);
    var b := ContentEnd(t, a, |t|);
    var r := Trim(t);
    assert r == t[a..b];
    if |r| > 0 {
      assert r[0] == t[a];
      assert OperatorAt(t, a) == 0;
      assert t[a] != '→' && t[a] != '+' && t[a] != '=';
      if |r| >= 2 {
        assert r[1] == t[a + 1];
        assert !(t[a] == '-' && t[a + 1] == '>');
      }
    }
  }

  // ---------------------------------------------------------------------------
  // parseCompoundString

  datatype CompoundString = CompoundString(coefficient: nat, formula: string)

  predicate HasLineTerminator(s: string) {
    exists i :: 0 <= i < |s| && IsLineTerminator(s[i])
  }

  /** Where `/^(\d+)?(.+)$/` puts the end of its digit group: after the
      leading digit run, but one short of the end when the whole string is
      digits, because `.+` needs at least one character. */
  function CoefficientEnd(s: string): (d: nat)
    requires |s| > 0
    ensures d < |s| && AllDigits(s[..d])
  {
    var k := DigitEnd(s, 0);
    if k == |s| then
      assert AllDigits(s[..k - 1]) by { assert forall i :: 0 <= i < k - 1 ==> s[..k - 1][i] == s[..k][i]; }
      k - 1
    else k
  }

  /** `parseCompoundString(compoundStr)` */
  function ParseCompoundString(compoundStr: string): (r: CompoundString)
    ensures |compoundStr| > 0 ==> |r.formula| > 0
    ensures |r.formula| <= |compoundStr| && r.formula == compoundStr[|compoundStr| - |r.formula|..]
    ensures AllDigits(compoundStr[..|compoundStr| - |r.formula|])
    ensures |r.formula| == |compoundStr| ==> r.coefficient == 1
    ensures |r.formula| < |compoundStr| ==> r.coefficient == DecimalValue(compoundStr[..|compoundStr| - |r.formula|])
  {
    if compoundStr == [] || HasLineTerminator(compoundStr) then
      assert compoundStr[..0] == [];
      CompoundString(1, compoundStr)
    else
      var d := CoefficientEnd(compoundStr);
      if d == 0 then
        assert compoundStr[..0] == [];
        CompoundString(1, compoundStr)
      else
        CompoundString(DecimalValue(compoundStr[..d]), compoundStr[d..])
  }

  /** Without a leading digit, or with a line terminator anywhere (no
      match), the coefficient is 1 and the formula is the whole string. */
  lemma ParseCompoundStringUnmatched(s: string)
    requires s == [] || !IsDigit(s[0]) || HasLineTerminator(s)
    ensures ParseCompoundString(s) == CompoundString(1, s)
  {
  }

  /** An all-digit string keeps its last digit as the formula. */
  lemma ParseCompoundStringAllDigits(s: string)
    requires |s| > 0 && AllDigits(s)
    ensures ParseCompoundString(s).formula == [s[|s| - 1]]
    ensures |s| > 1 ==> ParseCompoundString(s).coefficient == DecimalValue(s[..|s| - 1])
    ensures |s| == 1 ==> ParseCompoundString(s).coefficient == 1
  {
    assert !HasLineTerminator(s) by {
      forall i | 0 <= i < |s| ensures !IsLineTerminator(s[i]) { assert IsDigit(s[i]); }
    }
    DigitRunEnd(s, []);
    assert s + [] == s;
  }

  /** Writing a coefficient in front of a formula that does not start with a
      digit and has no line terminator reads back as that coefficient and
      that formula. */
  lemma ParseCompoundStringRoundTrip(n: nat, formula: string)
    requires |formula| > 0 && !IsDigit(formula[0]) && !HasLineTerminator(formula)
    ensures ParseCompoundString(NatToString(n) + formula) == CompoundString(n, formula)
  {
    var ds := NatToString(n);
    var s := ds + formula;
    assert !HasLineTerminator(s) by {
      forall i | 0 <= i < |s| ensures !IsLineTerminator(s[i]) {
        if i < |ds| { assert IsDigit(ds[i]); } else { assert s[i] == formula[i - |ds|]; }
      }
    }
    DigitRunEnd(ds, formula);
    assert s[..|ds|] == ds && s[|ds|..] == formula;
    DecimalOfNatToString(n);
  }

  // ---------------------------------------------------------------------------
  // The examples of the doc comments

  lemma SubscriptExample()
    ensures FormatChemicalFormula("H2O", false) == "H\U{2082}O"
  {
    assert Subscripts("H2O") == "H\U{2082}O";
  }

  lemma HtmlExample()
    ensures FormatChemicalFormula("H2O", true) == "H" + OpenTag + "2" + CloseTag + "O"
  {
    WrapDigitsRun("H", "2", "O");
    assert WrapDigits("O") == "O";
    assert "H2O" == "H" + "2" + "O";
  }

  lemma ParseExample()
    ensures ParseCompoundString("2H2O") == CompoundString(2, "H2O")
  {
    assert !HasLineTerminator("H2O") by {
      forall i | 0 <= i < 3 ensures !IsLineTerminator("H2O"[i]) { }
    }
    ParseCompoundStringRoundTrip(2, "H2O");
    assert NatToString(2) + "H2O" == "2H2O";
  }
}
