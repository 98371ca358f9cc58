/** The ECMAScript string built-ins the chemistry code relies on: character
    classes of its regular expressions, `trim`, `includes`, `split` with a
    string separator, `parseInt(_, 10)` on a digit run, number-to-string for
    non-negative integers, and the default comparator of `Array.prototype.sort`.
    Strings are sequences of Unicode scalar values. */
module JsString {

  // ---------------------------------------------------------------------------
  // Character classes

  /** `\d` (without the `u` flag): ASCII digits only. */
  predicate IsDigit(c: char) { '0' <= c <= '9' }

  /** `[A-Z]` */
  predicate IsUpper(c: char) { 'A' <= c <= 'Z' }

  /** `[a-z]` */
  predicate IsLower(c: char) { 'a' <= c <= 'z' }

  /** ECMAScript WhiteSpace and LineTerminator code points: what `\s` matches
      and what `trim` removes. */
  predicate IsWhitespace(c: char) {
    var n := c as int;
    (0x09 <= n <= 0x0D) || n == 0x20 || n == 0xA0 || n == 0x1680 ||
    (0x2000 <= n <= 0x200A) || n == 0x2028 || n == 0x2029 || n == 0x202F ||
    n == 0x205F || n == 0x3000 || n == 0xFEFF
  }

  /** The code points a regular-expression `.` does not match. */
  predicate IsLineTerminator(c: char) {
    var n := c as int;
    n == 0x0A || n == 0x0D || n == 0x2028 || n == 0x2029
  }

  predicate AllDigits(s: string) {
    forall i :: 0 <= i < |s| ==> IsDigit(s[i])
  }

  predicate IsBlank(s: string) {
    forall i :: 0 <= i < |s| ==> IsWhitespace(s[i])
  }

  // ---------------------------------------------------------------------------
  // trim

  /** Where the leading whitespace of `s[i..]` ends. */
  function ContentStart(s: string, i: nat): (k: nat)
    requires i <= |s|
    ensures i <= k <= |s|
    ensures forall j :: i <= j < k ==> IsWhitespace(s[j])
    ensures k < |s| ==> !IsWhitespace(s[k])
    decreases |s| - i
  {
    if i < |s| && IsWhitespace(s[i]) then ContentStart(s, i + 1) else i
  }

  /** Where the trailing whitespace of `s[lo..j]` starts. */
  function ContentEnd(s: string, lo: nat, j: nat): (k: nat)
    requires lo <= j <= |s|
    ensures lo <= k <= j
    ensures forall m :: k <= m < j ==> IsWhitespace(s[m])
    ensures k > lo ==> !IsWhitespace(s[k - 1])
    decreases j
  {
    if j > lo && IsWhitespace(s[j - 1]) then ContentEnd(s, lo, j - 1) else j
  }

  /** `String.prototype.trim`: the slice of `s` between its leading and its
      trailing whitespace. It neither starts nor ends with whitespace, and it
      is empty exactly when `s` is blank. */
  function Trim(s: string): (r: string)
    ensures |r| <= |s|
    ensures r == [] <==> IsBlank(s)
    ensures r != [] ==> !IsWhitespace(r[0]) && !IsWhitespace(r[|r| - 1])
    ensures exists a, b :: 0 <= a <= b <= |s| && r == s[a..b] && IsBlank(s[..a]) && IsBlank(s[b..])
  {
    var a := ContentStart(s, 0);
    var b := ContentEnd(s, a, |s|);
    assert a == |s| ==> IsBlank(s);
    assert IsBlank(s[..a]) by {
      forall m | 0 <= m < a ensures IsWhitespace(s[..a][m]) { assert s[..a][m] == s[m]; }
    }
    assert IsBlank(s[b..]) by {
      forall m | 0 <= m < |s| - b ensures IsWhitespace(s[b..][m]) { assert s[b..][m] == s[b + m]; }
    }
    s[a..b]
  }

  lemma {:induction false} ContentStartAt(s: string, i: nat, k: nat)
    requires i <= k < |s| && !IsWhitespace(s[k])
    requires forall j :: i <= j < k ==> IsWhitespace(s[j])
    ensures ContentStart(s, i) == k
    decreases k - i
  {
    if i < k {
      ContentStartAt(s, i + 1, k);
    }
  }

  lemma {:induction false} ContentEndAt(s: string, lo: nat, k: nat, j: nat)
    requires lo < k <= j <= |s| && !IsWhitespace(s[k - 1])
    requires forall m :: k <= m < j ==> IsWhitespace(s[m])
    ensures ContentEnd(s, lo, j) == k
    decreases j
  {
    if k < j {
      ContentEndAt(s, lo, k, j - 1);
    }
  }

  /** A text that neither starts nor ends with whitespace is its own trim. */
  lemma TrimUnchanged(x: string)
    requires x == [] || (!IsWhitespace(x[0]) && !IsWhitespace(x[|x| - 1]))
    ensures Trim(x) == x
  {
    if x != [] {
      ContentStartAt(x, 0, 0);
      ContentEndAt(x, 0, |x|, |x|);
    }
  }

  /** Trimming removes exactly the whitespace around a text that neither
      starts nor ends with whitespace. */
  lemma TrimPadded(a: string, x: string, b: string)
    requires IsBlank(a) && IsBlank(b)
    requires x == [] || (!IsWhitespace(x[0]) && !IsWhitespace(x[|x| - 1]))
    ensures Trim(a + x + b) == x
  {
    var s := a + x + b;
    if x == [] {
      assert IsBlank(s) by {
        forall m | 0 <= m < |s| ensures IsWhitespace(s[m]) {
          if m < |a| { assert s[m] == a[m]; } else { assert s[m] == b[m - |a|]; }
        }
      }
    } else {
      forall j | 0 <= j < |a| ensures IsWhitespace(s[j]) { assert s[j] == a[j]; }
      assert s[|a|] == x[0];
      ContentStartAt(s, 0, |a|);
      var k := |a| + |x|;
      forall m | k <= m < |s| ensures IsWhitespace(s[m]) { assert s[m] == b[m - k]; }
      assert s[k - 1] == x[|x| - 1];
      ContentEndAt(s, |a|, k, |s|);
      assert s[|a|..k] == x;
    }
  }

  /** `/\s{2,}/.test(s)`: two adjacent whitespace characters. */
  predicate HasWhitespaceRun(s: string) {
    exists i :: 0 <= i < |s| - 1 && IsWhitespace(s[i]) && IsWhitespace(s[i + 1])
  }

  // ---------------------------------------------------------------------------
  // includes and split with a string separator

  /** `t` occurs in `s` at index `k`. */
  predicate OccursAt(s: string, t: string, k: nat) {
    k + |t| <= |s| && s[k..k + |t|] == t
  }

  /** `s.includes(t)` */
  predicate Includes(s: string, t: string) {
    exists k: nat :: k <= |s| && OccursAt(s, t, k)
  }

  /** `s.indexOf(t, i)`: the first occurrence of `t` at or after `i`, or -1. */
  function FindFrom(s: string, t: string, i: nat): (k: int)
    ensures k == -1 || (i <= k && OccursAt(s, t, k))
    ensures forall j: nat :: i <= j && (k == -1 || j < k) ==> !OccursAt(s, t, j)
    decreases |s| - i
  {
    if i + |t| > |s| then -1
    else if s[i..i + |t|] == t then i
    else FindFrom(s, t, i + 1)
  }

  lemma FindFromMissing(s: string, t: string)
    ensures FindFrom(s, t, 0) == -1 <==> !Includes(s, t)
  {
  }

  /** `s.split(sep)` for a non-empty string separator: the pieces between the
      non-overlapping occurrences of `sep`, found left to right. */
  function Split(s: string, sep: string): (pieces: seq<string>)
    requires |sep| > 0
    ensures |pieces| >= 1
    decreases |s|
  {
    var k := FindFrom(s, sep, 0);
    if k < 0 then [s] else [s[..k]] + Split(s[k + |sep|..], sep)
  }

  /** `pieces.join(sep)` */
  function Join(pieces: seq<string>, sep: string): string
    decreases |pieces|
  {
    if |pieces| == 0 then []
    else if |pieces| == 1 then pieces[0]
    else pieces[0] + sep + Join(pieces[1..], sep)
  }

  /** Splitting and joining again gives back the string, and no piece holds
      the separator. */
  lemma {:induction false} SplitJoin(s: string, sep: string)
    requires |sep| > 0
    ensures Join(Split(s, sep), sep) == s
    ensures forall p :: p in Split(s, sep) ==> !Includes(p, sep)
    decreases |s|
  {
    var k := FindFrom(s, sep, 0);
    if k < 0 {
      FindFromMissing(s, sep);
    } else {
      var rest := s[k + |sep|..];
      SplitJoin(rest, sep);
      SplitHeadA(s, sep, k);
      SplitHeadB(s, sep, k);
      var tail := Split(rest, sep);
      assert Split(s, sep) == [s[..k]] + tail;
      JoinCons(s[..k], tail, sep);
    }
  }

  lemma SplitHeadA(s: string, sep: string, k: nat)
    requires |sep| > 0 && k + |sep| <= |s| && FindFrom(s, sep, 0) == k
    ensures s == s[..k] + sep + s[k + |sep|..]
  {
    assert OccursAt(s, sep, k);
    SliceSplit(s, k, k + |sep|);
  }
  lemma SplitHeadB(s: string, sep: string, k: nat)
    requires |sep| > 0 && k + |sep| <= |s| && FindFrom(s, sep, 0) == k
    ensures !Includes(s[..k], sep)
  {
    forall j: nat | j <= k && OccursAt(s[..k], sep, j) ensures false {
      assert s[..k][j..j + |sep|] == s[j..j + |sep|];
      assert OccursAt(s, sep, j);
    }
  }
  lemma JoinCons(p: string, tail: seq<string>, sep: string)
    requires |tail| >= 1
    ensures Join([p] + tail, sep) == p + sep + Join(tail, sep)
  {
    assert ([p] + tail)[1..] == tail;
  }

  /** The split has a single piece exactly when the separator does not occur. */
  lemma SplitSingle(s: string, sep: string)
    requires |sep| > 0
    ensures |Split(s, sep)| == 1 <==> !Includes(s, sep)
  {
    FindFromMissing(s, sep);
    SplitSingleFind(s, sep);
  }

  lemma SplitSingleFind(s: string, sep: string)
    requires |sep| > 0
    ensures |Split(s, sep)| == 1 <==> FindFrom(s, sep, 0) < 0
  {
    var k := FindFrom(s, sep, 0);
    if k >= 0 {
      assert |Split(s, sep)| >= 2 by {
        assert |Split(s[k + |sep|..], sep)| >= 1;
      }
    }
  }

  /** No character of `s` occurs in `sep`. */
  predicate AvoidsChars(s: string, sep: string) {
    forall k :: 0 <= k < |s| ==> s[k] !in sep
  }

  lemma FindFromFirst(s: string, t: string, i: nat, k: nat)
    requires i <= k && OccursAt(s, t, k)
    requires forall j: nat :: i <= j < k ==> !OccursAt(s, t, j)
    ensures FindFrom(s, t, i) == k
  {
  }

  lemma AvoidsCharsMissing(s: string, sep: string, j: nat)
    requires |sep| > 0 && AvoidsChars(s, sep) && j < |s|
    ensures !OccursAt(s, sep, j)
  {
    assert s[j] !in sep && sep[0] in sep;
    assert j + |sep| <= |s| ==> s[j..j + |sep|][0] == s[j];
  }

  /** Text that has no character of the separator is a single piece. */
  lemma SplitAvoiding(s: string, sep: string)
    requires |sep| > 0 && AvoidsChars(s, sep)
    ensures Split(s, sep) == [s]
  {
    forall j: nat | j <= |s| && OccursAt(s, sep, j) ensures false {
      AvoidsCharsMissing(s, sep, j);
    }
    FindFromMissing(s, sep);
  }

  /** A separator after a piece that has none of its characters ends the
      first piece of the split. */
  lemma SplitAtSeparator(p: string, rest: string, sep: string)
    requires |sep| > 0 && AvoidsChars(p, sep)
    ensures Split(p + sep + rest, sep) == [p] + Split(rest, sep)
  {
    var s := p + sep + rest;
    assert OccursAt(s, sep, |p|) by { assert s[|p|..|p| + |sep|] == sep; }
    forall j: nat | j < |p| ensures !OccursAt(s, sep, j) {
      assert s[j] == p[j] && p[j] !in sep && sep[0] in sep;
      assert j + |sep| <= |s| ==> s[j..j + |sep|][0] == s[j];
    }
    FindFromFirst(s, sep, 0, |p|);
    assert s[..|p|] == p;
    assert s[|p| + |sep|..] == rest;
  }

  // ---------------------------------------------------------------------------
  // Digit runs and numbers

  /** The end of the run of digits that starts at `j`. */
  function DigitEnd(s: string, j: nat): (k: nat)
    requires j <= |s|
    ensures j <= k <= |s|
    ensures AllDigits(s[j..k])
    ensures k < |s| ==> !IsDigit(s[k])
    decreases |s| - j
  {
    if j < |s| && IsDigit(s[j]) then
      var k := DigitEnd(s, j + 1);
      assert s[j..k] == [s[j]] + s[j + 1..k];
      k
    else j
  }

  lemma {:induction false} DigitEndAt(s: string, j: nat, k: nat)
    requires j <= k <= |s|
    requires forall m :: j <= m < k ==> IsDigit(s[m])
    requires k < |s| ==> !IsDigit(s[k])
    ensures DigitEnd(s, j) == k
    decreases k - j
  {
    if j < k {
      DigitEndAt(s, j + 1, k);
    }
  }

  function DigitValue(c: char): nat
    requires IsDigit(c)
  {
    (c as int) - ('0' as int)
  }

  /** `parseInt(ds, 10)` on a non-empty run of ASCII digits. */
  function DecimalValue(ds: string): nat
    requires AllDigits(ds)
    decreases |ds|
  {
    if ds == [] then 0
    else 10 * DecimalValue(ds[..|ds| - 1]) + DigitValue(ds[|ds| - 1])
  }

  function DigitChar(d: nat): (c: char)
    requires d < 10
    ensures IsDigit(c) && DigitValue(c) == d
  {
    (('0' as int) + d) as char
  }

  /** `String(n)` for a non-negative integer: its decimal digits, without
      leading zeros. */
  function NatToString(n: nat): (s: string)
    ensures |s| > 0 && AllDigits(s)
    ensures |s| > 1 ==> s[0] != '0'
    decreases n
  {
    if n < 10 then [DigitChar(n)] else NatToString(n / 10) + [DigitChar(n % 10)]
  }

  /** Reading back the decimal digits of `n` gives `n`. */
  lemma {:induction false} DecimalOfNatToString(n: nat)
    ensures DecimalValue(NatToString(n)) == n
    decreases n
  {
    if n >= 10 {
      var s := NatToString(n);
      assert s[..|s| - 1] == NatToString(n / 10);
      DecimalOfNatToString(n / 10);
    } else {
      assert NatToString(n)[..0] == [];
    }
  }

  // ---------------------------------------------------------------------------
  // The default sort order: lexicographic on characters

  predicate StrLt(a: string, b: string)
    decreases |a|
  {
    if a == [] then b != []
    else if b == [] then false
    else if a[0] == b[0] then StrLt(a[1..], b[1..])
    else a[0] < b[0]
  }

  lemma {:induction false} StrLtIrreflexive(a: string)
    ensures !StrLt(a, a)
    decreases |a|
  {
    if a != [] { StrLtIrreflexive(a[1..]); }
  }

  lemma {:induction false} StrLtTotal(a: string, b: string)
    requires a != b
    ensures StrLt(a, b) || StrLt(b, a)
    decreases |a|
  {
    if a != [] && b != [] && a[0] == b[0] {
      assert a == [a[0]] + a[1..] && b == [b[0]] + b[1..];
      StrLtTotal(a[1..], b[1..]);
    }
  }

  lemma {:induction false} StrLtTransitive(a: string, b: string, c: string)
    requires StrLt(a, b) && StrLt(b, c)
    ensures StrLt(a, c)
    decreases |a|
  {
    if a != [] && b != [] && c != [] && a[0] == b[0] && b[0] == c[0] {
      StrLtTransitive(a[1..], b[1..], c[1..]);
    }
  }

  predicate StrictlySorted(xs: seq<string>) {
    forall i, j :: 0 <= i < j < |xs| ==> StrLt(xs[i], xs[j])
  }

  predicate Distinct<T(==)>(xs: seq<T>) {
    forall i, j :: 0 <= i < j < |xs| ==> xs[i] != xs[j]
  }

  /** `xs.slice(0, n)` */
  function Take<T>(xs: seq<T>, n: nat): (r: seq<T>)
    ensures |r| == if |xs| < n then |xs| else n
    ensures r == xs[..|r|]
  {
    if |xs| <= n then xs else xs[..n]
  }

  /** The head and tail of a concatenation with a non-empty front. */
  lemma ConsAppend<T>(a: seq<T>, b: seq<T>)
    requires a != []
    ensures (a + b)[0] == a[0] && (a + b)[1..] == a[1..] + b
  {
  }

  lemma AppendAssoc<T>(a: seq<T>, b: seq<T>, c: seq<T>)
    ensures a + (b + c) == a + b + c
  {
  }

  /** A sequence is its three slices at `i` and `j` put together. */
  lemma SliceSplit<T>(s: seq<T>, i: nat, j: nat)
    requires i <= j <= |s|
    ensures s == s[..i] + s[i..j] + s[j..]
  {
    assert s[i..] == s[i..j] + s[j..];
    assert s == s[..i] + s[i..];
    AppendAssoc(s[..i], s[i..j], s[j..]);
  }

  /** Insertion of one string into a sorted sequence. */
  function Insert(x: string, xs: seq<string>): seq<string>
    decreases |xs|
  {
    if xs == [] || !StrLt(xs[0], x) then [x] + xs else [xs[0]] + Insert(x, xs[1..])
  }

  /** `xs.slice().sort()` with the default comparator. */
  function Sort(xs: seq<string>): seq<string>
    decreases |xs|
  {
    if xs == [] then [] else Insert(xs[0], Sort(xs[1..]))
  }

  lemma {:induction false} InsertStrict(x: string, xs: seq<string>)
    requires StrictlySorted(xs) && x !in xs
    ensures StrictlySorted(Insert(x, xs))
    ensures forall y :: y in Insert(x, xs) <==> y == x || y in xs
    decreases |xs|
  {
    if xs == [] {
    } else if !StrLt(xs[0], x) {
      StrLtTotal(x, xs[0]);
      forall j | 0 < j < |xs| ensures StrLt(x, xs[j]) {
        StrLtTransitive(x, xs[0], xs[j]);
      }
      var r := [x] + xs;
      assert forall i :: 0 < i < |r| ==> r[i] == xs[i - 1];
    } else {
      InsertStrict(x, xs[1..]);
      var tail := Insert(x, xs[1..]);
      var r := [xs[0]] + tail;
      forall y | y in tail ensures StrLt(xs[0], y) {
        if y != x {
          var j :| 0 <= j < |xs[1..]| && xs[1..][j] == y;
          assert xs[j + 1] == y;
        }
      }
      forall i, j | 0 <= i < j < |r| ensures StrLt(r[i], r[j]) {
        if i == 0 { assert r[j] == tail[j - 1] && r[j] in tail; }
        else { assert r[i] == tail[i - 1] && r[j] == tail[j - 1]; }
      }
      assert forall y :: y in xs <==> y == xs[0] || y in xs[1..];
    }
  }

  /** Sorting a duplicate-free sequence yields a strictly increasing sequence
      with the same members. */
  lemma {:induction false} SortDistinct(xs: seq<string>)
    requires Distinct(xs)
    ensures StrictlySorted(Sort(xs))
    ensures forall y :: y in Sort(xs) <==> y in xs
    decreases |xs|
  {
    if xs != [] {
      var tail := xs[1..];
      assert Distinct(tail) by {
        forall i, j | 0 <= i < j < |tail| ensures tail[i] != tail[j] {
          assert tail[i] == xs[i + 1] && tail[j] == xs[j + 1];
        }
      }
      SortDistinct(tail);
      assert xs[0] !in tail by {
        forall j | 0 <= j < |tail| ensures tail[j] != xs[0] { assert tail[j] == xs[j + 1]; }
      }
      InsertStrict(xs[0], Sort(tail));
      assert forall y :: y in xs <==> y == xs[0] || y in tail;
    }
  }

  // ---------------------------------------------------------------------------
  // Case mapping

  /** `toUpperCase` on one ASCII character: a lowercase letter becomes its
      capital, any other character is kept. */
  function UpperChar(c: char): (u: char)
    ensures !IsLower(u)
    ensures IsLower(c) ==> IsUpper(u) && u as int + 32 == c as int
    ensures !IsLower(c) ==> u == c
  {
    if IsLower(c) then ((c as int) - 32) as char else c
  }

  /** `toUpperCase` on ASCII letters: the result has the same length, no
      lowercase letter is left in it, every lowercase letter of `s` becomes
      the capital at the same place and every other character is kept. */
  function ToUpperAscii(s: string): (r: string)
    ensures |r| == |s|
    ensures forall i :: 0 <= i < |r| ==> !IsLower(r[i])
    ensures forall i :: 0 <= i < |s| && IsLower(s[i]) ==>
      IsUpper(r[i]) && r[i] as int + 32 == s[i] as int
    ensures forall i :: 0 <= i < |s| && !IsLower(s[i]) ==> r[i] == s[i]
  {
    seq(|s|, i requires 0 <= i < |s| => UpperChar(s[i]))
  }

  /** Text without lowercase letters comes back unchanged. */
  lemma {:induction false} ToUpperWithoutLower(s: string)
    requires forall i :: 0 <= i < |s| ==> !IsLower(s[i])
    ensures ToUpperAscii(s) == s
  {
    var r := ToUpperAscii(s);
    forall i | 0 <= i < |s| ensures r[i] == s[i] {
      assert !IsLower(s[i]);
    }
  }

  /** Upper-casing twice is upper-casing once. */
  lemma {:induction false} ToUpperIdempotent(s: string)
    ensures ToUpperAscii(ToUpperAscii(s)) == ToUpperAscii(s)
  {
    ToUpperWithoutLower(ToUpperAscii(s));
  }
}
