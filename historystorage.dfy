/** The persisted equation history (src/lib/utils/localStorage.ts). The
    browser's `localStorage` is a `Store` object holding the text under the
    history key; `JSON.stringify`/`JSON.parse` are modelled by what the
    stored text decodes to. */
module HistoryStorage {
  import opened Wrappers
  import opened JsString
  import opened ChemistryTypes

  /** `MAX_HISTORY_ITEMS` */
  const MaxHistoryItems: nat := 100

  /** What the text stored under the history key is: the JSON encoding of a
      list of items (as `saveHistory` writes it), the empty string, valid JSON
      that is not an array, or text that is not JSON at all. */
  datatype StoredText =
    | Encoded(items: seq<EquationHistoryItem>)
    | EmptyText
    | NotAnArray
    | NotJson

  /** What `loadHistory` returns for the stored value (`None`: nothing is
      stored under the key). Only an encoded array gives a nonempty list. */
  function Decode(stored: Option<StoredText>): (history: seq<EquationHistoryItem>)
    ensures history != [] ==> stored.Some? && stored.value.Encoded?
    ensures stored.Some? && stored.value.Encoded? ==> history == stored.value.items
  {
    match stored
    case Some(Encoded(items)) => items
    case _ => []
  }

  /** `history.findIndex(h => h.equation === equation)`, `None` for -1. */
  function FindEquation(history: seq<EquationHistoryItem>, equation: string): (k: Option<nat>)
    ensures k.None? <==> forall i :: 0 <= i < |history| ==> history[i].equation != equation
    ensures k.Some? ==> (k.value < |history| && history[k.value].equation == equation &&
      forall i :: 0 <= i < k.value ==> history[i].equation != equation)
  {
    if history == [] then None
    else if history[0].equation == equation then Some(0)
    else match FindEquation(history[1..], equation)
      case None => None
      case Some(k) => Some(k + 1)
  }

  /** The list `addHistoryItem` returns: the item, then the previous list
      without its first entry for the same equation. */
  function MoveToFront(history: seq<EquationHistoryItem>, item: EquationHistoryItem): seq<EquationHistoryItem> {
    match FindEquation(history, item.equation)
    case None => [item] + history
    case Some(k) => [item] + history[..k] + history[k + 1..]
  }

  /** `history.filter(item => item.id !== id)` */
  function WithoutId(history: seq<EquationHistoryItem>, id: string): seq<EquationHistoryItem>
    decreases |history|
  {
    if history == [] then []
    else (if history[0].id != id then [history[0]] else []) + WithoutId(history[1..], id)
  }

  /** The browser store. `quotaExceeded` says whether `setItem` throws
      (`saveHistory` catches this and the stored value stays as it was). */
  class Store {
    var stored: Option<StoredText>
    var quotaExceeded: bool

    constructor(stored: Option<StoredText>, quotaExceeded: bool)
      ensures this.stored == stored && this.quotaExceeded == quotaExceeded
    {
      this.stored := stored;
      this.quotaExceeded := quotaExceeded;
    }

    /** `saveHistory`: persists the first `MaxHistoryItems` items. */
    method SaveHistory(history: seq<EquationHistoryItem>)
      modifies this
      ensures quotaExceeded == old(quotaExceeded)
      ensures stored == if quotaExceeded then old(stored) else Some(Encoded(Take(history, MaxHistoryItems)))
      ensures !quotaExceeded ==> Decode(stored) == Take(history, MaxHistoryItems)
      ensures !quotaExceeded ==> |Decode(stored)| <= MaxHistoryItems
    {
      var trimmed := Take(history, MaxHistoryItems);
      if !quotaExceeded {
        stored := Some(Encoded(trimmed));
      }
    }

    /** `loadHistory` */
    method LoadHistory() returns (history: seq<EquationHistoryItem>)
      ensures history == Decode(stored)
    {
      match stored {
        case None => history := [];
        case Some(text) =>
          match text {
            case EmptyText => history := [];
            case NotJson => history := [];
            case NotAnArray => history := [];
            case Encoded(items) => history := items;
          }
      }
    }

    /** `clearHistory`: removes the key, so a later load gives `[]`. */
    method ClearHistory()
      modifies this
      ensures stored.None? && quotaExceeded == old(quotaExceeded)
      ensures Decode(stored) == []
    {
      stored := None;
    }

    /** `addHistoryItem`: returns the whole new list but persists only its
        first `MaxHistoryItems` items. */
    method AddHistoryItem(item: EquationHistoryItem) returns (newHistory: seq<EquationHistoryItem>)
      modifies this
      ensures newHistory == MoveToFront(old(Decode(stored)), item)
      ensures quotaExceeded == old(quotaExceeded)
      ensures stored == if quotaExceeded then old(stored) else Some(Encoded(Take(newHistory, MaxHistoryItems)))
    {
      var currentHistory := LoadHistory();
      var existingIndex := FindEquation(currentHistory, item.equation);
      if existingIndex.Some? {
        var k := existingIndex.value;
        currentHistory := currentHistory[..k] + currentHistory[k + 1..];
      }
      newHistory := [item] + currentHistory;
      SaveHistory(newHistory);
    }

    /** `removeHistoryItem` */
    method RemoveHistoryItem(id: string) returns (newHistory: seq<EquationHistoryItem>)
      modifies this
      ensures newHistory == WithoutId(old(Decode(stored)), id)
      ensures quotaExceeded == old(quotaExceeded)
      ensures stored == if quotaExceeded then old(stored) else Some(Encoded(Take(newHistory, MaxHistoryItems)))
    {
      var currentHistory := LoadHistory();
      newHistory := WithoutId(currentHistory, id);
      SaveHistory(newHistory);
    }
  }

  // ---------------------------------------------------------------------------
  // Properties of the list operations

  /** No two items share an equation. */
  predicate DistinctEquations(history: seq<EquationHistoryItem>) {
    forall i, j :: 0 <= i < j < |history| ==> history[i].equation != history[j].equation
  }

  /** Moving to the front puts the item first. When no earlier item has the
      same equation the rest is the old list. */
  lemma MoveToFrontNew(history: seq<EquationHistoryItem>, item: EquationHistoryItem)
    requires forall i :: 0 <= i < |history| ==> history[i].equation != item.equation
    ensures MoveToFront(history, item) == [item] + history
  {
  }

  /** Otherwise the rest holds the old items less the first one with that
      equation, and the length stays the same. */
  lemma MoveToFrontReplaces(history: seq<EquationHistoryItem>, item: EquationHistoryItem, k: nat)
    requires FindEquation(history, item.equation) == Some(k)
    ensures var r := MoveToFront(history, item);
      |r| == |history| && r[0] == item &&
      multiset(r[1..]) + multiset{history[k]} == multiset(history)
  {
    assert MoveToFront(history, item)[1..] == history[..k] + history[k + 1..];
    MultisetRemoveAt(history, k);
  }

  lemma MultisetRemoveAt<T>(xs: seq<T>, k: nat)
    requires k < |xs|
    ensures multiset(xs[..k] + xs[k + 1..]) + multiset{xs[k]} == multiset(xs)
  {
    assert xs == xs[..k] + [xs[k]] + xs[k + 1..];
  }

  /** A history without duplicate equations stays so when an item is added. */
  lemma MoveToFrontDistinct(history: seq<EquationHistoryItem>, item: EquationHistoryItem)
    requires DistinctEquations(history)
    ensures DistinctEquations(MoveToFront(history, item))
  {
    match FindEquation(history, item.equation)
    case None =>
      PrependDistinct(item, history);
    case Some(k) =>
      RemoveAtDistinct(history, k);
      PrependDistinct(item, history[..k] + history[k + 1..]);
  }

  /** Removing the item at `k` from a list without duplicate equations leaves
      none with its equation. */
  lemma RemoveAtDistinct(history: seq<EquationHistoryItem>, k: nat)
    requires DistinctEquations(history) && k < |history|
    ensures var rest := history[..k] + history[k + 1..];
      DistinctEquations(rest) &&
      forall i :: 0 <= i < |rest| ==> rest[i].equation != history[k].equation
  {
    var rest := history[..k] + history[k + 1..];
    forall i | 0 <= i < |rest|
      ensures rest[i] == history[if i < k then i else i + 1]
    {
    }
  }

  lemma PrependDistinct(item: EquationHistoryItem, rest: seq<EquationHistoryItem>)
    requires DistinctEquations(rest)
    requires forall i :: 0 <= i < |rest| ==> rest[i].equation != item.equation
    ensures DistinctEquations([item] + rest)
  {
    var r := [item] + rest;
    assert forall j :: 0 < j < |r| ==> r[j] == rest[j - 1];
  }

  /** Adding the same item twice is adding it once. */
  lemma MoveToFrontIdempotent(history: seq<EquationHistoryItem>, item: EquationHistoryItem)
    ensures MoveToFront(MoveToFront(history, item), item) == MoveToFront(history, item)
  {
    MoveToFrontHead(history, item);
    var r := MoveToFront(history, item);
    assert FindEquation(r, item.equation) == Some(0);
    HeadAndRest(r);
  }

  lemma MoveToFrontHead(history: seq<EquationHistoryItem>, item: EquationHistoryItem)
    ensures |MoveToFront(history, item)| > 0 && MoveToFront(history, item)[0] == item
  {
  }

  lemma HeadAndRest<T>(r: seq<T>)
    requires |r| > 0
    ensures [r[0]] + r[..0] + r[1..] == r
  {
    assert r[..0] == [];
    assert [r[0]] + r[1..] == r;
  }

  /** Removing by id keeps exactly the items with another id. */
  lemma {:induction false} WithoutIdMember(history: seq<EquationHistoryItem>, id: string, x: EquationHistoryItem)
    ensures x in WithoutId(history, id) <==> x in history && x.id != id
    decreases |history|
  {
    if history != [] {
      WithoutIdMember(history[1..], id, x);
      assert history == [history[0]] + history[1..];
    }
  }

  /** Removing by id distributes over concatenation, so the kept items stay
      in their original order. */
  lemma {:induction false} WithoutIdAppend(a: seq<EquationHistoryItem>, b: seq<EquationHistoryItem>, id: string)
    ensures WithoutId(a + b, id) == WithoutId(a, id) + WithoutId(b, id)
    decreases |a|
  {
    if a != [] {
      assert (a + b)[0] == a[0];
      assert (a + b)[1..] == a[1..] + b;
      WithoutIdAppend(a[1..], b, id);
      var h := if a[0].id != id then [a[0]] else [];
      assert WithoutId(a + b, id) == h + WithoutId(a[1..] + b, id);
      assert WithoutId(a, id) == h + WithoutId(a[1..], id);
    } else {
      assert a + b == b;
    }
  }

  /** Removing an id that no item has changes nothing; in particular removing
      twice is removing once. */
  lemma {:induction false} WithoutIdAbsent(history: seq<EquationHistoryItem>, id: string)
    requires forall i :: 0 <= i < |history| ==> history[i].id != id
    ensures WithoutId(history, id) == history
    decreases |history|
  {
    if history != [] {
      WithoutIdAbsent(history[1..], id);
    }
  }

  lemma WithoutIdIdempotent(history: seq<EquationHistoryItem>, id: string)
    ensures WithoutId(WithoutId(history, id), id) == WithoutId(history, id)
  {
    var r := WithoutId(history, id);
    forall i | 0 <= i < |r|
      ensures r[i].id != id
    {
      WithoutIdMember(history, id, r[i]);
    }
    WithoutIdAbsent(r, id);
  }
}
