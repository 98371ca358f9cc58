/** The application state and its reducer (`equationReducer`,
    src/lib/context/EquationContext.tsx). The React provider and hook are
    not part of this model. */
module EquationContext {
  import opened Wrappers
  import opened JsString
  import opened ChemistryTypes

  datatype Tab = Balance | Stoichiometry | LimitingReactant

  /** `EquationState` */
  datatype EquationState = EquationState(
    currentEquation: string,
    isValid: bool,
    validationErrors: seq<string>,
    balancedResult: Option<BalancedResult>,
    isBalancing: bool,
    error: Option<string>,
    history: seq<EquationHistoryItem>,
    currentTab: Tab,
    showPeriodicTable: bool,
    darkMode: bool)

  /** `EquationAction`, plus `Other` for any action object whose `type` is
      none of these (such as `REMOVE_FROM_HISTORY`, which a component
      dispatches). */
  datatype EquationAction =
    | SetEquation(equation: string)
    | SetBalancing(balancing: bool)
    | SetResult(result: BalancedResult)
    | SetError(message: Option<string>)
    | ClearError
    | AddToHistory(item: EquationHistoryItem)
    | ClearHistory
    | SetTab(tab: Tab)
    | TogglePeriodicTable
    | ToggleDarkMode
    | ResetResult
    | Other(name: string)

  /** The history keeps at most this many items. */
  const HistoryLimit: nat := 100

  /** `initialState` */
  const InitialState := EquationState("", true, [], None, false, None, [], Balance, false, false)

  /** `equationReducer(state, action)` */
  function Reduce(state: EquationState, action: EquationAction): EquationState {
    match action
    case SetEquation(e) => state.(currentEquation := e, error := None)
    case SetBalancing(b) => state.(isBalancing := b)
    case SetResult(res) => state.(balancedResult := Some(res), error := None, isBalancing := false)
    case SetError(m) => state.(error := m, balancedResult := None, isBalancing := false)
    case ClearError => state.(error := None)
    case AddToHistory(item) => state.(history := Take([item] + state.history, HistoryLimit))
    case ClearHistory => state.(history := [])
    case SetTab(t) => state.(currentTab := t)
    case TogglePeriodicTable => state.(showPeriodicTable := !state.showPeriodicTable)
    case ToggleDarkMode => state.(darkMode := !state.darkMode)
    case ResetResult => state.(balancedResult := None, error := None)
    case Other(_) => state
  }

  /** The state after dispatching `actions` in order. */
  function ReduceAll(state: EquationState, actions: seq<EquationAction>): EquationState
    decreases |actions|
  {
    if actions == [] then state
    else Reduce(ReduceAll(state, actions[..|actions| - 1]), actions[|actions| - 1])
  }

  // ---------------------------------------------------------------------------
  // Properties

  /** The history never exceeds its limit. */
  predicate Invariant(state: EquationState) {
    |state.history| <= HistoryLimit
  }

  /** Every action keeps the invariant, and none touches `isValid` or
      `validationErrors`. */
  lemma ReducePreserves(state: EquationState, action: EquationAction)
    requires Invariant(state)
    ensures Invariant(Reduce(state, action))
    ensures Reduce(state, action).isValid == state.isValid
    ensures Reduce(state, action).validationErrors == state.validationErrors
  {
  }

  /** Every state reached from the initial one keeps the history within its
      limit, is still valid and has no validation errors. */
  lemma {:induction false} Reachable(actions: seq<EquationAction>)
    ensures var s := ReduceAll(InitialState, actions);
      Invariant(s) && s.isValid && s.validationErrors == []
    decreases |actions|
  {
    if actions != [] {
      Reachable(actions[..|actions| - 1]);
      ReducePreserves(ReduceAll(InitialState, actions[..|actions| - 1]), actions[|actions| - 1]);
    }
  }

  /** Adding puts the item first, followed by the newest of the previous
      items; at the limit the oldest one drops out. */
  lemma AddToHistoryFront(state: EquationState, item: EquationHistoryItem)
    ensures var h := Reduce(state, AddToHistory(item)).history;
      |h| >= 1 && h[0] == item && |h| <= HistoryLimit &&
      h[1..] == state.history[..|h| - 1] &&
      (|state.history| < HistoryLimit ==> |h| == |state.history| + 1)
  {
    var xs := [item] + state.history;
    var h := Take(xs, HistoryLimit);
    assert h[1..] == xs[1..|h|];
  }

  /** Each toggle undoes itself. */
  lemma TogglesInvolutive(state: EquationState)
    ensures Reduce(Reduce(state, ToggleDarkMode), ToggleDarkMode) == state
    ensures Reduce(Reduce(state, TogglePeriodicTable), TogglePeriodicTable) == state
  {
  }

  /** Dispatching an action that sets fields to fixed values twice is the
      same as once. */
  lemma SettersIdempotent(state: EquationState, action: EquationAction)
    requires !action.AddToHistory? && !action.TogglePeriodicTable? && !action.ToggleDarkMode?
    ensures Reduce(Reduce(state, action), action) == Reduce(state, action)
  {
  }

  /** Which actions may change which field: every other action leaves it as
      it was. */
  lemma FieldOwnership(state: EquationState, action: EquationAction)
    ensures !action.SetEquation? ==> Reduce(state, action).currentEquation == state.currentEquation
    ensures !(action.SetBalancing? || action.SetResult? || action.SetError?) ==>
      Reduce(state, action).isBalancing == state.isBalancing
    ensures !(action.SetResult? || action.SetError? || action.ResetResult?) ==>
      Reduce(state, action).balancedResult == state.balancedResult
    ensures !(action.SetEquation? || action.SetResult? || action.SetError? || action.ClearError? || action.ResetResult?) ==>
      Reduce(state, action).error == state.error
    ensures !(action.AddToHistory? || action.ClearHistory?) ==> Reduce(state, action).history == state.history
    ensures !action.SetTab? ==> Reduce(state, action).currentTab == state.currentTab
    ensures !action.TogglePeriodicTable? ==> Reduce(state, action).showPeriodicTable == state.showPeriodicTable
    ensures !action.ToggleDarkMode? ==> Reduce(state, action).darkMode == state.darkMode
  {
  }

  /** Setting the equation or clearing the error clears the error, and
      clearing the history empties it. After a result or an error the app is no longer balancing; a result
      clears the error and an error clears the result; a reset clears both
      but leaves `isBalancing`. */
  lemma OutcomeActions(state: EquationState, e: string, res: BalancedResult, m: Option<string>)
    ensures var s := Reduce(state, SetEquation(e));
      s.currentEquation == e && s.error.None?
    ensures Reduce(state, ClearError).error.None?
    ensures Reduce(state, ClearHistory).history == []
    ensures var s := Reduce(state, SetResult(res));
      s.balancedResult == Some(res) && s.error.None? && !s.isBalancing
    ensures var s := Reduce(state, SetError(m));
      s.error == m && s.balancedResult.None? && !s.isBalancing
    ensures var s := Reduce(state, ResetResult);
      s.balancedResult.None? && s.error.None? && s.isBalancing == state.isBalancing
  {
  }

  /** An action the reducer does not know returns the very same state. */
  lemma UnknownActionIgnored(state: EquationState)
    ensures Reduce(state, Other("REMOVE_FROM_HISTORY")) == state
    ensures forall name :: Reduce(state, Other(name)) == state
  {
  }

  /** Dispatching in two batches is dispatching the concatenation. */
  lemma {:induction false} ReduceAllAppend(state: EquationState, a: seq<EquationAction>, b: seq<EquationAction>)
    ensures ReduceAll(ReduceAll(state, a), b) == ReduceAll(state, a + b)
    decreases |b|
  {
    if b == [] {
      assert a + b == a;
    } else {
      assert (a + b)[..|a + b| - 1] == a + b[..|b| - 1];
      ReduceAllAppend(state, a, b[..|b| - 1]);
    }
  }
}
