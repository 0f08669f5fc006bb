/**
 * The session App.tsx keeps around the reducer: the calculator state and
 * the evaluation history, updated by `handleEvaluate`,
 * `handleHistorySelect`, the keypad's `dispatch` and the history's
 * clear button.
 */
module Session {
  import opened Wrappers
  import opened JsNumber
  import opened Calculator
  import Formatter

  /** The most history items kept. */
  const HistoryLimit: nat := 50

  /** One evaluated expression; `id` and `timestamp` come from the clock and are opaque here. */
  datatype HistoryItem = HistoryItem(id: string, expression: string, result: string, timestamp: int)

  /** JavaScript truthiness of an optional string: present and non-empty. */
  predicate Truthy(text: Option<string>)
  {
    text.Some? && text.value != ""
  }

  /** `[item, ...history].slice(0, 50)`. */
  function Record(history: seq<HistoryItem>, item: HistoryItem): (r: seq<HistoryItem>)
    ensures |r| == if |history| < HistoryLimit then |history| + 1 else HistoryLimit
    ensures r[0] == item
    ensures forall i :: 0 < i < |r| ==> r[i] == history[i - 1]
  {
    var all := [item] + history;
    if |all| <= HistoryLimit then all else all[..HistoryLimit]
  }

  /** `${previousOperand} ${operation} ${currentOperand}`. */
  function Expression(s: State): (r: string)
    requires s.previous.Some? && s.operation.Some? && s.current.Some?
    ensures var parts := [s.previous.value, s.operation.value, s.current.value];
      (forall i :: 0 <= i < 3 ==> ' ' !in parts[i]) ==> Formatter.Split(r, ' ') == parts
  {
    var parts := [s.previous.value, s.operation.value, s.current.value];
    var r := s.previous.value + " " + s.operation.value + " " + s.current.value;
    assert Formatter.Join(parts[2..], ' ') == parts[2];
    assert Formatter.Join(parts, ' ') == r;
    if forall i :: 0 <= i < 3 ==> ' ' !in parts[i] then
      Formatter.SplitJoin(parts, ' ');
      r
    else
      r
  }

  /** The result `handleEvaluate` records is the operand EVALUATE then writes. */
  lemma RecordedResultIsDisplayed(num: Numerics, s: State)
    requires Truthy(s.current) && Truthy(s.previous) && Truthy(s.operation)
    ensures Reduce(num, s, Evaluate).current == Some(EvaluatePending(num, s))
  {
  }

  class CalculatorSession {
    const num: Numerics
    var state: State
    var history: seq<HistoryItem>

    ghost predicate Valid()
      reads this
    {
      |history| <= HistoryLimit
    }

    constructor (num: Numerics)
      ensures Valid()
      ensures this.num == num && state == Initial && history == []
    {
      this.num := num;
      state := Initial;
      history := [];
    }

    /** `dispatch(action)` from the keypad or keyboard. */
    method Dispatch(a: Action)
      requires Valid()
      modifies this
      ensures Valid()
      ensures state == Reduce(num, old(state), a) && history == old(history)
    {
      state := Reduce(num, state, a);
    }

    /** `handleEvaluate`: record the expression and its result, then dispatch EVALUATE. */
    method HandleEvaluate(id: string, now: int)
      requires Valid()
      modifies this
      ensures Valid()
      ensures var s := old(state);
        if Truthy(s.current) && Truthy(s.previous) && Truthy(s.operation) then
          && history == Record(old(history), HistoryItem(id, Expression(s), EvaluatePending(num, s), now))
          && state == State(Some(history[0].result), None, None, true)
        else
          history == old(history) && state == s
    {
      if Truthy(state.current) && Truthy(state.previous) && Truthy(state.operation) {
        var result := EvaluatePending(num, state);
        var expression := Expression(state);
        history := Record(history, HistoryItem(id, expression, result, now));
        RecordedResultIsDisplayed(num, state);
        state := Reduce(num, state, Evaluate);
      }
    }

    /** `handleHistorySelect`: CLEAR, then ADD_DIGIT with the stored result. */
    method HandleHistorySelect(item: HistoryItem)
      requires Valid()
      modifies this
      ensures Valid()
      ensures state == Initial.(current := Some(item.result))
      ensures history == old(history)
    {
      state := Reduce(num, state, Clear);
      state := Reduce(num, state, AddDigit(item.result));
      assert "" + item.result == item.result;
    }

    /** The history panel's clear button: `setHistory([])`. */
    method ClearHistory()
      requires Valid()
      modifies this
      ensures Valid()
      ensures history == [] && state == old(state)
    {
      history := [];
    }
  }
}
