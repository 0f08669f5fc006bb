/**
 * The calculator's input state machine (App.tsx): the four-field state,
 * the seven actions, the `evaluate` helper and the `reducer`.
 * Operands are the text being typed, `null` is `None`, and the empty
 * string is a distinct, reachable operand.
 */
module Calculator {
  import opened Wrappers
  import opened JsNumber

  /** The division sign the keypad sends, U+00F7. */
  const DivisionSign: string := "\U{F7}"

  datatype State = State(
    current: Option<string>,
    previous: Option<string>,
    operation: Option<string>,
    overwrite: bool)

  datatype Action =
    | AddDigit(digit: string)
    | ChooseOperation(operation: string)
    | Clear
    | DeleteDigit
    | Evaluate
    | Percentage
    | ToggleSign
      /** an action type outside the seven, answered by the `default` branch */
    | Unrecognised(kind: string)

  const Initial: State := State(None, None, None, false)

  predicate IsArithmetic(op: Option<string>)
  {
    op == Some("+") || op == Some("-") || op == Some("*") || op == Some(DivisionSign)
  }

  /** `parseFloat(operand || "")`: a missing operand is parsed as "". */
  function ParseOperand(num: Numerics, operand: Option<string>): (r: Double)
    ensures operand.Some? ==> r == num.parseFloat(operand.value)
    ensures operand.None? ==> r == num.parseFloat("")
  {
    num.parseFloat(operand.GetOr(""))
  }

  /** True when `evaluate` bails out: either operand parses to NaN. */
  predicate ParseFails(num: Numerics, s: State)
  {
    num.isNaN(ParseOperand(num, s.previous)) || num.isNaN(ParseOperand(num, s.current))
  }

  /** The `switch (operation)` of `evaluate`; 0 for any other operation. */
  function Compute(num: Numerics, prev: Double, cur: Double, op: Option<string>): (r: Double)
    ensures op == Some("+") ==> r == num.plus(prev, cur)
    ensures op == Some("-") ==> r == num.minus(prev, cur)
    ensures op == Some("*") ==> r == num.times(prev, cur)
    ensures op == Some(DivisionSign) ==> r == num.divide(prev, cur)
    ensures !IsArithmetic(op) ==> r == Zero
  {
    if op == Some("+") then num.plus(prev, cur)
    else if op == Some("-") then num.minus(prev, cur)
    else if op == Some("*") then num.times(prev, cur)
    else if op == Some(DivisionSign) then num.divide(prev, cur)
    else Zero
  }

  /** `evaluate`: the pending expression's result as text, or "" when an operand does not parse. */
  function EvaluatePending(num: Numerics, s: State): (r: string)
    ensures ParseFails(num, s) ==> r == ""
    ensures !ParseFails(num, s) && !IsArithmetic(s.operation) ==> r == num.toString(Zero)
    ensures var p, c := ParseOperand(num, s.previous), ParseOperand(num, s.current);
      && (!ParseFails(num, s) && s.operation == Some("+") ==> r == num.toString(num.plus(p, c)))
      && (!ParseFails(num, s) && s.operation == Some("-") ==> r == num.toString(num.minus(p, c)))
      && (!ParseFails(num, s) && s.operation == Some("*") ==> r == num.toString(num.times(p, c)))
      && (!ParseFails(num, s) && s.operation == Some(DivisionSign) ==> r == num.toString(num.divide(p, c)))
  {
    var prev := ParseOperand(num, s.previous);
    var cur := ParseOperand(num, s.current);
    if num.isNaN(prev) || num.isNaN(cur) then ""
    else num.toString(Compute(num, prev, cur, s.operation))
  }

  /** `text.slice(0, -1)`: everything but the last character; "" stays "". */
  function DropLast(text: string): (r: string)
    ensures text == "" ==> r == ""
    ensures text != "" ==> r + [text[|text| - 1]] == text
  {
    if |text| == 0 then "" else text[..|text| - 1]
  }

  /** `reducer`: the next state for one action. */
  function Reduce(num: Numerics, s: State, a: Action): (r: State)
    ensures a.Clear? ==> r == Initial
    ensures a.AddDigit? || a.DeleteDigit? || a.ToggleSign? || a.Percentage? || a.Unrecognised? ==>
              r.previous == s.previous && r.operation == s.operation
    ensures a.ChooseOperation? || a.ToggleSign? || a.Percentage? || a.Unrecognised? ==>
              r.overwrite == s.overwrite
    ensures a.Unrecognised? ==> r == s
  {
    match a
    case AddDigit(d) =>
      if s.overwrite then s.(current := Some(d), overwrite := false)
      else if d == "0" && s.current == Some("0") then s
      else if d == "." && s.current.Some? && '.' in s.current.value then s
      else s.(current := Some(s.current.GetOr("") + d))
    case ChooseOperation(op) =>
      if s.current.None? && s.previous.None? then s
      else if s.current.None? then s.(operation := Some(op))
      else if s.previous.None? then s.(operation := Some(op), previous := s.current, current := None)
      else s.(previous := Some(EvaluatePending(num, s)), operation := Some(op), current := None)
    case Clear => Initial
    case DeleteDigit =>
      if s.overwrite then s.(overwrite := false, current := None)
      else if s.current.None? then s
      else if |s.current.value| == 1 then s.(current := None)
      else s.(current := Some(DropLast(s.current.value)))
    case Evaluate =>
      if s.operation.None? || s.current.None? || s.previous.None? then s
      else s.(overwrite := true, previous := None, operation := None, current := Some(EvaluatePending(num, s)))
    case ToggleSign =>
      if s.current.None? then s
      else s.(current := Some(num.toString(num.times(num.parseFloat(s.current.value), MinusOne))))
    case Percentage =>
      if s.current.None? then s
      else s.(current := Some(num.toString(num.divide(num.parseFloat(s.current.value), Hundred))))
    case Unrecognised(_) => s
  }

  /** The state after dispatching `actions` in order, starting from `s`. */
  function Run(num: Numerics, s: State, actions: seq<Action>): State
    decreases |actions|
  {
    if actions == [] then s else Run(num, Reduce(num, s, actions[0]), actions[1..])
  }

  // ---------------------------------------------------------------------
  // ADD_DIGIT and DELETE_DIGIT

  /** The two inputs ADD_DIGIT ignores: a second leading "0" and a second ".". */
  predicate DigitRejected(s: State, d: string)
  {
    (d == "0" && s.current == Some("0")) || (d == "." && s.current.Some? && '.' in s.current.value)
  }

  lemma AddDigitEffect(num: Numerics, s: State, d: string)
    ensures var r := Reduce(num, s, AddDigit(d));
      && r.previous == s.previous && r.operation == s.operation
      && (s.overwrite ==> r.current == Some(d) && !r.overwrite)
      && (!s.overwrite && DigitRejected(s, d) ==> r == s)
      && (!s.overwrite && !DigitRejected(s, d) ==>
            r.current == Some(s.current.GetOr("") + d) && !r.overwrite)
  {
  }

  /** While not overwriting, the operand typed so far is kept as a prefix. */
  lemma AddDigitExtends(num: Numerics, s: State, d: string)
    requires !s.overwrite && s.current.Some?
    ensures var r := Reduce(num, s, AddDigit(d));
      r.current.Some? && s.current.value <= r.current.value
  {
  }

  lemma DeleteDigitEffect(num: Numerics, s: State)
    ensures var r := Reduce(num, s, DeleteDigit);
      && r.previous == s.previous && r.operation == s.operation && !r.overwrite
      && (s.overwrite ==> r.current == None)
      && (!s.overwrite && s.current.None? ==> r == s)
      && (!s.overwrite && s.current.Some? && |s.current.value| == 1 ==> r.current == None)
      && (!s.overwrite && s.current.Some? && |s.current.value| != 1 ==> r.current.Some?)
  {
  }

  /** Deleting from an operand of two or more characters leaves it one shorter, as a strict prefix. */
  lemma DeleteDigitShortens(num: Numerics, s: State)
    requires !s.overwrite && s.current.Some? && |s.current.value| >= 2
    ensures var r := Reduce(num, s, DeleteDigit);
      && r.current.Some?
      && |r.current.value| == |s.current.value| - 1
      && r.current.value < s.current.value
  {
  }

  /** The empty operand survives DELETE_DIGIT: `"".slice(0, -1)` is "". */
  lemma DeleteDigitOnEmpty(num: Numerics, s: State)
    requires !s.overwrite && s.current == Some("")
    ensures Reduce(num, s, DeleteDigit) == s
  {
  }

  /** DELETE_DIGIT undoes an accepted one-character ADD_DIGIT. */
  lemma DeleteUndoesAddDigit(num: Numerics, s: State, d: string)
    requires !s.overwrite && |d| == 1 && !DigitRejected(s, d)
    requires s.current != Some("")
    ensures Reduce(num, Reduce(num, s, AddDigit(d)), DeleteDigit) == s
  {
  }

  // ---------------------------------------------------------------------
  // CHOOSE_OPERATION, EVALUATE, TOGGLE_SIGN, PERCENTAGE

  lemma ChooseOperationEffect(num: Numerics, s: State, op: string)
    ensures var r := Reduce(num, s, ChooseOperation(op));
      && r.overwrite == s.overwrite
      && (s.current.None? && s.previous.None? ==> r == s)
      && (s.current.None? && s.previous.Some? ==> r == s.(operation := Some(op)))
      && (s.current.Some? && s.previous.None? ==>
            r == s.(previous := s.current, operation := Some(op), current := None))
      && (s.current.Some? && s.previous.Some? ==>
            r == s.(previous := Some(EvaluatePending(num, s)), operation := Some(op), current := None))
  {
  }

  /** Choosing an operator after a result keeps the overwrite flag set. */
  lemma OverwriteOutlivesChooseOperation(num: Numerics, s: State, op: string)
    requires s.overwrite && s.current.Some? && s.previous.None?
    ensures var r := Reduce(num, s, ChooseOperation(op));
      r.overwrite && r.previous == s.current && r.operation == Some(op)
  {
  }

  lemma EvaluateEffect(num: Numerics, s: State)
    ensures var r := Reduce(num, s, Evaluate);
      && (s.operation.None? || s.current.None? || s.previous.None? ==> r == s)
      && (s.operation.Some? && s.current.Some? && s.previous.Some? ==>
            r == State(Some(EvaluatePending(num, s)), None, None, true))
  {
  }

  /** A second EVALUATE changes nothing. */
  lemma EvaluateIdempotent(num: Numerics, s: State)
    ensures var r := Reduce(num, s, Evaluate);
      Reduce(num, r, Evaluate) == r
  {
  }

  /** After a result, the next digit starts a fresh operand. */
  lemma DigitAfterEvaluateStartsFresh(num: Numerics, s: State, d: string)
    requires s.operation.Some? && s.current.Some? && s.previous.Some?
    ensures Reduce(num, Reduce(num, s, Evaluate), AddDigit(d)) == State(Some(d), None, None, false)
  {
  }

  lemma SignAndPercentEffect(num: Numerics, s: State, a: Action)
    requires a.ToggleSign? || a.Percentage?
    ensures var r := Reduce(num, s, a);
      && (s.current.None? ==> r == s)
      && (s.current.Some? ==> r.current.Some? && r == s.(current := r.current))
  {
  }

  // ---------------------------------------------------------------------
  // evaluate

  /** Under JavaScript's number semantics, "" comes back exactly when an operand does not parse. */
  lemma EvaluateEmptyIffParseFails(num: Numerics, s: State)
    requires Conforms(num)
    ensures EvaluatePending(num, s) == "" <==> ParseFails(num, s)
  {
  }

  /** A missing operand is parsed as "", which is NaN, so `evaluate` yields "". */
  lemma EvaluateMissingOperand(num: Numerics, s: State)
    requires Conforms(num)
    requires s.previous.None? || s.current.None?
    ensures EvaluatePending(num, s) == ""
  {
  }

  /** An operation outside + - * ÷ computes 0. */
  lemma EvaluateUnknownOperation(num: Numerics, s: State)
    requires Conforms(num)
    requires !ParseFails(num, s) && !IsArithmetic(s.operation)
    ensures EvaluatePending(num, s) == "0"
  {
  }

  /** Typing `5 + . =` leaves the empty string as the current operand. */
  lemma DotOperandYieldsEmptyResult(num: Numerics)
    requires Conforms(num)
    ensures Run(num, Initial, [AddDigit("5"), ChooseOperation("+"), AddDigit("."), Evaluate])
              == State(Some(""), None, None, true)
  {
    var acts := [AddDigit("5"), ChooseOperation("+"), AddDigit("."), Evaluate];
    var s1 := Reduce(num, Initial, acts[0]);
    assert "" + "5" == "5";
    var s2 := Reduce(num, s1, acts[1]);
    var s3 := Reduce(num, s2, acts[2]);
    assert "" + "." == ".";
    assert s3 == State(Some("."), Some("5"), Some("+"), false);
    var s4 := Reduce(num, s3, acts[3]);
    calc {
      Run(num, Initial, acts);
      Run(num, s1, acts[1..]);
      Run(num, s2, acts[2..]);
      Run(num, s3, acts[3..]);
      Run(num, s4, []);
    }
  }

  /** Pressing a second operator evaluates the pending pair into the previous operand. */
  lemma ChainedOperation(num: Numerics, a: string, b: string, op1: string, op2: string)
    ensures var pending := State(Some(b), Some(a), Some(op1), false);
      Run(num, Initial, [AddDigit(a), ChooseOperation(op1), AddDigit(b), ChooseOperation(op2)])
        == State(None, Some(EvaluatePending(num, pending)), Some(op2), false)
  {
    var acts := [AddDigit(a), ChooseOperation(op1), AddDigit(b), ChooseOperation(op2)];
    assert "" + a == a && "" + b == b;
    var s1 := Reduce(num, Initial, acts[0]);
    var s2 := Reduce(num, s1, acts[1]);
    var s3 := Reduce(num, s2, acts[2]);
    assert s3 == State(Some(b), Some(a), Some(op1), false);
    var s4 := Reduce(num, s3, acts[3]);
    calc {
      Run(num, Initial, acts);
      Run(num, s1, acts[1..]);
      Run(num, s2, acts[2..]);
      Run(num, s3, acts[3..]);
      Run(num, s4, []);
    }
  }

  // ---------------------------------------------------------------------
  // Invariants along action sequences

  /** The previous operand and the pending operation are set and cleared together. */
  predicate PendingConsistent(s: State)
  {
    s.operation.Some? <==> s.previous.Some?
  }

  lemma ReducePreservesPending(num: Numerics, s: State, a: Action)
    requires PendingConsistent(s)
    ensures PendingConsistent(Reduce(num, s, a))
  {
  }

  lemma {:induction false} RunPreservesPending(num: Numerics, s: State, actions: seq<Action>)
    requires PendingConsistent(s)
    ensures PendingConsistent(Run(num, s, actions))
    decreases |actions|
  {
    if actions != [] {
      ReducePreservesPending(num, s, actions[0]);
      RunPreservesPending(num, Reduce(num, s, actions[0]), actions[1..]);
    }
  }

  /** From the initial state, no action sequence yields an operation without a previous operand. */
  lemma ReachableStatesArePendingConsistent(num: Numerics, actions: seq<Action>)
    ensures var s := Run(num, Initial, actions);
      s.operation.Some? <==> s.previous.Some?
  {
    RunPreservesPending(num, Initial, actions);
  }

  /** CLEAR, DELETE_DIGIT, and ADD_DIGIT with one of 0-9 or ".". */
  predicate IsEntryAction(a: Action)
  {
    || a.Clear?
    || a.DeleteDigit?
    || (a.AddDigit? && |a.digit| == 1 && ('0' <= a.digit[0] <= '9' || a.digit[0] == '.'))
  }

  predicate AtMostOneDot(text: string)
  {
    forall i, j :: 0 <= i < j < |text| && text[i] == '.' ==> text[j] != '.'
  }

  predicate StartsWithDoubleZero(text: string)
  {
    |text| >= 2 && text[0] == '0' && text[1] == '0'
  }

  /** The shape of an operand being typed: one "." at most, no "00" in front. */
  predicate WellFormedEntry(s: State)
  {
    && !s.overwrite
    && (s.current.Some? ==>
          AtMostOneDot(s.current.value) && !StartsWithDoubleZero(s.current.value))
  }

  lemma EntryActionPreservesShape(num: Numerics, s: State, a: Action)
    requires WellFormedEntry(s) && IsEntryAction(a)
    ensures WellFormedEntry(Reduce(num, s, a))
  {
    if a.AddDigit? && !DigitRejected(s, a.digit) {
      var c := s.current.GetOr("");
      var t := c + a.digit;
      assert t[|c|] == a.digit[0];
      assert c == "0" ==> a.digit[0] != '0';
      if a.digit == "." {
        assert forall k :: 0 <= k < |c| ==> t[k] == c[k] && t[k] != '.';
      }
    } else if a.DeleteDigit? && s.current.Some? && |s.current.value| > 1 {
      var c := s.current.value;
      var t := DropLast(c);
      assert forall i :: 0 <= i < |t| ==> t[i] == c[i];
    }
  }

  lemma {:induction false} EntryRunPreservesShape(num: Numerics, s: State, actions: seq<Action>)
    requires WellFormedEntry(s)
    requires forall i :: 0 <= i < |actions| ==> IsEntryAction(actions[i])
    ensures WellFormedEntry(Run(num, s, actions))
    decreases |actions|
  {
    if actions != [] {
      EntryActionPreservesShape(num, s, actions[0]);
      EntryRunPreservesShape(num, Reduce(num, s, actions[0]), actions[1..]);
    }
  }

  /** Typing digits, ".", deleting and clearing from the start never yields "00…" or two "."s. */
  lemma TypedOperandIsWellFormed(num: Numerics, actions: seq<Action>)
    requires forall i :: 0 <= i < |actions| ==> IsEntryAction(actions[i])
    ensures var s := Run(num, Initial, actions);
      && !s.overwrite
      && (s.current.Some? ==> AtMostOneDot(s.current.value) && !StartsWithDoubleZero(s.current.value))
  {
    EntryRunPreservesShape(num, Initial, actions);
  }
}
