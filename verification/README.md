# Calculator input state machine and operand formatter

A Dafny model of the calculator at the heart of this React application:

- **Calculator** (`calculator.dfy`, from `App.tsx`): the four-field state
  (current operand, previous operand, pending operation, overwrite flag),
  the seven actions plus the reducer's `default` branch, `evaluate`, and
  `reducer` as the total function `Reduce(num, state, action)`. Operands are
  the text being typed; `null` is `None`, and the empty string is a
  separate, reachable operand (`5 + . =` produces it).
- **Session** (`session.dfy`, from `App.tsx`): the state the app holds
  around the reducer. It is a class with the calculator `state` and the
  `history` list. `HandleEvaluate` puts one item at the front and keeps at
  most 50, then dispatches EVALUATE. `HandleHistorySelect` dispatches
  CLEAR and then ADD_DIGIT with the stored result.
- **Formatter** (`formatter.dfy`, from `utils/formatter.ts`): `formatOperand`.
  It splits on ".", reads the integer part as a `BigInt`, prints it with
  en-US grouping (a comma before each group of three digits), and puts the
  fraction text back unchanged.
- **JsNumber** (`numerics.dfy`): the JavaScript number operations the
  reducer calls. A double is its 64-bit pattern. `parseFloat`, `isNaN`,
  `+ - * /` and `toString` are fields of a `Numerics` record passed in as a
  parameter, so they stay uninterpreted. `Conforms(num)` lists the four
  facts some lemmas assume: `parseFloat("")` and `parseFloat(".")` are NaN,
  `(0).toString()` is `"0"`, and `toString` never returns `""`.
- **Wrappers** (`wrappers.dfy`): the `Option` type.

Main results:
- Starting from the initial state, every sequence of actions keeps the
  previous operand and the pending operation set or cleared together.
- Sequences made only of typing keys (digits, ".", DELETE_DIGIT, CLEAR)
  never produce an operand with two "." characters or one that starts
  with "00".
- DELETE_DIGIT undoes an accepted one-character ADD_DIGIT, provided
  overwrite was off and the operand was not the empty string `""` (a digit
  typed onto `""` makes a one-character operand, and deleting that gives
  null, not `""`).
- A second EVALUATE changes nothing.
- The recorded history item's result is exactly the operand EVALUATE
  writes, and the history never holds more than 50 items.
- The formatter's digit grouping can be undone: removing the commas gives
  back the shortest digits of the value. `Split` and `Join` are proved
  inverse to each other.

Two behaviours of the code are easy to misread, and the model follows the
code in both:
- Choosing an operator right after a result keeps the overwrite flag set,
  so the flag does not mean "a result was just produced"
  (`OverwriteOutlivesChooseOperation`).
- CHOOSE_OPERATION changes the pending operation without evaluating only
  when the previous operand is present and the current one is null.

## Model

| member | source | states |
|---|---|---|
| `Calculator.Reduce` | App.tsx:16-115 | CLEAR returns exactly the initial state. ADD_DIGIT, DELETE_DIGIT, TOGGLE_SIGN, PERCENTAGE and an unrecognised action leave the previous operand and the operation alone. CHOOSE_OPERATION, TOGGLE_SIGN, PERCENTAGE and an unrecognised action leave the overwrite flag alone. An unrecognised action changes nothing. |
| `Calculator.ParseOperand` | App.tsx:118-119 | An operand is read with `parseFloat`, and a null operand is read as `""`. |
| `Calculator.Compute` | App.tsx:121-135 | "+", "-", "*" and "÷" pick addition, subtraction, multiplication and division of the previous by the current value. Any other operation leaves the computation at 0. |
| `Calculator.EvaluatePending` | App.tsx:117-137 | If either operand fails to parse (NaN), the result is `""`. Otherwise each of + - * ÷ gives the text of the sum, difference, product or quotient of the parsed previous and current operands, and any other operation gives the text of 0. |
| `Calculator.EvaluateEmptyIffParseFails` | App.tsx:117-137 | Under JavaScript number semantics, `evaluate` returns `""` exactly when an operand fails to parse. |
| `Calculator.EvaluateMissingOperand` | App.tsx:118-120 | A null operand is parsed as `""`, so `evaluate` returns `""`. |
| `Calculator.EvaluateUnknownOperation` | App.tsx:121-136 | With both operands parsed and an operation other than + - * ÷, `evaluate` returns `"0"`. |
| `Calculator.AddDigitEffect` | App.tsx:18-35 | With overwrite set, the operand becomes the digit and overwrite is cleared. "0" onto "0" and "." onto an operand containing "." change nothing. Otherwise the digit is appended to the operand, with null read as "". The previous operand and the operation never change. |
| `Calculator.AddDigitExtends` | App.tsx:32-35 | When not overwriting, the operand typed so far stays a prefix of the new operand. |
| `Calculator.DropLast` | App.tsx:79 | `slice(0, -1)`: the empty text stays empty, and otherwise the result followed by the removed last character is the original text. |
| `Calculator.DeleteDigitEffect` | App.tsx:65-80 | With overwrite set, the operand becomes null and overwrite is cleared. A null operand stays null. A one-character operand becomes null. Any other operand stays present. |
| `Calculator.DeleteDigitShortens` | App.tsx:77-80 | An operand of two or more characters becomes a strict prefix one character shorter. |
| `Calculator.DeleteDigitOnEmpty` | App.tsx:74-80 | The empty operand stays `""` (`"".slice(0, -1)`). |
| `Calculator.DeleteUndoesAddDigit` | App.tsx:18-80 | DELETE_DIGIT after an accepted one-character ADD_DIGIT restores the state as it was, when overwrite was off and the operand was not `""`. |
| `Calculator.ChooseOperationEffect` | App.tsx:37-60 | Four cases. Both operands null: nothing changes. Only the previous operand set: only the operation changes. Previous operand null: the current operand moves to the previous operand. Both set: the previous operand becomes `evaluate(state)` and the current operand becomes null. Overwrite is never touched. |
| `Calculator.OverwriteOutlivesChooseOperation` | App.tsx:47-53 | Choosing an operator right after a result moves the result into the previous operand and leaves overwrite set. |
| `Calculator.ChainedOperation` | App.tsx:55-60 | Typing `a op1 b op2` leaves `evaluate` of the pending pair as the previous operand, with `op2` pending. |
| `Calculator.EvaluateEffect` | App.tsx:82-96 | EVALUATE does nothing unless the operation and both operands are present. Otherwise the state becomes: current = `evaluate(state)`, previous and operation null, overwrite set. |
| `Calculator.EvaluateIdempotent` | App.tsx:82-96 | A second EVALUATE changes nothing. |
| `Calculator.DigitAfterEvaluateStartsFresh` | App.tsx:19-24 | The first digit after a result starts a new operand, and overwrite is cleared. |
| `Calculator.SignAndPercentEffect` | App.tsx:98-110 | TOGGLE_SIGN and PERCENTAGE do nothing to a null operand. Otherwise they change only the current operand. |
| `Calculator.DotOperandYieldsEmptyResult` | App.tsx:117-120 | Typing `5 + . =` leaves `""` as the current operand, with overwrite set. |
| `Calculator.ReducePreservesPending` | App.tsx:37-96 | Every action keeps the operation and the previous operand set or cleared together. |
| `Calculator.RunPreservesPending` | App.tsx:16-115 | The same holds along any sequence of actions. |
| `Calculator.ReachableStatesArePendingConsistent` | App.tsx:9-14 | From the initial state, no sequence of actions produces an operation without a previous operand, or a previous operand without an operation. |
| `Calculator.EntryActionPreservesShape` | App.tsx:26-31 | CLEAR, DELETE_DIGIT and one-character ADD_DIGIT of 0-9 or "." keep the following true: no overwrite, at most one ".", and no leading "00". |
| `Calculator.EntryRunPreservesShape` | App.tsx:65-80 | The same holds along any sequence of those actions. |
| `Calculator.TypedOperandIsWellFormed` | App.tsx:18-35 | Starting from the initial state, typing keys never produce an operand with two "." or a leading "00". |
| `Session.Expression` | App.tsx:176 | The expression is the three fields joined by single spaces: when none of them contains a space, splitting it at the spaces gives back previous operand, operation and current operand. |
| `Session.Record` | App.tsx:178-183 | The new item is at index 0. The older items follow in their order. The length is the old length plus one, capped at 50. |
| `Session.RecordedResultIsDisplayed` | App.tsx:173-186 | When all three fields are truthy, the recorded result equals the operand EVALUATE writes. |
| `Session.CalculatorSession.constructor` | App.tsx:140-142 | The session starts with the initial state and an empty history. |
| `Session.CalculatorSession.Dispatch` | App.tsx:140 | The state becomes the reducer's result. The history is unchanged. |
| `Session.CalculatorSession.HandleEvaluate` | App.tsx:173-187 | Acts only when the current operand, the previous operand and the operation are all truthy. It then records the expression and result at the front of a history capped at 50, and the new state shows that result with overwrite set. Otherwise nothing changes. |
| `Session.CalculatorSession.HandleHistorySelect` | App.tsx:189-193 | The state becomes the initial state with the item's result, unchanged, as the current operand. The history is unchanged. |
| `Session.CalculatorSession.ClearHistory` | App.tsx:280 | The history becomes empty. The state is unchanged. |
| `Formatter.Split` | utils/formatter.ts:9 | `split` returns at least one piece, and no piece contains the separator. |
| `Formatter.SplitSingle` | utils/formatter.ts:10 | There is exactly one piece, the whole text, when the separator does not occur. |
| `Formatter.JoinSplit` | utils/formatter.ts:9 | Joining the pieces with the separator gives back the text. |
| `Formatter.SplitAround` | utils/formatter.ts:9 | Splitting a text at one occurrence of the separator gives the pieces of the left part followed by the pieces of the right part. |
| `Formatter.SplitJoin` | utils/formatter.ts:9 | Splitting undoes joining when no piece contains the separator. |
| `Formatter.IntegerValue` | utils/formatter.ts:11 | `BigInt` of the integer part: a negative value needs a leading "-", and a leading "-" never gives a positive value. |
| `Formatter.IntegerValueReadsDecimal` | utils/formatter.ts:11 | `BigInt` reads the shortest decimal digits of any value, behind a "-" when negative, back as that value. |
| `Formatter.DecimalDigits` | utils/formatter.ts:11 | The digits printed for a BigInt magnitude read back as that value and have no leading zero. |
| `Formatter.GroupThousands` | utils/formatter.ts:1-3 | en-US grouping. The first group has one to three digits and every later group exactly three. Removing the commas gives back the digits. |
| `Formatter.FormatInteger` | utils/formatter.ts:11 | The output starts with "-" exactly for negative values. It never contains ".". After the sign comes well-grouped text whose digits, without the commas, are the value's magnitude with no leading zero. |
| `Formatter.FormatOperand` | utils/formatter.ts:5-14 | null gives `""` and any operand gives non-empty text. The output contains "." exactly when the operand does. |
| `Formatter.FormatOperandWithoutDot` | utils/formatter.ts:9-11 | An operand without "." is shown as its grouped integer value alone. |
| `Formatter.FormatOperandWithDot` | utils/formatter.ts:12-13 | With a ".", the output is the grouped integer, then ".", then the text between the first and second "." unchanged. Anything after a second "." is dropped. |
| `Formatter.FormatOperandDropsLeadingZero` | utils/formatter.ts:11 | "05" is shown as "5". |
| `Formatter.FormatOperandEmptyIntegerPart` | utils/formatter.ts:9-13 | An empty integer part reads as 0, so "" shows as "0" and "." as "0.". |
| `Formatter.FormatOperandGroupsThousands` | utils/formatter.ts:1-13 | "1234.5" is shown as "1,234.5". |
| `Formatter.SignDroppedAboveMinusOne` | utils/formatter.ts:11-13 | As written, "-0.5" is shown as "0.5". |
| `Formatter.FormatIntegerText` | utils/formatter.ts:11-13 | Corrected integer part: the output starts with "-" exactly when the integer text does, and never contains ".". It equals `FormatInteger` of the value, except for a negative zero, which prints as "-" followed by `FormatInteger(0)`. |
| `Formatter.FormatOperandSigned` | utils/formatter.ts:5-14 | Corrected `formatOperand`: null gives `""`, the output contains "." exactly when the operand does, and it starts with "-" exactly when the operand does. |
| `Formatter.FormatOperandSignedAgrees` | utils/formatter.ts:5-14 | The corrected formatter differs from `formatOperand` only on a negative-zero integer part, where it adds the lost "-" in front; everywhere else the two outputs are equal. |
| `Formatter.SignKeptAboveMinusOne` | utils/formatter.ts:11-13 | Corrected: "-0.5" is shown as "-0.5". |
| `Formatter.NonNumericResultsUnformattable` | utils/formatter.ts:9-13 | As written: the integer parts "Infinity", "-Infinity" and "NaN" are not integer text, so `BigInt` throws on them. |
| `Formatter.FormatOperandTotal` | utils/formatter.ts:5-14 | Corrected `formatOperand`: on text `BigInt` can read it is `FormatOperand`; on any other operand it shows the text unchanged. |
| `Formatter.NonNumericResultsShownVerbatim` | utils/formatter.ts:9-13 | Corrected: "Infinity" and "NaN" are shown as they are. |

## Findings

| source | as written | input that shows it | evidently intended | confidence | as-written member | corrected member |
|---|---|---|---|---|---|---|
| utils/formatter.ts:11-13 | The integer part goes through `BigInt`, which has no negative zero. | Operand "-0.5" (typing `0 . 5` then `+/-`) is displayed as "0.5". | The minus sign stays: "-0.5". | not executed; high | `Formatter.SignDroppedAboveMinusOne` | `Formatter.FormatOperandSigned` |
| utils/formatter.ts:9-13 | The integer part of every operand goes through `BigInt`, which throws on text that is not an integer. | `5 ÷ 0 =` makes the current operand "Infinity" (App.tsx:95, 133), and `.` then `+/-` makes it "NaN" (App.tsx:102). The display formats the current operand (components/Display.tsx:29), so `BigInt("Infinity")` throws while rendering. | Such results are shown as text instead of throwing. | not executed; medium | `Formatter.NonNumericResultsUnformattable` | `Formatter.FormatOperandTotal` |

## Left out

- Floating-point arithmetic: `parseFloat`, `isNaN`, the four operators and `Number.prototype.toString` are parameters (`JsNumber.Numerics`). No numeric result (2 + 3 = 5, 5 ÷ 0 = "Infinity", 50 % = "0.5") is modelled or proved.
- Keyboard wiring (App.tsx:145-171): a DOM listener that maps keys to the same dispatches as the keypad.
- React mechanics: `useReducer`/`useState` scheduling, effect lifecycles and closures. Dispatches and history updates are modelled as taking effect immediately, in program order.
- The active tab (App.tsx:141) and all rendering: components/Button.tsx, components/Display.tsx (including its `|| "0"` fallback), components/History.tsx.
- The AI assistant: components/AIAssistant.tsx and services/geminiService.ts, which wrap a remote language-model call.
- History `id` and `timestamp`, which come from `Date.now()`: `HandleEvaluate` takes them as opaque parameters.
- String lengths: JavaScript counts UTF-16 code units and the model counts characters. They agree on the ASCII text the calculator produces.
- Formatter.FormatOperand: its precondition accepts only integer parts that are empty or decimal digits after an optional sign. `BigInt` also accepts surrounding whitespace and `0x`/`0o`/`0b` prefixes, which the calculator never produces. It throws on anything else, such as "Infinity", "NaN" or "1e+21"; the throw itself is not modelled, and the second row under "## Findings" covers those inputs.
