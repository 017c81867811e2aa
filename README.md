# Calculator expression engine

A Dafny model of the expression engine behind a mobile calculator screen
(`App.js`). The screen holds two texts: the expression being typed (`input`) and
the text of the last `=` (`result`). Five button handlers change them:

- a digit, `.`, `%` or operator key passes a chain of guards before it is appended;
- `C` empties both texts;
- `⌫` removes the last character of the expression;
- `π` appends `3.14159`, at the start or after an operator only;
- `=` first checks the raw expression for a zero divisor. It then strips leading
  zeros and rewrites `n%` as `(n/100)`, and hands the text to an evaluator whose
  failure shows as `Error`.

Modules, following the structure of the code:

- `Options` (options.dfy): the `Option` type of the evaluator's outcome.
- `Scanning` (scanning.dfy): the operator test (only `+ - * /`; `%` and `.` are not
  operators) and maximal digit runs. It also models the split of the expression at
  operators and its last piece, the number being typed. `JoinSplit` proves that
  re-inserting the operators gives the text back.
- `InputRules` (input_rules.dfy): how each key changes the expression, written as
  pure functions (`PressKey`, `DropLast`, `AppendPi`). Each guard is stated as a
  lemma. `WellFormed` is the shape of every reachable expression: no leading
  operator, no two operators in a row, no `%%`, at most one `.` per
  operator-delimited number. `ReplayWellFormed` proves that shape for every
  sequence of key presses from the empty start.
- `Evaluation` (evaluation.dfy): the division-by-zero pre-check, the sanitiser,
  the percent rewrite and the mapping to the result text. Each is a recursive
  scan with a declarative characterisation proved about it.
- `App` (app.dfy): class `Calculator` with the fields `input` and `result`. It has
  one method per handler, written with the handler's early returns. Each method
  ties its new state to the pure functions above and keeps `Valid()` (the
  reachable shape). It also has the two display lines (`input || '0'` and
  `"= " + result`).
- `WorkedCases` (worked_cases.dfy): concrete expressions through every step.

Behaviour of the code that the model keeps:

- The sanitiser works on every maximal digit run, including digits after a `.`.
  So `"0.05"` reaches the evaluator as `"0.5"` (`SanitizeFractionExample`).
  `TrimRunKeepsValue` shows that trimming keeps a run's integer value, which is
  right for an integer part but not for a fraction.
- The zero-divisor pre-check reads the raw expression, before sanitising. So
  `"8/00"` passes the pre-check and reaches the evaluator as `"8/0"`
  (`SanitizeDoubleZeroDivisorExample`).
- An edit never clears a stale result: press, backspace and π leave `result`
  alone.
- Keys are single characters, as at every call site (App.js:115-136). The shape
  invariant holds whatever character is pressed.

## Model

| member | source | states |
|---|---|---|
| Scanning.IsOperator | App.js:8 | the four operator keys `+ - * /`; `%`, `.` and the digits are not operators (used by every guard and by the split) |
| Scanning.DigitRun | App.js:56 | the longest all-digit prefix: a prefix of the text, all digits, not followed by a digit, non-empty when the text starts with a digit |
| Scanning.Split | App.js:24 | the pieces of the text between operators, empty pieces included, so there is always at least one; `JoinSplit` and `SplitPiecesHaveNoOperator` pin the pieces down |
| Scanning.Operators | App.js:24 | the operators of the text in order, each one of the four operator keys; with `Split` they rebuild the text (`JoinSplit`) |
| Scanning.LastNumber | App.js:24 | the last piece of the split (`pop()`), characterised by `LastNumberIsTrailingToken` and `LastNumberAppendToken` |
| Scanning.SplitPiecesHaveNoOperator | App.js:24 | no piece of the split at `+ - * /` contains an operator |
| Scanning.JoinSplit | App.js:24 | the split has one more piece than the text has operators, and interleaving pieces and operators gives the text back |
| Scanning.LastNumberIsTrailingToken | App.js:24 | the last piece (`pop()`) is the operator-free suffix after the last operator, or the whole text when there is none |
| Scanning.LastNumberAppendToken | App.js:24 | appending operator-free text extends the number being typed by exactly that text |
| InputRules.LastNumberAfterOperator | App.js:24 | on the empty text or right after an operator the number being typed is empty |
| InputRules.PressKey | App.js:10-37 | a key press leaves the text as it was, appends the key, or replaces the last character by the key |
| InputRules.OperatorOnEmptyIgnored | App.js:11-14 | an operator on the empty expression changes nothing |
| InputRules.OperatorReplacesOperator | App.js:16-20 | an operator after an operator keeps the length, keeps everything before the last character and makes the key the last character |
| InputRules.DotIgnoredIffNumberHasDot | App.js:22-28 | `.` is ignored if and only if the number after the last operator already holds a `.`; otherwise it is appended |
| InputRules.PercentIgnoredIffEndsWithPercent | App.js:30-33 | `%` is ignored if and only if the expression ends with `%` |
| InputRules.AcceptedKeyAppended | App.js:35-36 | a key that passes every guard is appended verbatim |
| InputRules.DigitAppended | App.js:35-36 | a digit key always passes the guards and is appended |
| InputRules.DropLast | App.js:44-46 | backspace removes exactly the last character, and leaves the empty text empty |
| InputRules.AppendPi | App.js:70-75 | the π key either changes nothing or appends exactly `3.14159` |
| InputRules.PiOnlyAfterOperator | App.js:71-74 | π is appended if and only if the text is empty or ends with an operator; after a digit, `.` or `%` it is a no-op |
| InputRules.PressKeepsWellFormed | App.js:10-37 | a key press keeps the reachable shape: no leading operator, no adjacent operators, no `%%`, one `.` per number |
| InputRules.BackspaceKeepsWellFormed | App.js:44-46 | backspace keeps the reachable shape |
| InputRules.AppendNumberKeepsWellFormed | App.js:70-75 | operator-free text with at most one `.` and no `%%`, typed on the empty text or after an operator, keeps the reachable shape |
| InputRules.PiTextShape | App.js:73 | the digits of π hold one `.`, no operator and no `%%`, and start with `3` |
| InputRules.AppendPiKeepsWellFormed | App.js:70-75 | the π key keeps the reachable shape |
| InputRules.Apply | App.js:10-75 | one user action (key, clear, backspace, π or `=`) applied to the expression, each handler's effect on `input`; `ReplayWellFormed` shows every action keeps the reachable shape |
| InputRules.Replay | App.js:5-75 | the expression after any sequence of actions from the empty start of App.js:5; `ReplayWellFormed` is its invariant |
| InputRules.ReplayWellFormed | App.js:10-75 | after any sequence of presses, clears, backspaces, π and `=` from the empty start, the expression has the reachable shape |
| Evaluation.HasZeroDivisor | App.js:50 | the pre-check as a left-to-right scan; `HasZeroDivisorIff` states exactly when it fires |
| Evaluation.HasZeroDivisorIff | App.js:50 | the pre-check fires if and only if some `/0` is followed by neither `.` nor a digit |
| Evaluation.StripZeros | App.js:56 | removing leading zeros leaves a text that does not start with `0`, no longer than before, and everything removed was `0` |
| Evaluation.StripZerosIsSuffix | App.js:56 | what is left after removing leading zeros is a suffix of the run |
| Evaluation.TrimRun | App.js:56 | a trimmed digit run is non-empty, no longer than the run, still all digits, and ends with the run's last digit |
| Evaluation.Sanitize | App.js:56 | the sanitiser; `SanitizeRun`, `TrimRunKeepsValue`, `SanitizeKeepsNonDigits`, `SanitizeNeverLengthens`, `SanitizeLeavesNoRedundantZero`, `SanitizeIdentity` and `SanitizeIdempotent` characterise it |
| Evaluation.SanitizeNeverLengthens | App.js:56 | the sanitiser never lengthens the expression |
| Evaluation.SanitizeKeepsNonDigits | App.js:56 | the sanitiser keeps every non-digit character, in order |
| Evaluation.SanitizeRun | App.js:56 | each maximal digit run is replaced by its trimmed form and the text around it is sanitised on its own |
| Evaluation.TrimRunKeepsValue | App.js:55-56 | trimming a run never changes the integer it denotes |
| Evaluation.SanitizeLeavesNoRedundantZero | App.js:56 | no digit run of the output starts with a strippable zero |
| Evaluation.SanitizeIdentity | App.js:56 | text without a strippable zero is left exactly as it is |
| Evaluation.SanitizeIdempotent | App.js:56 | sanitising twice equals sanitising once |
| Evaluation.RewritePercent | App.js:59 | the percent rewrite; `RewritePercentRun`, `RewritePercentLeavesNoDigitBeforePercent`, `RewritePercentIdentity` and `RewritePercentIdempotent` characterise it |
| Evaluation.RewritePercentRun | App.js:59 | a maximal digit run followed by `%` becomes `(run/100)` and the text around it is rewritten on its own |
| Evaluation.RewritePercentLeavesNoDigitBeforePercent | App.js:59 | after the rewrite no `%` directly follows a digit |
| Evaluation.RewritePercentIdentity | App.js:59 | text in which no `%` follows a digit (a `%` with no number before it included) is left exactly as it is |
| Evaluation.RewritePercentIdempotent | App.js:59 | rewriting twice equals rewriting once |
| Evaluation.Prepare | App.js:56-59 | the text handed to the evaluator: sanitised first, then percent-rewritten (`PrepareExamples` works three cases) |
| Evaluation.EqualResult | App.js:48-66 | the result is `Error` whenever the raw text has a zero divisor or the evaluator fails; when the pre-check passes and the evaluator returns a text, the result is exactly that text for the sanitised, rewritten expression |
| App.Calculator.constructor | App.js:5-6 | both texts start empty, in the reachable shape |
| App.Calculator.HandleButtonPress | App.js:10-37 | the expression becomes the pressed-key function of the old one; the result is unchanged; the shape is kept |
| App.Calculator.HandleClearPress | App.js:39-42 | both texts become empty |
| App.Calculator.HandleBackspace | App.js:44-46 | the expression loses its last character, if any; the result is unchanged; the shape is kept |
| App.Calculator.HandleEqualPress | App.js:48-66 | the expression is unchanged and the result is the `=` outcome for it |
| App.Calculator.HandlePiPress | App.js:70-75 | the expression gets π's digits where allowed; the result is unchanged; the shape is kept |
| App.Calculator.InputLine | App.js:96 | the expression line is never blank: the expression, or `0` while it is empty |
| App.Calculator.ResultLine | App.js:100-109 | a result line is shown if and only if there is a result, and it reads `= ` followed by the result |
| WorkedCases.ZeroDivisorExamples | App.js:50 | `8/0` and `8/0+1` trip the pre-check; `8/0.5`, `8/05` and `8/00` do not |
| WorkedCases.ZeroDivisorGivesError | App.js:50-53 | `=` on `8/0` or `8/0+1` gives `Error` whatever the evaluator does |
| WorkedCases.SanitizeIntegerExamples | App.js:56 | `007` becomes `7`, `000` becomes `0`, `100` stays `100` |
| WorkedCases.SanitizeFractionExample | App.js:56 | `0.05` becomes `0.5` |
| WorkedCases.SanitizeDoubleZeroDivisorExample | App.js:50-56 | `8/00` passes the pre-check and is sanitised to `8/0` |
| WorkedCases.RewritePercentExamples | App.js:59 | `50%+2` becomes `(50/100)+2`; `%5` is left alone |
| WorkedCases.PrepareExamples | App.js:56-59 | the evaluator is handed `8/0.5`, `7+3` and `(50/100)+2` for `8/0.5`, `007+3` and `50%+2` |
| WorkedCases.EqualExamples | App.js:48-66 | for those three expressions the result is the evaluator's text for the prepared form, or `Error` if it fails |
| WorkedCases.OperatorReplaceExample | App.js:16-20 | `3+` then `-` gives `3-`; `5%` then `+` gives `5%+` |
| WorkedCases.DotExamples | App.js:22-28 | `.` on `3.5+2` gives `3.5+2.`, a second `.` changes nothing, and `.` after π changes nothing |
| WorkedCases.PercentExamples | App.js:30-33 | `%` on `5` gives `5%`; a second `%` changes nothing |
| WorkedCases.PiExamples | App.js:70-75 | π on the empty text gives `3.14159`, after `3+` it is appended, after `3` or `5%` it is refused |

## Left out

- The evaluator itself (App.js:61). It is a dynamic JavaScript evaluator with
  IEEE-754 doubles and JavaScript's number-to-text formatting. It is the parameter
  `eval: string -> Option<string>` of `HandleEqualPress` and `EqualResult`, where
  `None` stands for a thrown exception. Whatever it does with `8/0` (after
  sanitising `8/00`) or with an empty text is its concern, not the model's.
- `Math.PI.toFixed(5)` (App.js:73) is the constant `PI_TEXT`, `"3.14159"`; no
  floating point is modelled.
- The regular-expression engine: the three regular expressions (App.js:50, 56,
  59) are written as the explicit scans they amount to. `lastIndex` state of the
  `g` flag plays no part, since the literal is created afresh on each press.
- React plumbing: `useState` and the difference between the `prev =>` updates and
  the closed-over `input` (presses are sequential, so both denote the same value),
  `renderButton`, the JSX layout and the style sheet (App.js:77-204), apart from
  the two display lines modelled as `InputLine` and `ResultLine`.
