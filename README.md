# Stretch It Out! — verified model of the shared logic in main.js

This project models the parts of main.js that turn inputs into outputs and
proves properties of them. main.js is the shared script of a browser app
that teaches function transformations (vertical and horizontal stretch and
shrink) through quizzes and graphs. The modelled parts are:

- **Progress tracking** (`ProgressTracker`). `AppState.currentUser` is a
  class, `UserProgress`, whose fields the methods update in place.
  `updateProgress(type, value)` applies an event's counters and XP and then
  runs `checkLevelUp()`. That `while` loop pays thresholds out of the XP. Each
  pass gains one level and grows the threshold to `floor(1.2 * threshold)`.
  `getProgressPercentage()` reports the XP as a share of the threshold.
  The methods are specified by the functions `ApplyEvent` and `LevelUp`,
  which work on the record's value (`Record`). The levelling properties are
  proved as lemmas about those functions.
- **Equation parsing** (`MathUtils`). `parseEquation` has two regular
  expressions, `/^(\d*\.?\d*)\s*[a-zA-Z\(]/` for the vertical factor `a` and
  `/[a-zA-Z]\((\d*\.?\d*)[xX]/` for the horizontal factor `b`. Each is written
  as a scanner. Each scanner is proved to agree with a declarative statement
  of what its regular expression matches: for the second one, that is the
  leftmost match. The model also covers `parseFloat` on the captured token,
  including NaN for a lone `"."`, and the prioritised `includes` chain that
  picks the function name. `getTransformationType` is a case split on the
  factors. NaN compares false, so a NaN factor gives `'none'`.
- **Utilities** (`Utils`). `formatTime` prints whole seconds as `m:ss` and is
  proved to read back to the same number. `shuffle` copies the array and runs
  Fisher–Yates on the copy in place. The values of `Math.random()` are a
  parameter. The result is proved to be a permutation of the input, and the
  input array is left unchanged.

`Strings` holds the character classes (`\d`, `\s`, `[a-zA-Z]`), decimal
numerals and substring search (`includes`) that the other modules share.

A factor falls back to 1 only when its capture is empty or the regular
expression does not match (main.js:168, 174). A captured `"."` is non-empty,
so it goes to `parseFloat`, which gives NaN (`ParseDecimal`,
`ParseEquationVerticalNaN`).

## Model

| member | source | states |
|---|---|---|
| `Strings.Contains` | main.js:179-186 | `includes(sub)`: true whenever `sub` is a prefix, and never true when `sub` is longer than the string; `ContainsMeaning` gives its full meaning |
| `Strings.ContainsMeaning` | main.js:179-186 | `includes(sub)` as modelled holds exactly when `sub` occurs at some position of the string |
| `Utils.PadTwo` | main.js:78 | `padStart(2, '0')` of a remainder below 60 is two digits that read back to the remainder |
| `Utils.FormatTime` | main.js:75-79 | the clock is minute digits with no leading zero, a colon, then exactly two second digits |
| `Utils.FormatTimeRoundTrip` | main.js:75-79 | reading the printed `m:ss` back as minutes*60 + seconds gives the original number of seconds |
| `Utils.FormatTimeInjective` | main.js:75-79 | different numbers of seconds print as different clocks |
| `Utils.PickIndex` | main.js:68 | `Math.floor(Math.random() * (i + 1))` lies between 0 and `i` for every draw in [0, 1) |
| `Utils.FisherYatesPermutes` | main.js:65-72 | whatever the random draws, the passes of the shuffle loop give a permutation (same multiset) of the input |
| `Utils.FisherYatesInPlace` | main.js:67-70 | the descending swap loop leaves the array equal to the Fisher–Yates passes applied to its old contents |
| `Utils.Shuffle` | main.js:65-72 | returns a fresh array that is a permutation of the input, and the input array is not modified |
| `MathUtils.TokenEnd` | main.js:167 | the greedy `\d*\.?\d*` match at a position is a decimal token and cannot be extended by one more character |
| `MathUtils.TokenEndLongest` | main.js:167 | no `\d*\.?\d*` match at a position is longer than the greedy one |
| `MathUtils.GreedyWhenStopped` | main.js:167-173 | a token followed by neither a digit nor `.` is the greedy one, so backtracking cannot choose a shorter capture |
| `MathUtils.ParseDecimal` | main.js:169-175 | `parseFloat` of a non-empty captured token is NaN exactly when the token is `"."`, and otherwise is non-negative |
| `MathUtils.ParseDecimalValue` | main.js:168-175 | `parseFloat` of any token other than `"."` is the integer its digits spell with the `.` left out, divided by 10 once per digit after the `.` (`"2.5"` is 25/10, `".5"` is 5/10, `"3."` is 3/1) |
| `MathUtils.ParseDecimalOfNumeral` | main.js:169 | `parseFloat` reads the numeral of a whole number back as that number |
| `MathUtils.LeadingCapture` | main.js:167 | the capture of `/^(\d*\.?\d*)\s*[a-zA-Z\(]/` is a decimal token at the front of the equation; `LeadingCaptureMeaning` ties it to the regular expression |
| `MathUtils.LeadingCaptureMeaning` | main.js:167 | the scanner captures `g` exactly when `/^(\d*\.?\d*)\s*[a-zA-Z\(]/` matches with group `g` (a leading token, spaces, then a letter or `(`) |
| `MathUtils.InnerCapture` | main.js:173 | the capture of `/[a-zA-Z]\((\d*\.?\d*)[xX]/` is a decimal token; `InnerCaptureMeaning` and `InnerCaptureNone` tie it to the leftmost match |
| `MathUtils.InnerCaptureMeaning` | main.js:173 | the scanner captures `g` exactly when the leftmost match of `/[a-zA-Z]\((\d*\.?\d*)[xX]/` has group `g` |
| `MathUtils.InnerCaptureNone` | main.js:173 | the scanner captures nothing exactly when the regular expression matches nowhere |
| `MathUtils.FunctionName` | main.js:164-186 | the reported name is always one of the eight names the chain assigns, `'sin(x)'` included |
| `MathUtils.FunctionNameFirstMarker` | main.js:179-186 | the reported name is that of the first marker in the order sin, cos, x²/x^2, √x, \|x\|, 1/x, x³/x^3, tan that the equation includes |
| `MathUtils.FunctionNameDefault` | main.js:164-186 | with no marker present the name stays `'sin(x)'` |
| `MathUtils.Factor` | main.js:163-176 | a factor is 1 when the capture is missing or empty, NaN exactly when the capture is `"."`, and otherwise a non-negative number |
| `MathUtils.ParseEquation` | main.js:162-189 | neither factor is ever negative (a leading `-` is never captured), each is NaN exactly when its capture is `"."`, and the name is one of the eight the chain assigns |
| `MathUtils.ParseEquationVertical` | main.js:163-170 | `a` is `parseFloat` of the regular expression's capture when that capture is non-empty, and 1 when it is empty |
| `MathUtils.ParseEquationVerticalDefault` | main.js:163-170 | `a` is 1 when the vertical regular expression does not match |
| `MathUtils.ParseEquationVerticalNaN` | main.js:167-170 | `a` is NaN exactly when the capture is a lone `"."` followed by spaces and a letter or `(` |
| `MathUtils.ParseEquationMinusSign` | main.js:167-170 | an equation that starts with `-` keeps `a` = 1 |
| `MathUtils.ParseEquationHorizontal` | main.js:163-176 | `b` is `parseFloat` of the leftmost `letter(`…`x` capture when it is non-empty, and 1 when it is empty |
| `MathUtils.ParseEquationHorizontalDefault` | main.js:163-176 | `b` is 1 when the horizontal regular expression matches nowhere |
| `MathUtils.ParseEquationExampleSin` | main.js:162-189 | `"3sin(2x)"` parses to a = 3, b = 2, `'sin(x)'` |
| `MathUtils.ParseEquationExampleCos` | main.js:162-189 | `"cos(x)"` parses to a = 1, b = 1, `'cos(x)'` |
| `MathUtils.GetTransformationType` | main.js:192-203 | vertical is 'stretch' iff a > 1 and 'shrink' iff 0 < a < 1; horizontal is 'shrink' iff b > 1 and 'stretch' iff 0 < b < 1; otherwise 'none', NaN included |
| `MathUtils.HorizontalIsInverseOfVertical` | main.js:196-200 | the same factor reads as the opposite kind on the horizontal axis |
| `ProgressTracker.EventOf` | main.js:274-289 | each of the four `type` strings of the `switch` gives its own event, `quizCompleted` carrying `value`; every other string is unrecognised |
| `ProgressTracker.EventEffects` | main.js:274-289 | `questionCorrect` adds 1 question and 10 XP; `questionIncorrect` adds 1 question; `quizCompleted` adds 5 XP per correct answer; `achievementUnlocked` adds 1 badge and 50 XP; any other type changes nothing |
| `ProgressTracker.ApplyEvent` | main.js:274-289 | an event changes only questionsAnswered, xp and badgesEarned; each counter rises by at most 1; xp never falls unless a quiz reports a negative count; an unknown type changes nothing |
| `ProgressTracker.Grow` | main.js:303 | the new threshold `m` satisfies 5m ≤ 6n < 5m + 5, the floor of 1.2·n; it is never below n and is above n once n ≥ 5 |
| `ProgressTracker.LevelUp` | main.js:300-309 | afterwards xp < xpRequired; only xp, level and xpRequired change; the threshold never decreases; old xp = new xp + the sum of the thresholds consumed, one per level gained; the new threshold is the old one grown once per level |
| `ProgressTracker.ThresholdsCost` | main.js:300-303 | `k` thresholds cost at least `k` times the first one |
| `ProgressTracker.LevelUpGainsAffordableLevels` | main.js:300-303 | at least `k` ≥ 1 levels are gained exactly when the XP covers the first `k` thresholds |
| `ProgressTracker.LevelUpIdempotent` | main.js:299-310 | running the level-up loop a second time changes nothing |
| `ProgressTracker.Update` | main.js:273-292 | after an event and the level-up loop, xp < xpRequired and the threshold has not decreased |
| `ProgressTracker.ReplayStaysSettled` | main.js:273-310 | starting from 0 ≤ xp < xpRequired, every sequence of events without negative quiz counts keeps 0 ≤ xp < xpRequired |
| `ProgressTracker.QuizCrossesOneLevel` | main.js:283-303 | a 5-answer quiz at 290 of 300 XP gains exactly one level and leaves xp 15 and threshold 360 |
| `ProgressTracker.UserProgress.constructor` | main.js:8-18 | the record starts at level 3 with 230 of 300 XP and the other initial values |
| `ProgressTracker.UserProgress.CheckLevelUp` | main.js:299-310 | the fields become `LevelUp` of the old record, xp < xpRequired, and the hook receives old level + 1, …, new level once each, in ascending order |
| `ProgressTracker.UserProgress.UpdateProgress` | main.js:273-296 | the fields become `Update` of the old record for the named event, and the level-up hook calls are as for `CheckLevelUp` |
| `ProgressTracker.UserProgress.ProgressPercentage` | main.js:313-315 | the percentage is 100·xp/xpRequired, and lies in [0, 100) whenever 0 ≤ xp < xpRequired |

## Left out

- `MathUtils.generateFunctionData` (main.js:117-159) is not modelled. It is floating-point sampling with `Math.sin`, `Math.cos`, `Math.tan`, `Math.sqrt` and a float step.
- `Utils.random` and `Utils.randomInt` (main.js:59-62) are not modelled. They depend on `Math.random`. In `shuffle`, the values `Math.random()` returns are a parameter instead.
- `Utils.debounce` (main.js:82-92) is not modelled: it uses timers.
- `Utils.saveToStorage`, `Utils.loadFromStorage` and `ProgressTracker.loadProgress` (main.js:95-111, 318-323) are not modelled: they are localStorage and JSON I/O.
- UpdateProgress: the save to storage at the end of `updateProgress` (main.js:295) is I/O and is not modelled.
- `AnimationHelpers`, `Navigation`, `SoundManager`, `showNotification` and the page set-up code (main.js:207-555) are not modelled. They wrap anime.js, ECharts, Audio and the DOM.
- `QuestionBank` and the achievements and settings literals (main.js:19-54) are not modelled. They are static data with no behaviour.
- CheckLevelUp: the `typeof showLevelUpAnimation === 'function'` test is not modelled. `fired` lists the calls the loop makes when the hook is defined.
- CheckLevelUp: requires a threshold of at least 1 (`Valid()`). In the source, a record with `xpRequired <= 0` and `xp >= xpRequired` makes the `while` loop of main.js:300-309 run forever, and `loadProgress` copies stored data into the record with `Object.assign` (main.js:321) without checking it, so such a record can arise from stored data. The model does not cover that case.
- Grow: the model uses exact arithmetic, `(n * 6) / 5`. The source multiplies by the double nearest to 1.2, and floating-point rounding of that product is not modelled.
- ParseDecimal: the value is an exact rational. Rounding to the nearest double is not modelled, and neither is overflow to Infinity for very long digit strings.
- GetTransformationType: the factors are reals or NaN. Infinity and negative zero are not modelled.
- FormatTime: only whole, non-negative numbers of seconds are modelled. Fractional and negative inputs are not. Division is exact, so for seconds beyond 2^53, where `seconds / 60` rounds to a double and `Math.floor` then sees the rounded value, the model can print a different minute count (72057594037928096 prints `1200959900632135:56` in JavaScript and `1200959900632134:56` here). Exponent notation, which `toString` uses from 10^21 on, is not modelled either.
- PickIndex: the product `Math.random() * (i + 1)` is exact here. In JavaScript it is rounded to a double, and for a draw just below 1 the rounded product can reach a whole number the exact one stays below: for r = 6004799503160661·2^-53 and i = 2 the rounded product is 2.0, so JavaScript picks 2 where the model picks 1. Every pick stays within 0..i either way, so the permutation property is unaffected.
- UpdateProgress: `value` is an integer. An undefined, fractional or NaN `value` is not modelled. The record's numeric fields are unbounded integers, so JavaScript's number precision limits are not modelled.
- Strings are sequences of characters. Every character the code inspects (`²`, `³`, `√`, the `\s` set) is a single UTF-16 code unit, so this matches JavaScript's indexing for those tests.
