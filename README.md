# Calculator expression buffer

A model of the input-editing and evaluation logic of a browser calculator
(`proyecto/src/main.js`). The page keeps one string, `expression`. Four
handlers change it:

- `appendValue` applies the editing rules to a pressed key or button value.
- `backspace` drops the last character.
- `clearAll` empties the buffer.
- `evaluateExpression` checks the buffer against a character pattern, hands
  it to the JavaScript engine, and either replaces it with the result or
  shows an error.

The display shows the buffer, or `0` when the buffer is empty.

The project has three modules:

- `Expression` (`expression.dfy`) holds the pure rules:
  - which characters are operators (`IsOperator`, the `isOperator` helper);
  - where the number being typed starts (`SegmentStart`, `LastSegment`: the
    text after the last `+ - * / ( )`);
  - glyph normalisation (`Normalize`);
  - the append rule (`AppendValue`, plus `AppendIgnored` for the two early returns);
  - backspace (`Backspaced`) and the display rule (`DisplayText`);
  - the validation pattern (`MatchesPattern`, whose whitespace class is
    JavaScript's `\s`);
  - the evaluation paths (`Evaluation`, `Evaluated`).
- `Calculator` (`calculator.dfy`) holds a class `ExpressionEngine`. Its
  fields are `expression` and `display`. Each of its methods does what one
  handler does, step by step, and its contract gives the new buffer and
  display. Where `Expression` has a function for that handler (`AppendValue`,
  `Backspaced`, `DisplayText`, `Evaluation` and `Evaluated`), the method is
  proved against it. `ShowError`, `Clear` and the constructor state the
  fields directly. `Evaluate` takes the JavaScript engine as
  a parameter, `engine: string -> Completion`. The parameter says whether
  running the buffer throws, returns something that is not a finite number,
  or returns a finite number, and gives that number's text.
- `Sessions` (`sessions.dfy`) covers sequences of editing events from the
  empty start-up buffer, and proves what holds along all of them:
  - no number segment ever holds two points. This is stated twice: once as
    "each point was added where its number had none", and once as "any two
    points have an operator or parenthesis between them". The two are proved
    equivalent;
  - a minus never directly follows a minus;
  - a buffer built from keyboard keys (and the three glyphs) only ever
    contains keyboard characters. So whenever it is non-empty, it passes the
    validation pattern. An empty buffer never reaches the pattern, because
    line 115 returns before the test.

The comment at the head of `appendValue` (line 51) says the function avoids
"double operators" such as `+*` or `--`. The model shows that `--` is indeed
never produced, but that `+*` is reachable: after a number, `+ - *` gives
`+*` through the replace at line 84. With key sequences, it also proves
false three rules one might read into that comment:

- "Only a minus may follow an operator" is false. After a number, `+ - +`
  gives `++`, through the replace branch at line 84.
- "No three operators in a row" is false. After a number, `+ - + -` gives
  `++-`.
- "The buffer never starts with `+ * /`" is false: `- +` gives `+`.

## Model

| member | source | states |
|---|---|---|
| Expression.IsKey | proyecto/src/main.js:28-28 | definition: a digit, one of `+ - * / ( )`, or `.`, the keys the keyboard handler forwards |
| Expression.IsGlyph | proyecto/src/main.js:55-57 | definition: exactly `×`, `÷` and `−`, the three values the glyph tests rewrite |
| Expression.IsSeparator | proyecto/src/main.js:62-62 | definition: an operator or a parenthesis, the split's character class `+ - * / ( )` |
| Expression.EndsWithOperator | proyecto/src/main.js:78-78 | definition: the buffer is non-empty and its last character (`slice(-1)`, line 52) is an operator; `isOperator('')` is false on an empty buffer |
| Expression.IsOperator | proyecto/src/main.js:95-97 | definition: exactly `+`, `-`, `*` and `/` |
| Expression.Normalize | proyecto/src/main.js:54-57 | `×`, `÷` and `−` become `*`, `/` and `-`; every other character is left as it is |
| Expression.SegmentStart | proyecto/src/main.js:62-63 | the last number segment is a suffix that contains no `+ - * / ( )`, and the character just before it is one of them (or it is the whole buffer) |
| Expression.LastSegment | proyecto/src/main.js:62-63 | definition: the buffer from `SegmentStart` on, the last element of the split |
| Expression.NumberHasPoint | proyecto/src/main.js:62-64 | scanning back to the last separator finds a point exactly when the last segment of the split contains `.` |
| Expression.AppendIgnored | proyecto/src/main.js:64-76 | definition: the normalised value is a point and the last number already has one (line 64), or it is an operator other than `-` on an empty buffer (line 76) |
| Expression.AppendValue | proyecto/src/main.js:50-93 | the append rules case by case. A point is refused when the last segment already has one. A point becomes `0.` on an empty buffer and is appended alone otherwise. An operator other than `-` is refused on an empty buffer. After an operator, `-` is added when the last character is not `-`, and otherwise the last operator is replaced. Every other character is appended verbatim |
| Expression.AppendTouchesOnlyTheEnd | proyecto/src/main.js:50-93 | appending never shortens the buffer, never changes anything but the last character of the old buffer, and adds at most two characters |
| Expression.Backspaced | proyecto/src/main.js:104-107 | the last character is removed; an empty buffer stays empty |
| Expression.DisplayText | proyecto/src/main.js:109-111 | the display is never empty; it is the buffer exactly when the buffer is non-empty, otherwise `0` |
| Expression.IsJsWhitespace | proyecto/src/main.js:118-118 | definition: the characters JavaScript's `\s` matches (tab to carriage return, space, no-break space, the Unicode space separators, line and paragraph separators, and the byte-order mark) |
| Expression.IsPatternChar | proyecto/src/main.js:118-118 | definition: a digit, one of `+ - * / ( )`, `.`, or `\s` whitespace, the pattern's character class |
| Expression.MatchesPattern | proyecto/src/main.js:118-119 | definition: at least one character, and every character in the class, as the anchored `^[...]+$` requires |
| Expression.KeysMatchPattern | proyecto/src/main.js:118-119 | a non-empty string of keyboard keys matches the validation pattern |
| Expression.Evaluation | proyecto/src/main.js:114-140 | an empty buffer is ignored. A buffer failing the pattern gives "Entrada inválida". A throw gives "Error de cálculo" and a non-finite value gives "Resultado no válido", each exactly when the pattern passed. A result replaces the buffer exactly when the pattern passed and the value is finite |
| Expression.Evaluated | proyecto/src/main.js:115-139 | the buffer changes only when it passes the pattern and the engine returns a finite value, and then it becomes that value's text; an empty buffer, an invalid one, a throw and a non-finite value all leave it as it was |
| Calculator.ExpressionEngine.constructor | proyecto/src/main.js:6-7 | the buffer starts empty and the display shows `0` |
| Calculator.ExpressionEngine.UpdateDisplay | proyecto/src/main.js:109-111 | the display shows the buffer or `0`; the buffer is unchanged |
| Calculator.ExpressionEngine.ShowError | proyecto/src/main.js:142-143 | the display shows the message; the buffer is unchanged |
| Calculator.ExpressionEngine.Append | proyecto/src/main.js:50-93 | the new buffer is `AppendValue` of the old one. The display is refreshed unless one of the two early returns was taken, in which case it is untouched |
| Calculator.ExpressionEngine.Clear | proyecto/src/main.js:99-102 | the buffer is empty and the display shows `0` |
| Calculator.ExpressionEngine.Backspace | proyecto/src/main.js:104-107 | the buffer loses its last character (none if empty); the display is refreshed |
| Calculator.ExpressionEngine.Evaluate | proyecto/src/main.js:114-140 | the outcome is `Evaluation` of the old buffer. On every error path the buffer is unchanged and the display shows the message. On success the buffer becomes the result and is displayed. On an empty buffer nothing changes |
| Sessions.Step | proyecto/src/main.js:14-21 | definition: a press appends by `AppendValue`, Backspace (button or key, lines 16-17, 34-37) applies `Backspaced`, clear (button or Escape, lines 14-15, 39-42) empties the buffer |
| Sessions.RunFrom | proyecto/src/main.js:29-47 | definition: the events applied one after another, in order |
| Sessions.Run | proyecto/src/main.js:6-7 | definition: the events applied in order from the empty buffer the page starts with |
| Sessions.Presses | proyecto/src/main.js:44-46 | one `Press` per character, in order: exactly `Press(s[i])` at each position |
| Sessions.SnocKeepsSingleDot | proyecto/src/main.js:60-69 | adding a non-point, or a point where the last segment has none, keeps every pair of points separated by an operator or parenthesis |
| Sessions.SnocRevealsSingleDot | proyecto/src/main.js:60-69 | conversely, if every pair of points is separated, the prefix is too, and a final point stands where the segment before it had none |
| Sessions.OnePointPerNumberMeaning | proyecto/src/main.js:62-64 | "each point was added where its number had none" holds exactly when any two points have an operator or parenthesis between them |
| Sessions.AppendKeepsOnePoint | proyecto/src/main.js:59-91 | whatever character is appended, no number segment ends up with two points |
| Sessions.AppendKeepsNoDoubleMinus | proyecto/src/main.js:74-91 | whatever character is appended, no minus ends up directly after a minus |
| Sessions.AppendKeepsOnlyKeys | proyecto/src/main.js:50-93 | appending a keyboard key or glyph to a buffer of keyboard characters keeps it one |
| Sessions.StepKeepsInvariants | proyecto/src/main.js:99-107 | a press, a backspace or a clear keeps both invariants |
| Sessions.RunFromKeepsInvariants | proyecto/src/main.js:59-107 | along any sequence of presses, backspaces and clears, both invariants are kept |
| Sessions.RunKeepsInvariants | proyecto/src/main.js:6-7 | from the empty start-up buffer, in every reachable buffer any two points have an operator or parenthesis between them, and no `--` occurs |
| Sessions.RunFromKeepsOnlyKeys | proyecto/src/main.js:28-28 | inputs from the keyboard alphabet and glyphs only ever put keyboard characters in the buffer |
| Sessions.KeyboardBufferPassesValidation | proyecto/src/main.js:115-122 | a non-empty buffer built from keyboard inputs passes the pattern, so its evaluation is never "Entrada inválida" |
| Sessions.DigitsAreConcatenated | proyecto/src/main.js:91-91 | pressing only digits appends exactly the digits pressed |
| Sessions.PressAppends | proyecto/src/main.js:74-91 | a non-point non-operator, a leading `-`, an operator after an operand, and a `-` after another operator are each appended at the end |
| Sessions.PressReplaces | proyecto/src/main.js:78-85 | an operator pressed after an operator replaces it, unless it is a `-` after a non-`-` |
| Sessions.SecondPointOfNumberIgnored | proyecto/src/main.js:62-64 | once the current number has a point, a digit and a point add only the digit (`1.` then `2 .` gives `1.2`) |
| Sessions.OperatorsCanPileUp | proyecto/src/main.js:78-85 | after an operand, `+ - + -` adds `++-`: a plus after an operator, and three operators in a row |
| Sessions.OperatorPairReachable | proyecto/src/main.js:51-51 | after an operand, an operator other than `-`, then `-`, then any operator, leaves exactly those two operators (`3 + - *` gives `3+*`), despite the comment promising no `+*` |
| Sessions.LeadingOperatorReachable | proyecto/src/main.js:74-85 | `-` then any operator gives that operator alone, so the buffer can start with `+`, `*` or `/` |
| Sessions.BackspaceUndoesAppend | proyecto/src/main.js:104-105 | a backspace after a press that added one character restores the buffer |

## Left out

- Looking up the display element and the buttons, and the click listeners
  (lines 3-4, 9-24), are left out: they are page wiring. The keydown
  listener (lines 27-48) is left out as event plumbing, including
  `preventDefault`. Its key alphabet at line 28 is kept as the input domain
  (`IsKey`, `KeyboardInputs`). The dispatch of Enter/`=`, Backspace and
  Escape is kept only as the `Input` events `Back` and `ClearAll` and the
  `Evaluate` method.
- The arithmetic itself is left out. Line 127 runs the buffer through the
  JavaScript engine, and the model sees that engine only as the `engine`
  parameter. There is no parser to model.
- Result formatting is left out (`Number.isInteger`, `toFixed(10)`,
  `String`, lines 129-132). It is IEEE-754 arithmetic and JavaScript's
  number-to-string conversion. The engine parameter returns the finished
  text.
- The 900 ms `setTimeout` in `showError` (line 144) is left out as timing.
  Its callback is `UpdateDisplay`.
- Multi-character button values are left out: the buttons' markup is not
  part of this model. A pressed value is a single character.
- The buffer is modelled as a sequence of Unicode scalar values (Dafny's
  `char`), while a JavaScript string is a sequence of UTF-16 code units. For
  a value outside the Basic Multilingual Plane, `slice(-1)` (line 52) and
  backspace's `slice(0, -1)` (line 105) see or remove half of a surrogate
  pair, where `Backspaced` and `BackspaceUndoesAppend` remove the whole
  character. No button or allowed key sends such a value.
- Sessions.RunKeepsInvariants: does not state "no three consecutive
  characters are all operators", and does not state "only a minus may follow
  an operator". Neither holds of the code: `OperatorsCanPileUp` exhibits the
  input that breaks both. "Two points never in one number" and "no `--`" are
  the invariants that do hold.
- Successful evaluations are not among the `Input` events of `Sessions`.
  The text a finite result produces comes from JavaScript's number formatting,
  so the invariants are stated only for presses, backspaces and clears.
  Failed and empty evaluations leave the buffer unchanged
  (`Calculator.ExpressionEngine.Evaluate`), so they cannot break the invariants.
