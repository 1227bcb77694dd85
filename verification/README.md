# Scientific calculator: notation normaliser, allow-list and calculator state

This project models the logic of `scientific_calculator.py` that does not
depend on floating point or the GUI toolkit. It covers:

- **The notation normaliser** at the start of `safe_eval`. Three global
  substitutions run in a fixed order:
  - every `^` becomes `**`;
  - a number (digits with an optional `.digits` part), optional whitespace
    and `%` becomes `(<number>/100)`;
  - a number or a parenthesised, parenthesis-free group, then optional
    whitespace and `!`, becomes `factorial(<operand>)`.

  Each substitution is a left-to-right scan that emits the replacement
  where the pattern matches at the head of the remaining text and skips the
  whole match. This is how a global regular-expression substitution picks
  its leftmost, non-overlapping matches. For both patterns, the greedy
  match is the only match that backtracking could produce.
- **The character allow-list.** It is applied to the normalised text.
- **`safe_eval` up to the evaluator.** The evaluator is a parameter
  (`Evaluation.Evaluator`). It maps the normalised text, the name table
  and the trig mode to a value, or to `None` when evaluating or converting
  the result to a float raises.
- **The integer factorial guard.**
- **The name table and the trig mode.** This covers the mode-aware trig
  wrappers and the toggle that rebuilds them.
- **The calculator state.** This is the entry line, the memory and the
  mode, with the button dispatch: clear, backspace, append, append a
  function name with `(`, MC, M+ and M-.

Modules:

- `Results`: `Option` and `Result`.
- `Strings`: small slicing and concatenation facts.
- `Lexical`: character classes, greedy runs, the number pattern and the
  refused characters of a text.
- `Rewrite`: the three substitutions and `Normalize`.
- `Evaluation`: modes, the name table, the factorial guard,
  `Prepare` and `SafeEval`.
- `Calculator`: the state record, the buttons and sessions of events.

Two details of the code are easy to overlook, and the model keeps both:

- The allow-list at line 76 also admits `_`.
- The group alternative of the factorial rewrite at line 73 matches
  `(x)!`: the `!` follows the closing parenthesis.

## Model

| member | source | states |
|---|---|---|
| Lexical.Run | scientific_calculator.py:69 | A greedy repetition such as `\d+` or `\s*` at the head of a text consumes a prefix whose characters all belong to the class, and stops at the first character that does not. |
| Lexical.NumberLen | scientific_calculator.py:69 | The number sub-pattern `\d+(\.\d+)?` matches at the head of a text exactly when the text starts with a digit, what it consumes is a well-formed number, and it is never followed by a digit it left behind. |
| Lexical.NumberLenOfNumber | scientific_calculator.py:69 | A well-formed number followed by a character that is not a digit or a dot is matched whole. |
| Lexical.NumberLenOfFraction | scientific_calculator.py:69 | A number with a fractional part is consumed whole, dot and fraction included. |
| Lexical.Offending | scientific_calculator.py:76-77 | The characters the allow-list refuses, in order: empty exactly when every character is allowed. |
| Lexical.OffendingConcat | scientific_calculator.py:76-77 | The refused characters of a concatenation are those of the parts, in order. |
| Rewrite.Caret | scientific_calculator.py:66 | After the replacement no `^` remains, and text without `^` is unchanged. |
| Rewrite.CaretLength | scientific_calculator.py:66 | The text grows by exactly one character per `^`. |
| Rewrite.CaretReplacesEach | scientific_calculator.py:66 | Each `^` becomes `**`, and the text on either side is rewritten on its own. |
| Rewrite.CaretConcat | scientific_calculator.py:66 | The caret replacement distributes over concatenation. |
| Rewrite.PercentAt | scientific_calculator.py:69 | A percent match at the head of a text captures a well-formed number followed by whitespace and `%`; there is none unless the text starts with a digit. |
| Rewrite.Percent | scientific_calculator.py:69 | Text without `%` is unchanged. |
| Rewrite.PercentOfNumber | scientific_calculator.py:69 | A number, optional whitespace and `%` at the head of the text become `(<number>/100)`, and the rest of the text is rewritten after it. |
| Rewrite.PercentOfWholeNumber | scientific_calculator.py:69 | `<number>%` becomes `(<number>/100)`. |
| Rewrite.PercentSplit | scientific_calculator.py:69 | The percent rewrite of `a + b` is the rewrite of `a` followed by the rewrite of `b` when `b` starts with a character that no match can contain. |
| Rewrite.PercentKeepsOffending | scientific_calculator.py:69 | The percent rewrite keeps the refused characters: it removes only whitespace and `%` and adds only `(/100)`. |
| Rewrite.PercentKeepsAbsent | scientific_calculator.py:69 | The percent rewrite introduces no character outside `(/100)`. |
| Rewrite.OperandLen | scientific_calculator.py:73 | The operand alternatives of the factorial pattern consume either one parenthesised, parenthesis-free group or one well-formed number, and always a number when the text starts with a digit. |
| Rewrite.FactorialAt | scientific_calculator.py:73 | A factorial match captures a group or a number followed by whitespace and `!`. |
| Rewrite.Factorial | scientific_calculator.py:73 | Text without `!` is unchanged. |
| Rewrite.FactorialOfNumber | scientific_calculator.py:71-73 | `<number><ws>!` at the head of the text becomes `factorial(<number>)`. |
| Rewrite.FactorialOfGroup | scientific_calculator.py:71-73 | `(<x>)<ws>!`, with `x` non-empty and parenthesis-free, becomes `factorial((<x>))`. |
| Rewrite.FactorialNestedUnchanged | scientific_calculator.py:73 | An operand inside two pairs of parentheses, as in `((2+3))!`, is not rewritten at all. |
| Rewrite.GroupThenCloseNoMatch | scientific_calculator.py:73 | A group followed by `)` instead of whitespace and `!` is no factorial match. |
| Rewrite.FactorialSplit | scientific_calculator.py:73 | The factorial rewrite of `a + b` splits when `b` starts with `(`, or with `)` when `a` opens no parenthesis. |
| Rewrite.FactorialKeepsOffending | scientific_calculator.py:73 | The factorial rewrite keeps the refused characters. |
| Rewrite.FactorialKeepsAbsent | scientific_calculator.py:73 | The factorial rewrite introduces no character outside `factorial()`. |
| Rewrite.Normalize | scientific_calculator.py:64-73 | The three rewrites, in order, leave no `^` and keep exactly the refused characters of the input. |
| Rewrite.NormalizeSplit | scientific_calculator.py:64-73 | No rewrite reaches across an opening parenthesis. |
| Rewrite.NumberHasNoMarks | scientific_calculator.py:69 | A number contains none of `^`, `%` and `!`. |
| Rewrite.NormalizeFactorialOfNumber | scientific_calculator.py:71-73 | The entry `<number>!` normalises to `factorial(<number>)`; `5!` gives `factorial(5)`. |
| Rewrite.NormalizePercentOfNumber | scientific_calculator.py:68-69 | The entry `<number>%` normalises to `(<number>/100)`; `50%` gives `(50/100)`. |
| Rewrite.NormalizePower | scientific_calculator.py:65-66 | `a^b` normalises to `a**b` when neither side contains `^`, `%` or `!`. |
| Evaluation.Toggled | scientific_calculator.py:231-234 | A toggle always changes the mode. |
| Evaluation.SafeNames | scientific_calculator.py:43-61 | The name table has exactly the seventeen documented keys, and the six trig names are bound to mode-aware wrappers. |
| Evaluation.ConversionsFollowMode | scientific_calculator.py:14-33 | In radian mode no wrapper converts. In degree mode each wrapper converts exactly once: the argument for sin, cos and tan, the result for asin, acos and atan. |
| Evaluation.FactorialOf | scientific_calculator.py:36-40 | The guard fails with a domain error exactly when the argument is negative or not integral, and otherwise returns a value of at least 1. |
| Evaluation.FactorialOfRecurrence | scientific_calculator.py:36-40 | On naturals the guard computes n!: 0! = 1 and (n+1)! = (n+1)·n!. |
| Evaluation.FactorialOfExamples | scientific_calculator.py:36-40 | 5 gives 120; -1 and 2.5 are domain errors. |
| Evaluation.FindDisallowed | scientific_calculator.py:76 | The search finds nothing exactly when every character is allowed, and otherwise finds the leftmost refused character. |
| Evaluation.Prepare | scientific_calculator.py:64-77 | The normalised text is refused with an invalid-character error exactly when the raw input has a refused character; otherwise the text passed on has no `^` and only allowed characters. |
| Evaluation.SafeEval | scientific_calculator.py:64-84 | The result is an invalid-character error exactly when the input has a refused character, so the evaluator is not consulted on such text. It is a value exactly when the allow-list passes and the evaluator returns one, and that value is the evaluator's. |
| Evaluation.InvalidCharacterExample | scientific_calculator.py:76-77 | `2+3;ls` is refused with an invalid-character error whatever the evaluator does. |
| Calculator.Initial | scientific_calculator.py:97 | At start-up the entry is empty, the memory is 0 and the mode is degrees (line 11), and the name table is complete. |
| Calculator.ToggleTrigMode | scientific_calculator.py:229-243 | The toggle changes the mode, rebinds only the six trig names, leaves every other binding, the entry and the memory alone, and adds no other key. |
| Calculator.ToggleKeepsNames | scientific_calculator.py:229-243 | On a complete table the rebuild changes no binding and no key; only the mode changes how each trig name converts. |
| Calculator.ToggleTwice | scientific_calculator.py:229-243 | Two toggles restore the state exactly. |
| Calculator.Classify | scientific_calculator.py:153-227 | Only `+/-`, `=` and `MR` fall outside the model; each function label appends its name and `(`. |
| Calculator.DropLast | scientific_calculator.py:162 | Dropping the last character of an empty entry leaves it empty; otherwise it removes exactly the last character. |
| Calculator.Apply | scientific_calculator.py:153-227 | No button changes the mode or the name table. Entry buttons leave the memory alone and memory buttons leave the entry alone. Append adds its text at the end, clear empties the entry, backspace drops its last character, and MC zeroes the memory. M+ adds and M- subtracts the evaluated entry; both leave the whole state unchanged when evaluation fails. |
| Calculator.OnButton | scientific_calculator.py:153-227 | A button is modelled exactly when its label is not `+/-`, `=` or `MR`, and it never changes the mode or the names. |
| Calculator.EntryButtons | scientific_calculator.py:155-162 | `C` and `CE` empty the entry and `⌫` drops its last character. |
| Calculator.MemoryButtons | scientific_calculator.py:204-224 | `MC` zeroes the memory, and `M+` and `M-` add and subtract the evaluated entry. |
| Calculator.FunctionButtonAppends | scientific_calculator.py:183-189 | A function button appends its name followed by `(`. |
| Calculator.OtherButtonAppends | scientific_calculator.py:175-227 | Digits, operators, `%`, `pi`, `e`, `!` and unknown labels are appended as they are. |
| Calculator.BackspaceUndoesInsert | scientific_calculator.py:161-162 | Backspace after appending one character restores the state. |
| Calculator.MemoryAddThenSubtract | scientific_calculator.py:210-224 | M- after M+ on the same entry restores the state. |
| Calculator.MemoryAddAdds | scientific_calculator.py:210-217 | M+ adds the entry's value to the memory, and leaves the state unchanged when the entry has a refused character. |
| Calculator.DigitEntry | scientific_calculator.py:64-77 | A single digit passes the rewrites unchanged, so its evaluation is the evaluator's value for the digit. |
| Calculator.DigitMemory | scientific_calculator.py:210-224 | On a single-digit entry, M+ and M- add and subtract the digit's value. |
| Calculator.MemoryExample | scientific_calculator.py:204-224 | From start-up, M+ on `5` and then M- on `2` leave 3 in memory. |
| Calculator.ReplayKeepsNames | scientific_calculator.py:229-243 | Over any sequence of button presses and toggles, the name table stays exactly the start-up table. |
| Calculator.ReplayMode | scientific_calculator.py:229-234 | After any session the mode is the starting mode when the number of toggles is even, and the other mode when it is odd. |

## Left out

- The evaluator (`eval` with the name table, line 81) is a general-purpose
  expression evaluator of the host language. It is a parameter, and so are
  the values of trig, `sqrt`, `log`, `exp`, `pow` and `abs`, which are
  floating-point numerics.
- Floating point is modelled by `real`. The memory accumulates exactly, and
  infinities and NaN are not represented.
  `Evaluation.FactorialOf` takes a `real` and returns an unbounded
  natural.
- Evaluation.FactorialOf: the float conversion at line 37 is left to the
  evaluator. A non-numeric argument raises there, and that is an evaluator
  failure in the model.
- The digit class `\d` is restricted to the ASCII digits. The regex class
  also accepts other Unicode decimal digits. Whitespace `\s` is the full
  set that Python's `str.isspace` accepts.
- The `=` button and `calculate` (lines 202-203, 246 onward) round to 12
  digits, print the result and append to the history. These are
  float-printing and GUI concerns; `Classify` returns `None` for `=`.
- The `+/-` button (lines 163-174) depends on float parsing and printing.
  `MR` (lines 207-209) appends the printed float. Both map to `None`.
- `CE` (lines 157-160) also clears the history list. The model keeps only
  its effect on the entry, which is the same as `C`.
- Message boxes, the history list box, key bindings, the mode label and all
  layout are GUI plumbing. `calculator_gui.py` is not part of this model.
- Lines 190-201 of `on_button` are never reached, because the branch at
  line 183 already catches those labels. The model has one branch for
  them.
- Calculator.Apply: the evaluator is a pure function of the text, the
  names and the mode, so M+ and M- are assumed to change nothing but the
  memory. In the program, `eval` runs with the module's names reachable:
  allowed text such as `factorial.__globals__.clear()` or
  `abs.__self__.exec(...)` can rewrite the mode, the name table or anything
  else. The allow-list does not prevent this, and the model does not
  represent it.
- Calculator.ReplayKeepsNames: holds under the same assumption that
  evaluation has no effect on calculator state; an evaluated entry that
  clears the module globals breaks the name table and the next toggle.
- Calculator.MemoryAddThenSubtract: float addition followed by subtraction
  need not restore the memory exactly. The lemma holds for the exact
  arithmetic of the model.
