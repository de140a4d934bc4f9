# Calculator expression engine in Dafny

A model of the expression engine of the `Calculator` class (`Program.cs`): a
string-rewriting evaluator for `+ - * /` over floating-point numbers with
bracket groups. Three pieces cooperate and call each other:

- **bracket resolution** (`EvaluateBrackets`) scans left to right with a depth
  counter, finds the first top-level `( … )` group, evaluates its inner text,
  splices the formatted value in place of the group and starts over;
- **operator selection** (`FindOperatorIndex`) scans right to left for the
  rightmost `+`/`-` that has a digit directly to its left, and otherwise takes
  the last `*` or `/`;
- **evaluation** (`Calculate`) resolves brackets, splits at the chosen operator
  (the operator belongs to neither side), evaluates each side (parsed as a
  number when it parses, evaluated as an expression otherwise) and applies
  the operator.

Strings are `seq<char>`. Numbers are abstract: `Numbers.Arith<V>` bundles the
parser (`float.Parse`/`float.TryParse`), the formatter used for the splice,
and the four single-precision operations. The engine's only requirement on
them (`Calculator.FormatsWithoutBrackets`) is that the text of a number holds
no bracket. Exceptions become `Results.Result` values: `InvalidOperator(c)`
for the apply step's `ArgumentException`, `NotANumber(text)` for a parse
failure.

Termination is proved, not assumed. `EvaluateBrackets`, `Calculate`,
`CalculateResolved` (the part of `Calculate` after bracket resolution) and
`Operand` are mutually recursive with the lexicographic measure
(number of `(`, length). Splicing a number in can make the text longer, as
when `(1/3)` becomes `0.33333334`, but it always removes at least one `(`,
so a resolved text that differs from its input has fewer `(`. Splitting
never adds a `(` and makes each side shorter than the text it splits.

Modules: `Results` (Option, Result, errors), `Numbers` (the number backend),
`Operators` (operator table and apply step), `OperatorSelector`
(`FindOperatorIndex` and the precedence rule), `Brackets` (depth scan and
splice), and `Calculator` (the engine).

Two consequences of the code are worth stating:
- Bracket resolution stops when no `)` brings the depth back to zero, not
  when the text has no `(`, so an unclosed `(1+2` comes back unchanged
  (`Calculator.EvaluateBracketsUnchanged`).
- A spliced-in number can make the text longer, so the termination measure
  is lexicographic: a splice removes a `(` (`Brackets.Splice`,
  `Calculator.EvaluateBrackets`) and a split shortens the text
  (`Calculator.SplitOperandsAreSmaller`).

## Model

| member | source | states |
|---|---|---|
| `Operators.PerformOperation` | Program.cs:7-19 | succeeds exactly on the four characters of the two operator tables, with sum, difference, product or quotient as the value; any other character fails with an invalid-operator error naming that character |
| `Operators.IsDigit` | Program.cs:60 | a character counts as a digit exactly when it is one of `0123456789` (ASCII only; see Left out) |
| `OperatorSelector.LastAdditive` | Program.cs:53-64 | the right-to-left scan returns the first position, counting down from `index`, that holds `+` or `-` with a digit directly to its left, and no position between it and `index` qualifies; -1 means none in `0..index` |
| `OperatorSelector.LastIndexOfAny` | Program.cs:65 | returns the last position holding one of the given characters, or -1 when none of them occurs |
| `OperatorSelector.FindOperatorIndex` | Program.cs:51-66 | the result is -1 or a valid index holding one of `+ - * /`; it is the rightmost digit-gated `+`/`-` when one exists, otherwise the last `*` or `/` or -1; index 0 is chosen only for a `*` or `/`, so a leading sign is never a split point |
| `OperatorSelector.SplitPointUnique` | Program.cs:51-66 | the precedence rule singles out at most one position |
| `OperatorSelector.FindOperatorIndexIsSplitPoint` | Program.cs:51-66 | the returned index equals `r` if and only if `r` satisfies the declarative precedence rule |
| `OperatorSelector.RightOperandIsTighter` | Program.cs:53-65 | chains associate to the left: after a `+`/`-` split the right side has no digit-gated `+`/`-`, and after a `*`/`/` split the right side has no split point at all |
| `OperatorSelector.PrecedenceExamples` | Program.cs:53-65 | `-5*3` splits at `*`, `2*3+4` at `+`, `2+3*4` at `+`, `5e-3` not at all, and `3--2` at its first `-` |
| `Brackets.GroupFound` | Program.cs:37-42 | when a `)` brings the depth from one to zero, the recorded start is a real index (never the initial -1) and the pair is the first top-level group |
| `Brackets.ScanGroup` | Program.cs:27-47 | from any scan state the loop answers a group satisfying the first-group rule, or nothing exactly when no later `)` brings the depth back to zero |
| `Brackets.FirstGroup` | Program.cs:24-47 | the group opens at the first `(` read at depth zero, closes at the first `)` that returns the depth to zero, with positive depth in between (nested pairs skipped); there is none exactly when no `)` returns the depth to zero |
| `Brackets.Inner` | Program.cs:41 | the text strictly between the group's brackets, which with them rebuilds the group's span and has fewer `(` than the expression |
| `Brackets.Splice` | Program.cs:42 | text before the `(` and after the `)` is kept verbatim with the replacement between; the `(` count changes by exactly the span's and the text's, so bracket-free text removes at least one `(` |
| `Brackets.NoOpenNoGroup` | Program.cs:27-48 | an expression without `(` has no group |
| `Brackets.BalancedWithoutGroupHasNoBrackets` | Program.cs:27-48 | in a balanced expression every bracket is part of a group, so if the scan finds no group there are no brackets |
| `Brackets.SplicePreservesBalance` | Program.cs:41-42 | replacing the first group of a balanced expression by bracket-free text keeps it balanced |
| `Brackets.WrappedGroup` | Program.cs:27-47 | a balanced expression wrapped in brackets is one group spanning the whole text |
| `Calculator.EvaluateBrackets` | Program.cs:22-49 | returns the input unchanged when no `)` returns the depth to zero; a successful result has no group left, equals the input exactly when the input had no group, and otherwise has fewer `(`; failures are only parse failures |
| `Calculator.EvaluateBracketsUnchanged` | Program.cs:27-48 | input with no `(`, or with no `)` (such as `(1+2`), comes back unchanged |
| `Calculator.EvaluateBracketsClearsBalanced` | Program.cs:22-49 | for balanced input, a successful result is balanced and holds no bracket at all |
| `Calculator.SplitAt` | Program.cs:74-75 | the two sides exclude the operator and, with it between them, rebuild the text; each side is strictly shorter |
| `Calculator.Calculate` | Program.cs:68-82 | evaluation never fails with an invalid-operator error, since the applied operator is always one `FindOperatorIndex` chose; only parse failures escape |
| `Calculator.CalculateResolved` | Program.cs:71-81 | evaluating resolved text fails only with a parse failure: the operator applied is always one `FindOperatorIndex` chose, so the invalid-operator error never escapes |
| `Calculator.Operand` | Program.cs:77-78 | a side that parses as a number is that number without further evaluation; failures are only parse failures |
| `Calculator.PlainNumber` | Program.cs:70-72 | text with no bracket group (an unmatched `(` may remain) in which no operator is chosen evaluates to its parsed value, and fails exactly when parsing fails |
| `Calculator.FormattedNumberEvaluatesToItself` | Program.cs:68-72 | evaluating the formatted text of a value gives that value back, whenever the text parses back to it and contains no split point |
| `Calculator.CalculateResolvesFirst` | Program.cs:70 | when bracket resolution succeeds, the value of an expression is the value of its resolved text |
| `Calculator.CollapsePreservesValue` | Program.cs:41-43 | when the first group's inner text evaluates to `v`, the expression has the same result as the text with that group replaced by the formatted `v` |
| `Calculator.CollapseFailurePropagates` | Program.cs:40 | when the first group's inner text fails to evaluate, the whole expression fails with that same error |
| `Calculator.ResolutionFailurePropagates` | Program.cs:70 | a failure during bracket resolution is the failure of the whole evaluation |
| `Calculator.CalculateAtSplitPoint` | Program.cs:71-81 | on text with no bracket group, unmatched brackets included, the value is the operator at the position the declarative precedence rule singles out, applied to the left then the right operand's value, with the first operand failure propagated |
| `Calculator.SplitPointValue` | Program.cs:71-81 | on text with no bracket group, once both sides of the split point have values, the expression's result is the found operator applied to them, left side first |
| `Calculator.UnclosedBracketSplits` | Program.cs:70-81 | an unclosed `(1+2` survives resolution and is split at `+` into `(1` and `2`, whose values are added |
| `Calculator.SplitOperandsAreSmaller` | Program.cs:74-75 | both sides of a split are smaller than the split text in the (number of `(`, length) order: neither has more `(` and, with equal counts, each is shorter |
| `Calculator.RedundantBracketsAreTransparent` | Program.cs:41-43 | when formatting round-trips, `(t)` evaluates to the same result as `t` for balanced `t`, including the same error |

## Left out

- `Main` (Program.cs:84-91): the console prompt, reading a line, the
  whitespace check and printing are I/O and not part of this model.
- IEEE single-precision arithmetic (Program.cs:14-17), including rounding,
  infinities, NaN and division by zero: the four operations are the
  `add`/`sub`/`mul`/`div` fields of `Numbers.Arith`, and nothing is assumed
  about them.
- `float.Parse`, `float.TryParse` and culture-dependent number formatting
  (Program.cs:41-42, 72, 77-78) are library calls whose behaviour is not
  visible here. They are the `parse` and `format` fields of `Numbers.Arith`,
  and one `parse` stands for both `Parse` and `TryParse`. The engine assumes
  only that formatted text has no bracket (`Calculator.FormatsWithoutBrackets`).
  The round-trip lemmas also assume the text parses back to the value and
  has no split point (`Calculator.FormatsPlainNumbers`).
- Operators.IsDigit: accepts only `'0'` to `'9'`, while `Char.IsDigit` accepts every
  Unicode decimal digit, so the digit gate on `+`/`-` is modelled for ASCII digits only.
- Calculator.Calculate: its own contract states only which errors can
  escape, because its value depends on the abstract arithmetic. The value
  is stated by lemmas. `Calculator.CalculateResolvesFirst` and
  `Calculator.CollapsePreservesValue` reduce an expression with groups to its
  resolved text, and `Calculator.CollapseFailurePropagates` and
  `Calculator.ResolutionFailurePropagates` state that a failure there is the
  failure of the whole evaluation. The resolved text has no bracket group
  (`Calculator.EvaluateBrackets`), and `Calculator.CalculateAtSplitPoint` and
  `Calculator.PlainNumber` give the value of any such text, so together they
  give the value of every expression whose resolution succeeds.
- A null input string, stack overflow on deeply nested or very long input,
  and other resource limits are not modelled.
