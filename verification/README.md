# Calculator bot evaluator and command router, in Dafny

This project models the core of a chat calculator bot. The bot has two source files.

- `utils.js` is a string-rewriting arithmetic evaluator:
  - `calc` applies one operator to two operands.
  - `getResult` puts the first operand's leading operator text back in front of the result.
  - `doOperation` rewrites the leftmost `number op number` of one precedence class until only signs of negative numbers are left.
  - `evaluateSimpleExpression` runs the `*/` class and then the `+-` class.
  - `evaluateParens` evaluates the group from the last `(` to the first `)` after it, and repeats.
  - `evaluateExpression` runs a fixed chain of syntax checks around variable substitution.
  - `evaluateEquation` stores a result in a per-account variable store through `setVariable`, `getVariable` and `deleteVariables`.
- `command.js` holds `execute`, the router. It trims a line, answers three keywords in any letter case, and otherwise sends the line to an equation, an expression or a variable lookup. Any error becomes its message text.

The model is functional throughout:

- Strings are `seq<char>`.
- Every regular expression is an explicit greedy scanner. The scanners for `doOperation`'s operation pattern and negative-number pattern, for `getResult`'s operand split and for the syntax checks are proved to agree with ghost predicates that state the pattern the way a backtracking matcher reads it. The whole-string double-negative test is stated directly as such a predicate.
- Errors form the closed datatype `Results.Error`.
- The module-global variable object becomes an immutable `map<string, map<char, real>>`. It is passed in and returned.
- The recursion of `doOperation` carries a fuel bound. Running out of fuel is the engine's stack overflow, which the source would report as a `RangeError`.

Modules, each in the file of the same name:

- `Chars`: character classes, greedy runs, number shapes, `trim`, `indexOf`/`lastIndexOf`, and ASCII lower-casing.
- `Numbers`: `parseFloat` and number-to-string.
- `Results`: the error kinds and their message texts.
- `Variables`: the store.
- `Arithmetic`: `calc` and `getResult`.
- `Operations`: the `doOperation` pattern and its replacement rounds, and `evaluateSimpleExpression`.
- `SingleOperation` (single.dfy): both of the above on the simplest complete inputs.
- `Parens`: `evaluateParens`.
- `Validation`: the syntax checks.
- `Evaluator`: substitution, `evaluateExpression` and `evaluateEquation`.
- `Command`: `execute`.
- `ExpressionExamples` (expressions.dfy): the tests' unary-minus and parenthesis examples of `evaluateExpression`, worked through every check.

## Model

| member | source | states |
|---|---|---|
| Chars.Trim | command.js:28 | the result is a slice of the input with only whitespace cut from either end, and it neither starts nor ends with whitespace |
| Chars.LastIndexOf | utils.js:218 | finds the last occurrence of the character, or reports that there is none exactly when the character is absent |
| Chars.IndexOfFrom | utils.js:236 | finds the first occurrence at or after a position, or reports that there is none |
| Numbers.ParseFloat | utils.js:28-29 | `parseFloat` reads a number exactly when, after leading whitespace and a sign, a digit or a dot followed by a digit comes next; otherwise NaN |
| Numbers.Show | utils.js:88 | number-to-string writes a signed decimal with only digits, dots and a leading minus, and the minus appears exactly for negative values |
| Numbers.ShowParseInt | utils.js:28 | an integer written by number-to-string is read back by `parseFloat` as the same integer |
| Arithmetic.Apply | utils.js:40-55 | the four operators on two values; the only refusal is a zero divisor |
| Arithmetic.Calc | utils.js:27-58 | the first operand is checked before the second, and an operand that is not a number is named in the error; a divisor that parses to zero is refused; otherwise the result is the operator applied to the parsed values |
| Arithmetic.CalcParsed | utils.js:27-58 | when both operands parse, `calc` is exactly the operator applied to their values |
| Arithmetic.CalcShownIntegers | utils.js:27-58 | integers written as text and read back by `calc` combine exactly |
| Arithmetic.SplitOperand | utils.js:80-84 | the first operand splits into leading operator text and a number whose concatenation is the operand; the prefix is empty exactly when the operand is already a number |
| Arithmetic.OperandNumberParses | utils.js:80 | every operand the pattern captures parses, so `calc` can fail only on a zero divisor here |
| Arithmetic.GetResult | utils.js:75-89 | the result is the operand's leading operator text, unchanged, followed by the written value of `calc` on the number part; `calc`'s error otherwise |
| Arithmetic.GetResultExample | spec/utilsSpec.js:86-87 | `+ -3` times `2` gives `+ -6` |
| Arithmetic.CalcAddExample | spec/utilsSpec.js:11-12 | `1 + 1` is 2 |
| Arithmetic.CalcNegativesExample | spec/utilsSpec.js:31 | `-6 / -2` is 3 |
| Arithmetic.CalcDecimalExample | spec/utilsSpec.js:35 | `1.1 + .3` is 1.4, exactly over the reals |
| Arithmetic.CalcDivideByZeroExample | spec/utilsSpec.js:46-47 | `1 / 0` is refused as division by zero |
| Arithmetic.CalcNaNExample | spec/utilsSpec.js:41-42 | an operand `a1` is refused as not a number, with its text in the error |
| Operations.FirstOperandEndSound | utils.js:117 | what the scanner reads as the first group is text the first group of the pattern can capture |
| Operations.SecondOperandEndSound | utils.js:118 | what the scanner reads as the third group is a number the third group of the pattern can capture |
| Operations.MatchAtSound | utils.js:132-134 | a match the scanner finds at a position is a match of the whole pattern there |
| Operations.MatchAtComplete | utils.js:132-134 | for any match of the pattern at a position, the scanner finds the same first group, operator and third-group start, and a third group at least as long, as a backtracking matcher would |
| Operations.FirstOperandEndUnique | utils.js:117 | the first group of any match is the one the scanner reads, so it cannot be split another way |
| Operations.FindMatch | utils.js:132-140 | the match found is the one at its start position, and no earlier position has a match |
| Operations.FindMatchLeftmost | utils.js:132-140 | a match is found exactly when the pattern matches somewhere; the one found is the leftmost, with the longest third group |
| Operations.Step | utils.js:132-140 | one non-global `replace`: with no match the text stays; otherwise the leftmost match is cut out and `getResult` of its three groups is put in its place, and the round fails exactly when `getResult` does, with its error; the only failure is division by zero; every character comes from the text or from number-to-string |
| Operations.ReplaceMatch | utils.js:132-140 | the match is replaced by `getResult` of its groups, with the text before and after it kept; it fails exactly when the operator is `/` and the third group reads as zero, and then with division by zero |
| Operations.NegAtSound | utils.js:126 | a negative number the scanner reads at a position is a match of the negative-number pattern there |
| Operations.NegAtComplete | utils.js:126 | wherever the negative-number pattern can match at a position, the scanner finds a match there reaching at least as far, so the global search resumes where the matcher would |
| Operations.NegCountFrom | utils.js:126 | the global negative-number pattern never matches more often than there are minus signs |
| Operations.DoubleNeg | utils.js:149-155 | a whole-text double negative `- -N` becomes `N`; any other text stays |
| Operations.DoubleNegResult | utils.js:149-158 | a collapsed double negative is a bare number, with no operator and no negative number left |
| Operations.DoOperation | utils.js:109-174 | on success every operator of the class left is the sign of a negative number; a failure of the leftmost operation is the failure of the whole; the only failures are division by zero and running out of stack; text with no operator of the class comes back unchanged |
| Operations.NoOperatorNoMatch | utils.js:142-143 | with no operator character of the class, the pattern matches nowhere |
| Operations.EvaluateSimpleExpression | utils.js:187-199 | the result holds no `*` or `/`, and every `+` or `-` left is a sign; its characters come from the input; the only failures are division by zero and stack overflow; text with no operator comes back unchanged |
| Operations.NoProductsLeft | utils.js:193-195 | the additive pass cannot bring back a `*` or `/` that the multiplicative pass removed |
| SingleOperation.BinaryMatchAt | utils.js:132-134 | in `a op b` the pattern matches the whole text, with the two numbers and the operator as its groups |
| SingleOperation.BinaryStepText | utils.js:132-140 | one round on `a op b` leaves exactly what `calc` makes of the two numbers, written as text, or fails with its error |
| SingleOperation.DoOperationToNumber | utils.js:161-171 | a round that leaves a signed number ends the recursion |
| SingleOperation.DoOperationOfNumber | utils.js:161-167 | a lone signed number is returned unchanged |
| SingleOperation.DoOperationBinary | utils.js:109-174 | `doOperation` on two integers around one operator of its class computes the operation and writes the result |
| SingleOperation.EvaluateSimpleBinary | utils.js:187-199 | `evaluateSimpleExpression` on two integers around any one operator gives that operation's value, or its error |
| SingleOperation.EvaluateSimplePasses | utils.js:193-195 | the additive pass runs on what the multiplicative pass leaves |
| SingleOperation.EvaluateSimpleFails | utils.js:193-195 | a failure of the multiplicative pass is the failure of the whole |
| SingleOperation.DoubleMinusOperation | utils.js:145-159 | the additive pass on `--6` finds nothing to compute, collapses the double negative and stops with `6` |
| SingleOperation.DoubleMinusExample | utils.js:187-199 | `evaluateSimpleExpression` turns `--6` into `6` |
| Parens.ParensStep | utils.js:216-258 | with no `(`, the text is the result, or mismatched when it holds a `)`; with no `)` after the last `(`, mismatched; a round that goes on leaves fewer `(`; a round that ends well returns the text unchanged and free of parentheses |
| Parens.ParensStepGroup | utils.js:236-258 | when the last `(` is followed by a `)`, the text between them is evaluated: its error is the round's result, or its value replaces the group with both parentheses |
| Parens.GroupRound | utils.js:244-258 | a group whose value is computed is replaced by that value, parentheses included, leaving fewer `(`; a failing group's error is the round's result |
| Parens.ParensRounds | utils.js:216-259 | for any evaluator that draws its value's characters from the group, the rounds end in text with no parentheses, or in mismatched parentheses or an arithmetic error; text without parentheses is returned unchanged |
| Parens.EvaluateParens | utils.js:216-259 | `evaluateParens` with `evaluateSimpleExpression` on each group: no parenthesis is left on success; text without parentheses is returned unchanged |
| Parens.UnclosedUnbalanced | utils.js:236-241 | a last `(` with no later `)` means the text is not balanced |
| Parens.StepWalk | utils.js:216-258 | a round preserves balance as measured by the running nesting depth, and reports mismatched parentheses only on unbalanced text |
| Parens.ParensOkBalanced | utils.js:225-241 | whenever `evaluateParens` succeeds, every `)` closed an earlier `(` and every `(` was closed |
| Parens.ParensMismatchUnbalanced | utils.js:225-241 | `evaluateParens` reports mismatched parentheses only for text that is not balanced |
| Parens.ParensChars | utils.js:245-258 | every character of the result comes from the text or from number-to-string |
| Validation.FindRunMeans | utils.js:385 | the greedy scan for `head, run, tail` finds a match exactly when the pattern matches somewhere, given that the tail cannot start inside the run |
| Validation.LoneNegativeMeans | utils.js:356 | the lone-negative test holds exactly for a minus sign followed by a decimal or a fraction, and nothing else |
| Validation.LoneNegativeValueWider | utils.js:447 | every lone negative of `evaluateExpression` is one for `evaluateEquation`, and `-1.2.3` is one only for the latter |
| Validation.VarNameMeans | utils.js:362 | the adjacency scan holds exactly when `[a-zA-Z\d.]+[a-zA-Z]` or `[a-zA-Z][a-zA-Z\d.]+` matches somewhere |
| Validation.NumFormatMeans | utils.js:385 | the scan holds exactly when a dot is followed by a forbidden character or the end, or when a dot and digits are followed by another dot |
| Validation.MissingOperatorMeans | utils.js:390 | the scan holds exactly when one of the three missing-operator patterns matches somewhere |
| Validation.AdjacentOperatorsMeans | utils.js:396 | the scan holds exactly when an operator is followed, after spaces, by `*`, `/`, `+`, or a minus sign not starting a number |
| Validation.CheckSyntax | utils.js:372-404 | the checks run in the source's order, and the first that fails names the error; there is no error exactly when every check passes |
| Validation.MissingOperatorExample | spec/utilsSpec.js:229 | `1 1` is refused for a missing operator |
| Variables.SetVariable | utils.js:274-287 | a name that is not one ASCII letter is refused first; then a value that is not a number; on success only that account's entry for that name changes |
| Variables.GetVariable | utils.js:302-317 | a lookup succeeds exactly when the account has that name, and returns the stored value; otherwise the variable is undefined |
| Variables.DeleteVariables | utils.js:326-329 | the account is gone, every other account is unchanged, and the answer is true whether or not the account existed |
| Variables.GetAfterSet | utils.js:274-317 | a value that is set is read back by a lookup |
| Variables.SetIsolation | utils.js:282-285 | setting one pair leaves every lookup of every other pair unchanged, across accounts and across names |
| Variables.DeleteIsolation | utils.js:326-329 | after a delete, all of the account's names are undefined and other accounts' lookups are unchanged |
| Variables.SetKeepsWellFormed | utils.js:277-285 | only single letters ever become names |
| Variables.TwoAccountsExample | spec/utilsSpec.js:181-186 | two accounts keep separate values for the same name, and deleting one leaves the other |
| Evaluator.SubstituteInOrderIs | utils.js:367-370 | replacing distinct names one after another substitutes exactly those names, because number-to-string as modelled writes no letter |
| Evaluator.SubstituteAnyOrder | utils.js:367-370 | the source's name-by-name replacement, in any order of the account's names, equals the per-character substitution |
| Evaluator.SubstituteRemovesNames | utils.js:367-370 | no defined name is left after substitution, and every other character of the text survives |
| Evaluator.Compute | utils.js:406-412 | after the parentheses and the simple evaluation, no `*` or `/` is left and every `+` or `-` is a sign; the failures are mismatched parentheses, division by zero and stack overflow |
| Evaluator.ComputeChars | utils.js:406-412 | the computed value holds no parenthesis, and its characters come from the text or from number-to-string |
| Evaluator.EvaluateExpression | utils.js:349-416 | a lone negative is refused before anything else, and a name longer than a letter next; after that the first failing check on the substituted text, in the source's order, is the error, and with none failing the result is that text computed; a syntax error means some check failed, and any other error is an arithmetic one |
| Evaluator.UndefinedIsInvalidChar | utils.js:367-377 | a letter that names no variable survives substitution and is refused as an invalid character, so an undefined variable is never reported |
| Evaluator.ChecksBeforeSubstitution | utils.js:353-364 | the two checks before substitution decide alone, whatever the variables |
| Evaluator.LoneNegativeExample | spec/utilsSpec.js:253 | `-6` alone is refused for a missing operator |
| Evaluator.LongNameExample | spec/utilsSpec.js:214 | `abc + 1` is refused for an invalid variable name |
| Evaluator.SplitEquation | utils.js:440-442 | the first two parts of `split('=')`: the text before the first `=`, and the text up to the next `=` or the end; absent exactly when there is no `=` |
| Evaluator.ParseValue | utils.js:453 | `parseFloat`'s answer as a value: a number exactly when `parseFloat` reads one, NaN otherwise |
| Evaluator.Assign | utils.js:453-458 | storing succeeds exactly for a one-letter name and a value `parseFloat` reads; a bad name is reported before a bad value; the stored value is read back, and the reply is `name = value` |
| Evaluator.EvaluateEquation | utils.js:439-459 | text without `=` fails; on success the name is one letter, it is now defined, and the reply is `name = ` followed by its stored value |
| Evaluator.EquationIsolation | utils.js:456 | an equation changes at most the variable it names and nothing of any other account |
| Evaluator.EquationErrors | utils.js:429-438 | an equation never fails with an undefined variable or with an operand that is not a number |
| Evaluator.EquationPlainValue | utils.js:444-458 | a value with no operator, or a lone negative, is stored as `parseFloat` reads it, without evaluation |
| Evaluator.EquationEvaluatesFirst | utils.js:444-458 | a value that is an expression is evaluated first: its error is the equation's error, even when the name is also bad |
| ExpressionExamples.DoubleMinusExpression | spec/utilsSpec.js:259 | `--6` passes every check and evaluates to `6` |
| ExpressionExamples.TripleMinusExpression | spec/utilsSpec.js:260 | `---6` is refused for a misplaced operator |
| ExpressionExamples.NegativeSumExpression | spec/utilsSpec.js:254 | `-6 + 1` passes every check and evaluates to `-5` |
| ExpressionExamples.NegatedDoubleMinusExpression | spec/utilsSpec.js:261 | `-(--6)` evaluates to `-6` |
| ExpressionExamples.NegatedDifferenceExpression | spec/utilsSpec.js:262 | `-(-3 - -5)` evaluates to `-2` |
| Command.KeywordLetters | command.js:31-38 | a text that lower-cases to a keyword is all letters, so it holds no `=` and no operator |
| Command.RouteMeans | command.js:31-62 | despite the keyword tests coming first, a text is an equation exactly when it holds `=`, an expression exactly when it has an operator and no `=`, a lookup exactly when it is one letter, and otherwise unrecognized |
| Command.Execute | command.js:19-73 | a bare number is returned exactly for a defined one-letter name, and it is the stored value; without `=` the store never changes |
| Command.KeywordReplies | command.js:28-48 | `hello`, `author` and `help` are answered whatever their letter case and surrounding whitespace, and change nothing |
| Command.EquationRoute | command.js:51-52 | a line with `=` goes to `evaluateEquation` even when it also has operators; its error becomes text and leaves the store unchanged |
| Command.ExpressionRoute | command.js:53-54 | a line with an operator and no `=` goes to `evaluateExpression` over the account's variables; its error becomes text |
| Command.OtherRoute | command.js:57-58 | anything else is answered with exactly `Error: Unrecognized command` |
| Command.UndefinedLookup | command.js:55-56 | a single letter that is not set reads as the undefined-variable message |
| Command.AccountIsolation | command.js:19-73 | no command of one account changes anything stored for another |
| Command.TrimExample | command.js:28 | `  HeLLo ` trims to `HeLLo` |
| Command.HelloExample | spec/commandSpec.js:9-11 | a line that trims to `HeLLo` is answered `world` |
| Command.UnknownExample | spec/commandSpec.js:21-23 | `fakecommand` is answered with the unrecognized-command error |
| Command.HelpHeading | spec/commandSpec.js:17-19 | the help text opens with its `Commands:` heading |

## Left out

- Logging. `console.log` in `deleteVariables` and `console.error` in `execute` are side effects only. `execute`'s `logErrors` parameter only switches them on and off.
- app.js, cli.js and Gruntfile.js are not part of this model. They hold the XMPP client, the terminal loop and the build.
- The `NODE_ENV === 'test'` export block at utils.js:465-476 is a test hook.
- Numbers.ParseFloat: values are exact reals. The literal `Infinity` and overflow to infinity are not modelled, so `x = Infinity`, which the source stores, is refused here as not a number.
- Numbers.Show: writes exact decimals, truncating a non-terminating expansion after 20 fractional digits. It does not reproduce IEEE-754 rounding or the exponent notation number-to-string uses for very large or very small values, and results differ where that notation appears. On `1 / 10000000` the source's multiplicative pass leaves `1e-7`; the additive pass then finds no operation, counts one `-` and no negative number, and recurses until a `RangeError`. The model answers `0.0000001`.
- Evaluator.SubstituteAnyOrder: order independence holds for the values `Show` writes, which hold no letter. In the source a value of 1e21 or more is written as `1e+21`, and its `e` can be replaced later. With `a = 1e21` and `e = 5` set in that order, `a + e` becomes `1e+21 + e` and then `15+21 + 5`, which is 41.
- Arithmetic.Calc: computes over the reals, not in double precision. The source's floating-point tests only ask for closeness.
- Operations.DoOperation: `fuel` stands for the engine's call stack. Its depth, 10000 rounds per pass (`StackLimit`), is a stand-in for a limit the engine does not fix.
- Parens.ParensRounds: the source recurses once per group. The model stops when no `(` is left and needs no stack limit, so the engine running out of stack during a very deep nesting is not modelled.
- Chars.LowerEquals: lowers ASCII letters only. For the three keywords this is exact, since no other character lower-cases to a letter of `hello`, `author` or `help` as a single character.
- Variables.Store: an account whose name is an inherited property of a plain JavaScript object, such as `__proto__`, is treated like any other name.
- Results.Message: the text for `NoRightSide`, a line with `=` that `split` leaves without a second part, is the engine's message for reading a property of `undefined`. Its wording depends on the engine version.
- Evaluator.EvaluateExpression: `output || ''` at utils.js:415 is the identity on strings and is not modelled separately.
- The concrete multi-step examples of the tests are not proved. Examples are `doOperation('3 - 5 + 4 - 8 * 5', '-')` and `evaluateParens('4 * (7 - (4 / 2)) * 2')`. Evaluating them symbolically is beyond a reasonable solver budget. In their place the model proves the two-operand case for all integers (`SingleOperation.EvaluateSimpleBinary`). It also proves the unary-minus examples, which need at most one operation and one group (`ExpressionExamples`).

The documentation and the code disagree in one place, and the model follows the code. The comment above `evaluateExpression` lists "Variable is not defined" among its errors. The code never raises it: it only substitutes names that are defined, and any letter left over fails the character check. `Evaluator.UndefinedIsInvalidChar` proves this.
