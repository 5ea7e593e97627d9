# MathParser in Dafny

A model of the three expression converters and evaluators of MathParser, with proofs
about them. Each converter turns an infix text into postfix with a shunting-yard scan,
and each evaluator runs the postfix on a value stack.

- **`Expression`** (Expression.cs, with the tokens of ParserTokens.cs) is the final
  design.
  - `Parse` makes one scan over the text.
  - The scan tracks the class of the last lexeme (`TokenType`), a token buffer and an
    operator stack.
  - It emits constants, interned variables and binary operators. The ranks are
    `+ -` 1, `* /` 2 and `^` 3.
  - `Evaluate` runs the postfix list.
  - `SetValue`, `SetValues` and `GetValue` maintain a registry from names to
    variables.
- **`Parser`** (Parser.cs) is a char-level converter.
  - Operands are single letters, and they are upper-cased.
  - Operators are `+-*/`.
  - An operator that ends the text or is followed by an operator is an
    "unexpected operator".
- **The nested `Parser`** of Program.cs is the earlier char-level version.
  - It has a `caseSensitive` flag.
  - It has no unexpected-operator check.
  - Its evaluator has no finiteness check.

The exceptions of Exceptions.cs, and the nested copies in Parser.cs and Program.cs, are
one `Error` datatype. It keeps the fields each exception records.

## Modules

- `Wrappers`: `Option` and `Result`, plus `Num`, which is a double as far as the parsers
  care: a finite value, or non-finite (an infinity or NaN).
- `Errors`: the exception taxonomy and the constructors' field rules.
- `Chars`: the ASCII character classes, and the sequence helpers shared by all three
  versions.
- `ParserTokens`: `ParserToken`, `Variable`, `Constant` and `BinaryOperator`.
- `Expressions`: the `Expression` class.
  - The registry, `pushOperand` and the two stack loops.
  - `Parse` as a left fold of `Step` over the text (`Loop`), then the final loop
    (`Drain`).
  - `Evaluate`.
- `ExpressionSyntax`: which texts `Parse` accepts, stated from the text alone.
  - `WellFormed`: every character is admissible after the class of the lexeme before
    it, and the brackets balance.
  - The theorems say that `Parse` succeeds exactly on well-formed texts, and which
    exception it raises otherwise.
- `ExpressionOutput`: what a successful `Parse` emits.
  - The operands of the text, in input order.
  - Each operator character of the text, once.
- `ExpressionEval`: expression trees as the reference for `Evaluate`. Running a tree's
  postorder computes the tree's value.
- `ExpressionGrouping`: on a chain of one-character operands and operators, `Parse`
  emits the postorder of the reference grouping, so it groups by precedence and to the
  left.
- `CharStacks`: the stack loops shared by the two char-level versions, and the `Tally`
  invariant of their scans.
- `CharTrees`: trees over single letters, the reference for the char-level evaluators.
  - `Grouped` is the reference grouping of a chain `x0 o1 x1 ... ok xk`: each operator
    is inserted on the right spine below every operator of lower rank, so higher ranks
    bind tighter and equal ranks group to the left.
- `CharParser`: the `Parser` of Parser.cs.
  - `Fault` says from the text alone which exception the character at `i` raises.
  - The theorems relate `ToPostfix` to it.
- `EarlyParser`: the nested `Parser` of Program.cs, with the same theorems.
  - It also proves that where the Parser.cs version succeeds, this one (not
    case-sensitive) produces the same postfix.
  - It also proves that with every variable defined, its evaluator gives the same value
    where the Parser.cs version succeeds. Where that version raises `MathException`,
    this one gives a non-finite value in the model, where a non-finite operand always
    gives a non-finite result; with IEEE doubles a later division by the infinity can
    give 0 instead (see "Left out").
- `ExpressionExamples`, `CharParserExamples` and `EarlyParserExamples`: worked cases
  that pin the quirks of each version.

Design decisions:
- Doubles are `real`.
  - `+ - *` are exact.
  - Division by zero is the only non-finite result of the four basic operators.
  - `Math.Pow` is a parameter `pow`, because its code is not visible.
- The `NaN` a `Variable` holds when undefined is `Option.None`.
- `Stack.Pop` on an empty stack is the `EmptyStack` error, standing for
  `InvalidOperationException`.
- The `ArgumentException` of `SelectOperator` is `UnknownOperator`.
- `Parse` mutates the object's fields before it throws. The model therefore returns the
  updated `Expression` together with the result, on failure too.

## Model

| member | source | states |
|---|---|---|
| Errors.WrongSymbolOf | MathParser/Exceptions.cs:48-53 | the position is the first index of the failed character, or -1 exactly when it does not occur |
| Errors.IndexOf | MathParser/Exceptions.cs:51 | `string.IndexOf`: -1 exactly when absent, otherwise an index holding the character with no earlier occurrence |
| Errors.WrongSymbolFormsAgree | MathParser/Exceptions.cs:41-53 | the two constructors give the same exception exactly when the character does not occur before the position |
| Chars.Upper | MathParser/ParserTokens.cs:15 | upper-casing keeps the length and upper-cases each character in place |
| ParserTokens.OperatorOrder | MathParser/ParserTokens.cs:69-78 | every operator ranks 1 to 3: only `^` ranks 3, only `+` and `-` rank 1 |
| ParserTokens.SelectOperator | MathParser/ParserTokens.cs:58-66 | succeeds exactly on the five operator characters, returning the operator with that symbol; anything else is the `ArgumentException` |
| ParserTokens.SelectSymbol | MathParser/ParserTokens.cs:58-78 | `SelectOperator` inverts the operator's symbol |
| ParserTokens.Apply | MathParser/ParserTokens.cs:50 | for every operator except `^`, the result is non-finite exactly on division by zero; `+ - * /` compute `left` op `right`, checked through their inverses (which give `left` back), and a product by zero is 0 |
| ParserTokens.TextIsUpper | MathParser/ParserTokens.cs:13-15 | every token's text is upper-case |
| ParserTokens.MarkerRanksBelowOperators | MathParser/ParserTokens.cs:13-18 | a plain `ParserToken` such as the `(` marker ranks below every operator and is not executable |
| Expressions.GetValue | MathParser/Expression.cs:98-101 | looks the raw name up, without upper-casing it; its partner is `SetThenGet`: it reads back what `SetValue` stored under the upper-cased name, and every other name as before |
| Expressions.SetThenGet | MathParser/Expression.cs:98-117 | `GetValue` of the upper-cased name returns what `SetValue` stored; every other name reads as before |
| Expressions.SetThenEval | MathParser/ParserTokens.cs:24-25 | after a `SetValue`, a registered variable fails to evaluate exactly when `GetValue` finds no value for it (for another name, exactly when it found none before), and otherwise yields the stored value |
| Expressions.SetValue | MathParser/Expression.cs:110-117 | adds the upper-cased name to the registry with the value, changes no other entry and leaves text and postfix alone |
| Expressions.SetValues | MathParser/Expression.cs:118-122 | only the first min(len) pairs are applied; the last pair for a name wins; other entries are unchanged |
| Expressions.SetValuesTo | MathParser/Expression.cs:123-127 | every given name is set to the value; other entries are unchanged |
| Expressions.PushOperand | MathParser/Expression.cs:147-164 | emits at most one token, a constant or a variable interned under its raw text, exactly when an operand is pending; the registry only gains undefined entries |
| Expressions.PopToOpen | MathParser/Expression.cs:204-205 | pops to the nearest `(`, emitting the popped tokens in pop order; what remains is empty or ends at a `(` |
| Expressions.PopHigher | MathParser/Expression.cs:220-225 | pops every token whose order is at least the operator's; what remains has a lower-ranked top |
| Expressions.Parse | MathParser/Expression.cs:135-243 | records the text, only appends to the postfix, only adds undefined registry entries, keeps the class invariant, and on failure raises only a wrong symbol in the text, a bracket mismatch or an unknown operator |
| Expressions.Create | MathParser/Expression.cs:87-92 | a new expression satisfies the invariant; without parsing it has no tokens or variables |
| Expressions.StepOk | MathParser/Expression.cs:166-229 | one character keeps the scan's invariant: postfix extended with valid tokens, registry grown, stack of markers and operators |
| Expressions.LoopOk | MathParser/Expression.cs:166-230 | the whole loop keeps that invariant, and its exceptions are parse errors |
| Expressions.DrainOk | MathParser/Expression.cs:234-241 | the final loop keeps it too |
| Expressions.EvalFrom | MathParser/Expression.cs:255-272 | on success the stack grows by the postfix's operand count minus its operator count; failures are a math error, an underflow or an undefined variable |
| Expressions.Evaluate | MathParser/Expression.cs:251-276 | succeeds only when the postfix leaves exactly one value; the wrong-form exception is raised only when it does not |
| Expressions.EvaluateText | MathParser/Expression.cs:245-249 | parses first, and a parse exception is what it raises |
| ExpressionSyntax.StepMatches | MathParser/Expression.cs:166-229 | one scan step succeeds exactly when the character is admissible after the lexeme before it, and keeps the scan in step with the text |
| ExpressionSyntax.LoopMatches | MathParser/Expression.cs:166-230 | the loop runs exactly as long as the prefix read is well-formed so far |
| ExpressionSyntax.DrainIff | MathParser/Expression.cs:234-241 | the final loop succeeds exactly when no `(` is left, and otherwise raises the bracket mismatch |
| ExpressionSyntax.ParseSucceedsIff | MathParser/Expression.cs:166-241 | `Parse` succeeds exactly on well-formed texts |
| ExpressionSyntax.ForbiddenRejected | MathParser/Expression.cs:170-229 | the first forbidden adjacency raises `WrongSymbolException` at its index |
| ExpressionSyntax.UnopenedCloseRejected | MathParser/Expression.cs:203-208 | an admissible `)` with no open bracket before it raises the bracket mismatch |
| ExpressionSyntax.UnclosedOpenRejected | MathParser/Expression.cs:232-239 | a text whose characters are all accepted but that leaves a `(` open raises the bracket mismatch |
| ExpressionSyntax.WrongSymbolIsFirstFault | MathParser/Expression.cs:166-229 | a `WrongSymbolException` names a character of the text, the first one that sits in a forbidden adjacency |
| ExpressionOutput.FinishOperands | MathParser/Expression.cs:147-164 | the operands emitted are those of the text in input order, after the earlier ones |
| ExpressionOutput.FinishOps | MathParser/Expression.cs:214-237 | every operator character of the text is emitted exactly once |
| ExpressionOutput.ParseOutput | MathParser/Expression.cs:141-243 | on success the postfix gains the text's operands in order and exactly its operator characters, and nothing else |
| ExpressionEval.PostorderOk | MathParser/Expression.cs:255-272 | a tree's postorder is runnable and leaves exactly one value |
| ExpressionEval.EvalPostorder | MathParser/Expression.cs:255-272 | running a tree's postorder pushes the tree's value, computed left then right then operator, or raises that evaluation's exception |
| ExpressionEval.EvaluateTerm | MathParser/Expression.cs:251-276 | `Evaluate` on a tree's postorder is the tree's value |
| ExpressionGrouping.ParseGrouped | MathParser/Expression.cs:166-243 | on a chain of one-character operands (digits or letters) and the five operator characters, `Parse` succeeds and appends exactly the postorder of the reference grouping: higher ranks bind tighter, and equal ranks, `^` included, group to the left |
| ExpressionGrouping.CreateValue | MathParser/Expression.cs:251-276 | on such a chain, an expression created and parsed from it evaluates to the value of the reference grouping |
| ExpressionExamples.LeftAssociative | MathParser/Expression.cs:218-226 | `a-b-c` parses to `a b - c -` |
| ExpressionExamples.Precedence | MathParser/Expression.cs:218-226 | `2+3*4` parses to `2 3 4 * +` |
| ExpressionExamples.PrecedenceValue | MathParser/Expression.cs:251-276 | and evaluates to 14 |
| ExpressionExamples.BlanksJoinTokens | MathParser/Expression.cs:168-177 | blanks do not end a token: `1 2` is the constant 12 |
| ExpressionExamples.TrailingOperator | MathParser/Expression.cs:214-242 | `1+` parses, and its evaluation underflows the value stack |
| ExpressionExamples.NoUnaryMinus | MathParser/Expression.cs:214-229 | a leading `-` is a wrong symbol at index 0 |
| ExpressionExamples.NoImplicitProduct | MathParser/Expression.cs:180-183 | a letter right after a number is a wrong symbol |
| ExpressionExamples.NoDecimalPoint | MathParser/ParserTokens.cs:58-66 | `.` reaches `SelectOperator` and is the `ArgumentException` |
| ExpressionExamples.PostfixNotCleared | MathParser/Expression.cs:135-151 | a second parse appends to the tokens of the first |
| ExpressionExamples.LowerCaseNameStaysUndefined | MathParser/Expression.cs:110-161 | `SetValue("a")` defines `A`, while `Parse("a")` registered `a`, so `a` stays undefined |
| ExpressionExamples.UpperCaseNameIsFound | MathParser/Expression.cs:110-161 | with an upper-case name the two agree |
| CharStacks.PopToOpen | MathParser/Parser.cs:114-115 | pops to the nearest `(`, emitting what it pops in pop order |
| CharStacks.PopWhile | MathParser/Parser.cs:127-131 | pops while the incoming rank is at most the top's order; emits what it pops, never a bracket |
| CharStacks.Drain | MathParser/Parser.cs:137-143 | succeeds exactly when no bracket is left, emitting the stack top first; otherwise the bracket mismatch |
| CharStacks.OperatorPushed | MathParser/Parser.cs:127-132 | the operator loop and the push keep the tally of brackets, letters and operator characters |
| CharStacks.CloseTally | MathParser/Parser.cs:112-119 | closing a bracket keeps the tally |
| CharStacks.DrainTally | MathParser/Parser.cs:137-143 | the final loop succeeds exactly when the brackets balance, and then outputs the text's letters and operator characters and no bracket |
| CharStacks.PopWhileOrders | MathParser/Program.cs:259-263 | the operator loop depends on the order of stacked characters only |
| CharStacks.PopWhileRising | MathParser/Parser.cs:127-131 | on a stack whose orders rise from the bottom, the loop pops exactly the top run ranked at least the incoming operator, emitting it top first |
| CharTrees.GroupedReadsBack | MathParser/Parser.cs:127-132 | the reference grouping of a chain reads back as the chain, and every operator's left operand holds only operators of at least its rank and its right operand only operators of higher rank |
| CharTrees.GroupedUnique | MathParser/Parser.cs:127-132 | every tree with that binding is the reference grouping of its own reading |
| CharTrees.LeftOperandIsAll | MathParser/Parser.cs:127-131 | an operator ranked no higher than every earlier operator takes the whole chain before it as its left operand |
| CharParser.GetOrder | MathParser/Parser.cs:80-86 | -1 exactly off the five operator characters; on them, the rank of the corresponding `BinaryOperator` |
| CharParser.Fault | MathParser/Parser.cs:96-135 | every exception the scan raises keeps the expression |
| CharParser.StepAgrees | MathParser/Parser.cs:96-135 | one step raises exactly the exception `Fault` names, and otherwise keeps the tally |
| CharParser.LoopAgrees | MathParser/Parser.cs:94-136 | the loop runs exactly while no character has raised anything, and stops with the first such character's exception |
| CharParser.ToPostfix | MathParser/Parser.cs:89-145 | the scan followed by the final loop; its contract is carried by `ToPostfixSucceedsIff` (succeeds exactly on fault-free balanced texts), `FailsAtFirstFault` (the first faulty character decides the exception) and `ToPostfixGrouped` (on a chain, the postorder of the reference grouping) |
| CharParser.ToPostfixSucceedsIff | MathParser/Parser.cs:89-145 | `ToPostfix` succeeds exactly when no character raises anything and the brackets balance |
| CharParser.FailsAtFirstFault | MathParser/Parser.cs:89-145 | the first faulty character decides the exception |
| CharParser.UnclosedRejected | MathParser/Parser.cs:137-143 | an open bracket left at the end is the mismatch |
| CharParser.ToPostfixOutput | MathParser/Parser.cs:104-140 | on success the output is the text's letters upper-cased in order, each operator character once, and no bracket |
| CharParser.ToPostfixGrouped | MathParser/Parser.cs:94-140 | on every chain of single letters and `+-*/`, `ToPostfix` succeeds with the postorder of the reference grouping of the upper-cased chain |
| CharParser.ToPostfixValue | MathParser/Parser.cs:213-240 | on such a chain, evaluating the postfix gives the value of the reference grouping |
| CharParser.ToPostfixErrors | MathParser/Parser.cs:89-145 | every exception `ToPostfix` raises is a parsing exception about the given text |
| CharParser.Execute | MathParser/Parser.cs:275-283 | the five operators compute what `BinaryOperator` computes; any other character is an unknown operation |
| CharParser.EvalFrom | MathParser/Parser.cs:217-238 | its exceptions are evaluating exceptions or an underflow |
| CharParser.Evaluate | MathParser/Parser.cs:213-240 | its exceptions are evaluating exceptions or an underflow |
| CharParser.EvalPostorder | MathParser/Parser.cs:217-238 | running a tree's postorder pushes the tree's value, or raises that evaluation's exception, `MathException` on a non-finite step |
| CharParser.EvalAppend | MathParser/Parser.cs:217-238 | running two lists in a row is running the second from the stack the first leaves |
| CharParser.EvaluateTree | MathParser/Parser.cs:213-240 | `Evaluate` on a tree's postorder is the tree's value |
| CharParser.EvaluateReturnsTop | MathParser/Parser.cs:239 | whatever an evaluable prefix leaves below, the result is the value of the last tree: the stack size is not checked |
| CharParserExamples.LeftAssociative | MathParser/Parser.cs:127-131 | `a-b-c` becomes `AB-C-` |
| CharParserExamples.Precedence | MathParser/Parser.cs:127-132 | `a+b*c` becomes `ABC*+` |
| CharParserExamples.BlanksAndBrackets | MathParser/Parser.cs:96-119 | `(a) b` becomes `AB` |
| CharParserExamples.CaretRejected | MathParser/Parser.cs:78-135 | `^` has an order but is not in `Operators`: a wrong symbol |
| CharParserExamples.TwoLetterName | MathParser/Parser.cs:101-102 | `ab` is rejected at index 0 |
| CharParserExamples.TrailingOperator | MathParser/Parser.cs:124-125 | `a+` is an unexpected operator at index 1 |
| CharParserExamples.NoUnaryMinus | MathParser/Parser.cs:124-125 | `a*-b` is an unexpected operator at index 1 |
| CharParserExamples.StrayClose | MathParser/Parser.cs:117-118 | `)a` is the bracket mismatch, without a position |
| CharParserExamples.UnclosedBracket | MathParser/Parser.cs:137-143 | `(a` is the bracket mismatch |
| CharParserExamples.LeftAssociativeValue | MathParser/Parser.cs:226-234 | `AB-C-` with 5, 3, 1 is 1 |
| CharParserExamples.LowerCaseKeyNotFound | MathParser/Parser.cs:219-223 | a lower-case key never matches the upper-cased output |
| CharParserExamples.LeftoverIgnored | MathParser/Parser.cs:239 | `AB` evaluates to B |
| CharParserExamples.DivisionByZero | MathParser/Parser.cs:231-232 | `AB/` with B = 0 is a `MathException` with the operands and the operator |
| EarlyParser.GetOrder | MathParser/Program.cs:216-221 | -1 exactly off `+-*/`; on them, the rank of the corresponding `BinaryOperator` |
| EarlyParser.StepAgrees | MathParser/Program.cs:231-267 | one step raises exactly the exception `Fault` names (no operator ever does), and otherwise keeps the tally |
| EarlyParser.LoopAgrees | MathParser/Program.cs:229-268 | the loop runs exactly while no character has raised anything, and stops with the first such exception |
| EarlyParser.ToPostfix | MathParser/Program.cs:224-277 | the scan followed by the final loop; its contract is carried by `ToPostfixSucceedsIff` (succeeds exactly on fault-free balanced texts), `FailsAtFirstFault` (the first faulty character decides the exception) and `ToPostfixGrouped` (on a chain, the postorder of the reference grouping, case kept per `caseSensitive`) |
| EarlyParser.ToPostfixSucceedsIff | MathParser/Program.cs:224-277 | `ToPostfix` succeeds exactly when no character raises anything and the brackets balance |
| EarlyParser.FailsAtFirstFault | MathParser/Program.cs:224-277 | the first faulty character decides the exception |
| EarlyParser.UnclosedRejected | MathParser/Program.cs:269-275 | an open bracket left at the end is the mismatch |
| EarlyParser.ToPostfixOutput | MathParser/Program.cs:239-272 | on success the output is the text's letters in order, upper-cased unless `caseSensitive`, each operator character once, and no bracket |
| EarlyParser.ToPostfixGrouped | MathParser/Program.cs:229-272 | on every chain of single letters and `+-*/`, `ToPostfix` succeeds with the postorder of the reference grouping of the chain as emitted (upper-cased unless `caseSensitive`) |
| EarlyParser.ToPostfixValue | MathParser/Program.cs:342-365 | on such a chain, evaluating the postfix gives the value of the reference grouping |
| EarlyParser.AgreesWithParser | MathParser/Program.cs:224-277 | wherever the Parser.cs version succeeds, this one without `caseSensitive` gives the same postfix |
| EarlyParser.Execute | MathParser/Program.cs:397-404 | defined exactly on `+-*/`, otherwise the unknown-operation exception; a non-finite operand gives a non-finite result |
| EarlyParser.ExecuteAgrees | MathParser/Program.cs:397-404 | on finite operands it computes what `BinaryOperator` and the Parser.cs `Execute` compute |
| EarlyParser.EvalFrom | MathParser/Program.cs:346-363 | its exceptions are evaluating exceptions or an underflow, never `MathException` |
| EarlyParser.Evaluate | MathParser/Program.cs:342-365 | the same: there is no finiteness check |
| EarlyParser.EvalPostorder | MathParser/Program.cs:346-363 | running a tree's postorder pushes the tree's value |
| EarlyParser.EvalAppend | MathParser/Program.cs:346-363 | running two lists in a row is running the second from the stack the first leaves |
| EarlyParser.EvaluateTree | MathParser/Program.cs:342-365 | `Evaluate` on a tree's postorder is the tree's value |
| EarlyParser.EvaluateReturnsTop | MathParser/Program.cs:364 | the result is the top value, whatever lies below it |
| EarlyParser.TreeValuesAgree | MathParser/Program.cs:355-359 | with every variable defined, the value is the Parser.cs value where that succeeds, and non-finite (in the model's arithmetic) where that raises `MathException` |
| EarlyParserExamples.TrailingOperator | MathParser/Program.cs:257-265 | `a+` is accepted as `A+` |
| EarlyParserExamples.CaseKept | MathParser/Program.cs:239 | with `caseSensitive`, `a` stays `a` |
| EarlyParserExamples.OperatorsInARow | MathParser/Program.cs:257-265 | `a*-b` is accepted as `A*B-` |
| EarlyParserExamples.OperatorsInARowEvaluate | MathParser/Program.cs:357-358 | and its evaluation underflows |
| EarlyParserExamples.DivisionByZero | MathParser/Program.cs:355-359 | `AB/` with B = 0 is an infinity, not an exception |
| EarlyParserExamples.InfinityCarried | MathParser/Program.cs:355-359 | which the later operations carry along |

## Left out

- The console program is not modelled: `Program.Main`, `SetVariables` and
  `DictToString` read input, write output and move the cursor.
- The verbose variants are not modelled: `ToPostfixVerbose`, `EvaluateVerbose` and the
  `Verbose` lines of `Expression` only add logging. The Parser.cs verbose converter also
  moves its operator check inside the pop loop; that variant is not modelled either.
- `PrintVariables`, `ToString`, `Infix` and `Postfix` are display text and are not
  modelled.
- The exception messages are not modelled; only the fields each exception records are.
- `SetValues(Dictionary)` is not modelled. A `Dictionary`'s iteration order is
  unspecified, and it decides which value wins when two keys differ only in case.
- IEEE-754 doubles are not modelled: values are reals, and `double.IsFinite` is the
  `Finite` constructor.
- `ParserTokens.Apply`: `^` is `Math.Pow`, a parameter the model cannot see into, so
  nothing is stated about its finiteness.
- `ExpressionOutput.ParseOutput`: the grouping (precedence and left association) is
  proved by `ExpressionGrouping.ParseGrouped` only for chains of one-character operands
  and operators. With brackets, blanks or longer operands the output is stated as the
  operands in order plus each operator once, and the grouping only by examples.
- `CharParser.ToPostfixOutput`: the grouping is proved by `CharParser.ToPostfixGrouped`
  only for chains without brackets or blanks; with them it is shown by examples only.
- `EarlyParser.ToPostfixOutput`: likewise, `EarlyParser.ToPostfixGrouped` covers chains
  without brackets or blanks only.
- `EarlyParser.TreeValuesAgree`: "non-finite where Parser.cs raises `MathException`"
  holds in the model's arithmetic only. With IEEE doubles an infinity can turn finite
  again: `ABC//` with A = B = 1 and C = 0 computes 1/∞ = 0.
- `EarlyParser.Execute`: a non-finite operand always gives a non-finite result. With
  doubles, a finite number divided by an infinity is 0; that case is not modelled.
- `Chars`: `char.IsLetter`, `IsDigit`, `IsWhiteSpace` and `ToUpper` are their ASCII
  behaviour; Unicode classes are not modelled.
- `Convert.ToDouble` is the exact decimal value of a digit string. Its rounding,
  culture and overflow to infinity are not modelled.
- The `Expression` evaluators are pure functions, so repeated evaluations trivially
  agree; no separate lemma states it.
- The duplicated exception classes in Expression.cs are the same `Error` datatype.
