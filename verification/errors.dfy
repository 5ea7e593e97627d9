/** The exceptions the parsers and evaluators raise, with the fields each one records
    (MathParser/Exceptions.cs; the nested copies in Parser.cs and Program.cs have the
    same shape). Exception messages are display text and are not modelled. */
module Errors {

  /** Why an `EvaluatingException` was raised. */
  datatype Reason =
    | NotDefined(name: string)          // a variable without a value
    | WrongPostfixForm                  // the value stack did not end with exactly one value
    | UnacceptableSymbol(symbol: char)  // a postfix character that is neither a letter nor an operator
    | UnknownOperation(symbol: char)    // `Execute` given an operator it does not know

  datatype Error =
      /** `WrongSymbolException`: a character that cannot appear where it is. */
    | WrongSymbol(expression: string, position: int, failedChar: char)
      /** `SyntaxException`: a structural fault; `position` is -1 when none was given. */
    | Syntax(expression: string, syntaxError: string, position: int)
      /** `EvaluatingException`. */
    | Evaluating(reason: Reason)
      /** `MathException`: an operation whose result is not finite. */
    | Math(left: real, right: real, operator: string)
      /** The `ArgumentException` of `BinaryOperator.SelectOperator`. */
    | UnknownOperator
      /** The `InvalidOperationException` of popping an empty `Stack`. */
    | EmptyStack
  {
    /** `WrongSymbolException` and `SyntaxException` derive from `ParsingException`. */
    predicate IsParsing() {
      WrongSymbol? || Syntax?
    }

    /** `MathException` derives from `EvaluatingException`. */
    predicate IsEvaluating() {
      Evaluating? || Math?
    }
  }

  const BracketMismatch: string := "closing and opening brackets do not match"
  const UnexpectedOperator: string := "unexpected operator"
  const OneLetterNames: string := "Variables' names must contain only one latin symbol"

  /** `string.IndexOf(char)`: the first index of `c` in `s`, or -1. */
  function IndexOf(s: string, c: char): (r: int)
    ensures -1 <= r < |s|
    ensures r == -1 <==> c !in s
    ensures 0 <= r ==> s[r] == c && c !in s[..r]
  {
    if s == [] then -1
    else if s[0] == c then 0
    else
      var k := IndexOf(s[1..], c);
      assert s[1..][..if k < 0 then 0 else k] == s[1..if k < 0 then 1 else k + 1];
      if k < 0 then -1 else k + 1
  }

  /** `new WrongSymbolException(expr, pos)`. */
  function WrongSymbolAt(expr: string, pos: int): (r: Error)
    requires 0 <= pos < |expr|
    ensures r.IsParsing() && r.expression == expr
    ensures r.WrongSymbol? && r.position == pos && r.failedChar == expr[pos]
  {
    WrongSymbol(expr, pos, expr[pos])
  }

  /** `new WrongSymbolException(expr, failed)`: the position is where `failed` first occurs. */
  function WrongSymbolOf(expr: string, failed: char): (r: Error)
    ensures r.IsParsing() && r.expression == expr && r.WrongSymbol? && r.failedChar == failed
    ensures r.position == -1 <==> failed !in expr
    ensures 0 <= r.position ==> r.position < |expr| && expr[r.position] == failed && failed !in expr[..r.position]
  {
    WrongSymbol(expr, IndexOf(expr, failed), failed)
  }

  /** `new SyntaxException(expr, error)`: no position, recorded as -1. */
  function SyntaxError(expr: string, error: string): (r: Error)
    ensures r.Syntax? && r.expression == expr && r.syntaxError == error && r.position == -1
  {
    Syntax(expr, error, -1)
  }

  /** The two constructors of `WrongSymbolException` agree exactly when the failed
      character does not occur earlier in the expression. */
  lemma WrongSymbolFormsAgree(expr: string, pos: int)
    requires 0 <= pos < |expr|
    ensures WrongSymbolOf(expr, expr[pos]) == WrongSymbolAt(expr, pos) <==> expr[pos] !in expr[..pos]
  {
  }
}
