/** The token classes of the final parser (MathParser/ParserTokens.cs).

    `ParserToken` is the base: an upper-cased text, an order (precedence) and an
    "executable" flag; its constructor defaults to order -1 and not executable, which is
    what the `(` marker on the operator stack uses. `Variable` and `Constant` are operands;
    `BinaryOperator` carries its evaluation function, here the closed `BinaryOperator`
    enumeration with `Apply` as its dispatch. A `Var` token holds the registry key of its
    variable instead of a shared mutable object; its value lives in the registry. */
module ParserTokens {
  import opened Wrappers
  import opened Chars
  import opened Errors

  datatype BinaryOperator = Add | Sub | Mul | Div | Pow

  /** `Math.Pow`, which the model does not compute: it is supplied by the caller. */
  type PowFn = (real, real) -> Num

  datatype Token =
    | Marker(name: string)     // a plain `ParserToken`, e.g. the `(` on the operator stack
    | Var(key: string)         // a `Variable`, by its registry key
    | Const(value: real)       // a `Constant`
    | BinOp(op: BinaryOperator)
  {
    /** `ParserToken.Token`: the text given to the constructor, upper-cased. */
    function Text(): string
    {
      match this
      case Marker(s) => Upper(s)
      case Var(k) => Upper(k)
      case Const(_) => "_"
      case BinOp(op) => [Symbol(op)]
    }

    /** `ParserToken.Order`: -1 unless the token is an operator. */
    function Order(): (r: int)
      ensures 1 <= r <==> BinOp?
      ensures !BinOp? ==> r == -1
    {
      if BinOp? then OperatorOrder(op) else -1
    }

    /** `ParserToken.Executable`: only operators are. */
    predicate Executable() {
      BinOp?
    }
  }

  function Symbol(op: BinaryOperator): char {
    match op
    case Add => '+'
    case Sub => '-'
    case Mul => '*'
    case Div => '/'
    case Pow => '^'
  }

  /** The order each operator is built with: `+ -` 1, `* /` 2, `^` 3. */
  function OperatorOrder(op: BinaryOperator): (r: int)
    ensures 1 <= r <= 3
    ensures r == 3 <==> op == Pow
    ensures r == 1 <==> op in {Add, Sub}
  {
    match op
    case Add => 1
    case Sub => 1
    case Mul => 2
    case Div => 2
    case Pow => 3
  }

  /** `BinaryOperator.SelectOperator`: any character other than the five operators is an
      `ArgumentException`, not a `WrongSymbolException`. */
  function SelectOperator(c: char): (r: Result<BinaryOperator, Error>)
    ensures r.Success? <==> IsOpChar(c)
    ensures r.Success? ==> Symbol(r.value) == c
    ensures r.Failure? ==> r.error == UnknownOperator
  {
    match c
    case '+' => Success(Add)
    case '-' => Success(Sub)
    case '*' => Success(Mul)
    case '/' => Success(Div)
    case '^' => Success(Pow)
    case _ => Failure(UnknownOperator)
  }

  /** `SelectOperator` inverts `Symbol`. */
  lemma SelectSymbol(op: BinaryOperator)
    ensures SelectOperator(Symbol(op)) == Success(op)
  {
  }

  /** `BinaryOperator.Eval(left, right)`: the operator's function applied to
      (args[0], args[1]) = (left, right). Only division by zero and `Math.Pow` can
      leave the finite values. */
  function Apply(op: BinaryOperator, left: real, right: real, pow: PowFn): (r: Num)
    ensures op != Pow ==> (r.NonFinite? <==> op == Div && right == 0.0)
    ensures op == Div && right != 0.0 ==> r.r * right == left
    ensures op == Sub ==> r.r + right == left
    ensures op == Add ==> r.r - right == left
    ensures op == Mul && right != 0.0 ==> r.r / right == left
    ensures op == Mul && right == 0.0 ==> r == Finite(0.0)
  {
    match op
    case Add => Finite(left + right)
    case Sub => Finite(left - right)
    case Mul => MulBack(left, right); Finite(left * right)
    case Div => if right == 0.0 then NonFinite else DivBack(left, right); Finite(left / right)
    case Pow => pow(left, right)
  }

  lemma MulBack(a: real, b: real)
    ensures b != 0.0 ==> (a * b) / b == a
    ensures b == 0.0 ==> a * b == 0.0
  {
  }

  lemma DivBack(a: real, b: real)
    requires b != 0.0
    ensures (a / b) * b == a
  {
  }

  /** `Variable.Eval`: an undefined value is an `EvaluatingException` naming the variable
      by its token text. `Constant.Eval` returns its value unchecked. */
  function EvalOperand(t: Token, value: Option<real>): (r: Result<real, Error>)
    requires t.Var? || t.Const?
    ensures t.Const? ==> r == Success(t.value)
    ensures t.Var? ==> (r.Failure? <==> value.None?)
    ensures t.Var? && value.Some? ==> r.value == value.value
    ensures r.Failure? ==> r.error == Evaluating(NotDefined(t.Text()))
  {
    match t
    case Const(v) => Success(v)
    case Var(_) => if value.None? then Failure(Evaluating(NotDefined(t.Text()))) else Success(value.value)
  }

  /** The constructor of `ParserToken` upper-cases the text of every token. */
  lemma TextIsUpper(t: Token)
    ensures IsUpperText(t.Text())
  {
  }

  /** A token made by the `ParserToken` constructor's defaults ranks below every
      operator and is not executable, so an operator never pops the `(` marker. */
  lemma MarkerRanksBelowOperators(name: string, op: BinaryOperator)
    ensures Marker(name).Order() < BinOp(op).Order()
    ensures !Marker(name).Executable() && BinOp(op).Executable()
    ensures Marker("(").Text() == "("
  {
  }
}
