/** Worked cases of `Expression`, each pinned to the behaviour of MathParser/Expression.cs,
    including its quirks: the postfix list is never cleared, a trailing operator parses,
    and `SetValue` upper-cases a name the registry stores as typed.

    Each `...Trace` lemma follows the scan character by character; its text is a parameter
    so that the scan is unfolded one step at a time. */
module ExpressionExamples {
  import opened Wrappers
  import opened Chars
  import opened Errors
  import opened ParserTokens
  import opened Expressions
  import opened ExpressionSyntax
  import opened ExpressionEval

  /** A new `Expression` whose constructor was told not to parse. */
  const Blank: Expression := Expression("", map[], [])

  /** One more character of the loop is one more `Step` from where the loop was. */
  lemma LoopNext(text: string, n: nat, init: Scan, s: Scan)
    requires n < |text| && Loop(text, n, init) == Running(s)
    ensures Loop(text, n + 1, init) == Step(text, n, s)
  {
  }

  /** An operator of at least the given order leaves a one-token stack for the output. */
  lemma PopOne(top: Token, out: seq<Token>, order: int)
    requires top.BinOp? && 0 <= order <= top.Order()
    ensures PopHigher([top], out, order) == ([], out + [top])
  {
    assert [top][..0] == [];
  }

  /** `-` is left-associative: `a-b-c` becomes `a b - c -`. */
  lemma LeftAssociative()
    ensures Parse(Blank, "a-b-c").result == Success([Var("a"), Var("b"), BinOp(Sub), Var("c"), BinOp(Sub)])
  {
    var t := "a-b-c";
    var m2 := map["a" := None, "b" := None];
    var s5 := Scan("c", [BinOp(Sub)], Variable, [Var("a"), Var("b"), BinOp(Sub)], m2);
    LeftAssociativeTrace(t, Initial(Blank));
    var m3 := m2["c" := None];
    var s6 := Scan("", [BinOp(Sub)], Variable, [Var("a"), Var("b"), BinOp(Sub), Var("c")], m3);
    assert PushOperand(s5) == s6;
    var s7 := Scan("", [], Variable, [Var("a"), Var("b"), BinOp(Sub), Var("c"), BinOp(Sub)], m3);
    assert Drain(t, s6) == Drain(t, s7) == Running(s7);
    ParseOutcome(Blank, t);
  }

  lemma LeftAssociativeTrace(t: string, i0: Scan)
    requires t == "a-b-c" && i0 == Initial(Blank)
    ensures Loop(t, 5, i0) == Running(Scan("c", [BinOp(Sub)], Variable, [Var("a"), Var("b"), BinOp(Sub)], map["a" := None, "b" := None]))
  {
    var m1 := map["a" := None];
    var m2 := m1["b" := None];
    var s1 := Scan("a", [], Variable, [], map[]);
    var s2 := Scan("", [BinOp(Sub)], Operator, [Var("a")], m1);
    var s3 := Scan("b", [BinOp(Sub)], Variable, [Var("a")], m1);
    var s4 := Scan("", [BinOp(Sub)], Operator, [Var("a"), Var("b"), BinOp(Sub)], m2);
    assert Loop(t, 1, i0) == Running(s1);
    LoopNext(t, 1, i0, s1);
    FirstMinus(t, s1);
    LoopNext(t, 2, i0, s2);
    assert Step(t, 2, s2) == Running(s3);
    LoopNext(t, 3, i0, s3);
    SecondMinus(t, s3);
    LoopNext(t, 4, i0, s4);
  }

  /** The first `-` of `a-b-c` finds an empty stack. */
  lemma FirstMinus(t: string, s1: Scan)
    requires t == "a-b-c" && s1 == Scan("a", [], Variable, [], map[])
    ensures Step(t, 1, s1) == Running(Scan("", [BinOp(Sub)], Operator, [Var("a")], map["a" := None]))
  {
    assert PushOperand(s1).(last := Operator) == Scan("", [], Operator, [Var("a")], map["a" := None]);
    OperatorAt(t, 1, s1, Sub);
    assert [] + [BinOp(Sub)] == [BinOp(Sub)];
  }

  /** The second `-` of `a-b-c` moves the first one to the output. */
  lemma SecondMinus(t: string, s3: Scan)
    requires t == "a-b-c"
    requires s3 == Scan("b", [BinOp(Sub)], Variable, [Var("a")], map["a" := None])
    ensures Step(t, 3, s3) == Running(Scan("", [BinOp(Sub)], Operator, [Var("a"), Var("b"), BinOp(Sub)], map["a" := None, "b" := None]))
  {
    var m2 := map["a" := None, "b" := None];
    var s1 := Scan("", [BinOp(Sub)], Operator, [Var("a"), Var("b")], m2);
    assert "b" !in s3.variables;
    assert PushOperand(s3).(last := Operator) == s1;
    OperatorAt(t, 3, s3, Sub);
    PopOne(BinOp(Sub), s1.postfix, OperatorOrder(Sub));
    assert [] + [BinOp(Sub)] == [BinOp(Sub)];
  }

  /** An operator on top of the stack is moved to the output by the final loop. */
  lemma DrainTop(text: string, s: Scan, op: BinaryOperator, rest: seq<Token>)
    requires s.stack == rest + [BinOp(op)]
    ensures Drain(text, s) == Drain(text, s.(stack := rest, postfix := s.postfix + [BinOp(op)]))
  {
    assert s.stack[..|s.stack| - 1] == rest;
    OpenText(BinOp(op));
  }

  /** `*` binds tighter than `+`: `2+3*4` becomes `2 3 4 * +`. */
  lemma Precedence()
    ensures Parse(Blank, "2+3*4").expr == Expression("2+3*4", map[], [Const(2.0), Const(3.0), Const(4.0), BinOp(Mul), BinOp(Add)])
    ensures Parse(Blank, "2+3*4").result.Success?
  {
    var t := "2+3*4";
    var s5 := Scan("4", [BinOp(Add), BinOp(Mul)], Constant, [Const(2.0), Const(3.0)], map[]);
    PrecedenceTrace(t, Initial(Blank));
    assert DecimalValue("4") == 4;
    var s6 := Scan("", [BinOp(Add), BinOp(Mul)], Constant, [Const(2.0), Const(3.0), Const(4.0)], map[]);
    assert PushOperand(s5) == s6;
    var s7 := Scan("", [BinOp(Add)], Constant, [Const(2.0), Const(3.0), Const(4.0), BinOp(Mul)], map[]);
    var s8 := Scan("", [], Constant, [Const(2.0), Const(3.0), Const(4.0), BinOp(Mul), BinOp(Add)], map[]);
    DrainTop(t, s6, Mul, [BinOp(Add)]);
    assert s6.(stack := [BinOp(Add)], postfix := s6.postfix + [BinOp(Mul)]) == s7;
    DrainTop(t, s7, Add, []);
    assert s7.(stack := [], postfix := s7.postfix + [BinOp(Add)]) == s8;
    assert Drain(t, s8) == Running(s8);
    ParseOutcome(Blank, t);
  }

  lemma PrecedenceTrace(t: string, i0: Scan)
    requires t == "2+3*4" && i0 == Initial(Blank)
    ensures Loop(t, 5, i0) == Running(Scan("4", [BinOp(Add), BinOp(Mul)], Constant, [Const(2.0), Const(3.0)], map[]))
  {
    var s1 := Scan("2", [], Constant, [], map[]);
    var s2 := Scan("", [BinOp(Add)], Operator, [Const(2.0)], map[]);
    var s3 := Scan("3", [BinOp(Add)], Constant, [Const(2.0)], map[]);
    var s4 := Scan("", [BinOp(Add), BinOp(Mul)], Operator, [Const(2.0), Const(3.0)], map[]);
    assert Loop(t, 1, i0) == Running(s1);
    LoopNext(t, 1, i0, s1);
    PlusStep(t, s1);
    LoopNext(t, 2, i0, s2);
    assert Step(t, 2, s2) == Running(s3);
    LoopNext(t, 3, i0, s3);
    TimesStep(t, s3);
    LoopNext(t, 4, i0, s4);
  }

  /** The `+` of `2+3*4` finds an empty stack. */
  lemma PlusStep(t: string, s1: Scan)
    requires t == "2+3*4" && s1 == Scan("2", [], Constant, [], map[])
    ensures Step(t, 1, s1) == Running(Scan("", [BinOp(Add)], Operator, [Const(2.0)], map[]))
  {
    assert DecimalValue("2") == 2;
    assert PushOperand(s1).(last := Operator) == Scan("", [], Operator, [Const(2.0)], map[]);
    OperatorAt(t, 1, s1, Add);
    assert [] + [BinOp(Add)] == [BinOp(Add)];
  }

  /** The `*` of `2+3*4` outranks the `+` on the stack and is pushed above it. */
  lemma TimesStep(t: string, s3: Scan)
    requires t == "2+3*4" && s3 == Scan("3", [BinOp(Add)], Constant, [Const(2.0)], map[])
    ensures Step(t, 3, s3) == Running(Scan("", [BinOp(Add), BinOp(Mul)], Operator, [Const(2.0), Const(3.0)], map[]))
  {
    assert DecimalValue("3") == 3;
    var s1 := Scan("", [BinOp(Add)], Operator, [Const(2.0), Const(3.0)], map[]);
    assert PushOperand(s3).(last := Operator) == s1;
    OperatorAt(t, 3, s3, Mul);
    assert PopHigher([BinOp(Add)], s1.postfix, OperatorOrder(Mul)) == ([BinOp(Add)], s1.postfix);
  }

  /** Evaluating `2 3 4 * +` gives 14: the tree it is the postorder of. */
  lemma PrecedenceValue(pow: PowFn)
    ensures var e := Parse(Blank, "2+3*4").expr;
      Valid(e) && Evaluate(e, pow) == Success(14.0)
  {
    Precedence();
    var e := Parse(Blank, "2+3*4").expr;
    var tree := Node(Add, Leaf(Const(2.0)), Node(Mul, Leaf(Const(3.0)), Leaf(Const(4.0))));
    PrecedenceTree(tree, e.variables, pow);
    EvaluateTerm(e, tree, pow);
  }

  /** The tree of `2+3*4`: its postorder is the parser's output and its value is 14. */
  lemma PrecedenceTree(tree: Term, vars: Registry, pow: PowFn)
    requires tree == Node(Add, Leaf(Const(2.0)), Node(Mul, Leaf(Const(3.0)), Leaf(Const(4.0))))
    ensures TermOk(tree, vars)
    ensures Postorder(tree) == [Const(2.0), Const(3.0), Const(4.0), BinOp(Mul), BinOp(Add)]
    ensures TermValue(tree, vars, pow) == Success(14.0)
  {
    var right := Node(Mul, Leaf(Const(3.0)), Leaf(Const(4.0)));
    assert TermValue(Leaf(Const(3.0)), vars, pow) == Success(3.0);
    assert TermValue(Leaf(Const(4.0)), vars, pow) == Success(4.0);
    assert TermValue(right, vars, pow) == Success(12.0);
    assert TermValue(Leaf(Const(2.0)), vars, pow) == Success(2.0);
  }

  /** Blanks do not end a token: `1 2` is the number 12. */
  lemma BlanksJoinTokens()
    ensures Parse(Blank, "1 2").result == Success([Const(12.0)])
  {
    var t := "1 2";
    BlanksTrace(t, Initial(Blank));
    var s3 := Scan("12", [], Constant, [], map[]);
    assert DecimalValue("12") == 12;
    var s4 := Scan("", [], Constant, [Const(12.0)], map[]);
    assert PushOperand(s3) == s4;
    assert Drain(t, s4) == Running(s4);
    ParseOutcome(Blank, t);
  }

  lemma BlanksTrace(t: string, i0: Scan)
    requires t == "1 2" && i0 == Initial(Blank)
    ensures Loop(t, 3, i0) == Running(Scan("12", [], Constant, [], map[]))
  {
    assert Loop(t, 1, i0) == Running(Scan("1", [], Constant, [], map[]));
    assert Loop(t, 2, i0) == Running(Scan("1", [], Constant, [], map[]));
  }

  /** A trailing operator is accepted by `Parse`; the evaluation then pops an empty stack. */
  lemma TrailingOperator(pow: PowFn)
    ensures Parse(Blank, "1+").result == Success([Const(1.0), BinOp(Add)])
    ensures Valid(Parse(Blank, "1+").expr) && Evaluate(Parse(Blank, "1+").expr, pow) == Failure(EmptyStack)
  {
    TrailingParse();
    TrailingEval(Parse(Blank, "1+").expr, pow);
  }

  lemma TrailingParse()
    ensures Parse(Blank, "1+").result == Success([Const(1.0), BinOp(Add)])
    ensures Parse(Blank, "1+").expr.postfix == [Const(1.0), BinOp(Add)]
  {
    var t := "1+";
    TrailingTrace(t, Initial(Blank));
    var s2 := Scan("", [BinOp(Add)], Operator, [Const(1.0)], map[]);
    assert PushOperand(s2) == s2;
    var s3 := Scan("", [], Operator, [Const(1.0), BinOp(Add)], map[]);
    assert Drain(t, s2) == Drain(t, s3) == Running(s3);
    ParseOutcome(Blank, t);
  }

  /** `1 +` leaves one value for an operator that needs two. */
  lemma TrailingEval(e: Expression, pow: PowFn)
    requires e.postfix == [Const(1.0), BinOp(Add)]
    ensures Valid(e) && Evaluate(e, pow) == Failure(EmptyStack)
  {
    var vars := e.variables;
    assert e.postfix[1..] == [BinOp(Add)];
    assert Valid(e);
    assert EvalFrom([BinOp(Add)], vars, pow, [1.0]) == Failure(EmptyStack);
    assert EvalFrom(e.postfix, vars, pow, []) == EvalFrom([BinOp(Add)], vars, pow, [] + [1.0]);
    assert [] + [1.0] == [1.0];
  }

  lemma TrailingTrace(t: string, i0: Scan)
    requires t == "1+" && i0 == Initial(Blank)
    ensures Loop(t, 2, i0) == Running(Scan("", [BinOp(Add)], Operator, [Const(1.0)], map[]))
  {
    assert DecimalValue("1") == 1;
    assert Loop(t, 1, i0) == Running(Scan("1", [], Constant, [], map[]));
  }

  /** There is no unary minus: a leading operator is a wrong symbol at index 0. */
  lemma NoUnaryMinus()
    ensures Parse(Blank, "-1").result == Failure(WrongSymbol("-1", 0, '-'))
  {
    assert "-1"[..0] == [];
    ForbiddenRejected(Blank, "-1", 0);
  }

  /** There is no implicit product: a letter right after a number is a wrong symbol. */
  lemma NoImplicitProduct()
    ensures Parse(Blank, "2a").result == Failure(WrongSymbol("2a", 1, 'a'))
  {
    ImplicitProductTrace("2a", Initial(Blank));
    ParseOutcome(Blank, "2a");
  }

  lemma ImplicitProductTrace(t: string, i0: Scan)
    requires t == "2a" && i0 == Initial(Blank)
    ensures Loop(t, 2, i0) == Failed(Scan("2", [], Constant, [], map[]), WrongSymbol(t, 1, 'a'))
  {
    assert Loop(t, 1, i0) == Running(Scan("2", [], Constant, [], map[]));
  }

  /** A decimal point is not an operator: `SelectOperator` throws. */
  lemma NoDecimalPoint()
    ensures Parse(Blank, "1.5").result == Failure(UnknownOperator)
  {
    DecimalPointTrace("1.5", Initial(Blank));
    ParseOutcome(Blank, "1.5");
  }

  lemma DecimalPointTrace(t: string, i0: Scan)
    requires t == "1.5" && i0 == Initial(Blank)
    ensures Loop(t, 3, i0).Failed? && Loop(t, 3, i0).error == UnknownOperator
  {
    assert Loop(t, 1, i0) == Running(Scan("1", [], Constant, [], map[]));
    assert Loop(t, 2, i0).Failed? && Loop(t, 2, i0).error == UnknownOperator;
  }

  /** A second parse appends to the tokens of the first. */
  lemma PostfixNotCleared()
    ensures Parse(Parse(Blank, "a").expr, "b").expr.postfix == [Var("a"), Var("b")]
  {
    var e := Parse(Blank, "a").expr;
    assert Loop("a", 1, Initial(Blank)) == Running(Scan("a", [], Variable, [], map[]));
    ParseOutcome(Blank, "a");
    assert e.postfix == [Var("a")];
    assert Loop("b", 1, Initial(e)) == Running(Scan("b", [], Variable, [Var("a")], e.variables));
    ParseOutcome(e, "b");
  }

  /** `Parse` registers `a` under its raw text and `SetValue` defines `A`, so the
      evaluation still finds `a` undefined, and names it by its upper-cased token text. */
  lemma LowerCaseNameStaysUndefined(pow: PowFn)
    ensures var e := SetValue(Parse(Blank, "a").expr, "a", Some(5.0));
      Valid(e) && e.variables == map["a" := None, "A" := Some(5.0)]
      && Evaluate(e, pow) == Failure(Evaluating(NotDefined("A")))
  {
    OneNameParse("a");
    var e0 := Parse(Blank, "a").expr;
    assert Upper("a") == "A";
    var e := SetValue(e0, "a", Some(5.0));
    assert e.variables == map["a" := None, "A" := Some(5.0)];
    OneNameEval(e, "a", pow);
  }

  /** With an upper-case name the two agree. */
  lemma UpperCaseNameIsFound(pow: PowFn)
    ensures var e := SetValue(Parse(Blank, "A").expr, "a", Some(5.0));
      Valid(e) && Evaluate(e, pow) == Success(5.0)
  {
    OneNameParse("A");
    var e0 := Parse(Blank, "A").expr;
    assert Upper("a") == "A";
    var e := SetValue(e0, "a", Some(5.0));
    assert e.variables == map["A" := Some(5.0)];
    OneNameEval(e, "A", pow);
  }

  /** A one-letter text is one variable, registered as typed. */
  lemma OneNameParse(t: string)
    requires t == "a" || t == "A"
    ensures Parse(Blank, t).expr.variables == map[t := None]
    ensures Parse(Blank, t).expr.postfix == [Var(t)]
  {
    assert Loop(t, 1, Initial(Blank)) == Running(Scan(t, [], Variable, [], map[]));
    ParseOutcome(Blank, t);
  }

  /** A lone variable evaluates to its value, or fails when it has none. */
  lemma OneNameEval(e: Expression, x: string, pow: PowFn)
    requires e.postfix == [Var(x)] && x in e.variables
    ensures Valid(e)
    ensures Evaluate(e, pow) == if e.variables[x].Some? then Success(e.variables[x].value) else Failure(Evaluating(NotDefined(Upper(x))))
  {
    var vars := e.variables;
    assert e.postfix[0] == Var(x) && e.postfix[1..] == [];
    assert Valid(e);
    var v := vars[x];
    if v.Some? {
      assert EvalFrom(e.postfix, vars, pow, []) == EvalFrom([], vars, pow, [] + [v.value]);
      assert [] + [v.value] == [v.value];
    } else {
      assert EvalFrom(e.postfix, vars, pow, []) == Failure(Evaluating(NotDefined(Upper(x))));
    }
  }
}
