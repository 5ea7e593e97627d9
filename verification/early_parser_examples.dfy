/** Worked cases of the nested `Parser` of MathParser/Program.cs, chosen where it differs
    from the later Parser.cs version. */
module EarlyParserExamples {
  import opened Wrappers
  import opened Chars
  import opened Errors
  import opened CharStacks
  import opened CharTrees
  import opened EarlyParser

  lemma LoopNext(text: string, n: nat, s: Scan, cs: bool)
    requires n < |text| && Loop(text, n, cs) == Running(s)
    ensures Loop(text, n + 1, cs) == Step(text, n, s, cs)
  {
  }

  lemma Finish(text: string, s: Scan, cs: bool)
    requires Loop(text, |text|, cs) == Running(s)
    ensures ToPostfix(text, cs) == Drain(text, s.stack, s.out)
  {
  }

  /** An operator of at least the incoming rank on an otherwise empty stack goes to the
      output. */
  lemma PopOne(top: char, out: seq<char>, rank: int)
    requires IsOperator(top) && rank <= GetOrder(top)
    ensures PopWhile([top], out, rank, GetOrder) == ([], out + [top])
  {
    assert [top][..0] == [];
  }

  /** An operator that ends the text is accepted and emitted last. */
  lemma TrailingOperator()
    ensures ToPostfix("a+", false) == Success("A+")
  {
    var t := "a+";
    TrailingTrace(t);
    Finish(t, Scan("+", "A"), false);
    assert '(' !in "+" && ')' !in "+";
    assert Reverse("+") == "+";
    assert "A" + "+" == "A+";
  }

  lemma TrailingTrace(t: string)
    requires t == "a+"
    ensures Loop(t, 2, false) == Running(Scan("+", "A"))
  {
    assert Loop(t, 1, false) == Running(Scan("", "A"));
    LoopNext(t, 1, Scan("", "A"), false);
  }

  /** With `caseSensitive` the letters are emitted as typed. */
  lemma CaseKept()
    ensures ToPostfix("a", true) == Success("a")
  {
    var t := "a";
    assert Loop(t, 1, true) == Running(Scan("", "a"));
    Finish(t, Scan("", "a"), true);
  }

  /** Two operators in a row parse: `a*-b` becomes `A*B-`. */
  lemma OperatorsInARow()
    ensures ToPostfix("a*-b", false) == Success("A*B-")
  {
    var t := "a*-b";
    InARowTrace(t);
    Finish(t, Scan("-", "A*B"), false);
    assert '(' !in "-" && ')' !in "-";
    assert Reverse("-") == "-";
    assert "A*B" + "-" == "A*B-";
  }

  lemma InARowTrace(t: string)
    requires t == "a*-b"
    ensures Loop(t, 4, false) == Running(Scan("-", "A*B"))
  {
    assert Loop(t, 1, false) == Running(Scan("", "A"));
    LoopNext(t, 1, Scan("", "A"), false);
    assert Step(t, 1, Scan("", "A"), false) == Running(Scan("*", "A"));
    LoopNext(t, 2, Scan("*", "A"), false);
    MinusAfterTimes(t);
    LoopNext(t, 3, Scan("-", "A*"), false);
  }

  /** The `-` of `a*-b` moves the `*` to the output. */
  lemma MinusAfterTimes(t: string)
    requires t == "a*-b"
    ensures Step(t, 2, Scan("*", "A"), false) == Running(Scan("-", "A*"))
  {
    PopOne('*', "A", 1);
    assert "" + "-" == "-";
  }

  /** ... and then its evaluation finds a single value under the `*`. */
  lemma OperatorsInARowEvaluate()
    ensures Evaluate("A*B-", map['A' := 1.0, 'B' := 2.0]) == Failure(EmptyStack)
  {
  }

  /** Division by zero is not an error in this version: the value is an infinity. */
  lemma DivisionByZero()
    ensures Evaluate("AB/", map['A' := 1.0, 'B' := 0.0]) == Success(NonFinite)
  {
    var tree := Node('/', Leaf('A'), Leaf('B'));
    assert Postorder(tree) == "AB/";
    EvaluateTree(tree, map['A' := 1.0, 'B' := 0.0]);
  }

  /** ... and it carries through the operations after it. */
  lemma InfinityCarried()
    ensures Evaluate("AB/A+", map['A' := 1.0, 'B' := 0.0]) == Success(NonFinite)
  {
    var tree := Node('+', Node('/', Leaf('A'), Leaf('B')), Leaf('A'));
    assert Postorder(tree) == "AB/A+";
    EvaluateTree(tree, map['A' := 1.0, 'B' := 0.0]);
  }
}
