/** Worked cases of the char-level `Parser` of MathParser/Parser.cs. The rejected texts
    follow from `FailsAtFirstFault`; the accepted ones are traced character by character,
    with the text a parameter so that the scan is unfolded one step at a time. */
module CharParserExamples {
  import opened Wrappers
  import opened Chars
  import opened Errors
  import opened CharStacks
  import opened CharTrees
  import opened ParserTokens
  import opened CharParser

  /** One more character of the loop is one more `Step` from where the loop was. */
  lemma LoopNext(text: string, n: nat, s: Scan)
    requires n < |text| && Loop(text, n) == Running(s)
    ensures Loop(text, n + 1) == Step(text, n, s)
  {
  }

  /** Once the loop has run over the whole text, the final loop decides. */
  lemma Finish(text: string, s: Scan)
    requires Loop(text, |text|) == Running(s)
    ensures ToPostfix(text) == Drain(text, s.stack, s.out)
  {
  }

  /** A stack of operators alone is moved to the output in reverse. */
  lemma DrainDone(text: string, stack: seq<char>, out: seq<char>)
    requires forall i :: 0 <= i < |stack| ==> IsOperator(stack[i])
    ensures Drain(text, stack, out) == Success(out + Reverse(stack))
  {
    assert '(' !in stack && ')' !in stack by {
      forall i | 0 <= i < |stack| ensures stack[i] != '(' && stack[i] != ')' {
        assert IsOperator(stack[i]);
      }
    }
  }

  /** The first letter of a text whose second character is not a letter starts the output. */
  lemma FirstLetter(text: string)
    requires 1 < |text| && IsLetter(text[0]) && !IsLetter(text[1])
    ensures Loop(text, 1) == Running(Scan([], [ToUpper(text[0])]))
  {
    LetterAt(text, 0, Scan([], []));
    LoopNext(text, 0, Scan([], []));
  }

  /** An operator of at least the incoming rank on an otherwise empty stack goes to the
      output. */
  lemma PopOne(top: char, out: seq<char>, rank: int)
    requires IsOperator(top) && rank <= GetOrder(top)
    ensures PopWhile([top], out, rank, GetOrder) == ([], out + [top])
  {
    assert [top][..0] == [];
  }

  /** `-` is left-associative: `a-b-c` becomes `AB-C-`. */
  lemma LeftAssociative()
    ensures ToPostfix("a-b-c") == Success("AB-C-")
  {
    var t := "a-b-c";
    LeftAssociativeTrace(t);
    Finish(t, Scan("-", "AB-C"));
    DrainDone(t, "-", "AB-C");
    assert Reverse("-") == "-";
    assert ToPostfix(t) == Drain(t, "-", "AB-C");
    assert Drain(t, "-", "AB-C") == Success("AB-C" + Reverse("-"));
    assert "AB-C" + "-" == "AB-C-";
  }

  lemma LeftAssociativeTrace(t: string)
    requires t == "a-b-c"
    ensures Loop(t, 5) == Running(Scan("-", "AB-C"))
  {
    FirstLetter(t);
    assert ToUpper('a') == 'A';
    LoopNext(t, 1, Scan("", "A"));
    FirstMinus(t);
    LoopNext(t, 2, Scan("-", "A"));
    LetterAt(t, 2, Scan("-", "A"));
    assert "A" + [ToUpper('b')] == "AB";
    LoopNext(t, 3, Scan("-", "AB"));
    SecondMinus(t);
    LoopNext(t, 4, Scan("-", "AB-"));
  }

  lemma FirstMinus(t: string)
    requires t == "a-b-c"
    ensures Step(t, 1, Scan("", "A")) == Running(Scan("-", "A"))
  {
    OperatorAt(t, 1, Scan("", "A"));
  }

  /** The second `-` of `a-b-c` moves the first one to the output. */
  lemma SecondMinus(t: string)
    requires t == "a-b-c"
    ensures Step(t, 3, Scan("-", "AB")) == Running(Scan("-", "AB-"))
  {
    OperatorAt(t, 3, Scan("-", "AB"));
    PopOne('-', "AB", 1);
  }

  /** `*` binds tighter than `+`: `a+b*c` becomes `ABC*+`. */
  lemma Precedence()
    ensures ToPostfix("a+b*c") == Success("ABC*+")
  {
    var t := "a+b*c";
    PrecedenceTrace(t);
    Finish(t, Scan("+*", "ABC"));
    DrainDone(t, "+*", "ABC");
    assert Reverse("+*") == "*+" by {
      assert Reverse("+") == "+";
    }
    assert "ABC" + "*+" == "ABC*+";
  }

  lemma PrecedenceTrace(t: string)
    requires t == "a+b*c"
    ensures Loop(t, 5) == Running(Scan("+*", "ABC"))
  {
    FirstLetter(t);
    assert ToUpper('a') == 'A';
    LoopNext(t, 1, Scan("", "A"));
    PlusStep(t);
    LoopNext(t, 2, Scan("+", "A"));
    LetterAt(t, 2, Scan("+", "A"));
    assert "A" + [ToUpper('b')] == "AB";
    LoopNext(t, 3, Scan("+", "AB"));
    TimesStep(t);
    LoopNext(t, 4, Scan("+*", "AB"));
  }

  lemma PlusStep(t: string)
    requires t == "a+b*c"
    ensures Step(t, 1, Scan("", "A")) == Running(Scan("+", "A"))
  {
    OperatorAt(t, 1, Scan("", "A"));
  }

  /** `*` outranks the `+` on the stack and is pushed above it. */
  lemma TimesStep(t: string)
    requires t == "a+b*c"
    ensures Step(t, 3, Scan("+", "AB")) == Running(Scan("+*", "AB"))
  {
    OperatorAt(t, 3, Scan("+", "AB"));
    assert PopWhile("+", "AB", 2, GetOrder) == ("+", "AB");
  }

  /** Blanks are skipped and brackets are not emitted: `(a) b` becomes `AB`. */
  lemma BlanksAndBrackets()
    ensures ToPostfix("(a) b") == Success("AB")
  {
    var t := "(a) b";
    BracketsTrace(t);
    Finish(t, Scan("", "AB"));
    assert Drain(t, "", "AB") == Success("AB");
  }

  lemma BracketsTrace(t: string)
    requires t == "(a) b"
    ensures Loop(t, 5) == Running(Scan("", "AB"))
  {
    assert Loop(t, 1) == Running(Scan("(", ""));
    LoopNext(t, 1, Scan("(", ""));
    assert Loop(t, 2) == Running(Scan("(", "A"));
    LoopNext(t, 2, Scan("(", "A"));
    assert PopToOpen("(", "A") == ("(", "A");
    assert Loop(t, 3) == Running(Scan("", "A"));
    LoopNext(t, 3, Scan("", "A"));
    assert Loop(t, 4) == Running(Scan("", "A"));
    LoopNext(t, 4, Scan("", "A"));
  }

  /** `^` has an order but is not one of `Operators`: it is a wrong symbol. */
  lemma CaretRejected()
    ensures ToPostfix("a^b") == Failure(WrongSymbol("a^b", 1, '^'))
  {
    var t := "a^b";
    assert Fault(t, 0) == None;
    assert Clean(t, 1);
    assert Fault(t, 1) == Some(WrongSymbolAt(t, 1));
    FailsAtFirstFault(t, 1);
  }

  /** Names are one letter long: `ab` is rejected at its first letter. */
  lemma TwoLetterName()
    ensures ToPostfix("ab") == Failure(Syntax("ab", OneLetterNames, 0))
  {
    var t := "ab";
    assert Fault(t, 0) == Some(Syntax(t, OneLetterNames, 0));
    FailsAtFirstFault(t, 0);
  }

  /** An operator that ends the text is unexpected. */
  lemma TrailingOperator()
    ensures ToPostfix("a+") == Failure(Syntax("a+", UnexpectedOperator, 1))
  {
    var t := "a+";
    assert Fault(t, 0) == None;
    assert Clean(t, 1);
    assert Fault(t, 1) == Some(Syntax(t, UnexpectedOperator, 1));
    FailsAtFirstFault(t, 1);
  }

  /** Two operators in a row are unexpected at the first one: there is no unary minus. */
  lemma NoUnaryMinus()
    ensures ToPostfix("a*-b") == Failure(Syntax("a*-b", UnexpectedOperator, 1))
  {
    var t := "a*-b";
    assert Fault(t, 0) == None;
    assert Clean(t, 1);
    assert Fault(t, 1) == Some(Syntax(t, UnexpectedOperator, 1));
    FailsAtFirstFault(t, 1);
  }

  /** A `)` with nothing open is the mismatch, reported without a position. */
  lemma StrayClose()
    ensures ToPostfix(")a") == Failure(Syntax(")a", BracketMismatch, -1))
  {
    var t := ")a";
    assert t[..0] == [];
    assert Fault(t, 0) == Some(SyntaxError(t, BracketMismatch));
    FailsAtFirstFault(t, 0);
  }

  /** A bracket left open is the mismatch. */
  lemma UnclosedBracket()
    ensures ToPostfix("(a") == Failure(Syntax("(a", BracketMismatch, -1))
  {
    var t := "(a";
    assert Fault(t, 0) == None && Fault(t, 1) == None;
    assert Clean(t, 2);
    AppendOne("(", 'a');
    assert t == "(" + ['a'];
    UnclosedRejected(t);
  }

  /** `AB-C-` with A = 5, B = 3, C = 1 is (5 - 3) - 1. */
  lemma LeftAssociativeValue(pow: PowFn)
    ensures Evaluate("AB-C-", map['A' := 5.0, 'B' := 3.0, 'C' := 1.0], pow) == Success(1.0)
  {
    var tree := Node('-', Node('-', Leaf('A'), Leaf('B')), Leaf('C'));
    assert Postorder(tree) == "AB-C-";
    EvaluateTree(tree, map['A' := 5.0, 'B' := 3.0, 'C' := 1.0], pow);
  }

  /** The output is upper-cased but the variables are looked up as given: a lower-case key
      is never found. */
  lemma LowerCaseKeyNotFound(pow: PowFn)
    ensures Evaluate("A", map['a' := 1.0], pow) == Failure(Evaluating(NotDefined("A")))
  {
  }

  /** `Evaluate` returns the top of the stack: `AB` evaluates to B. */
  lemma LeftoverIgnored(pow: PowFn)
    ensures Evaluate("AB", map['A' := 1.0, 'B' := 2.0], pow) == Success(2.0)
  {
    EvaluateReturnsTop("A", Leaf('B'), map['A' := 1.0, 'B' := 2.0], pow);
    assert "A" + Postorder(Leaf('B')) == "AB";
  }

  /** Dividing by zero is a `MathException` with the operands and the operator. */
  lemma DivisionByZero(pow: PowFn)
    ensures Evaluate("AB/", map['A' := 1.0, 'B' := 0.0], pow) == Failure(Math(1.0, 0.0, "/"))
  {
    var tree := Node('/', Leaf('A'), Leaf('B'));
    assert Postorder(tree) == "AB/";
    EvaluateTree(tree, map['A' := 1.0, 'B' := 0.0], pow);
  }
}
