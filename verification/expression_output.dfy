/** What `Expression.Parse` emits, described on the text.

    The operands come out in input order. An operand is a maximal run of letters and digits
    once blanks are removed, so `1 2` is the number 12 and `x1` one variable. Each operator
    character of the text comes out exactly once (MathParser/Expression.cs:147-164, 204-242). */
module ExpressionOutput {
  import opened Wrappers
  import opened Chars
  import opened ParserTokens
  import opened Expressions
  import opened ExpressionSyntax

  /** The operand tokens of a postfix list, in order. */
  function Operands(p: seq<Token>): seq<Token> {
    if p == [] then [] else Operands(p[..|p| - 1]) + (if p[|p| - 1].BinOp? then [] else [p[|p| - 1]])
  }

  /** The operator symbols of a token list, in order. */
  function Ops(p: seq<Token>): string {
    if p == [] then [] else Ops(p[..|p| - 1]) + (if p[|p| - 1].BinOp? then [Symbol(p[|p| - 1].op)] else [])
  }

  /** The runs of letters and digits of a blank-free text that a later symbol has ended. */
  function Done(p: string): seq<string> {
    if p == [] then []
    else
      var q := p[..|p| - 1];
      if IsAlnum(p[|p| - 1]) || TrailingRun(q) == [] then Done(q) else Done(q) + [TrailingRun(q)]
  }

  /** All runs of letters and digits of a blank-free text, in order. */
  function Words(p: string): seq<string> {
    Done(p) + (if TrailingRun(p) == [] then [] else [TrailingRun(p)])
  }

  /** The operand a run stands for: a number when it starts with a digit, otherwise a
      variable under its raw text. */
  function Operand(w: string): Token {
    if w != [] && IsDigit(w[0]) then Const(DecimalValue(w) as real) else Var(w)
  }

  function Lexemes(ws: seq<string>): seq<Token> {
    if ws == [] then [] else Lexemes(ws[..|ws| - 1]) + [Operand(ws[|ws| - 1])]
  }

  // ----- helpers -----

  lemma {:induction false} OperandsAppend(a: seq<Token>, b: seq<Token>)
    ensures Operands(a + b) == Operands(a) + Operands(b)
    decreases |b|
  {
    if b == [] {
      assert a + b == a;
    } else {
      assert (a + b)[..|a + b| - 1] == a + b[..|b| - 1];
      OperandsAppend(a, b[..|b| - 1]);
    }
  }

  lemma {:induction false} OpsAppend(a: seq<Token>, b: seq<Token>)
    ensures Ops(a + b) == Ops(a) + Ops(b)
    decreases |b|
  {
    if b == [] {
      assert a + b == a;
    } else {
      assert (a + b)[..|a + b| - 1] == a + b[..|b| - 1];
      OpsAppend(a, b[..|b| - 1]);
    }
  }

  lemma LexemesAppend(ws: seq<string>, w: string)
    ensures Lexemes(ws + [w]) == Lexemes(ws) + [Operand(w)]
  {
    assert (ws + [w])[..|ws|] == ws;
  }

  /** A list of operators has no operands. */
  lemma {:induction false} NoOperands(x: seq<Token>)
    requires forall j :: 0 <= j < |x| ==> x[j].BinOp?
    ensures Operands(x) == []
    decreases |x|
  {
    if x != [] {
      NoOperands(x[..|x| - 1]);
    }
  }

  /** Reversing a list keeps its operator symbols. */
  lemma {:induction false} OpsReverse(x: seq<Token>)
    ensures multiset(Ops(Reverse(x))) == multiset(Ops(x))
    decreases |x|
  {
    if x != [] {
      OpsReverse(x[1..]);
      OpsAppend(Reverse(x[1..]), [x[0]]);
      assert x == [x[0]] + x[1..];
      OpsAppend([x[0]], x[1..]);
    }
  }

  /** Moving operators from the top of the stack to the output, in any order, moves no
      operand and keeps every operator symbol. */
  lemma MoveTally(out: seq<Token>, stack: seq<Token>, k: nat)
    requires k <= |stack|
    requires forall j :: k <= j < |stack| ==> stack[j].BinOp?
    ensures Operands(out + Reverse(stack[k..])) == Operands(out)
    ensures multiset(Ops(out + Reverse(stack[k..]))) + multiset(Ops(stack[..k])) == multiset(Ops(out)) + multiset(Ops(stack))
  {
    MoveOperands(out, stack[k..]);
    MoveOps(out, stack, k);
  }

  lemma MoveOperands(out: seq<Token>, moved: seq<Token>)
    requires forall j :: 0 <= j < |moved| ==> moved[j].BinOp?
    ensures Operands(out + Reverse(moved)) == Operands(out)
  {
    var r := Reverse(moved);
    forall j | 0 <= j < |r| ensures r[j].BinOp? {
      assert r[j] == moved[|moved| - 1 - j];
    }
    NoOperands(r);
    OperandsAppend(out, r);
  }

  lemma MoveOps(out: seq<Token>, stack: seq<Token>, k: nat)
    requires k <= |stack|
    ensures multiset(Ops(out + Reverse(stack[k..]))) + multiset(Ops(stack[..k])) == multiset(Ops(out)) + multiset(Ops(stack))
  {
    var moved := stack[k..];
    OpsAppend(out, Reverse(moved));
    OpsReverse(moved);
    SplitAt(stack, k);
    OpsAppend(stack[..k], moved);
    var o, x, y := multiset(Ops(out)), multiset(Ops(stack[..k])), multiset(Ops(moved));
    assert multiset(Ops(out + Reverse(moved))) == o + y;
    assert multiset(Ops(stack)) == x + y;
  }

  lemma OpCharsNext(text: string, i: nat)
    requires i < |text|
    ensures OpChars(text[..i + 1]) == OpChars(text[..i]) + (if IsOpChar(text[i]) then [text[i]] else [])
  {
    assert text[..i + 1][..i] == text[..i];
  }

  lemma DoneNext(p: string, c: char)
    ensures Done(p + [c]) == if IsAlnum(c) || TrailingRun(p) == [] then Done(p) else Done(p) + [TrailingRun(p)]
  {
    assert (p + [c])[..|p|] == p;
  }

  /** The class of the last lexeme is an operand exactly when the text ends in a run. */
  lemma OperandClass(p: string)
    ensures Classify(p) in {Variable, Constant} <==> TrailingRun(p) != []
    ensures Classify(p) == Constant ==> IsDigit(TrailingRun(p)[0])
    ensures Classify(p) == Variable ==> !IsDigit(TrailingRun(p)[0])
  {
  }

  /** The operands emitted so far are those of `base` followed by the runs the text read
      so far has ended. */
  predicate OperandTally(text: string, n: nat, base: seq<Token>, postfix: seq<Token>)
    requires n <= |text|
  {
    Operands(postfix) == Operands(base) + Lexemes(Done(Strip(text[..n])))
  }

  /** The operators emitted or stacked so far are those of `base` and those of the text
      read so far. */
  predicate OpTally(text: string, n: nat, base: seq<Token>, postfix: seq<Token>, stack: seq<Token>)
    requires n <= |text|
  {
    multiset(Ops(postfix)) + multiset(Ops(stack)) == multiset(Ops(base)) + multiset(OpChars(text[..n]))
  }

  /** The scan state's class and token buffer agree with the text read so far. */
  predicate Lexed(text: string, n: nat, s: Scan)
    requires n <= |text|
  {
    s.last == Classify(Strip(text[..n])) && s.token == TrailingRun(Strip(text[..n]))
  }

  /** The operand a pending run stands for, if there is one. */
  function Pending(p: string): seq<Token> {
    var run := TrailingRun(p);
    if run == [] then [] else [Operand(run)]
  }

  /** `pushOperand` emits the run the text ends with, as its operand. */
  lemma PushOperandTally(text: string, i: nat, s: Scan)
    requires i <= |text| && Lexed(text, i, s)
    ensures Operands(PushOperand(s).postfix) == Operands(s.postfix) + Pending(Strip(text[..i]))
  {
    var r := PushOperand(s);
    OperandClass(Strip(text[..i]));
    if |r.postfix| == |s.postfix| + 1 {
      assert r.postfix == s.postfix + [r.postfix[|s.postfix|]];
      OperandsAppend(s.postfix, [r.postfix[|s.postfix|]]);
    } else {
      assert r.postfix == s.postfix;
    }
  }

  /** `pushOperand` emits no operator. */
  lemma PushOperandOps(s: Scan)
    ensures Ops(PushOperand(s).postfix) == Ops(s.postfix)
  {
    var r := PushOperand(s);
    if |r.postfix| == |s.postfix| + 1 {
      assert r.postfix == s.postfix + [r.postfix[|s.postfix|]];
      OpsAppend(s.postfix, [r.postfix[|s.postfix|]]);
    } else {
      assert r.postfix == s.postfix;
    }
  }

  lemma MultisetShift(a: multiset<char>, b: multiset<char>, base: multiset<char>, t: multiset<char>, c: multiset<char>)
    requires a + b == base + t
    ensures a + (b + c) == base + (t + c)
  {
    assert a + (b + c) == (a + b) + c;
    assert base + (t + c) == (base + t) + c;
  }

  // ----- the scan step by step -----

  /** A character that is not a bracket or an operator ends no run and emits nothing. */
  lemma QuietText(text: string, i: nat)
    requires i < |text|
    requires var c := text[i]; IsWhiteSpace(c) || IsAlnum(c) || (c == '(' && Classify(Strip(text[..i])) !in {Variable, Constant})
    ensures Done(Strip(text[..i + 1])) == Done(Strip(text[..i]))
    ensures OpChars(text[..i + 1]) == OpChars(text[..i])
  {
    StripNext(text, i);
    OpCharsNext(text, i);
    if !IsWhiteSpace(text[i]) {
      DoneNext(Strip(text[..i]), text[i]);
      OperandClass(Strip(text[..i]));
    }
  }

  /** A `)` or an operator ends the run before it, if there is one. */
  lemma EmitText(text: string, i: nat)
    requires i < |text| && !IsWhiteSpace(text[i]) && !IsAlnum(text[i])
    ensures Lexemes(Done(Strip(text[..i + 1]))) == Lexemes(Done(Strip(text[..i]))) + Pending(Strip(text[..i]))
  {
    var p := Strip(text[..i]);
    StripNext(text, i);
    DoneNext(p, text[i]);
    if TrailingRun(p) != [] {
      LexemesAppend(Done(p), TrailingRun(p));
    }
  }

  /** A `)` or an operator emits the pending operand, then operators only. */
  lemma EmitTally(text: string, i: nat, base: seq<Token>, postfix: seq<Token>, out: seq<Token>, moved: seq<Token>)
    requires i < |text| && !IsWhiteSpace(text[i]) && !IsAlnum(text[i])
    requires OperandTally(text, i, base, postfix)
    requires Operands(out) == Operands(postfix) + Pending(Strip(text[..i]))
    requires forall j :: 0 <= j < |moved| ==> moved[j].BinOp?
    ensures OperandTally(text, i + 1, base, out + Reverse(moved))
  {
    EmitText(text, i);
    MoveOperands(out, moved);
    var b := Operands(base);
    var l := Lexemes(Done(Strip(text[..i])));
    var x := Pending(Strip(text[..i]));
    AppendAssoc(b, l, x);
  }

  lemma OpsDropOpen(stack: seq<Token>, k: nat)
    requires 0 < k <= |stack| && stack[k - 1] == Open
    ensures Ops(stack[..k]) == Ops(stack[..k - 1])
  {
    assert stack[..k][..k - 1] == stack[..k - 1];
  }

  lemma OpsPush(stack: seq<Token>, op: BinaryOperator)
    ensures multiset(Ops(stack + [BinOp(op)])) == multiset(Ops(stack)) + multiset{Symbol(op)}
  {
    assert (stack + [BinOp(op)])[..|stack|] == stack;
  }

  /** The `)` step moves the operators above the `(` and drops the `(`. */
  lemma CloseOps(text: string, i: nat, base: seq<Token>, postfix: seq<Token>, out: seq<Token>, stack: seq<Token>, k: nat)
    requires i < |text| && text[i] == ')'
    requires OpTally(text, i, base, postfix, stack)
    requires Ops(out) == Ops(postfix)
    requires 0 < k <= |stack| && stack[k - 1] == Open
    ensures OpTally(text, i + 1, base, out + Reverse(stack[k..]), stack[..k - 1])
  {
    OpCharsNext(text, i);
    MoveOps(out, stack, k);
    OpsDropOpen(stack, k);
  }

  /** An operator step moves some operators to the output and stacks the new one. */
  lemma OperatorOps(text: string, i: nat, base: seq<Token>, postfix: seq<Token>, out: seq<Token>, stack: seq<Token>, k: nat, op: BinaryOperator)
    requires i < |text| && text[i] == Symbol(op)
    requires OpTally(text, i, base, postfix, stack)
    requires Ops(out) == Ops(postfix)
    requires k <= |stack|
    ensures OpTally(text, i + 1, base, out + Reverse(stack[k..]), stack[..k] + [BinOp(op)])
  {
    var moved := out + Reverse(stack[k..]);
    OpCharsNext(text, i);
    MoveOps(out, stack, k);
    OpsPush(stack[..k], op);
    assert multiset(OpChars(text[..i + 1])) == multiset(OpChars(text[..i])) + multiset{Symbol(op)};
    MultisetShift(multiset(Ops(moved)), multiset(Ops(stack[..k])), multiset(Ops(base)), multiset(OpChars(text[..i])), multiset{Symbol(op)});
  }

  /** What a successful `)` step does to the stack and the output. */
  lemma CloseShape(text: string, i: nat, s: Scan) returns (k: nat)
    requires i < |text| && text[i] == ')' && StackOk(s.stack)
    requires Step(text, i, s).Running?
    ensures 0 < k <= |s.stack| && s.stack[k - 1] == Open
    ensures forall j :: k <= j < |s.stack| ==> s.stack[j].BinOp?
    ensures Step(text, i, s).scan.postfix == PushOperand(s).postfix + Reverse(s.stack[k..])
    ensures Step(text, i, s).scan.stack == s.stack[..k - 1]
  {
    var s1 := PushOperand(s);
    var r := PopToOpen(s1.stack, s1.postfix);
    StepAtClose(text, i, s);
    k := |r.0|;
    KeptOpen(s.stack, r.0);
  }

  /** What the `)` loop keeps, when it finds a `(`, ends in that `(` below only operators. */
  lemma KeptOpen(stack: seq<Token>, kept: seq<Token>)
    requires StackOk(stack) && kept <= stack && kept != [] && kept[|kept| - 1].Text() == "("
    requires forall i :: |kept| <= i < |stack| ==> stack[i].Text() != "("
    ensures stack[|kept| - 1] == Open && kept[..|kept| - 1] == stack[..|kept| - 1]
    ensures forall j :: |kept| <= j < |stack| ==> stack[j].BinOp?
  {
    var k := |kept|;
    MovedOperators(stack, k);
    assert kept[k - 1] == stack[k - 1];
    OpenText(stack[k - 1]);
  }

  lemma CloseTally(text: string, i: nat, s: Scan, base: seq<Token>)
    requires i < |text| && text[i] == ')' && Lexed(text, i, s) && StackOk(s.stack)
    requires OperandTally(text, i, base, s.postfix) && OpTally(text, i, base, s.postfix, s.stack)
    requires Step(text, i, s).Running?
    ensures var t := Step(text, i, s).scan;
      OperandTally(text, i + 1, base, t.postfix) && OpTally(text, i + 1, base, t.postfix, t.stack)
  {
    var k := CloseShape(text, i, s);
    var t := Step(text, i, s).scan;
    CloseTallyAt(text, i, s, base, k, t.postfix, t.stack);
  }

  /** The tallies after a `)` step, given what the step does to the stack and the output. */
  lemma CloseTallyAt(text: string, i: nat, s: Scan, base: seq<Token>, k: nat, postfix: seq<Token>, stack: seq<Token>)
    requires i < |text| && text[i] == ')' && Lexed(text, i, s)
    requires OperandTally(text, i, base, s.postfix) && OpTally(text, i, base, s.postfix, s.stack)
    requires 0 < k <= |s.stack| && s.stack[k - 1] == Open
    requires forall j :: k <= j < |s.stack| ==> s.stack[j].BinOp?
    requires postfix == PushOperand(s).postfix + Reverse(s.stack[k..]) && stack == s.stack[..k - 1]
    ensures OperandTally(text, i + 1, base, postfix) && OpTally(text, i + 1, base, postfix, stack)
  {
    var moved := s.stack[k..];
    forall j | 0 <= j < |moved| ensures moved[j].BinOp? {
      assert moved[j] == s.stack[k + j];
    }
    PushOperandTally(text, i, s);
    PushOperandOps(s);
    EmitTally(text, i, base, s.postfix, PushOperand(s).postfix, moved);
    CloseOps(text, i, base, s.postfix, PushOperand(s).postfix, s.stack, k);
  }

  lemma OperatorTally(text: string, i: nat, s: Scan, base: seq<Token>)
    requires i < |text| && Lexed(text, i, s)
    requires OperandTally(text, i, base, s.postfix) && OpTally(text, i, base, s.postfix, s.stack)
    requires var c := text[i]; !IsWhiteSpace(c) && !IsAlnum(c) && c != '(' && c != ')'
    requires Step(text, i, s).Running?
    ensures var t := Step(text, i, s).scan;
      OperandTally(text, i + 1, base, t.postfix) && OpTally(text, i + 1, base, t.postfix, t.stack)
  {
    var op := SelectOperator(text[i]).value;
    var s1 := PushOperand(s).(last := Operator);
    var (stack, out) := PopHigher(s1.stack, s1.postfix, OperatorOrder(op));
    var k := |stack|;
    assert s.stack[..k] == stack;
    PushOperandTally(text, i, s);
    PushOperandOps(s);
    EmitTally(text, i, base, s.postfix, s1.postfix, s.stack[k..]);
    OperatorOps(text, i, base, s.postfix, s1.postfix, s.stack, k, op);
  }

  /** A blank, a letter or a digit changes neither the stack nor the output. */
  lemma QuietShape(text: string, i: nat, s: Scan)
    requires i < |text| && (IsWhiteSpace(text[i]) || IsAlnum(text[i])) && Step(text, i, s).Running?
    ensures Step(text, i, s).scan.postfix == s.postfix && Step(text, i, s).scan.stack == s.stack
  {
  }

  /** An accepted `(` is stacked and emits nothing. */
  lemma OpenShape(text: string, i: nat, s: Scan)
    requires i < |text| && text[i] == '(' && Step(text, i, s).Running?
    ensures Step(text, i, s).scan.postfix == s.postfix && Step(text, i, s).scan.stack == s.stack + [Open]
  {
    assert !IsWhiteSpace('(') && !IsDigit('(') && !IsLetter('(');
  }

  lemma StepTally(text: string, i: nat, s: Scan, base: seq<Token>)
    requires i < |text| && Lexed(text, i, s) && StackOk(s.stack)
    requires OperandTally(text, i, base, s.postfix) && OpTally(text, i, base, s.postfix, s.stack)
    requires Step(text, i, s).Running?
    ensures var t := Step(text, i, s).scan;
      OperandTally(text, i + 1, base, t.postfix) && OpTally(text, i + 1, base, t.postfix, t.stack)
  {
    var c := text[i];
    if IsWhiteSpace(c) || IsAlnum(c) {
      QuietShape(text, i, s);
      QuietText(text, i);
    } else if c == '(' {
      OpenShape(text, i, s);
      QuietText(text, i);
      OpsAppend(s.stack, [Open]);
    } else if c == ')' {
      CloseTally(text, i, s, base);
    } else {
      OperatorTally(text, i, s, base);
    }
  }

  /** Nothing read, nothing emitted or stacked. */
  lemma TallyStart(text: string, base: seq<Token>)
    ensures OperandTally(text, 0, base, base) && OpTally(text, 0, base, base, [])
  {
    assert text[..0] == [];
    assert Operands(base) + Lexemes(Done(Strip([]))) == Operands(base);
  }

  /** The part of the scan invariant the output lemmas need. */
  lemma LoopLexed(text: string, n: nat, init: Scan)
    requires n <= |text|
    requires init.token == "" && init.stack == [] && init.last == Start
    ensures Loop(text, n, init).Running? ==> Lexed(text, n, Loop(text, n, init).scan) && StackOk(Loop(text, n, init).scan.stack)
  {
    LoopMatches(text, n, init);
  }

  lemma {:induction false} LoopTally(text: string, n: nat, init: Scan)
    requires n <= |text|
    requires init.token == "" && init.stack == [] && init.last == Start
    ensures Loop(text, n, init).Running? ==>
      var t := Loop(text, n, init).scan;
      OperandTally(text, n, init.postfix, t.postfix) && OpTally(text, n, init.postfix, t.postfix, t.stack)
    decreases n
  {
    if n == 0 {
      TallyStart(text, init.postfix);
    } else if Loop(text, n, init).Running? {
      LoopTally(text, n - 1, init);
      LoopLexed(text, n - 1, init);
      StepTally(text, n - 1, Loop(text, n - 1, init).scan, init.postfix);
    }
  }

  /** The final loop moves the whole stack to the output. */
  lemma {:induction false} DrainTally(text: string, s: Scan)
    requires StackOk(s.stack) && Drain(text, s).Running?
    ensures Operands(Drain(text, s).scan.postfix) == Operands(s.postfix)
    ensures multiset(Ops(Drain(text, s).scan.postfix)) == multiset(Ops(s.postfix)) + multiset(Ops(s.stack))
    decreases |s.stack|
  {
    if s.stack != [] {
      var n := |s.stack|;
      var top := s.stack[n - 1];
      var s' := s.(stack := s.stack[..n - 1], postfix := s.postfix + [top]);
      DrainTally(text, s');
      OperandsAppend(s.postfix, [top]);
      OpsAppend(s.postfix, [top]);
      OpsAppend(s.stack[..n - 1], [top]);
      SplitLast(s.stack);
      OpenText(top);
      assert Ops([top]) == [Symbol(top.op)];
    }
  }

  /** The runs of a text are those already ended and the pending one. */
  lemma WordsLexemes(p: string)
    ensures Lexemes(Words(p)) == Lexemes(Done(p)) + Pending(p)
  {
    if TrailingRun(p) != [] {
      LexemesAppend(Done(p), TrailingRun(p));
    } else {
      assert Words(p) == Done(p);
    }
  }

  /** The operands the whole scan emits when it succeeds. */
  lemma FinishOperands(text: string, init: Scan)
    requires init.token == "" && init.stack == [] && init.last == Start
    requires Finish(text, Loop(text, |text|, init)).Running?
    ensures Operands(Finish(text, Loop(text, |text|, init)).scan.postfix) == Operands(init.postfix) + Lexemes(Words(Strip(text)))
  {
    var s := Loop(text, |text|, init).scan;
    LoopTally(text, |text|, init);
    LoopLexed(text, |text|, init);
    DrainOperands(text, s, init.postfix);
  }

  /** From the state the loop ends in, the last operand and the drained stack complete the
      operands of the whole text. */
  lemma DrainOperands(text: string, s: Scan, base: seq<Token>)
    requires OperandTally(text, |text|, base, s.postfix) && Lexed(text, |text|, s) && StackOk(s.stack)
    requires Drain(text, PushOperand(s)).Running?
    ensures Operands(Drain(text, PushOperand(s)).scan.postfix) == Operands(base) + Lexemes(Words(Strip(text)))
  {
    var q := PushOperand(s);
    var w := Strip(text[..|text|]);
    PushOperandTally(text, |text|, s);
    DrainTally(text, q);
    var b := Operands(base);
    var d := Lexemes(Done(w));
    var x := Pending(w);
    assert Operands(Drain(text, q).scan.postfix) == (b + d) + x;
    WordsLexemes(w);
    AppendAssoc(b, d, x);
    assert text[..|text|] == text;
  }

  lemma AppendAssoc(b: seq<Token>, d: seq<Token>, x: seq<Token>)
    ensures (b + d) + x == b + (d + x)
  {
  }

  /** The operators the whole scan emits when it succeeds. */
  lemma FinishOps(text: string, init: Scan)
    requires init.token == "" && init.stack == [] && init.last == Start
    requires Finish(text, Loop(text, |text|, init)).Running?
    ensures multiset(Ops(Finish(text, Loop(text, |text|, init)).scan.postfix)) == multiset(Ops(init.postfix)) + multiset(OpChars(text))
  {
    var s := Loop(text, |text|, init).scan;
    LoopTally(text, |text|, init);
    LoopLexed(text, |text|, init);
    assert text[..|text|] == text;
    PushOperandOps(s);
    DrainTally(text, PushOperand(s));
  }

  /** On success, a parse appends the text's runs of letters and digits as operands, in
      input order, after the operands already in the list; and it appends each operator
      character of the text exactly once. */
  lemma ParseOutput(e: Expression, text: string)
    requires Parse(e, text).result.Success?
    ensures Operands(Parse(e, text).expr.postfix) == Operands(e.postfix) + Lexemes(Words(Strip(text)))
    ensures multiset(Ops(Parse(e, text).expr.postfix)) == multiset(Ops(e.postfix)) + multiset(OpChars(text))
  {
    ParseOutcome(e, text);
    FinishOperands(text, Initial(e));
    FinishOps(text, Initial(e));
  }
}
