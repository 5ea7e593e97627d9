/** Which texts `Expression.Parse` accepts, described on the text itself.

    The scan's `last` state and token buffer are functions of the blank-free text read so
    far: `Classify` gives the class of its last lexeme and `TrailingRun` the letters and
    digits it ends with. A character is admissible after a lexeme class as the
    adjacency rules of MathParser/Expression.cs:170-229 say, and the brackets must balance.
    `ParseSucceedsIff` shows that exactly the texts meeting these rules parse. */
module ExpressionSyntax {
  import opened Wrappers
  import opened Chars
  import opened Errors
  import opened ParserTokens
  import opened Expressions

  /** The letters and digits `p` ends with. */
  function TrailingRun(p: string): (r: string)
    ensures |r| <= |p| && r == p[|p| - |r|..]
    ensures forall i :: 0 <= i < |r| ==> IsAlnum(r[i])
    ensures |p| > 0 && IsAlnum(p[|p| - 1]) <==> |r| > 0
  {
    if p == [] || !IsAlnum(p[|p| - 1]) then []
    else
      var r := TrailingRun(p[..|p| - 1]);
      assert p[..|p| - 1][|p| - 1 - |r|..] + [p[|p| - 1]] == p[|p| - 1 - |r|..];
      r + [p[|p| - 1]]
  }

  /** The class of the last lexeme of a blank-free text: nothing, a bracket, an operand
      (a number when its run of letters and digits starts with a digit), or an operator. */
  function Classify(p: string): TokenType {
    if p == [] then Start
    else
      var c := p[|p| - 1];
      if IsAlnum(c) then (if IsDigit(TrailingRun(p)[0]) then Constant else Variable)
      else if c == '(' then BracketO
      else if c == ')' then BracketC
      else Operator
  }

  /** The adjacencies `Parse` rejects with a `WrongSymbolException`: a digit after `)`;
      a letter after `)` or a number; `(` after `)` or an operand; and `)` or any other
      symbol at the start, after `(` or after an operator. */
  predicate Forbidden(prev: TokenType, c: char) {
    if IsDigit(c) then prev == BracketC
    else if IsLetter(c) then prev == BracketC || prev == Constant
    else if c == '(' then prev == BracketC || prev == Variable || prev == Constant
    else prev == BracketO || prev == Operator || prev == Start
  }

  /** A character allowed after a lexeme of class `prev`: not a forbidden adjacency, and a
      symbol other than a bracket must be one of the five operators. */
  predicate Admissible(prev: TokenType, c: char) {
    !Forbidden(prev, c) && (IsAlnum(c) || c == '(' || c == ')' || IsOpChar(c))
  }

  /** The character at `i` is blank, or admissible where it stands and, if it is `)`, has
      an unclosed `(` before it. */
  predicate PositionOk(text: string, i: nat)
    requires i < |text|
  {
    || IsWhiteSpace(text[i])
    || (Admissible(Classify(Strip(text[..i])), text[i]) && (text[i] == ')' ==> Depth(text[..i]) > 0))
  }

  /** Every position before `n` is fine. */
  predicate PrefixOk(text: string, n: nat)
    requires n <= |text|
  {
    n == 0 || (PrefixOk(text, n - 1) && PositionOk(text, n - 1))
  }

  /** The texts `Parse` accepts. */
  predicate WellFormed(text: string) {
    PrefixOk(text, |text|) && Depth(text) == 0
  }

  /** The scan state after `n` characters, described by the text read so far. */
  predicate Matches(text: string, n: nat, s: Scan)
    requires n <= |text|
  {
    var p := Strip(text[..n]);
    && s.last == Classify(p)
    && s.token == TrailingRun(p)
    && StackOk(s.stack)
    && Count(Open, s.stack) == Depth(text[..n])
  }

  // ----- helpers about the reference functions -----

  /** Appending one non-blank character to a blank-free text: how its trailing run and
      the class of its last lexeme change. */
  lemma AppendChar(p: string, c: char)
    requires !IsWhiteSpace(c)
    ensures TrailingRun(p + [c]) == if IsAlnum(c) then TrailingRun(p) + [c] else []
    ensures Classify(p + [c]) ==
      if IsDigit(c) then (if Classify(p) == Variable then Variable else Constant)
      else if IsLetter(c) then (if Classify(p) == Constant then Constant else Variable)
      else if c == '(' then BracketO
      else if c == ')' then BracketC
      else Operator
  {
    var q := p + [c];
    assert q[..|q| - 1] == p;
    if IsAlnum(c) && TrailingRun(p) != [] {
      assert TrailingRun(q)[0] == TrailingRun(p)[0];
    }
  }

  lemma StripNext(text: string, i: nat)
    requires i < |text|
    ensures IsWhiteSpace(text[i]) ==> Strip(text[..i + 1]) == Strip(text[..i])
    ensures !IsWhiteSpace(text[i]) ==> Strip(text[..i + 1]) == Strip(text[..i]) + [text[i]]
    ensures Depth(text[..i + 1]) == Depth(text[..i]) + (if text[i] == '(' then 1 else if text[i] == ')' then -1 else 0)
  {
    assert text[..i + 1][..i] == text[..i];
  }

  /** A token's text is `(` exactly when it is the marker, on a well-formed stack. */
  lemma OpenText(t: Token)
    requires t == Open || t.BinOp?
    ensures t.Text() == "(" <==> t == Open
  {
    if t.BinOp? {
      assert t.Text() == [Symbol(t.op)];
    }
  }

  /** Removing operators from the top of the stack removes no `(`. */
  lemma {:induction false} CountPopped(stack: seq<Token>, k: nat)
    requires k <= |stack|
    requires forall i :: k <= i < |stack| ==> stack[i].BinOp?
    ensures Count(Open, stack) == Count(Open, stack[..k])
    decreases |stack| - k
  {
    if k == |stack| {
      assert stack[..k] == stack;
    } else {
      CountPopped(stack, k + 1);
      assert stack[..k + 1][..k] == stack[..k];
      assert stack[..k + 1][k] != Open;
    }
  }

  /** The `)` loop finds a `(` exactly when one is stacked, and removes one `(`. */
  lemma PopToOpenCount(stack: seq<Token>, out: seq<Token>)
    requires StackOk(stack)
    ensures var r := PopToOpen(stack, out);
      && (r.0 != [] <==> Count(Open, stack) > 0)
      && (r.0 != [] ==> StackOk(r.0[..|r.0| - 1]) && Count(Open, r.0[..|r.0| - 1]) + 1 == Count(Open, stack))
  {
    var r := PopToOpen(stack, out);
    OpenFound(stack, r.0);
  }

  /** What the `)` loop leaves, `kept`, ends in a `(` exactly when the stack holds one,
      and that `(` is the one removed. */
  lemma OpenFound(stack: seq<Token>, kept: seq<Token>)
    requires StackOk(stack) && kept <= stack
    requires kept == [] || kept[|kept| - 1].Text() == "("
    requires forall i :: |kept| <= i < |stack| ==> stack[i].Text() != "("
    ensures kept != [] <==> Count(Open, stack) > 0
    ensures kept != [] ==> StackOk(kept[..|kept| - 1]) && Count(Open, kept[..|kept| - 1]) + 1 == Count(Open, stack)
  {
    var k := |kept|;
    MovedOperators(stack, k);
    CountPopped(stack, k);
    assert stack[..k] == kept;
    if k > 0 {
      LastOpen(stack, kept);
    }
  }

  /** Above what the `)` loop keeps there are only operators. */
  lemma MovedOperators(stack: seq<Token>, k: nat)
    requires StackOk(stack) && k <= |stack|
    requires forall i :: k <= i < |stack| ==> stack[i].Text() != "("
    ensures forall i :: k <= i < |stack| ==> stack[i].BinOp?
  {
    forall j | k <= j < |stack| ensures stack[j].BinOp? {
      OpenText(stack[j]);
    }
  }

  /** Removing the `(` a kept prefix ends in removes one `(` and keeps a well-formed stack. */
  lemma LastOpen(stack: seq<Token>, kept: seq<Token>)
    requires StackOk(stack) && kept <= stack
    requires kept != [] && kept[|kept| - 1].Text() == "("
    ensures StackOk(kept[..|kept| - 1]) && Count(Open, kept[..|kept| - 1]) + 1 == Count(Open, kept)
  {
    var k := |kept|;
    assert kept[k - 1] == stack[k - 1];
    OpenText(kept[k - 1]);
    var below := kept[..k - 1];
    forall i | 0 <= i < |below| ensures below[i] == Open || below[i].BinOp? {
      assert below[i] == stack[i];
    }
  }

  /** The operator loop pops no `(`, so pushing the operator keeps the count of `(`. */
  lemma PopHigherCount(stack: seq<Token>, out: seq<Token>, op: BinaryOperator)
    requires StackOk(stack)
    ensures var r := PopHigher(stack, out, OperatorOrder(op));
      StackOk(r.0 + [BinOp(op)]) && Count(Open, r.0 + [BinOp(op)]) == Count(Open, stack)
  {
    var r := PopHigher(stack, out, OperatorOrder(op));
    PushAbove(stack, r.0, op);
  }

  /** What the operator loop keeps is a prefix below only operators; pushing an operator
      on it keeps the stack well formed and its count of `(`. */
  lemma PushAbove(stack: seq<Token>, kept: seq<Token>, op: BinaryOperator)
    requires StackOk(stack) && kept <= stack
    requires forall i :: |kept| <= i < |stack| ==> stack[i].BinOp?
    ensures StackOk(kept + [BinOp(op)]) && Count(Open, kept + [BinOp(op)]) == Count(Open, stack)
  {
    var k := |kept|;
    assert stack[..k] == kept;
    CountPopped(stack, k);
    CountAppend(Open, kept, [BinOp(op)]);
    var pushed := kept + [BinOp(op)];
    forall i | 0 <= i < |pushed| ensures pushed[i] == Open || pushed[i].BinOp? {
      if i < k {
        assert pushed[i] == stack[i];
      }
    }
  }

  // ----- the scan step by step -----

  /** What one turn of the loop does on `)`. */
  lemma StepAtClose(text: string, i: nat, s: Scan)
    requires i < |text| && text[i] == ')'
    ensures s.last == BracketO || s.last == Operator || s.last == Start ==> Step(text, i, s) == Failed(s, WrongSymbolAt(text, i))
    ensures s.last != BracketO && s.last != Operator && s.last != Start ==>
      var s1 := PushOperand(s);
      var r := PopToOpen(s1.stack, s1.postfix);
      Step(text, i, s) == if r.0 == [] then Failed(s1.(stack := r.0, postfix := r.1), Syntax(text, BracketMismatch, -1))
                          else Running(s1.(last := BracketC, stack := r.0[..|r.0| - 1], postfix := r.1))
  {
    assert !IsWhiteSpace(')') && !IsDigit(')') && !IsLetter(')');
  }

  lemma CloseStep(text: string, i: nat, s: Scan)
    requires i < |text| && Matches(text, i, s) && text[i] == ')'
    ensures Step(text, i, s).Running? <==> PositionOk(text, i)
    ensures Step(text, i, s).Running? ==> Matches(text, i + 1, Step(text, i, s).scan)
  {
    StepAtClose(text, i, s);
    PositionOkAt(text, i, s.last);
    if s.last != BracketO && s.last != Operator && s.last != Start {
      var s1 := PushOperand(s);
      var r := PopToOpen(s1.stack, s1.postfix);
      PopToOpenCount(s1.stack, s1.postfix);
      assert r.0 != [] <==> Depth(text[..i]) > 0;
      if r.0 != [] {
        CloseMatches(text, i, s, s1.(last := BracketC, stack := r.0[..|r.0| - 1], postfix := r.1));
      }
    }
  }

  /** Whether a non-blank character is fine depends on the text before it only through
      the class of its last lexeme and, for `)`, its depth. */
  lemma PositionOkAt(text: string, i: nat, prev: TokenType)
    requires i < |text| && !IsWhiteSpace(text[i]) && Classify(Strip(text[..i])) == prev
    ensures PositionOk(text, i) <==> Admissible(prev, text[i]) && (text[i] == ')' ==> Depth(text[..i]) > 0)
  {
  }

  /** After a `)` that closes a bracket, the scan state agrees with the text again. */
  lemma CloseMatches(text: string, i: nat, s: Scan, t: Scan)
    requires i < |text| && Matches(text, i, s) && text[i] == ')'
    requires s.last != BracketO && s.last != Operator && s.last != Start
    requires var s1 := PushOperand(s);
      var r := PopToOpen(s1.stack, s1.postfix);
      r.0 != [] && t == s1.(last := BracketC, stack := r.0[..|r.0| - 1], postfix := r.1)
    ensures Matches(text, i + 1, t)
  {
    CloseLexed(text, i);
    var s1 := PushOperand(s);
    PopToOpenCount(s1.stack, s1.postfix);
  }

  /** The text read so far after a `)`: it ends in a closing bracket, with no run of
      letters and digits pending, one level shallower. */
  lemma CloseLexed(text: string, i: nat)
    requires i < |text| && text[i] == ')'
    ensures Classify(Strip(text[..i + 1])) == BracketC && TrailingRun(Strip(text[..i + 1])) == []
    ensures Depth(text[..i + 1]) == Depth(text[..i]) - 1
  {
    StripNext(text, i);
    AppendChar(Strip(text[..i]), ')');
  }

  lemma OperatorStep(text: string, i: nat, s: Scan)
    requires i < |text| && Matches(text, i, s)
    requires var c := text[i]; !IsWhiteSpace(c) && !IsAlnum(c) && c != '(' && c != ')'
    ensures Step(text, i, s).Running? <==> PositionOk(text, i)
    ensures Step(text, i, s).Running? ==> Matches(text, i + 1, Step(text, i, s).scan)
  {
    var c := text[i];
    StripNext(text, i);
    AppendChar(Strip(text[..i]), c);
    if IsOpChar(c) {
      var s1 := PushOperand(s).(last := Operator);
      PopHigherCount(s1.stack, s1.postfix, SelectOperator(c).value);
    }
  }

  lemma OperandStep(text: string, i: nat, s: Scan)
    requires i < |text| && Matches(text, i, s) && IsAlnum(text[i])
    ensures Step(text, i, s).Running? <==> PositionOk(text, i)
    ensures Step(text, i, s).Running? ==> Matches(text, i + 1, Step(text, i, s).scan)
  {
    StripNext(text, i);
    AppendChar(Strip(text[..i]), text[i]);
  }

  lemma OpenStep(text: string, i: nat, s: Scan)
    requires i < |text| && Matches(text, i, s) && text[i] == '('
    ensures Step(text, i, s).Running? <==> PositionOk(text, i)
    ensures Step(text, i, s).Running? ==> Matches(text, i + 1, Step(text, i, s).scan)
  {
    StripNext(text, i);
    AppendChar(Strip(text[..i]), '(');
    CountAppend(Open, s.stack, [Open]);
  }

  lemma BlankStep(text: string, i: nat, s: Scan)
    requires i < |text| && Matches(text, i, s) && IsWhiteSpace(text[i])
    ensures Step(text, i, s) == Running(s) && PositionOk(text, i) && Matches(text, i + 1, s)
  {
    StripNext(text, i);
  }

  lemma StepMatches(text: string, i: nat, s: Scan)
    requires i < |text| && Matches(text, i, s)
    ensures Step(text, i, s).Running? <==> PositionOk(text, i)
    ensures Step(text, i, s).Running? ==> Matches(text, i + 1, Step(text, i, s).scan)
  {
    var c := text[i];
    if IsWhiteSpace(c) {
      BlankStep(text, i, s);
    } else if IsAlnum(c) {
      OperandStep(text, i, s);
    } else if c == '(' {
      OpenStep(text, i, s);
    } else if c == ')' {
      CloseStep(text, i, s);
    } else {
      OperatorStep(text, i, s);
    }
  }

  lemma {:induction false} LoopMatches(text: string, n: nat, init: Scan)
    requires n <= |text|
    requires init.token == "" && init.stack == [] && init.last == Start
    ensures Loop(text, n, init).Running? <==> PrefixOk(text, n)
    ensures Loop(text, n, init).Running? ==> Matches(text, n, Loop(text, n, init).scan)
    decreases n
  {
    if n == 0 {
      assert text[..0] == [];
    } else {
      LoopMatches(text, n - 1, init);
      if Loop(text, n - 1, init).Running? {
        StepMatches(text, n - 1, Loop(text, n - 1, init).scan);
      }
    }
  }

  /** The final loop succeeds exactly when no `(` is left on the stack. */
  lemma {:induction false} DrainIff(text: string, s: Scan)
    requires StackOk(s.stack)
    ensures Drain(text, s).Running? <==> Count(Open, s.stack) == 0
    ensures Drain(text, s).Failed? ==> Drain(text, s).error == Syntax(text, BracketMismatch, -1)
    decreases |s.stack|
  {
    if s.stack != [] {
      var n := |s.stack|;
      var top := s.stack[n - 1];
      assert s.stack[..n - 1] + [top] == s.stack;
      CountAppend(Open, s.stack[..n - 1], [top]);
      OpenText(top);
      if top.Text() != "(" && top.Text() != ")" {
        DrainIff(text, s.(stack := s.stack[..n - 1], postfix := s.postfix + [top]));
      }
    }
  }

  /** `Parse` succeeds exactly on the well-formed texts: every character admissible after
      the lexeme before it, only the five operator symbols, and balanced brackets. */
  lemma ParseSucceedsIff(e: Expression, text: string)
    ensures Parse(e, text).result.Success? <==> WellFormed(text)
  {
    var init := Initial(e);
    LoopMatches(text, |text|, init);
    assert text[..|text|] == text;
    var p := Loop(text, |text|, init);
    if p.Running? {
      DrainIff(text, PushOperand(p.scan));
    }
  }

  // ----- where the errors come from -----

  /** Once the loop has failed it stays failed with the same exception. */
  lemma {:induction false} FailureSticks(text: string, i: nat, n: nat, init: Scan)
    requires i <= n <= |text|
    requires Loop(text, i, init).Failed?
    ensures Loop(text, n, init).Failed? && Loop(text, n, init).error == Loop(text, i, init).error
    decreases n - i
  {
    if i < n {
      FailureSticks(text, i, n - 1, init);
    }
  }

  /** The loop fails at character `i` with the exception `Step` gives there. */
  lemma FailsAt(text: string, i: nat, init: Scan)
    requires i < |text| && Loop(text, i, init).Running?
    requires Step(text, i, Loop(text, i, init).scan).Failed?
    ensures Loop(text, |text|, init).Failed? && Finish(text, Loop(text, |text|, init)) == Loop(text, |text|, init)
    ensures Loop(text, |text|, init).error == Step(text, i, Loop(text, i, init).scan).error
  {
    FailureSticks(text, i + 1, |text|, init);
  }

  /** A forbidden adjacency, with everything before it fine, raises a
      `WrongSymbolException` at its own index. */
  lemma ForbiddenRejected(e: Expression, text: string, i: nat)
    requires i < |text| && PrefixOk(text, i)
    requires !IsWhiteSpace(text[i]) && Forbidden(Classify(Strip(text[..i])), text[i])
    ensures Parse(e, text).result == Failure(WrongSymbolAt(text, i))
  {
    var init := Initial(e);
    LoopMatches(text, i, init);
    FailsAt(text, i, init);
  }

  /** A `)` that is admissible where it stands but has no `(` to close is a bracket mismatch. */
  lemma UnopenedCloseRejected(e: Expression, text: string, i: nat)
    requires i < |text| && PrefixOk(text, i) && text[i] == ')'
    requires Admissible(Classify(Strip(text[..i])), ')') && Depth(text[..i]) <= 0
    ensures Parse(e, text).result == Failure(Syntax(text, BracketMismatch, -1))
  {
    var init := Initial(e);
    LoopMatches(text, i, init);
    var s := Loop(text, i, init).scan;
    PopToOpenCount(PushOperand(s).stack, PushOperand(s).postfix);
    FailsAt(text, i, init);
  }

  /** A `(` never closed is a bracket mismatch at the end of the text. */
  lemma UnclosedOpenRejected(e: Expression, text: string)
    requires PrefixOk(text, |text|) && Depth(text) > 0
    ensures Parse(e, text).result == Failure(Syntax(text, BracketMismatch, -1))
  {
    var init := Initial(e);
    LoopMatches(text, |text|, init);
    assert text[..|text|] == text;
    DrainIff(text, PushOperand(Loop(text, |text|, init).scan));
  }

  /** The index of the character whose step made the loop fail. */
  lemma {:induction false} FirstFailure(text: string, m: nat, init: Scan) returns (n: nat)
    requires m <= |text| && Loop(text, m, init).Failed?
    ensures n < m && Loop(text, n, init).Running? && Step(text, n, Loop(text, n, init).scan).Failed?
    ensures Step(text, n, Loop(text, n, init).scan).error == Loop(text, m, init).error
    decreases m
  {
    if Loop(text, m - 1, init).Running? {
      n := m - 1;
    } else {
      n := FirstFailure(text, m - 1, init);
    }
  }

  lemma {:induction false} DrainNoWrongSymbol(text: string, s: Scan)
    ensures Drain(text, s).Failed? ==> Drain(text, s).error == Syntax(text, BracketMismatch, -1)
    decreases |s.stack|
  {
    if s.stack != [] {
      var top := s.stack[|s.stack| - 1];
      if top.Text() != "(" && top.Text() != ")" {
        DrainNoWrongSymbol(text, s.(stack := s.stack[..|s.stack| - 1], postfix := s.postfix + [top]));
      }
    }
  }

  /** What `Parse` returns, in terms of the loop and what follows it. */
  lemma ParseOutcome(e: Expression, text: string)
    ensures var p := Finish(text, Loop(text, |text|, Initial(e)));
      && Parse(e, text).expr == Expression(text, p.scan.variables, p.scan.postfix)
      && Parse(e, text).result == if p.Running? then Success(p.scan.postfix) else Failure(p.error)
  {
  }

  /** A step that throws a `WrongSymbolException` throws it for its own character, which is
      a forbidden adjacency. */
  lemma StepWrongSymbol(text: string, i: nat, s: Scan)
    requires i < |text| && Matches(text, i, s)
    requires Step(text, i, s).Failed? && Step(text, i, s).error.WrongSymbol?
    ensures Step(text, i, s).error == WrongSymbolAt(text, i)
    ensures !IsWhiteSpace(text[i]) && Forbidden(Classify(Strip(text[..i])), text[i])
  {
  }

  /** The failing character behind a `WrongSymbolException` at the end of the scan. */
  lemma FinishWrongSymbol(text: string, init: Scan) returns (i: nat)
    requires init.token == "" && init.stack == [] && init.last == Start
    requires Finish(text, Loop(text, |text|, init)).Failed?
    requires Finish(text, Loop(text, |text|, init)).error.WrongSymbol?
    ensures i < |text| && Finish(text, Loop(text, |text|, init)).error == WrongSymbolAt(text, i)
    ensures PrefixOk(text, i) && !IsWhiteSpace(text[i]) && Forbidden(Classify(Strip(text[..i])), text[i])
  {
    var p := Loop(text, |text|, init);
    if p.Running? {
      DrainNoWrongSymbol(text, PushOperand(p.scan));
      assert false;
    }
    i := FirstFailure(text, |text|, init);
    LoopMatches(text, i, init);
    StepWrongSymbol(text, i, Loop(text, i, init).scan);
  }

  /** Conversely, a `WrongSymbolException` always points at the first position that is not
      fine, and the character there is a forbidden adjacency. */
  lemma WrongSymbolIsFirstFault(e: Expression, text: string, i: int, c: char)
    requires Parse(e, text).result == Failure(WrongSymbol(text, i, c))
    ensures 0 <= i < |text| && text[i] == c && PrefixOk(text, i)
    ensures !IsWhiteSpace(c) && Forbidden(Classify(Strip(text[..i])), c)
  {
    ParseOutcome(e, text);
    var j := FinishWrongSymbol(text, Initial(e));
  }
}
