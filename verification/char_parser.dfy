/** `Parser` of MathParser/Parser.cs: the char-level converter whose operands are single
    letters, and its stack evaluator.

    `ToPostfix` is a left fold of `Step` over the text (`Loop`) followed by the final
    loop (`Drain`). Its partner is `Fault`, which says from the text alone which
    exception the character at `i` raises when the scan reaches it: the stack the scan
    keeps matters only through the bracket depth of the text before `i`. */
module CharParser {
  import opened Wrappers
  import opened Chars
  import opened Errors
  import opened ParserTokens
  import opened CharStacks
  import opened CharTrees

  /** `GetOrder`: the same ranks as the operator tokens of the final design; `^` has
      one even though `Operators` does not admit it. */
  function GetOrder(c: char): (r: int)
    ensures r == -1 <==> !IsOpChar(c)
    ensures IsOpChar(c) ==> SelectOperator(c).Success? && r == OperatorOrder(SelectOperator(c).value)
  {
    match c
    case '^' => 3
    case '*' => 2
    case '/' => 2
    case '+' => 1
    case '-' => 1
    case _ => -1
  }

  datatype Scan = Scan(stack: seq<char>, out: seq<char>)

  datatype Progress = Running(scan: Scan) | Failed(error: Error)

  /** One turn of the `for` loop of `ToPostfix` on `text[i]`. */
  function Step(text: string, i: nat, s: Scan): Progress
    requires i < |text|
  {
    var c := text[i];
    if IsWhiteSpace(c) then Running(s)
    else if IsLetter(c) then
      if i != |text| - 1 && IsLetter(text[i + 1]) then Failed(Syntax(text, OneLetterNames, i))
      else Running(s.(out := s.out + [ToUpper(c)]))
    else if c == '(' then Running(s.(stack := s.stack + [c]))
    else if c == ')' then
      var (stack, out) := PopToOpen(s.stack, s.out);
      if stack == [] then Failed(SyntaxError(text, BracketMismatch))
      else Running(Scan(stack[..|stack| - 1], out))
    else if IsOperator(c) then
      if i == |text| - 1 || IsOperator(text[i + 1]) then Failed(Syntax(text, UnexpectedOperator, i))
      else
        var (stack, out) := PopWhile(s.stack, s.out, GetOrder(c), GetOrder);
        Running(Scan(stack + [c], out))
    else Failed(WrongSymbolAt(text, i))
  }

  /** The `for` loop over the first `n` characters; the first exception ends it. */
  function Loop(text: string, n: nat): Progress
    requires n <= |text|
  {
    if n == 0 then Running(Scan([], []))
    else
      match Loop(text, n - 1)
      case Failed(err) => Failed(err)
      case Running(s) => Step(text, n - 1, s)
  }

  /** `ToPostfix(expr)`: the postfix characters, or the exception raised. */
  function ToPostfix(expr: string): Result<seq<char>, Error> {
    match Loop(expr, |expr|)
    case Failed(err) => Failure(err)
    case Running(s) => Drain(expr, s.stack, s.out)
  }

  /** The exception `text[i]` raises when the scan reaches it, stated on the text: a
      letter followed at once by a letter, an operator that ends the text or is followed
      at once by an operator, a `)` with no bracket open before it, or any character
      that is not a blank, a letter, a bracket or one of `+ - * /`. */
  function Fault(text: string, i: nat): (r: Option<Error>)
    requires i < |text|
    ensures r.Some? ==> r.value.IsParsing() && r.value.expression == text
  {
    var c := text[i];
    if IsWhiteSpace(c) || c == '(' then None
    else if IsLetter(c) then
      if i + 1 < |text| && IsLetter(text[i + 1]) then Some(Syntax(text, OneLetterNames, i)) else None
    else if c == ')' then
      if Depth(text[..i]) <= 0 then Some(SyntaxError(text, BracketMismatch)) else None
    else if IsOperator(c) then
      if i + 1 == |text| || IsOperator(text[i + 1]) then Some(Syntax(text, UnexpectedOperator, i)) else None
    else Some(WrongSymbolAt(text, i))
  }

  /** No character before `n` raises anything. */
  predicate Clean(text: string, n: nat)
    requires n <= |text|
  {
    forall j :: 0 <= j < n ==> Fault(text, j).None?
  }

  /** `j` is the first character that raises something. */
  predicate FirstFault(text: string, j: nat) {
    j < |text| && Fault(text, j).Some? && Clean(text, j)
  }

  /** What the scan keeps after the first `n` characters. */
  predicate Inv(text: string, n: nat, s: Scan)
    requires n <= |text|
  {
    Tally(text[..n], Upper(Letters(text[..n])), s.stack, s.out)
  }

  /** The step at `i` raises exactly what `Fault` says, and otherwise keeps `Inv`. */
  predicate Agrees(text: string, i: nat, s: Scan)
    requires i < |text|
  {
    var r := Step(text, i, s);
    && (r.Running? <==> Fault(text, i).None?)
    && (r.Failed? ==> Fault(text, i) == Some(r.error))
    && (r.Running? ==> Inv(text, i + 1, r.scan))
  }

  lemma NextPrefix(text: string, i: nat)
    requires i < |text|
    ensures text[..i + 1] == text[..i] + [text[i]]
  {
  }

  lemma BlankStep(text: string, i: nat, s: Scan)
    requires i < |text| && Inv(text, i, s) && IsWhiteSpace(text[i])
    ensures Agrees(text, i, s)
  {
    var p := text[..i];
    NextPrefix(text, i);
    BlankTally(p, Upper(Letters(p)), s.stack, s.out, text[i]);
    AppendOne(p, text[i]);
  }

  lemma LetterStep(text: string, i: nat, s: Scan)
    requires i < |text| && Inv(text, i, s) && IsLetter(text[i])
    ensures Agrees(text, i, s)
  {
    var p, c := text[..i], text[i];
    NextPrefix(text, i);
    LetterTally(p, Upper(Letters(p)), s.stack, s.out, c, ToUpper(c));
    AppendOne(p, c);
    UpperSnoc(Letters(p), c);
  }

  lemma OpenStep(text: string, i: nat, s: Scan)
    requires i < |text| && Inv(text, i, s) && text[i] == '('
    ensures Agrees(text, i, s)
  {
    var p := text[..i];
    NextPrefix(text, i);
    OpenTally(p, Upper(Letters(p)), s.stack, s.out);
    AppendOne(p, '(');
  }

  /** What one turn of the loop does on `)`. */
  lemma StepAtClose(text: string, i: nat, s: Scan)
    requires i < |text| && text[i] == ')'
    ensures var r := PopToOpen(s.stack, s.out);
      Step(text, i, s) == if r.0 == [] then Failed(SyntaxError(text, BracketMismatch)) else Running(Scan(r.0[..|r.0| - 1], r.1))
  {
    assert !IsWhiteSpace(')') && !IsLetter(')');
  }

  /** The fault a `)` raises. */
  lemma FaultAtClose(text: string, i: nat)
    requires i < |text| && text[i] == ')'
    ensures Fault(text, i) == if Depth(text[..i]) <= 0 then Some(SyntaxError(text, BracketMismatch)) else None
  {
    assert !IsWhiteSpace(')') && !IsLetter(')');
  }

  lemma CloseStep(text: string, i: nat, s: Scan)
    requires i < |text| && Inv(text, i, s) && text[i] == ')'
    ensures Agrees(text, i, s)
  {
    var (kept, out) := PopToOpen(s.stack, s.out);
    StepAtClose(text, i, s);
    CloseFound(s.stack, kept);
    FaultAtClose(text, i);
    assert Count('(', s.stack) == Depth(text[..i]);
    if kept == [] {
      assert Step(text, i, s) == Failed(SyntaxError(text, BracketMismatch));
      assert Fault(text, i) == Some(SyntaxError(text, BracketMismatch));
    } else {
      assert Step(text, i, s) == Running(Scan(kept[..|kept| - 1], out));
      assert Fault(text, i) == None;
      CloseKeeps(text, i, s, kept, out);
    }
  }

  /** A `)` that closes a bracket keeps `Inv`. */
  lemma CloseKeeps(text: string, i: nat, s: Scan, kept: seq<char>, out: seq<char>)
    requires i < |text| && Inv(text, i, s) && text[i] == ')'
    requires (kept, out) == PopToOpen(s.stack, s.out) && kept != []
    ensures Inv(text, i + 1, Scan(kept[..|kept| - 1], out))
  {
    var p := text[..i];
    var k := |kept|;
    SplitAfter(s.stack, kept);
    CloseTally(p, Upper(Letters(p)), kept[..k - 1], s.stack[k..], s.out);
    InvNext(text, i, kept[..k - 1], out);
  }

  lemma OperatorStep(text: string, i: nat, s: Scan)
    requires i < |text| && Inv(text, i, s) && IsOperator(text[i])
    ensures Agrees(text, i, s)
  {
    var c := text[i];
    assert !IsWhiteSpace(c) && !IsLetter(c) && c != '(' && c != ')';
    if i != |text| - 1 && !IsOperator(text[i + 1]) {
      OperatorKeeps(text, i, s);
    }
  }

  /** An operator followed by something other than an operator keeps `Inv`. */
  lemma OperatorKeeps(text: string, i: nat, s: Scan)
    requires i + 1 < |text| && Inv(text, i, s) && IsOperator(text[i])
    ensures var r := PopWhile(s.stack, s.out, GetOrder(text[i]), GetOrder);
      Inv(text, i + 1, Scan(r.0 + [text[i]], r.1))
  {
    var p, c := text[..i], text[i];
    assert !IsLetter(c) && GetOrder('(') == -1 && GetOrder(')') == -1 && GetOrder(c) >= 1;
    var r := PopWhile(s.stack, s.out, GetOrder(c), GetOrder);
    OperatorPushed(p, Upper(Letters(p)), s.stack, s.out, c, GetOrder);
    assert Tally(p + [c], Upper(Letters(p)), r.0 + [c], r.1);
    InvNext(text, i, r.0 + [c], r.1);
  }

  /** A character that is not a letter adds no letter to the tally. */
  lemma InvNext(text: string, i: nat, stack: seq<char>, out: seq<char>)
    requires i < |text| && !IsLetter(text[i])
    requires Tally(text[..i] + [text[i]], Upper(Letters(text[..i])), stack, out)
    ensures Inv(text, i + 1, Scan(stack, out))
  {
    NextPrefix(text, i);
    AppendOne(text[..i], text[i]);
  }

  lemma StepAgrees(text: string, i: nat, s: Scan)
    requires i < |text| && Inv(text, i, s)
    ensures Agrees(text, i, s)
  {
    var c := text[i];
    if IsWhiteSpace(c) {
      BlankStep(text, i, s);
    } else if IsLetter(c) {
      LetterStep(text, i, s);
    } else if c == '(' {
      OpenStep(text, i, s);
    } else if c == ')' {
      CloseStep(text, i, s);
    } else if IsOperator(c) {
      OperatorStep(text, i, s);
    }
  }

  /** The loop runs on exactly as long as no character has raised anything, keeps `Inv`
      while it does, and stops with the exception of the first character that raises one. */
  lemma {:induction false} LoopAgrees(text: string, n: nat)
    requires n <= |text|
    ensures Loop(text, n).Running? <==> Clean(text, n)
    ensures Loop(text, n).Running? ==> Inv(text, n, Loop(text, n).scan)
    ensures forall j: nat :: j < n && FirstFault(text, j) ==> Loop(text, n) == Failed(Fault(text, j).value)
  {
    if n == 0 {
      assert text[..0] == [];
      assert Tally([], [], [], []);
    } else {
      LoopAgrees(text, n - 1);
      if Loop(text, n - 1).Running? {
        var s := Loop(text, n - 1).scan;
        assert Loop(text, n) == Step(text, n - 1, s);
        StepKeeps(text, n, s, Loop(text, n));
      } else {
        LoopStaysFailed(text, n);
      }
    }
  }

  /** The step after a clean prefix fails exactly at a first fault, with its exception,
      and otherwise keeps `Inv`. */
  lemma StepKeeps(text: string, n: nat, s: Scan, r: Progress)
    requires 0 < n <= |text| && Inv(text, n - 1, s) && Clean(text, n - 1)
    requires r == Step(text, n - 1, s)
    ensures r.Running? <==> Clean(text, n)
    ensures r.Running? ==> Inv(text, n, r.scan)
    ensures forall j: nat :: j < n && FirstFault(text, j) ==> r == Failed(Fault(text, j).value)
  {
    StepAgrees(text, n - 1, s);
    CleanNext(text, n);
    LastFault(text, n);
  }

  lemma CleanNext(text: string, n: nat)
    requires 0 < n <= |text|
    ensures Clean(text, n) <==> Clean(text, n - 1) && Fault(text, n - 1).None?
  {
  }

  /** Once the loop has failed it keeps its exception. */
  lemma LoopStaysFailed(text: string, n: nat)
    requires 0 < n <= |text| && Loop(text, n - 1).Failed? && !Clean(text, n - 1)
    requires forall j: nat :: j < n - 1 && FirstFault(text, j) ==> Loop(text, n - 1) == Failed(Fault(text, j).value)
    ensures Loop(text, n) == Loop(text, n - 1) && !Clean(text, n)
    ensures forall j: nat :: j < n && FirstFault(text, j) ==> Loop(text, n) == Failed(Fault(text, j).value)
  {
    forall j: nat | j < n && FirstFault(text, j) ensures j < n - 1 {
      assert Clean(text, j);
    }
  }

  /** When the first `n - 1` characters are clean, the only first fault below `n` is
      `n - 1`. */
  lemma LastFault(text: string, n: nat)
    requires 0 < n <= |text| && Clean(text, n - 1)
    ensures forall j: nat :: j < n && FirstFault(text, j) ==> j == n - 1
  {
  }

  /** `ToPostfix` succeeds exactly when no character raises anything and every bracket is
      closed. */
  lemma ToPostfixSucceedsIff(text: string)
    ensures ToPostfix(text).Success? <==> Clean(text, |text|) && Depth(text) == 0
  {
    LoopAgrees(text, |text|);
    if Loop(text, |text|).Running? {
      var s := Loop(text, |text|).scan;
      assert text[..|text|] == text;
      DrainTally(text, text, Upper(Letters(text)), s.stack, s.out);
    }
  }

  /** The first character that raises something decides the exception. */
  lemma FailsAtFirstFault(text: string, j: nat)
    requires FirstFault(text, j)
    ensures ToPostfix(text) == Failure(Fault(text, j).value)
  {
    LoopAgrees(text, |text|);
  }

  /** With every character accepted, a bracket left open is the mismatch. */
  lemma UnclosedRejected(text: string)
    requires Clean(text, |text|) && Depth(text) != 0
    ensures ToPostfix(text) == Failure(SyntaxError(text, BracketMismatch))
  {
    LoopAgrees(text, |text|);
    var s := Loop(text, |text|).scan;
    assert text[..|text|] == text;
    DrainTally(text, text, Upper(Letters(text)), s.stack, s.out);
  }

  /** On success the output holds the text's letters upper-cased and in order, every
      operator character of the text once, and nothing else: no bracket is emitted. */
  lemma ToPostfixOutput(text: string)
    requires ToPostfix(text).Success?
    ensures var out := ToPostfix(text).value;
      && OutOk(out)
      && Letters(out) == Upper(Letters(text))
      && multiset(OpChars(out)) == multiset(OpChars(text))
  {
    LoopAgrees(text, |text|);
    var s := Loop(text, |text|).scan;
    assert text[..|text|] == text;
    DrainTally(text, text, Upper(Letters(text)), s.stack, s.out);
  }

  /** Every exception `ToPostfix` raises is a `ParsingException` about the given text. */
  lemma ToPostfixErrors(text: string)
    requires ToPostfix(text).Failure?
    ensures ToPostfix(text).error.IsParsing() && ToPostfix(text).error.expression == text
  {
    LoopAgrees(text, |text|);
    if Loop(text, |text|).Failed? {
      var j := FirstFaultExists(text, |text|);
    } else {
      var s := Loop(text, |text|).scan;
      assert text[..|text|] == text;
      DrainTally(text, text, Upper(Letters(text)), s.stack, s.out);
    }
  }

  /** A prefix that is not clean has a first fault. */
  lemma {:induction false} FirstFaultExists(text: string, n: nat) returns (j: nat)
    requires n <= |text| && !Clean(text, n)
    ensures j < n && FirstFault(text, j)
  {
    if Clean(text, n - 1) {
      j := n - 1;
    } else {
      j := FirstFaultExists(text, n - 1);
    }
  }

  /** `Execute`: the char-level operators compute what the final design's
      `BinaryOperator`s compute; any other character is an unknown operation. */
  function Execute(left: real, right: real, op: char, pow: PowFn): (r: Result<Num, Error>)
    ensures SelectOperator(op).Success? ==> r == Success(Apply(SelectOperator(op).value, left, right, pow))
    ensures SelectOperator(op).Failure? ==> r == Failure(Evaluating(UnknownOperation(op)))
  {
    match op
    case '^' => Success(pow(left, right))
    case '*' => assert Apply(Mul, left, right, pow) == Finite(left * right); Success(Finite(left * right))
    case '/' => Success(if right == 0.0 then NonFinite else Finite(left / right))
    case '+' => Success(Finite(left + right))
    case '-' => Success(Finite(left - right))
    case _ => Failure(Evaluating(UnknownOperation(op)))
  }

  /** The `foreach` loop of `Evaluate` from the value stack `values` (top last). */
  function EvalFrom(p: seq<char>, vars: map<char, real>, pow: PowFn, values: seq<real>): (r: Result<seq<real>, Error>)
    ensures r.Failure? ==> r.error.IsEvaluating() || r.error == EmptyStack
    decreases |p|
  {
    if p == [] then Success(values)
    else
      var t := p[0];
      if IsLetter(t) then
        if t in vars then EvalFrom(p[1..], vars, pow, values + [vars[t]])
        else Failure(Evaluating(NotDefined([t])))
      else if IsOperator(t) then
        if |values| < 2 then Failure(EmptyStack)
        else
          var right := values[|values| - 1];
          var left := values[|values| - 2];
          match Execute(left, right, t, pow)
          case Failure(err) => Failure(err)
          case Success(NonFinite) => Failure(Math(left, right, [t]))
          case Success(Finite(v)) => EvalFrom(p[1..], vars, pow, values[..|values| - 2] + [v])
      else Failure(Evaluating(UnacceptableSymbol(t)))
  }

  /** `Evaluate(expr, variables)`: the value on top of the stack at the end, with no check
      that it is the only one. */
  function Evaluate(p: seq<char>, vars: map<char, real>, pow: PowFn): (r: Result<real, Error>)
    ensures r.Failure? ==> r.error.IsEvaluating() || r.error == EmptyStack
  {
    match EvalFrom(p, vars, pow, [])
    case Failure(err) => Failure(err)
    case Success(vs) => if vs == [] then Failure(EmptyStack) else Success(vs[|vs| - 1])
  }

  /** The reference evaluation: left operand, then right operand, then `Execute`, with a
      non-finite result a `MathException`. */
  function TreeValue(t: Tree, vars: map<char, real>, pow: PowFn): Result<real, Error> {
    match t
    case Leaf(x) => if x in vars then Success(vars[x]) else Failure(Evaluating(NotDefined([x])))
    case Node(op, l, r) =>
      match TreeValue(l, vars, pow)
      case Failure(err) => Failure(err)
      case Success(a) =>
        match TreeValue(r, vars, pow)
        case Failure(err) => Failure(err)
        case Success(b) =>
          match Execute(a, b, op, pow)
          case Failure(err) => Failure(err)
          case Success(NonFinite) => Failure(Math(a, b, [op]))
          case Success(Finite(v)) => Success(v)
  }

  /** Running a tree's postorder computes the tree's value and pushes it. */
  lemma {:induction false} EvalPostorder(t: Tree, rest: seq<char>, vars: map<char, real>, pow: PowFn, values: seq<real>)
    requires TreeOk(t)
    ensures EvalFrom(Postorder(t) + rest, vars, pow, values) ==
      match TreeValue(t, vars, pow)
      case Failure(err) => Failure(err)
      case Success(v) => EvalFrom(rest, vars, pow, values + [v])
  {
    match t
    case Leaf(x) =>
      assert (Postorder(t) + rest)[1..] == rest;
    case Node(op, l, r) =>
      var tail := Postorder(r) + ([op] + rest);
      assert Postorder(t) + rest == Postorder(l) + tail;
      EvalPostorder(l, tail, vars, pow, values);
      match TreeValue(l, vars, pow)
      case Failure(_) =>
      case Success(a) =>
        EvalPostorder(r, [op] + rest, vars, pow, values + [a]);
        match TreeValue(r, vars, pow)
        case Failure(_) =>
        case Success(b) =>
          OperatorOnTop(op, rest, vars, pow, values, a, b);
  }

  /** An operator with two values on top of the stack applies to them. */
  lemma OperatorOnTop(op: char, rest: seq<char>, vars: map<char, real>, pow: PowFn, values: seq<real>, a: real, b: real)
    requires IsOperator(op)
    ensures var x := Execute(a, b, op, pow);
      EvalFrom([op] + rest, vars, pow, values + [a] + [b]) ==
        if x.Failure? then Failure(x.error)
        else if x.value.NonFinite? then Failure(Math(a, b, [op]))
        else EvalFrom(rest, vars, pow, values + [x.value.r])
  {
    var vs := values + [a] + [b];
    assert vs[|vs| - 1] == b && vs[|vs| - 2] == a && vs[..|vs| - 2] == values;
    assert ([op] + rest)[0] == op && ([op] + rest)[1..] == rest;
    assert !IsLetter(op);
  }

  /** Running `p` then `q` is running `q` from the stack `p` leaves. */
  lemma {:induction false} EvalAppend(p: seq<char>, q: seq<char>, vars: map<char, real>, pow: PowFn, values: seq<real>)
    ensures EvalFrom(p + q, vars, pow, values) ==
      match EvalFrom(p, vars, pow, values)
      case Failure(err) => Failure(err)
      case Success(vs) => EvalFrom(q, vars, pow, vs)
    decreases |p|
  {
    if p == [] {
      assert p + q == q;
    } else {
      assert (p + q)[0] == p[0] && (p + q)[1..] == p[1..] + q;
      var t := p[0];
      if IsLetter(t) && t in vars {
        EvalAppend(p[1..], q, vars, pow, values + [vars[t]]);
      } else if !IsLetter(t) && IsOperator(t) && |values| >= 2 {
        var right := values[|values| - 1];
        var left := values[|values| - 2];
        if Execute(left, right, t, pow).Success? && Execute(left, right, t, pow).value.Finite? {
          EvalAppend(p[1..], q, vars, pow, values[..|values| - 2] + [Execute(left, right, t, pow).value.r]);
        }
      }
    }
  }

  /** `Evaluate` on a tree's postorder gives the tree's value. */
  lemma EvaluateTree(t: Tree, vars: map<char, real>, pow: PowFn)
    requires TreeOk(t)
    ensures Evaluate(Postorder(t), vars, pow) == TreeValue(t, vars, pow)
  {
    assert Postorder(t) + [] == Postorder(t);
    EvalPostorder(t, [], vars, pow, []);
  }

  /** Whatever an evaluable prefix leaves below it, `Evaluate` returns the value of the
      tree whose postorder ends the list: it takes the top of the stack and never checks
      that nothing else remains. */
  lemma EvaluateReturnsTop(p: seq<char>, t: Tree, vars: map<char, real>, pow: PowFn)
    requires TreeOk(t) && EvalFrom(p, vars, pow, []).Success?
    ensures Evaluate(p + Postorder(t), vars, pow) == TreeValue(t, vars, pow)
  {
    EvalAppend(p, Postorder(t), vars, pow, []);
    assert Postorder(t) + [] == Postorder(t);
    EvalPostorder(t, [], vars, pow, EvalFrom(p, vars, pow, []).value);
  }

  // ----- chains: the output is the postorder of the reference grouping -----

  /** A letter not followed by a letter is emitted upper-cased. */
  lemma LetterAt(text: string, i: nat, s: Scan)
    requires i < |text| && IsLetter(text[i]) && (i == |text| - 1 || !IsLetter(text[i + 1]))
    ensures Step(text, i, s) == Running(s.(out := s.out + [ToUpper(text[i])]))
  {
  }

  /** An operator that is neither last nor followed by an operator runs the operator loop
      and is pushed. */
  lemma OperatorAt(text: string, i: nat, s: Scan)
    requires i + 1 < |text| && IsOperator(text[i]) && !IsOperator(text[i + 1])
    ensures var r := PopWhile(s.stack, s.out, GetOrder(text[i]), GetOrder);
      Step(text, i, s) == Running(Scan(r.0 + [text[i]], r.1))
  {
  }

  /** An operator that is followed by a letter, on a stack whose operators bind ever more
      tightly towards the top: the operators of at least its rank go to the output and
      the operator is pushed. */
  lemma OperatorRising(text: string, i: nat, s: Scan)
    requires i + 1 < |text| && IsOperator(text[i]) && IsLetter(text[i + 1])
    requires Rising(s.stack, GetOrder)
    ensures var k := Below(s.stack, GetOrder(text[i]), GetOrder);
      Step(text, i, s) == Running(Scan(s.stack[..k] + [text[i]], s.out + Reverse(s.stack[k..])))
  {
    assert 0 < GetOrder(text[i]);
    PopWhileRising(s.stack, s.out, GetOrder(text[i]), GetOrder);
    OperatorAt(text, i, s);
  }

  /** Two more characters of the loop are two more steps, when the first goes through. */
  lemma LoopTwo(text: string, n: nat, s: Scan, s': Scan)
    requires 2 <= n <= |text| && Loop(text, n - 2) == Running(s) && Step(text, n - 2, s) == Running(s')
    ensures Loop(text, n) == Step(text, n - 1, s')
  {
    assert Loop(text, n - 1) == Running(s');
  }

  /** The scan keeps the spine of a tree whose spine rises across one more operator and
      operand: it then keeps the spine of the tree with them inserted. */
  lemma SpineStep(text: string, n: nat, g: Tree)
    requires 1 < n <= |text| && IsOperator(text[n - 2]) && IsLetter(text[n - 1])
    requires n == |text| || IsOperator(text[n])
    requires Rising(SpineOps(g), GetOrder)
    requires Loop(text, n - 2) == Running(Scan(SpineOps(g), SpineLefts(g) + [LastLeaf(g)]))
    ensures var g' := Insert(g, text[n - 2], ToUpper(text[n - 1]), GetOrder);
      Loop(text, n) == Running(Scan(SpineOps(g'), SpineLefts(g') + [LastLeaf(g')]))
  {
    var s := Scan(SpineOps(g), SpineLefts(g) + [LastLeaf(g)]);
    var o := text[n - 2];
    var k := Below(s.stack, GetOrder(o), GetOrder);
    var s' := Scan(s.stack[..k] + [o], s.out + Reverse(s.stack[k..]));
    OperatorRising(text, n - 2, s);
    LoopTwo(text, n, s, s');
    LetterAt(text, n - 1, s');
    var y := ToUpper(text[n - 1]);
    var g' := Insert(g, o, y, GetOrder);
    InsertSpine(g, o, y, GetOrder);
    assert SpineOps(g') == s'.stack;
    assert SpineLefts(g') + [LastLeaf(g')] == s'.out + [y];
  }

  /** After each operand of a chain the stack holds the operators on the right spine of
      the grouping of the text so far, and the output the postorders of the left operands
      along that spine followed by the last operand. */
  lemma {:induction false} LoopGrouped(text: string, n: nat)
    requires Chain(text) && n <= |text| && n % 2 == 1
    ensures var g := Grouped(Upper(text)[..n], GetOrder);
      Loop(text, n) == Running(Scan(SpineOps(g), SpineLefts(g) + [LastLeaf(g)]))
    decreases n
  {
    var u := Upper(text);
    if n == 1 {
      assert n == |text| || IsOperator(text[1]);
      LetterAt(text, 0, Scan([], []));
      assert u[..1] == [ToUpper(text[0])];
    } else {
      LoopGrouped(text, n - 2);
      ChainAt(text, n);
      GroupedStep(text, n);
    }
  }

  /** The step of `LoopGrouped` from one operand of a chain to the next. */
  lemma GroupedStep(text: string, n: nat)
    requires 1 < n <= |text| && n % 2 == 1
    requires IsOperator(text[n - 2]) && IsLetter(text[n - 1]) && (n == |text| || IsOperator(text[n]))
    requires var g := Grouped(Upper(text)[..n - 2], GetOrder);
      Loop(text, n - 2) == Running(Scan(SpineOps(g), SpineLefts(g) + [LastLeaf(g)]))
    ensures var g := Grouped(Upper(text)[..n], GetOrder);
      Loop(text, n) == Running(Scan(SpineOps(g), SpineLefts(g) + [LastLeaf(g)]))
  {
    assert (n - 2) % 2 == 1;
    var u := Upper(text);
    var g := Grouped(u[..n - 2], GetOrder);
    GroupedReadsBack(u[..n - 2], GetOrder);
    SpineRising(g, GetOrder);
    SpineStep(text, n, g);
    GroupedPrefix(u, n, GetOrder);
    assert u[n - 2] == text[n - 2];
  }

  /** On a text that alternates single letters and operators, `ToPostfix` succeeds with
      the postorder of the reference grouping: `*` and `/` bind more tightly than `+`
      and `-`, and operators of one rank group from the left. */
  lemma ToPostfixGrouped(text: string)
    requires Chain(text)
    ensures ToPostfix(text) == Success(Postorder(Grouped(Upper(text), GetOrder)))
  {
    var u := Upper(text);
    var g := Grouped(u, GetOrder);
    LoopGrouped(text, |text|);
    assert u[..|text|] == u;
    ChainUpper(text);
    GroupedOk(u, GetOrder);
    SpineOperators(g);
    assert '(' !in SpineOps(g) && ')' !in SpineOps(g);
    PostorderSpine(g);
  }

  /** The value `Evaluate` gives the output of a chain is the value of its grouping. */
  lemma ToPostfixValue(text: string, vars: map<char, real>, pow: PowFn)
    requires Chain(text)
    ensures ToPostfix(text).Success?
    ensures Evaluate(ToPostfix(text).value, vars, pow) == TreeValue(Grouped(Upper(text), GetOrder), vars, pow)
  {
    ToPostfixGrouped(text);
    ChainUpper(text);
    GroupedOk(Upper(text), GetOrder);
    EvaluateTree(Grouped(Upper(text), GetOrder), vars, pow);
  }
}
