/** The nested `Parser` of MathParser/Program.cs, the first version of the char-level
    converter and evaluator. It differs from the `Parser` of Parser.cs in three ways:
    letters are upper-cased only when `caseSensitive` is false; an operator is never
    rejected for its position, so `a+` and `a*-b` are accepted; and `Evaluate` computes on
    doubles without checking them, so a division by zero yields an infinity that the
    rest of the computation carries along. */
module EarlyParser {
  import opened Wrappers
  import opened Chars
  import opened Errors
  import opened ParserTokens
  import opened CharStacks
  import opened CharTrees
  import CP = CharParser

  /** `GetOrder`: `^` has no order in this version. */
  function GetOrder(c: char): (r: int)
    ensures r == -1 <==> !IsOperator(c)
    ensures IsOperator(c) ==> r == OperatorOrder(SelectOperator(c).value)
  {
    match c
    case '*' => 2
    case '/' => 2
    case '+' => 1
    case '-' => 1
    case _ => -1
  }

  /** What `ToPostfix` emits for a letter. */
  function Emit(c: char, caseSensitive: bool): char {
    if caseSensitive then c else ToUpper(c)
  }

  /** What `ToPostfix` emits for a text of letters. */
  function Emitted(s: string, caseSensitive: bool): (r: string)
    ensures |r| == |s|
  {
    if caseSensitive then s else Upper(s)
  }

  lemma EmittedSnoc(s: string, c: char, caseSensitive: bool)
    ensures Emitted(s + [c], caseSensitive) == Emitted(s, caseSensitive) + [Emit(c, caseSensitive)]
  {
    UpperSnoc(s, c);
  }

  datatype Scan = Scan(stack: seq<char>, out: seq<char>)

  datatype Progress = Running(scan: Scan) | Failed(error: Error)

  /** One turn of the `for` loop of `ToPostfix` on `text[i]`. */
  function Step(text: string, i: nat, s: Scan, caseSensitive: bool): Progress
    requires i < |text|
  {
    var c := text[i];
    if IsWhiteSpace(c) then Running(s)
    else if IsLetter(c) then
      if i != |text| - 1 && IsLetter(text[i + 1]) then Failed(Syntax(text, OneLetterNames, i))
      else Running(s.(out := s.out + [Emit(c, caseSensitive)]))
    else if c == '(' then Running(s.(stack := s.stack + [c]))
    else if c == ')' then
      var (stack, out) := PopToOpen(s.stack, s.out);
      if stack == [] then Failed(SyntaxError(text, BracketMismatch))
      else Running(Scan(stack[..|stack| - 1], out))
    else if IsOperator(c) then
      var (stack, out) := PopWhile(s.stack, s.out, GetOrder(c), GetOrder);
      Running(Scan(stack + [c], out))
    else Failed(WrongSymbolAt(text, i))
  }

  /** The `for` loop over the first `n` characters; the first exception ends it. */
  function Loop(text: string, n: nat, caseSensitive: bool): Progress
    requires n <= |text|
  {
    if n == 0 then Running(Scan([], []))
    else
      match Loop(text, n - 1, caseSensitive)
      case Failed(err) => Failed(err)
      case Running(s) => Step(text, n - 1, s, caseSensitive)
  }

  /** `ToPostfix(expr, caseSensitive)`. */
  function ToPostfix(expr: string, caseSensitive: bool): Result<seq<char>, Error> {
    match Loop(expr, |expr|, caseSensitive)
    case Failed(err) => Failure(err)
    case Running(s) => Drain(expr, s.stack, s.out)
  }

  /** The exception `text[i]` raises when the scan reaches it: as in Parser.cs, except
      that no operator raises anything. */
  function Fault(text: string, i: nat): (r: Option<Error>)
    requires i < |text|
    ensures r.Some? ==> r.value.IsParsing() && r.value.expression == text
  {
    var c := text[i];
    if IsWhiteSpace(c) || c == '(' || IsOperator(c) then None
    else if IsLetter(c) then
      if i + 1 < |text| && IsLetter(text[i + 1]) then Some(Syntax(text, OneLetterNames, i)) else None
    else if c == ')' then
      if Depth(text[..i]) <= 0 then Some(SyntaxError(text, BracketMismatch)) else None
    else Some(WrongSymbolAt(text, i))
  }

  predicate Clean(text: string, n: nat)
    requires n <= |text|
  {
    forall j :: 0 <= j < n ==> Fault(text, j).None?
  }

  predicate FirstFault(text: string, j: nat) {
    j < |text| && Fault(text, j).Some? && Clean(text, j)
  }

  predicate Inv(text: string, n: nat, s: Scan, caseSensitive: bool)
    requires n <= |text|
  {
    Tally(text[..n], Emitted(Letters(text[..n]), caseSensitive), s.stack, s.out)
  }

  predicate Agrees(text: string, i: nat, s: Scan, caseSensitive: bool)
    requires i < |text|
  {
    var r := Step(text, i, s, caseSensitive);
    && (r.Running? <==> Fault(text, i).None?)
    && (r.Failed? ==> Fault(text, i) == Some(r.error))
    && (r.Running? ==> Inv(text, i + 1, r.scan, caseSensitive))
  }

  lemma NextPrefix(text: string, i: nat)
    requires i < |text|
    ensures text[..i + 1] == text[..i] + [text[i]]
  {
  }

  /** A character that is not a letter adds no letter to the tally. */
  lemma InvNext(text: string, i: nat, stack: seq<char>, out: seq<char>, caseSensitive: bool)
    requires i < |text| && !IsLetter(text[i])
    requires Tally(text[..i] + [text[i]], Emitted(Letters(text[..i]), caseSensitive), stack, out)
    ensures Inv(text, i + 1, Scan(stack, out), caseSensitive)
  {
    NextPrefix(text, i);
    AppendOne(text[..i], text[i]);
  }

  lemma BlankStep(text: string, i: nat, s: Scan, caseSensitive: bool)
    requires i < |text| && Inv(text, i, s, caseSensitive) && IsWhiteSpace(text[i])
    ensures Agrees(text, i, s, caseSensitive)
  {
    var p := text[..i];
    BlankTally(p, Emitted(Letters(p), caseSensitive), s.stack, s.out, text[i]);
    InvNext(text, i, s.stack, s.out, caseSensitive);
  }

  lemma LetterStep(text: string, i: nat, s: Scan, caseSensitive: bool)
    requires i < |text| && Inv(text, i, s, caseSensitive) && IsLetter(text[i])
    ensures Agrees(text, i, s, caseSensitive)
  {
    var p, c := text[..i], text[i];
    NextPrefix(text, i);
    LetterTally(p, Emitted(Letters(p), caseSensitive), s.stack, s.out, c, Emit(c, caseSensitive));
    AppendOne(p, c);
    EmittedSnoc(Letters(p), c, caseSensitive);
  }

  lemma OpenStep(text: string, i: nat, s: Scan, caseSensitive: bool)
    requires i < |text| && Inv(text, i, s, caseSensitive) && text[i] == '('
    ensures Agrees(text, i, s, caseSensitive)
  {
    var p := text[..i];
    OpenTally(p, Emitted(Letters(p), caseSensitive), s.stack, s.out);
    InvNext(text, i, s.stack + ['('], s.out, caseSensitive);
  }

  /** What one turn of the loop does on `)`. */
  lemma StepAtClose(text: string, i: nat, s: Scan, caseSensitive: bool)
    requires i < |text| && text[i] == ')'
    ensures var r := PopToOpen(s.stack, s.out);
      Step(text, i, s, caseSensitive) == if r.0 == [] then Failed(SyntaxError(text, BracketMismatch)) else Running(Scan(r.0[..|r.0| - 1], r.1))
  {
    assert !IsWhiteSpace(')') && !IsLetter(')');
  }

  /** The fault a `)` raises. */
  lemma FaultAtClose(text: string, i: nat)
    requires i < |text| && text[i] == ')'
    ensures Fault(text, i) == if Depth(text[..i]) <= 0 then Some(SyntaxError(text, BracketMismatch)) else None
  {
    assert !IsWhiteSpace(')') && !IsLetter(')') && !IsOperator(')');
  }

  lemma CloseStep(text: string, i: nat, s: Scan, caseSensitive: bool)
    requires i < |text| && Inv(text, i, s, caseSensitive) && text[i] == ')'
    ensures Agrees(text, i, s, caseSensitive)
  {
    var (kept, out) := PopToOpen(s.stack, s.out);
    CloseFound(s.stack, kept);
    assert Count('(', s.stack) == Depth(text[..i]);
    if kept == [] {
      CloseUnmatched(text, i, s, caseSensitive);
    } else {
      CloseMatched(text, i, s, kept, out, caseSensitive);
    }
  }

  /** A `)` with no `(` open below it fails with the mismatch, as `Fault` says. */
  lemma CloseUnmatched(text: string, i: nat, s: Scan, caseSensitive: bool)
    requires i < |text| && text[i] == ')'
    requires PopToOpen(s.stack, s.out).0 == [] && Depth(text[..i]) <= 0
    ensures Agrees(text, i, s, caseSensitive)
  {
    StepAtClose(text, i, s, caseSensitive);
    FaultAtClose(text, i);
    assert Step(text, i, s, caseSensitive) == Failed(SyntaxError(text, BracketMismatch));
    assert Fault(text, i) == Some(SyntaxError(text, BracketMismatch));
  }

  /** A `)` that finds its `(` runs on, and keeps `Inv`. */
  lemma CloseMatched(text: string, i: nat, s: Scan, kept: seq<char>, out: seq<char>, caseSensitive: bool)
    requires i < |text| && Inv(text, i, s, caseSensitive) && text[i] == ')'
    requires (kept, out) == PopToOpen(s.stack, s.out) && kept != [] && Depth(text[..i]) > 0
    ensures Agrees(text, i, s, caseSensitive)
  {
    StepAtClose(text, i, s, caseSensitive);
    FaultAtClose(text, i);
    assert Step(text, i, s, caseSensitive) == Running(Scan(kept[..|kept| - 1], out));
    assert Fault(text, i) == None;
    CloseKeeps(text, i, s, kept, out, caseSensitive);
  }

  /** A `)` that closes a bracket keeps `Inv`. */
  lemma CloseKeeps(text: string, i: nat, s: Scan, kept: seq<char>, out: seq<char>, caseSensitive: bool)
    requires i < |text| && Inv(text, i, s, caseSensitive) && text[i] == ')'
    requires (kept, out) == PopToOpen(s.stack, s.out) && kept != []
    ensures Inv(text, i + 1, Scan(kept[..|kept| - 1], out), caseSensitive)
  {
    var p := text[..i];
    var k := |kept|;
    SplitAfter(s.stack, kept);
    CloseTally(p, Emitted(Letters(p), caseSensitive), kept[..k - 1], s.stack[k..], s.out);
    InvNext(text, i, kept[..k - 1], out, caseSensitive);
  }

  lemma OperatorStep(text: string, i: nat, s: Scan, caseSensitive: bool)
    requires i < |text| && Inv(text, i, s, caseSensitive) && IsOperator(text[i])
    ensures Agrees(text, i, s, caseSensitive)
  {
    var p, c := text[..i], text[i];
    assert !IsWhiteSpace(c) && !IsLetter(c) && c != '(' && c != ')';
    var r := PopWhile(s.stack, s.out, GetOrder(c), GetOrder);
    assert GetOrder('(') < GetOrder(c) && GetOrder(')') < GetOrder(c);
    OperatorPushed(p, Emitted(Letters(p), caseSensitive), s.stack, s.out, c, GetOrder);
    InvNext(text, i, r.0 + [c], r.1, caseSensitive);
  }

  lemma StepAgrees(text: string, i: nat, s: Scan, caseSensitive: bool)
    requires i < |text| && Inv(text, i, s, caseSensitive)
    ensures Agrees(text, i, s, caseSensitive)
  {
    var c := text[i];
    if IsWhiteSpace(c) {
      BlankStep(text, i, s, caseSensitive);
    } else if IsLetter(c) {
      LetterStep(text, i, s, caseSensitive);
    } else if c == '(' {
      OpenStep(text, i, s, caseSensitive);
    } else if c == ')' {
      CloseStep(text, i, s, caseSensitive);
    } else if IsOperator(c) {
      OperatorStep(text, i, s, caseSensitive);
    }
  }

  /** The loop runs on exactly as long as no character has raised anything, keeps `Inv`
      while it does, and stops with the exception of the first character that raises one. */
  lemma {:induction false} LoopAgrees(text: string, n: nat, caseSensitive: bool)
    requires n <= |text|
    ensures Loop(text, n, caseSensitive).Running? <==> Clean(text, n)
    ensures Loop(text, n, caseSensitive).Running? ==> Inv(text, n, Loop(text, n, caseSensitive).scan, caseSensitive)
    ensures forall j: nat :: j < n && FirstFault(text, j) ==> Loop(text, n, caseSensitive) == Failed(Fault(text, j).value)
  {
    if n == 0 {
      assert text[..0] == [];
      assert Tally([], [], [], []);
    } else {
      LoopAgrees(text, n - 1, caseSensitive);
      if Loop(text, n - 1, caseSensitive).Running? {
        var s := Loop(text, n - 1, caseSensitive).scan;
        assert Loop(text, n, caseSensitive) == Step(text, n - 1, s, caseSensitive);
        StepKeeps(text, n, s, Loop(text, n, caseSensitive), caseSensitive);
      } else {
        LoopStaysFailed(text, n, caseSensitive);
      }
    }
  }

  /** The step after a clean prefix fails exactly at a first fault, with its exception,
      and otherwise keeps `Inv`. */
  lemma StepKeeps(text: string, n: nat, s: Scan, r: Progress, caseSensitive: bool)
    requires 0 < n <= |text| && Inv(text, n - 1, s, caseSensitive) && Clean(text, n - 1)
    requires r == Step(text, n - 1, s, caseSensitive)
    ensures r.Running? <==> Clean(text, n)
    ensures r.Running? ==> Inv(text, n, r.scan, caseSensitive)
    ensures forall j: nat :: j < n && FirstFault(text, j) ==> r == Failed(Fault(text, j).value)
  {
    StepAgrees(text, n - 1, s, caseSensitive);
    CleanNext(text, n);
    LastFault(text, n);
  }

  lemma CleanNext(text: string, n: nat)
    requires 0 < n <= |text|
    ensures Clean(text, n) <==> Clean(text, n - 1) && Fault(text, n - 1).None?
  {
  }

  /** Once the loop has failed it keeps its exception. */
  lemma LoopStaysFailed(text: string, n: nat, caseSensitive: bool)
    requires 0 < n <= |text| && Loop(text, n - 1, caseSensitive).Failed? && !Clean(text, n - 1)
    requires forall j: nat :: j < n - 1 && FirstFault(text, j) ==> Loop(text, n - 1, caseSensitive) == Failed(Fault(text, j).value)
    ensures Loop(text, n, caseSensitive) == Loop(text, n - 1, caseSensitive) && !Clean(text, n)
    ensures forall j: nat :: j < n && FirstFault(text, j) ==> Loop(text, n, caseSensitive) == Failed(Fault(text, j).value)
  {
    forall j: nat | j < n && FirstFault(text, j) ensures j < n - 1 {
      assert Clean(text, j);
    }
  }

  lemma LastFault(text: string, n: nat)
    requires 0 < n <= |text| && Clean(text, n - 1)
    ensures forall j: nat :: j < n && FirstFault(text, j) ==> j == n - 1
  {
  }

  /** `ToPostfix` succeeds exactly when no character raises anything and every bracket is
      closed. */
  lemma ToPostfixSucceedsIff(text: string, caseSensitive: bool)
    ensures ToPostfix(text, caseSensitive).Success? <==> Clean(text, |text|) && Depth(text) == 0
  {
    LoopAgrees(text, |text|, caseSensitive);
    if Loop(text, |text|, caseSensitive).Running? {
      var s := Loop(text, |text|, caseSensitive).scan;
      assert text[..|text|] == text;
      DrainTally(text, text, Emitted(Letters(text), caseSensitive), s.stack, s.out);
    }
  }

  /** The first character that raises something decides the exception. */
  lemma FailsAtFirstFault(text: string, j: nat, caseSensitive: bool)
    requires FirstFault(text, j)
    ensures ToPostfix(text, caseSensitive) == Failure(Fault(text, j).value)
  {
    LoopAgrees(text, |text|, caseSensitive);
  }

  /** With every character accepted, a bracket left open is the mismatch. */
  lemma UnclosedRejected(text: string, caseSensitive: bool)
    requires Clean(text, |text|) && Depth(text) != 0
    ensures ToPostfix(text, caseSensitive) == Failure(SyntaxError(text, BracketMismatch))
  {
    LoopAgrees(text, |text|, caseSensitive);
    var s := Loop(text, |text|, caseSensitive).scan;
    assert text[..|text|] == text;
    DrainTally(text, text, Emitted(Letters(text), caseSensitive), s.stack, s.out);
  }

  /** On success the output holds the text's letters in order, upper-cased unless
      `caseSensitive`, every operator character of the text once, and nothing else. */
  lemma ToPostfixOutput(text: string, caseSensitive: bool)
    requires ToPostfix(text, caseSensitive).Success?
    ensures var out := ToPostfix(text, caseSensitive).value;
      && OutOk(out)
      && Letters(out) == Emitted(Letters(text), caseSensitive)
      && multiset(OpChars(out)) == multiset(OpChars(text))
  {
    LoopAgrees(text, |text|, caseSensitive);
    var s := Loop(text, |text|, caseSensitive).scan;
    assert text[..|text|] == text;
    DrainTally(text, text, Emitted(Letters(text), caseSensitive), s.stack, s.out);
  }

  /** Where the Parser.cs version succeeds, this one, not case-sensitive, produces the
      same postfix: the later version only rejects more. */
  lemma AgreesWithParser(text: string)
    requires CP.ToPostfix(text).Success?
    ensures ToPostfix(text, false) == CP.ToPostfix(text)
  {
    CP.LoopAgrees(text, |text|);
    LoopsAgree(text, |text|);
  }

  /** While the Parser.cs loop runs, this one runs with the same stack and output. */
  lemma {:induction false} LoopsAgree(text: string, n: nat)
    requires n <= |text| && CP.Loop(text, n).Running?
    ensures Loop(text, n, false) == Running(Scan(CP.Loop(text, n).scan.stack, CP.Loop(text, n).scan.out))
  {
    if n > 0 {
      assert CP.Loop(text, n - 1).Running?;
      LoopsAgree(text, n - 1);
      CP.LoopAgrees(text, n - 1);
      StepsAgree(text, n - 1, CP.Loop(text, n - 1).scan);
    }
  }

  /** A step the Parser.cs version takes without raising anything is the same step here. */
  lemma StepsAgree(text: string, i: nat, s: CP.Scan)
    requires i < |text| && StackOk(s.stack) && CP.Step(text, i, s).Running?
    ensures Step(text, i, Scan(s.stack, s.out), false) == Running(Scan(CP.Step(text, i, s).scan.stack, CP.Step(text, i, s).scan.out))
  {
    var c := text[i];
    if !IsWhiteSpace(c) && !IsLetter(c) && c != '(' && c != ')' && IsOperator(c) {
      forall k | 0 <= k < |s.stack| ensures GetOrder(s.stack[k]) == CP.GetOrder(s.stack[k]) {
        assert s.stack[k] == '(' || IsOperator(s.stack[k]);
      }
      assert GetOrder(c) == CP.GetOrder(c);
      PopWhileOrders(s.stack, s.out, GetOrder(c), GetOrder, CP.GetOrder);
    }
  }

  /** `Execute`, lifted to values that may have left the finite doubles: an infinite or
      undefined operand makes the result so. Division by zero is not an error here. */
  function Execute(left: Num, right: Num, op: char): (r: Result<Num, Error>)
    ensures r.Success? <==> IsOperator(op)
    ensures r.Failure? ==> r.error == Evaluating(UnknownOperation(op))
    ensures IsOperator(op) && (left.NonFinite? || right.NonFinite?) ==> r == Success(NonFinite)
  {
    if !IsOperator(op) then Failure(Evaluating(UnknownOperation(op)))
    else if left.NonFinite? || right.NonFinite? then Success(NonFinite)
    else if op == '*' then Success(Finite(left.r * right.r))
    else if op == '/' then Success(if right.r == 0.0 then NonFinite else Finite(left.r / right.r))
    else if op == '+' then Success(Finite(left.r + right.r))
    else Success(Finite(left.r - right.r))
  }

  /** On finite operands `Execute` computes what the final design's operators compute. */
  lemma ExecuteAgrees(left: real, right: real, op: char, pow: PowFn)
    requires IsOperator(op)
    ensures Execute(Finite(left), Finite(right), op) == Success(Apply(SelectOperator(op).value, left, right, pow))
    ensures Execute(Finite(left), Finite(right), op) == CP.Execute(left, right, op, pow)
  {
    var o := SelectOperator(op).value;
    assert Symbol(o) == op;
    if op == '*' {
      var e := Execute(Finite(left), Finite(right), op);
      assert e.Success? && e.value.Finite? && e.value.r == left * right;
      assert Apply(Mul, left, right, pow) == Finite(left * right);
    } else if op == '/' {
      assert o == Div;
    } else if op == '+' {
      assert o == Add;
    } else {
      assert o == Sub;
    }
  }

  /** The `foreach` loop of `Evaluate` from the value stack `values` (top last). */
  function EvalFrom(p: seq<char>, vars: map<char, real>, values: seq<Num>): (r: Result<seq<Num>, Error>)
    ensures r.Failure? ==> r.error.Evaluating? || r.error == EmptyStack
    decreases |p|
  {
    if p == [] then Success(values)
    else
      var t := p[0];
      if IsLetter(t) then
        if t in vars then EvalFrom(p[1..], vars, values + [Finite(vars[t])])
        else Failure(Evaluating(NotDefined([t])))
      else if IsOperator(t) then
        if |values| < 2 then Failure(EmptyStack)
        else
          var right := values[|values| - 1];
          var left := values[|values| - 2];
          match Execute(left, right, t)
          case Failure(err) => Failure(err)
          case Success(v) => EvalFrom(p[1..], vars, values[..|values| - 2] + [v])
      else Failure(Evaluating(UnacceptableSymbol(t)))
  }

  /** `Evaluate(expr, variables)`: the top of the stack at the end. It never raises a
      `MathException`. */
  function Evaluate(p: seq<char>, vars: map<char, real>): (r: Result<Num, Error>)
    ensures r.Failure? ==> r.error.Evaluating? || r.error == EmptyStack
  {
    match EvalFrom(p, vars, [])
    case Failure(err) => Failure(err)
    case Success(vs) => if vs == [] then Failure(EmptyStack) else Success(vs[|vs| - 1])
  }

  /** The reference evaluation: left operand, then right operand, then `Execute`. */
  function TreeValue(t: Tree, vars: map<char, real>): Result<Num, Error> {
    match t
    case Leaf(x) => if x in vars then Success(Finite(vars[x])) else Failure(Evaluating(NotDefined([x])))
    case Node(op, l, r) =>
      match TreeValue(l, vars)
      case Failure(err) => Failure(err)
      case Success(a) =>
        match TreeValue(r, vars)
        case Failure(err) => Failure(err)
        case Success(b) => Execute(a, b, op)
  }

  /** Running a tree's postorder computes the tree's value and pushes it. */
  lemma {:induction false} EvalPostorder(t: Tree, rest: seq<char>, vars: map<char, real>, values: seq<Num>)
    requires TreeOk(t)
    ensures EvalFrom(Postorder(t) + rest, vars, values) ==
      match TreeValue(t, vars)
      case Failure(err) => Failure(err)
      case Success(v) => EvalFrom(rest, vars, values + [v])
  {
    match t
    case Leaf(x) =>
      assert (Postorder(t) + rest)[1..] == rest;
    case Node(op, l, r) =>
      var tail := Postorder(r) + ([op] + rest);
      assert Postorder(t) + rest == Postorder(l) + tail;
      EvalPostorder(l, tail, vars, values);
      match TreeValue(l, vars)
      case Failure(_) =>
      case Success(a) =>
        EvalPostorder(r, [op] + rest, vars, values + [a]);
        match TreeValue(r, vars)
        case Failure(_) =>
        case Success(b) =>
          var vs := values + [a] + [b];
          assert vs[|vs| - 1] == b && vs[|vs| - 2] == a && vs[..|vs| - 2] == values;
          assert ([op] + rest)[1..] == rest;
  }

  /** Running `p` then `q` is running `q` from the stack `p` leaves. */
  lemma {:induction false} EvalAppend(p: seq<char>, q: seq<char>, vars: map<char, real>, values: seq<Num>)
    ensures EvalFrom(p + q, vars, values) ==
      match EvalFrom(p, vars, values)
      case Failure(err) => Failure(err)
      case Success(vs) => EvalFrom(q, vars, vs)
    decreases |p|
  {
    if p == [] {
      assert p + q == q;
    } else {
      assert (p + q)[0] == p[0] && (p + q)[1..] == p[1..] + q;
      var t := p[0];
      if IsLetter(t) && t in vars {
        EvalAppend(p[1..], q, vars, values + [Finite(vars[t])]);
      } else if !IsLetter(t) && IsOperator(t) && |values| >= 2 {
        var right := values[|values| - 1];
        var left := values[|values| - 2];
        EvalAppend(p[1..], q, vars, values[..|values| - 2] + [Execute(left, right, t).value]);
      }
    }
  }

  /** `Evaluate` on a tree's postorder gives the tree's value. */
  lemma EvaluateTree(t: Tree, vars: map<char, real>)
    requires TreeOk(t)
    ensures Evaluate(Postorder(t), vars) == TreeValue(t, vars)
  {
    assert Postorder(t) + [] == Postorder(t);
    EvalPostorder(t, [], vars, []);
  }

  /** `Evaluate` returns the value of the tree whose postorder ends the list, whatever an
      evaluable prefix leaves below it. */
  lemma EvaluateReturnsTop(p: seq<char>, t: Tree, vars: map<char, real>)
    requires TreeOk(t) && EvalFrom(p, vars, []).Success?
    ensures Evaluate(p + Postorder(t), vars) == TreeValue(t, vars)
  {
    EvalAppend(p, Postorder(t), vars, []);
    assert Postorder(t) + [] == Postorder(t);
    EvalPostorder(t, [], vars, EvalFrom(p, vars, []).value);
  }

  /** With every variable defined, this version yields the Parser.cs value where that one
      succeeds, and a non-finite value where that one raises its `MathException`. The
      second half rests on `Execute` carrying every non-finite operand along, which IEEE
      doubles do not always do (a finite number divided by an infinity is 0). */
  lemma {:induction false} TreeValuesAgree(t: Tree, vars: map<char, real>, pow: PowFn)
    requires TreeOk(t) && Defined(t, vars)
    ensures TreeValue(t, vars) ==
      match CP.TreeValue(t, vars, pow)
      case Success(v) => Success(Finite(v))
      case Failure(_) => Success(NonFinite)
    ensures CP.TreeValue(t, vars, pow).Failure? ==> CP.TreeValue(t, vars, pow).error.Math?
  {
    match t
    case Leaf(x) =>
    case Node(op, l, r) =>
      TreeValuesAgree(l, vars, pow);
      TreeValuesAgree(r, vars, pow);
      if CP.TreeValue(l, vars, pow).Success? && CP.TreeValue(r, vars, pow).Success? {
        ExecuteAgrees(CP.TreeValue(l, vars, pow).value, CP.TreeValue(r, vars, pow).value, op, pow);
      }
  }

  // ----- chains: the output is the postorder of the reference grouping -----

  /** Emitting a chain keeps it a chain, character by character. */
  lemma ChainEmitted(text: string, caseSensitive: bool)
    requires Chain(text)
    ensures Chain(Emitted(text, caseSensitive))
    ensures forall i :: 0 <= i < |text| ==> Emitted(text, caseSensitive)[i] == Emit(text[i], caseSensitive)
  {
    if !caseSensitive {
      ChainUpper(text);
    }
  }

  /** A letter not followed by a letter is emitted. */
  lemma LetterAt(text: string, i: nat, s: Scan, caseSensitive: bool)
    requires i < |text| && IsLetter(text[i]) && (i == |text| - 1 || !IsLetter(text[i + 1]))
    ensures Step(text, i, s, caseSensitive) == Running(s.(out := s.out + [Emit(text[i], caseSensitive)]))
  {
  }

  /** An operator, wherever it stands, runs the operator loop and is pushed. */
  lemma OperatorAt(text: string, i: nat, s: Scan, caseSensitive: bool)
    requires i < |text| && IsOperator(text[i])
    ensures var r := PopWhile(s.stack, s.out, GetOrder(text[i]), GetOrder);
      Step(text, i, s, caseSensitive) == Running(Scan(r.0 + [text[i]], r.1))
  {
  }

  /** An operator, on a stack whose operators bind ever more tightly towards the top:
      the operators of at least its rank go to the output and the operator is pushed. */
  lemma OperatorRising(text: string, i: nat, s: Scan, caseSensitive: bool)
    requires i < |text| && IsOperator(text[i]) && Rising(s.stack, GetOrder)
    ensures var k := Below(s.stack, GetOrder(text[i]), GetOrder);
      Step(text, i, s, caseSensitive) == Running(Scan(s.stack[..k] + [text[i]], s.out + Reverse(s.stack[k..])))
  {
    assert 0 < GetOrder(text[i]);
    PopWhileRising(s.stack, s.out, GetOrder(text[i]), GetOrder);
    OperatorAt(text, i, s, caseSensitive);
  }

  lemma LoopTwo(text: string, n: nat, s: Scan, s': Scan, caseSensitive: bool)
    requires 2 <= n <= |text| && Loop(text, n - 2, caseSensitive) == Running(s)
    requires Step(text, n - 2, s, caseSensitive) == Running(s')
    ensures Loop(text, n, caseSensitive) == Step(text, n - 1, s', caseSensitive)
  {
    assert Loop(text, n - 1, caseSensitive) == Running(s');
  }

  /** The scan keeps the spine of a tree whose spine rises across one more operator and
      operand: it then keeps the spine of the tree with them inserted. */
  lemma SpineStep(text: string, n: nat, g: Tree, caseSensitive: bool)
    requires 1 < n <= |text| && IsOperator(text[n - 2]) && IsLetter(text[n - 1])
    requires n == |text| || IsOperator(text[n])
    requires Rising(SpineOps(g), GetOrder)
    requires Loop(text, n - 2, caseSensitive) == Running(Scan(SpineOps(g), SpineLefts(g) + [LastLeaf(g)]))
    ensures var g' := Insert(g, text[n - 2], Emit(text[n - 1], caseSensitive), GetOrder);
      Loop(text, n, caseSensitive) == Running(Scan(SpineOps(g'), SpineLefts(g') + [LastLeaf(g')]))
  {
    var s := Scan(SpineOps(g), SpineLefts(g) + [LastLeaf(g)]);
    var o := text[n - 2];
    var k := Below(s.stack, GetOrder(o), GetOrder);
    var s' := Scan(s.stack[..k] + [o], s.out + Reverse(s.stack[k..]));
    OperatorRising(text, n - 2, s, caseSensitive);
    LoopTwo(text, n, s, s', caseSensitive);
    LetterAt(text, n - 1, s', caseSensitive);
    var y := Emit(text[n - 1], caseSensitive);
    var g' := Insert(g, o, y, GetOrder);
    InsertSpine(g, o, y, GetOrder);
    assert SpineOps(g') == s'.stack;
    assert SpineLefts(g') + [LastLeaf(g')] == s'.out + [y];
  }

  /** After each operand of a chain the stack holds the operators on the right spine of
      the grouping of the emitted text so far, and the output the postorders of the left
      operands along that spine followed by the last operand. */
  lemma {:induction false} LoopGrouped(text: string, n: nat, caseSensitive: bool)
    requires Chain(text) && n <= |text| && n % 2 == 1
    ensures var g := Grouped(Emitted(text, caseSensitive)[..n], GetOrder);
      Loop(text, n, caseSensitive) == Running(Scan(SpineOps(g), SpineLefts(g) + [LastLeaf(g)]))
    decreases n
  {
    var e := Emitted(text, caseSensitive);
    ChainEmitted(text, caseSensitive);
    if n == 1 {
      assert n == |text| || IsOperator(text[1]);
      LetterAt(text, 0, Scan([], []), caseSensitive);
      assert e[..1] == [Emit(text[0], caseSensitive)];
    } else {
      LoopGrouped(text, n - 2, caseSensitive);
      ChainAt(text, n);
      GroupedStep(text, n, caseSensitive);
    }
  }

  /** The step of `LoopGrouped` from one operand of a chain to the next. */
  lemma GroupedStep(text: string, n: nat, caseSensitive: bool)
    requires 1 < n <= |text| && n % 2 == 1
    requires IsOperator(text[n - 2]) && IsLetter(text[n - 1]) && (n == |text| || IsOperator(text[n]))
    requires forall i :: 0 <= i < |text| ==> Emitted(text, caseSensitive)[i] == Emit(text[i], caseSensitive)
    requires var g := Grouped(Emitted(text, caseSensitive)[..n - 2], GetOrder);
      Loop(text, n - 2, caseSensitive) == Running(Scan(SpineOps(g), SpineLefts(g) + [LastLeaf(g)]))
    ensures var g := Grouped(Emitted(text, caseSensitive)[..n], GetOrder);
      Loop(text, n, caseSensitive) == Running(Scan(SpineOps(g), SpineLefts(g) + [LastLeaf(g)]))
  {
    assert (n - 2) % 2 == 1;
    var e := Emitted(text, caseSensitive);
    var g := Grouped(e[..n - 2], GetOrder);
    GroupedReadsBack(e[..n - 2], GetOrder);
    SpineRising(g, GetOrder);
    SpineStep(text, n, g, caseSensitive);
    GroupedPrefix(e, n, GetOrder);
    assert e[n - 2] == Emit(text[n - 2], caseSensitive) == text[n - 2];
    assert e[n - 1] == Emit(text[n - 1], caseSensitive);
  }

  /** On a text that alternates single letters and operators, `ToPostfix` succeeds with
      the postorder of the reference grouping of the emitted text: `*` and `/` bind more
      tightly than `+` and `-`, and operators of one rank group from the left. */
  lemma ToPostfixGrouped(text: string, caseSensitive: bool)
    requires Chain(text)
    ensures ToPostfix(text, caseSensitive) == Success(Postorder(Grouped(Emitted(text, caseSensitive), GetOrder)))
  {
    var e := Emitted(text, caseSensitive);
    var g := Grouped(e, GetOrder);
    LoopGrouped(text, |text|, caseSensitive);
    assert e[..|text|] == e;
    ChainEmitted(text, caseSensitive);
    GroupedOk(e, GetOrder);
    SpineOperators(g);
    assert '(' !in SpineOps(g) && ')' !in SpineOps(g);
    PostorderSpine(g);
  }

  /** The value `Evaluate` gives the output of a chain is the value of its grouping. */
  lemma ToPostfixValue(text: string, caseSensitive: bool, vars: map<char, real>)
    requires Chain(text)
    ensures ToPostfix(text, caseSensitive).Success?
    ensures Evaluate(ToPostfix(text, caseSensitive).value, vars)
      == TreeValue(Grouped(Emitted(text, caseSensitive), GetOrder), vars)
  {
    ToPostfixGrouped(text, caseSensitive);
    ChainEmitted(text, caseSensitive);
    GroupedOk(Emitted(text, caseSensitive), GetOrder);
    EvaluateTree(Grouped(Emitted(text, caseSensitive), GetOrder), vars);
  }
}
