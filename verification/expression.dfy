/** The final parser, `Expression` (MathParser/Expression.cs): a one-pass shunting-yard
    conversion of infix text into a list of `ParserToken`s, a stack evaluator for that
    list, and the registry of named variables the two share.

    The class's three fields become the `Expression` datatype; every method that changes
    them returns the new value. `Parse` changes the fields before it can throw, so it
    returns the new `Expression` on failure too. */
module Expressions {
  import opened Wrappers
  import opened Chars
  import opened Errors
  import opened ParserTokens

  /** The class of the previous accepted symbol (`Expression.TokenType`; `None` is `Start`). */
  datatype TokenType = Start | Variable | Constant | Operator | BracketO | BracketC

  /** Variable name to value; `None` is the NaN a `Variable` starts with. */
  type Registry = map<string, Option<real>>

  datatype Expression = Expression(infix: string, variables: Registry, postfix: seq<Token>)

  /** A postfix list holds only operands and operators, and each variable in it is registered. */
  predicate PostfixOk(p: seq<Token>, vars: Registry) {
    forall i :: 0 <= i < |p| ==> (p[i].Var? || p[i].Const? || p[i].BinOp?) && (p[i].Var? ==> p[i].key in vars)
  }

  /** The class invariant: every token in `postfix` is one the evaluator can run. */
  predicate Valid(e: Expression) {
    PostfixOk(e.postfix, e.variables)
  }

  /** `after` keeps every entry of `before` and adds only undefined ones. */
  predicate Grows(before: Registry, after: Registry) {
    && (forall k :: k in before ==> k in after && after[k] == before[k])
    && (forall k :: k in after && k !in before ==> after[k] == None)
  }

  /** Operands pushed minus operators applied: the size of the value stack a postfix
      list leaves behind when nothing fails. */
  function Height(p: seq<Token>): int {
    if p == [] then 0 else Height(p[..|p| - 1]) + (if p[|p| - 1].BinOp? then -1 else 1)
  }

  // ---------------------------------------------------------------------------
  // Variable registry
  // ---------------------------------------------------------------------------

  /** `GetValue`: looks the raw name up, without upper-casing it. */
  function GetValue(e: Expression, token: string): (r: Option<real>)
    ensures token in e.variables ==> r == e.variables[token]
    ensures token !in e.variables ==> r == None
  {
    if token in e.variables then e.variables[token] else None
  }

  /** `SetValue`: upper-cases the name, then updates the entry in place or adds one. */
  function SetValue(e: Expression, token: string, value: Option<real>): (r: Expression)
    ensures r.infix == e.infix && r.postfix == e.postfix
    ensures r.variables.Keys == e.variables.Keys + {Upper(token)}
    ensures r.variables[Upper(token)] == value
    ensures forall k :: k in e.variables && k != Upper(token) ==> r.variables[k] == e.variables[k]
    ensures Valid(e) ==> Valid(r)
  {
    e.(variables := e.variables[Upper(token) := value])
  }

  /** `GetValue` reads back what `SetValue` stored under the upper-cased name; every other
      name reads as before. */
  lemma SetThenGet(e: Expression, name: string, value: Option<real>, k: string)
    ensures GetValue(SetValue(e, name, value), Upper(name)) == value
    ensures k != Upper(name) ==> GetValue(SetValue(e, name, value), k) == GetValue(e, k)
  {
  }

  /** A variable leaf with a registered key evaluates as the registry says after a
      `SetValue`: it fails exactly when `GetValue` finds no value, which for another
      name is exactly when it found none before; otherwise it yields the stored value. */
  lemma SetThenEval(e: Expression, name: string, value: Option<real>, k: string)
    requires k in e.variables || k == Upper(name)
    ensures var e' := SetValue(e, name, value);
      && (EvalOperand(Var(k), e'.variables[k]).Failure? <==> GetValue(e', k).None?)
      && (k != Upper(name) ==> (EvalOperand(Var(k), e'.variables[k]).Failure? <==> GetValue(e, k).None?))
      && (GetValue(e', k).Some? ==> EvalOperand(Var(k), e'.variables[k]) == Success(GetValue(e', k).value))
  {
  }

  function Min(a: int, b: int): int {
    if a < b then a else b
  }

  /** The registry keys `SetValue` uses for the first `m` names. */
  function NameSet(tokens: seq<string>, m: nat): (r: set<string>)
    requires m <= |tokens|
    ensures forall i :: 0 <= i < m ==> Upper(tokens[i]) in r
  {
    if m == 0 then {} else NameSet(tokens, m - 1) + {Upper(tokens[m - 1])}
  }

  /** The registry after the first `m` assignments of `SetValues`. */
  function Assign(vars: Registry, tokens: seq<string>, values: seq<Option<real>>, m: nat): (r: Registry)
    requires m <= |tokens| && m <= |values|
    ensures r.Keys == vars.Keys + NameSet(tokens, m)
    ensures forall k :: k in vars && k !in NameSet(tokens, m) ==> r[k] == vars[k]
    ensures forall i :: 0 <= i < m && (forall j :: i < j < m ==> Upper(tokens[j]) != Upper(tokens[i]))
                        ==> r[Upper(tokens[i])] == values[i]
  {
    if m == 0 then vars else Assign(vars, tokens, values, m - 1)[Upper(tokens[m - 1]) := values[m - 1]]
  }

  /** The registry after the first `m` assignments of `SetValuesTo`. */
  function AssignAll(vars: Registry, tokens: seq<string>, value: Option<real>, m: nat): (r: Registry)
    requires m <= |tokens|
    ensures r.Keys == vars.Keys + NameSet(tokens, m)
    ensures forall k :: k in vars && k !in NameSet(tokens, m) ==> r[k] == vars[k]
    ensures forall i :: 0 <= i < m ==> r[Upper(tokens[i])] == value
  {
    if m == 0 then vars else AssignAll(vars, tokens, value, m - 1)[Upper(tokens[m - 1]) := value]
  }

  /** `SetValues(string[], double[])`: applies the first min(|tokens|, |values|) pairs in
      order, so the last pair for a name wins and every other entry is left alone. */
  function SetValues(e: Expression, tokens: seq<string>, values: seq<Option<real>>): (r: Expression)
    ensures r.infix == e.infix && r.postfix == e.postfix
    ensures r.variables.Keys == e.variables.Keys + NameSet(tokens, Min(|tokens|, |values|))
    ensures forall k :: k in e.variables && k !in NameSet(tokens, Min(|tokens|, |values|)) ==> r.variables[k] == e.variables[k]
    ensures forall i :: 0 <= i < Min(|tokens|, |values|)
                        && (forall j :: i < j < Min(|tokens|, |values|) ==> Upper(tokens[j]) != Upper(tokens[i]))
                        ==> r.variables[Upper(tokens[i])] == values[i]
    ensures Valid(e) ==> Valid(r)
  {
    var r := e.(variables := Assign(e.variables, tokens, values, Min(|tokens|, |values|)));
    MoreKeysValid(e, r);
    r
  }

  /** `SetValues(string[], double)`: gives every listed name the same value. */
  function SetValuesTo(e: Expression, tokens: seq<string>, value: Option<real>): (r: Expression)
    ensures r.infix == e.infix && r.postfix == e.postfix
    ensures r.variables.Keys == e.variables.Keys + NameSet(tokens, |tokens|)
    ensures forall i :: 0 <= i < |tokens| ==> r.variables[Upper(tokens[i])] == value
    ensures forall k :: k in e.variables && k !in NameSet(tokens, |tokens|) ==> r.variables[k] == e.variables[k]
    ensures Valid(e) ==> Valid(r)
  {
    var r := e.(variables := AssignAll(e.variables, tokens, value, |tokens|));
    MoreKeysValid(e, r);
    r
  }

  lemma MoreKeysValid(e: Expression, r: Expression)
    requires r.postfix == e.postfix && e.variables.Keys <= r.variables.Keys
    ensures Valid(e) ==> Valid(r)
  {
  }

  // ---------------------------------------------------------------------------
  // Parse
  // ---------------------------------------------------------------------------

  /** The local state of `Parse`: the token buffer, the operator stack (top last), the
      previous symbol's class, and the two fields `Parse` writes. */
  datatype Scan = Scan(token: string, stack: seq<Token>, last: TokenType, postfix: seq<Token>, variables: Registry)

  /** A scan still going, or stopped by an exception with the fields as they were then. */
  datatype Progress = Running(scan: Scan) | Failed(scan: Scan, error: Error)

  /** The result of `Parse`: the new fields, and the returned list or the exception. */
  datatype Parsed = Parsed(expr: Expression, result: Result<seq<Token>, Error>)

  /** The `(` marker `Parse` pushes. */
  const Open: Token := Marker("(")

  /** The operator stack holds only `(` markers and operators. */
  predicate StackOk(stack: seq<Token>) {
    forall i :: 0 <= i < |stack| ==> stack[i] == Open || stack[i].BinOp?
  }

  /** `pushOperand`: emits the buffered operand, interning a variable under its raw text. */
  function PushOperand(s: Scan): (r: Scan)
    ensures r.token == "" && r.stack == s.stack && r.last == s.last
    ensures s.postfix <= r.postfix && |r.postfix| <= |s.postfix| + 1
    ensures Grows(s.variables, r.variables)
    ensures forall i :: |s.postfix| <= i < |r.postfix| ==>
              (r.postfix[i] == Const(DecimalValue(s.token) as real) && s.last == Constant)
              || (r.postfix[i] == Var(s.token) && s.last == Variable && s.token in r.variables)
    ensures s.last in {Variable, Constant} <==> |r.postfix| == |s.postfix| + 1
  {
    if s.last == Constant then
      s.(postfix := s.postfix + [Const(DecimalValue(s.token) as real)], token := "")
    else if s.last == Variable then
      var vars := if s.token in s.variables then s.variables else s.variables[s.token := None];
      s.(postfix := s.postfix + [Var(s.token)], variables := vars, token := "")
    else
      s.(token := "")
  }

  /** The `)` loop: moves the stack's top to the output until a `(` is on top. */
  function PopToOpen(stack: seq<Token>, out: seq<Token>): (r: (seq<Token>, seq<Token>))
    ensures r.0 <= stack
    ensures r.1 == out + Reverse(stack[|r.0|..])
    ensures r.0 == [] || r.0[|r.0| - 1].Text() == "("
    ensures forall i :: |r.0| <= i < |stack| ==> stack[i].Text() != "("
    decreases |stack|
  {
    if stack == [] || stack[|stack| - 1].Text() == "(" then (stack, out)
    else
      var top := stack[|stack| - 1];
      var r := PopToOpen(stack[..|stack| - 1], out + [top]);
      PopToOpenStep(stack, out, r);
      r
  }

  /** One pop of the `)` loop, as `PopHigherStep` is for the operator loop. */
  lemma PopToOpenStep(stack: seq<Token>, out: seq<Token>, r: (seq<Token>, seq<Token>))
    requires stack != [] && stack[|stack| - 1].Text() != "("
    requires var rest := stack[..|stack| - 1];
      && r.0 <= rest
      && r.1 == (out + [stack[|stack| - 1]]) + Reverse(rest[|r.0|..])
      && (forall i :: |r.0| <= i < |rest| ==> rest[i].Text() != "(")
    ensures r.0 <= stack
    ensures r.1 == out + Reverse(stack[|r.0|..])
    ensures forall i :: |r.0| <= i < |stack| ==> stack[i].Text() != "("
  {
    MoveLast(stack, out, |r.0|, r.1);
    forall i | |r.0| <= i < |stack| ensures stack[i].Text() != "(" {
      if i < |stack| - 1 {
        assert stack[..|stack| - 1][i] == stack[i];
      }
    }
  }

  /** The operator loop: pops every stacked token whose order is at least `order`,
      emitting the ones that are not brackets. The comparison is `<=`, so an operator
      of equal order leaves first: `+ -`, `* /` and `^` are all left-associative. */
  function PopHigher(stack: seq<Token>, out: seq<Token>, order: int): (r: (seq<Token>, seq<Token>))
    ensures r.0 <= stack
    ensures r.0 == [] || r.0[|r.0| - 1].Order() < order
    ensures forall i :: |r.0| <= i < |stack| ==> order <= stack[i].Order()
    ensures 0 <= order ==> r.1 == out + Reverse(stack[|r.0|..])
    decreases |stack|
  {
    if stack == [] || order > stack[|stack| - 1].Order() then (stack, out)
    else
      var top := stack[|stack| - 1];
      var out' := if top.Text() != "(" && top.Text() != ")" then out + [top] else out;
      var r := PopHigher(stack[..|stack| - 1], out', order);
      PopHigherStep(stack, out, order, r);
      r
  }

  /** One pop of the operator loop: what the loop does on the stack without its top,
      after emitting that top, is what it does on the whole stack. */
  lemma PopHigherStep(stack: seq<Token>, out: seq<Token>, order: int, r: (seq<Token>, seq<Token>))
    requires stack != [] && order <= stack[|stack| - 1].Order()
    requires var top := stack[|stack| - 1];
      var rest := stack[..|stack| - 1];
      var out' := if top.Text() != "(" && top.Text() != ")" then out + [top] else out;
      && r.0 <= rest
      && (forall i :: |r.0| <= i < |rest| ==> order <= rest[i].Order())
      && (0 <= order ==> r.1 == out' + Reverse(rest[|r.0|..]))
    ensures r.0 <= stack
    ensures forall i :: |r.0| <= i < |stack| ==> order <= stack[i].Order()
    ensures 0 <= order ==> r.1 == out + Reverse(stack[|r.0|..])
  {
    var top := stack[|stack| - 1];
    if 0 <= order {
      assert top.BinOp? && top.Text() == [Symbol(top.op)];
      MoveLast(stack, out, |r.0|, r.1);
    }
    forall i | |r.0| <= i < |stack| ensures order <= stack[i].Order() {
      if i < |stack| - 1 {
        assert stack[..|stack| - 1][i] == stack[i];
      }
    }
  }

  /** One turn of the `for` loop of `Parse` on `text[i]`. */
  function Step(text: string, i: nat, s: Scan): Progress
    requires i < |text|
  {
    var c := text[i];
    if IsWhiteSpace(c) then Running(s)
    else if IsDigit(c) then
      if s.last == BracketC then Failed(s, WrongSymbolAt(text, i))
      else Running(s.(last := if s.last != Variable then Constant else Variable, token := s.token + [c]))
    else if IsLetter(c) then
      if s.last == BracketC || s.last == Constant then Failed(s, WrongSymbolAt(text, i))
      else Running(s.(last := Variable, token := s.token + [c]))
    else if c == '(' then
      if s.last == BracketC || s.last == Variable || s.last == Constant then Failed(s, WrongSymbolAt(text, i))
      else Running(s.(last := BracketO, stack := s.stack + [Open]))
    else if c == ')' then
      if s.last == BracketO || s.last == Operator || s.last == Start then Failed(s, WrongSymbolAt(text, i))
      else
        var s1 := PushOperand(s);
        var (stack, out) := PopToOpen(s1.stack, s1.postfix);
        if stack == [] then Failed(s1.(stack := stack, postfix := out), Syntax(text, BracketMismatch, -1))
        else Running(s1.(last := BracketC, stack := stack[..|stack| - 1], postfix := out))
    else if s.last != BracketO && s.last != Operator && s.last != Start then
      var s1 := PushOperand(s).(last := Operator);
      match SelectOperator(c)
      case Failure(err) => Failed(s1, err)
      case Success(op) =>
        var (stack, out) := PopHigher(s1.stack, s1.postfix, OperatorOrder(op));
        Running(s1.(stack := stack + [BinOp(op)], postfix := out))
    else Failed(s, WrongSymbolAt(text, i))
  }

  /** An operator character after an operand ends the operand and runs the operator loop. */
  lemma OperatorAt(text: string, i: nat, s: Scan, op: BinaryOperator)
    requires i < |text| && text[i] == Symbol(op)
    requires s.last != BracketO && s.last != Operator && s.last != Start
    ensures var s1 := PushOperand(s).(last := Operator);
      var r := PopHigher(s1.stack, s1.postfix, OperatorOrder(op));
      Step(text, i, s) == Running(s1.(stack := r.0 + [BinOp(op)], postfix := r.1))
  {
    SymbolClass(op);
    SelectSymbol(op);
  }

  /** An operator symbol is none of the characters `Step` tests before it. */
  lemma SymbolClass(op: BinaryOperator)
    ensures var c := Symbol(op);
      !IsWhiteSpace(c) && !IsDigit(c) && !IsLetter(c) && c != '(' && c != ')'
  {
  }

  /** The `for` loop over the first `n` characters; the first exception ends it. */
  function Loop(text: string, n: nat, init: Scan): Progress
    requires n <= |text|
    decreases n
  {
    if n == 0 then Running(init)
    else
      match Loop(text, n - 1, init)
      case Failed(s, err) => Failed(s, err)
      case Running(s) => Step(text, n - 1, s)
  }

  /** The final loop: moves the rest of the stack to the output; a bracket left on it
      is a mismatch. */
  function Drain(text: string, s: Scan): Progress
    decreases |s.stack|
  {
    if s.stack == [] then Running(s)
    else
      var top := s.stack[|s.stack| - 1];
      if top.Text() != "(" && top.Text() != ")" then
        Drain(text, s.(stack := s.stack[..|s.stack| - 1], postfix := s.postfix + [top]))
      else Failed(s, Syntax(text, BracketMismatch, -1))
  }

  /** What follows the loop: the last `pushOperand` and the draining of the stack. */
  function Finish(text: string, p: Progress): Progress {
    match p
    case Failed(_, _) => p
    case Running(s) => Drain(text, PushOperand(s))
  }

  /** The scan `Parse` starts with on the fields of `e`. */
  function Initial(e: Expression): Scan {
    Scan("", [], Start, e.postfix, e.variables)
  }

  /** `Parse(expression)`: records the text and scans it. The postfix list is a field that
      is never cleared, so the tokens are appended after those of earlier parses. */
  function Parse(e: Expression, text: string): (r: Parsed)
    ensures r.expr.infix == text
    ensures e.postfix <= r.expr.postfix
    ensures Grows(e.variables, r.expr.variables)
    ensures Valid(e) ==> Valid(r.expr)
    ensures r.result.Success? ==> r.result.value == r.expr.postfix
    ensures r.result.Failure? ==> ParseError(text, r.result.error)
  {
    var init := Initial(e);
    LoopOk(text, |text|, init);
    var p := Finish(text, Loop(text, |text|, init));
    FinishOk(text, Loop(text, |text|, init), init);
    var e' := Expression(text, p.scan.variables, p.scan.postfix);
    assert Valid(e) ==> Valid(e') by {
      if Valid(e) {
        assert e'.postfix == e.postfix + e'.postfix[|e.postfix|..];
      }
    }
    Parsed(e', if p.Running? then Success(e'.postfix) else Failure(p.error))
  }

  /** The exceptions `Parse` can throw: a wrong symbol at a position of the text, the
      bracket mismatch (which is positionless), or `SelectOperator`'s `ArgumentException`. */
  predicate ParseError(text: string, err: Error) {
    || (err.WrongSymbol? && err.expression == text && 0 <= err.position < |text| && err.failedChar == text[err.position])
    || err == Syntax(text, BracketMismatch, -1)
    || err == UnknownOperator
  }

  /** The constructor `Expression(expression, parse)`. */
  function Create(text: string, parse: bool): (r: Parsed)
    ensures Valid(r.expr) && r.expr.infix == text
    ensures !parse ==> r.expr.postfix == [] && r.expr.variables == map[]
  {
    var e := Expression(text, map[], []);
    if parse then Parse(e, text) else Parsed(e, Success([]))
  }

  // ----- invariants of the scan -----

  /** What every scan state keeps relative to the fields the scan started from. */
  predicate ScanOk(s: Scan, base: Scan) {
    && base.postfix <= s.postfix
    && Grows(base.variables, s.variables)
    && PostfixOk(s.postfix[|base.postfix|..], s.variables)
    && StackOk(s.stack)
  }

  predicate ProgressOk(text: string, p: Progress, base: Scan) {
    && ScanOk(p.scan, base)
    && (p.Failed? ==> ParseError(text, p.error))
  }

  lemma GrowsTrans(a: Registry, b: Registry, c: Registry)
    requires Grows(a, b) && Grows(b, c)
    ensures Grows(a, c)
  {
  }

  lemma PushOperandOk(s: Scan, base: Scan)
    requires ScanOk(s, base)
    ensures ScanOk(PushOperand(s), base)
  {
    var r := PushOperand(s);
    GrowsTrans(base.variables, s.variables, r.variables);
    var n := |base.postfix|;
    forall i | 0 <= i < |r.postfix| - n
      ensures var t := r.postfix[n..][i]; (t.Var? || t.Const? || t.BinOp?) && (t.Var? ==> t.key in r.variables)
    {
      if n + i < |s.postfix| {
        assert r.postfix[n..][i] == s.postfix[n..][i];
      }
    }
  }

  /** Moving operators from the stack to the output keeps the invariant. */
  lemma MoveOk(s: Scan, base: Scan, stack: seq<Token>, out: seq<Token>)
    requires ScanOk(s, base)
    requires stack <= s.stack
    requires out == s.postfix + Reverse(s.stack[|stack|..])
    requires forall i :: |stack| <= i < |s.stack| ==> s.stack[i].BinOp?
    ensures ScanOk(s.(stack := stack, postfix := out), base)
  {
    var n := |base.postfix|;
    var moved := Reverse(s.stack[|stack|..]);
    forall i | 0 <= i < |out| - n
      ensures var t := out[n..][i]; (t.Var? || t.Const? || t.BinOp?) && (t.Var? ==> t.key in s.variables)
    {
      if n + i < |s.postfix| {
        assert out[n..][i] == s.postfix[n..][i];
      } else {
        assert out[n..][i] == moved[n + i - |s.postfix|];
      }
    }
  }

  lemma StepOk(text: string, i: nat, s: Scan, base: Scan)
    requires i < |text|
    requires ScanOk(s, base)
    ensures ProgressOk(text, Step(text, i, s), base)
  {
    var c := text[i];
    if IsWhiteSpace(c) || IsDigit(c) || IsLetter(c) || c == '(' {
      QuietOk(text, i, s, base);
    } else if c == ')' {
      CloseOk(text, i, s, base);
    } else {
      OperatorOk(text, i, s, base);
    }
  }

  lemma QuietOk(text: string, i: nat, s: Scan, base: Scan)
    requires i < |text| && ScanOk(s, base)
    requires var c := text[i]; IsWhiteSpace(c) || IsDigit(c) || IsLetter(c) || c == '('
    ensures ProgressOk(text, Step(text, i, s), base)
  {
  }

  lemma CloseOk(text: string, i: nat, s: Scan, base: Scan)
    requires i < |text| && ScanOk(s, base) && text[i] == ')'
    ensures ProgressOk(text, Step(text, i, s), base)
  {
    assert !IsWhiteSpace(')') && !IsDigit(')') && !IsLetter(')');
    if !(s.last == BracketO || s.last == Operator || s.last == Start) {
      var s1 := PushOperand(s);
      PushOperandOk(s, base);
      var (stack, out) := PopToOpen(s1.stack, s1.postfix);
      forall j | |stack| <= j < |s1.stack| ensures s1.stack[j].BinOp? {
        assert s1.stack[j].Text() != "(";
      }
      MoveOk(s1, base, stack, out);
    }
  }

  lemma OperatorOk(text: string, i: nat, s: Scan, base: Scan)
    requires i < |text| && ScanOk(s, base)
    requires var c := text[i]; !IsWhiteSpace(c) && !IsDigit(c) && !IsLetter(c) && c != '(' && c != ')'
    ensures ProgressOk(text, Step(text, i, s), base)
  {
    var c := text[i];
    if s.last != BracketO && s.last != Operator && s.last != Start {
      var s1 := PushOperand(s).(last := Operator);
      PushOperandOk(s, base);
      match SelectOperator(c)
      case Failure(err) =>
      case Success(op) =>
        var (stack, out) := PopHigher(s1.stack, s1.postfix, OperatorOrder(op));
        MoveOk(s1, base, stack, out);
    }
  }

  lemma LoopOk(text: string, n: nat, base: Scan)
    requires n <= |text|
    requires base.token == "" && base.stack == []
    ensures ProgressOk(text, Loop(text, n, base), base)
  {
    if n == 0 {
      assert base.postfix[|base.postfix|..] == [];
    } else {
      LoopOk(text, n - 1, base);
      match Loop(text, n - 1, base)
      case Failed(_, _) =>
      case Running(s) => StepOk(text, n - 1, s, base);
    }
  }

  lemma DrainOk(text: string, s: Scan, base: Scan)
    requires ScanOk(s, base)
    ensures ProgressOk(text, Drain(text, s), base)
    decreases |s.stack|
  {
    if s.stack != [] {
      var top := s.stack[|s.stack| - 1];
      if top.Text() != "(" && top.Text() != ")" {
        assert top.BinOp?;
        assert Reverse(s.stack[|s.stack| - 1..]) == [top];
        MoveOk(s, base, s.stack[..|s.stack| - 1], s.postfix + [top]);
        DrainOk(text, s.(stack := s.stack[..|s.stack| - 1], postfix := s.postfix + [top]), base);
      }
    }
  }

  lemma FinishOk(text: string, p: Progress, base: Scan)
    requires ProgressOk(text, p, base)
    ensures ProgressOk(text, Finish(text, p), base)
  {
    if p.Running? {
      PushOperandOk(p.scan, base);
      DrainOk(text, PushOperand(p.scan), base);
    }
  }

  // ---------------------------------------------------------------------------
  // Evaluate
  // ---------------------------------------------------------------------------

  /** The `foreach` loop of `Evaluate` over `p`, starting from the value stack `values`
      (top last). An operator pops the right operand, then the left one, and computes
      `Eval(left, right)`; a non-finite result is a `MathException` with both operands. */
  function EvalFrom(p: seq<Token>, vars: Registry, pow: PowFn, values: seq<real>): (r: Result<seq<real>, Error>)
    requires PostfixOk(p, vars)
    ensures r.Success? ==> |r.value| == |values| + Height(p)
    ensures r.Failure? ==> r.error.Math? || r.error == EmptyStack || (r.error.Evaluating? && r.error.reason.NotDefined?)
    decreases |p|
  {
    if p == [] then Success(values)
    else
      var t := p[0];
      HeightFirst(p);
      if !t.Executable() then
        match EvalOperand(t, if t.Var? then vars[t.key] else None)
        case Failure(err) => Failure(err)
        case Success(v) => EvalFrom(p[1..], vars, pow, values + [v])
      else if |values| < 2 then Failure(EmptyStack)
      else
        var right := values[|values| - 1];
        var left := values[|values| - 2];
        match Apply(t.op, left, right, pow)
        case NonFinite => Failure(Math(left, right, t.Text()))
        case Finite(res) => EvalFrom(p[1..], vars, pow, values[..|values| - 2] + [res])
  }

  lemma {:induction false} HeightFirst(p: seq<Token>)
    requires p != []
    ensures Height(p) == (if p[0].BinOp? then -1 else 1) + Height(p[1..])
    decreases |p|
  {
    if |p| > 1 {
      HeightFirst(p[..|p| - 1]);
      assert p[..|p| - 1][1..] == p[1..][..|p| - 2];
    } else {
      assert p[1..] == [];
      assert p[..0] == [];
    }
  }

  /** `Evaluate()`: runs the postfix list on an empty stack; exactly one value must remain. */
  function Evaluate(e: Expression, pow: PowFn): (r: Result<real, Error>)
    requires Valid(e)
    ensures r.Success? ==> Height(e.postfix) == 1
    ensures r == Failure(Evaluating(WrongPostfixForm)) ==> Height(e.postfix) != 1
    ensures r.Failure? ==> r.error.IsEvaluating() || r.error == EmptyStack
  {
    match EvalFrom(e.postfix, e.variables, pow, [])
    case Failure(err) => Failure(err)
    case Success(vs) => if |vs| != 1 then Failure(Evaluating(WrongPostfixForm)) else Success(vs[0])
  }

  /** The result of `Evaluate(expression)`: the fields after the parse, and the value. */
  datatype Evaluated = Evaluated(expr: Expression, result: Result<real, Error>)

  /** `Evaluate(expression)`: parses, then evaluates; the evaluation changes no field. */
  function EvaluateText(e: Expression, text: string, pow: PowFn): (r: Evaluated)
    requires Valid(e)
    ensures r.expr == Parse(e, text).expr
    ensures Parse(e, text).result.Failure? ==> r.result == Failure(Parse(e, text).result.error)
    ensures r.result.Success? ==> Height(r.expr.postfix) == 1
  {
    var p := Parse(e, text);
    Evaluated(p.expr, if p.result.Failure? then Failure(p.result.error) else Evaluate(p.expr, pow))
  }
}
