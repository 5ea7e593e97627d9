/** What `Expression.Parse` of MathParser/Expression.cs produces, against the reference
    grouping of `CharTrees`: on a text of one-character operands separated by operators,
    the postfix list is the postorder of the tree in which `^` binds more tightly than
    `*` and `/`, those more tightly than `+` and `-`, and operators of one order group
    from the left. The scan keeps the right spine of that tree on its operator stack. */
module ExpressionGrouping {
  import opened Wrappers
  import opened Chars
  import opened ParserTokens
  import opened Expressions
  import opened ExpressionEval
  import CT = CharTrees

  /** One-character operands, letters or digits, separated by operator characters. */
  predicate OperandChain(s: string) {
    && |s| % 2 == 1
    && forall i :: 0 <= i < |s| ==> if i % 2 == 0 then IsAlnum(s[i]) else IsOpChar(s[i])
  }

  /** The order of the operator a character selects, and -1 for any other character. */
  function SymbolOrder(c: char): (r: int)
    ensures IsOpChar(c) <==> 1 <= r
  {
    match SelectOperator(c)
    case Success(op) => OperatorOrder(op)
    case Failure(_) => -1
  }

  /** The token `Parse` makes of an operator character or of a one-character operand. */
  function Lexeme(c: char): Token {
    match SelectOperator(c)
    case Success(op) => BinOp(op)
    case Failure(_) => if IsDigit(c) then Const(DecimalValue([c]) as real) else Var([c])
  }

  /** A token has the order of the character it is made of; only operator characters
      make operators. */
  lemma LexemeOrder(c: char)
    ensures Lexeme(c).Order() == SymbolOrder(c)
    ensures IsOpChar(c) <==> Lexeme(c).BinOp?
  {
  }

  function Tokens(s: string): (r: seq<Token>)
    ensures |r| == |s|
    ensures forall i :: 0 <= i < |s| ==> r[i] == Lexeme(s[i])
  {
    if s == [] then [] else [Lexeme(s[0])] + Tokens(s[1..])
  }

  lemma {:induction false} TokensAppend(a: string, b: string)
    ensures Tokens(a + b) == Tokens(a) + Tokens(b)
  {
    if a != [] {
      assert (a + b)[1..] == a[1..] + b;
      TokensAppend(a[1..], b);
    } else {
      assert a + b == b;
    }
  }

  /** Cutting the characters at `k` cuts their tokens at `k`. */
  lemma TokensSplit(s: string, k: nat)
    requires k <= |s|
    ensures Tokens(s)[..k] == Tokens(s[..k])
    ensures Tokens(s)[k..] == Tokens(s[k..])
  {
    assert s == s[..k] + s[k..];
    TokensAppend(s[..k], s[k..]);
  }

  lemma {:induction false} TokensReverse(s: string)
    ensures Tokens(Reverse(s)) == Reverse(Tokens(s))
  {
    if s != [] {
      TokensReverse(s[1..]);
      TokensAppend(Reverse(s[1..]), [s[0]]);
      assert Tokens(s)[1..] == Tokens(s[1..]);
    }
  }

  function TokenOrder(t: Token): int {
    t.Order()
  }

  /** Tokens order as the characters they are made of. */
  lemma {:induction false} BelowTokens(s: string, k: int)
    ensures Below(Tokens(s), k, TokenOrder) == Below(s, k, SymbolOrder)
  {
    if s != [] {
      BelowTokens(s[1..], k);
      LexemeOrder(s[0]);
      assert Tokens(s)[1..] == Tokens(s[1..]);
    }
  }

  lemma RisingTokens(s: string)
    requires Rising(s, SymbolOrder)
    ensures Rising(Tokens(s), TokenOrder)
  {
    var t := Tokens(s);
    forall i, j | 0 <= i < j < |t| ensures TokenOrder(t[i]) < TokenOrder(t[j]) {
      LexemeOrder(s[i]);
      LexemeOrder(s[j]);
      assert SymbolOrder(s[i]) < SymbolOrder(s[j]);
    }
  }

  // ----- the reference tree, in tokens -----

  /** A character tree whose leaves are operand characters and whose nodes are operator
      characters. */
  predicate Lexical(t: CT.Tree) {
    match t
    case Leaf(x) => IsAlnum(x)
    case Node(op, l, r) => IsOpChar(op) && Lexical(l) && Lexical(r)
  }

  /** The expression tree of a character tree: each character becomes its token. */
  function ToTerm(t: CT.Tree): (r: Term)
    requires Lexical(t)
  {
    match t
    case Leaf(x) => Leaf(Lexeme(x))
    case Node(op, l, r) => Node(SelectOperator(op).value, ToTerm(l), ToTerm(r))
  }

  /** The postfix list of the expression tree is the tokens of the character tree's
      postorder. */
  lemma {:induction false} PostorderTerm(t: CT.Tree)
    requires Lexical(t)
    ensures Postorder(ToTerm(t)) == Tokens(CT.Postorder(t))
  {
    match t
    case Leaf(x) =>
    case Node(op, l, r) =>
      PostorderTerm(l);
      PostorderTerm(r);
      TokensAppend(CT.Postorder(l), CT.Postorder(r));
      TokensAppend(CT.Postorder(l) + CT.Postorder(r), [op]);
  }

  lemma {:induction false} InsertLexical(t: CT.Tree, o: char, y: char, order: char -> int)
    requires Lexical(t) && IsOpChar(o) && IsAlnum(y)
    ensures Lexical(CT.Insert(t, o, y, order))
  {
    if t.Node? && order(t.op) < order(o) {
      InsertLexical(t.right, o, y, order);
    }
  }

  lemma OperandChainAt(s: string, n: nat)
    requires OperandChain(s) && 1 < n <= |s| && n % 2 == 1
    ensures IsOpChar(s[n - 2]) && IsAlnum(s[n - 1])
  {
    assert (n - 2) % 2 == 1 && (n - 1) % 2 == 0;
  }

  /** The grouping of an operand chain is a tree of operands and operators. */
  lemma {:induction false} GroupedLexical(s: string, n: nat)
    requires OperandChain(s) && 0 < n <= |s| && n % 2 == 1
    ensures Lexical(CT.Grouped(s[..n], SymbolOrder))
    decreases n
  {
    if n > 1 {
      OperandChainAt(s, n);
      GroupedLexical(s, n - 2);
      CT.GroupedPrefix(s, n, SymbolOrder);
      InsertLexical(CT.Grouped(s[..n - 2], SymbolOrder), s[n - 2], s[n - 1], SymbolOrder);
    } else {
      assert (n - 1) % 2 == 0;
    }
  }

  lemma {:induction false} SpineOpChars(t: CT.Tree)
    requires Lexical(t)
    ensures forall i :: 0 <= i < |CT.SpineOps(t)| ==> IsOpChar(CT.SpineOps(t)[i])
    ensures IsAlnum(CT.LastLeaf(t))
  {
    if t.Node? {
      SpineOpChars(t.right);
      assert CT.SpineOps(t)[1..] == CT.SpineOps(t.right);
    }
  }

  // ----- the scan -----

  /** The kind of token a one-character operand leaves in `last`. */
  function Kind(c: char): TokenType {
    if IsDigit(c) then Constant else Variable
  }

  /** The scan after the operand that ends the text read so far, grouped as `g`: that
      operand is buffered, the stack holds the tokens of the operators on `g`'s right
      spine, and the output the tokens of the left operands along it, after `base`. */
  predicate Keeps(s: Scan, g: CT.Tree, base: seq<Token>) {
    && s.token == [CT.LastLeaf(g)]
    && s.last == Kind(CT.LastLeaf(g))
    && s.stack == Tokens(CT.SpineOps(g))
    && s.postfix == base + Tokens(CT.SpineLefts(g))
  }

  /** `pushOperand` emits the buffered one-character operand as its token. */
  lemma PushPending(s: Scan, g: CT.Tree, base: seq<Token>)
    requires Keeps(s, g, base) && IsAlnum(CT.LastLeaf(g))
    ensures PushOperand(s).stack == s.stack
    ensures PushOperand(s).postfix == base + Tokens(CT.SpineLefts(g) + [CT.LastLeaf(g)])
  {
    var c := CT.LastLeaf(g);
    TokensAppend(CT.SpineLefts(g), [c]);
    assert !IsOpChar(c);
  }

  /** On a stack whose operators bind ever more tightly towards the top, the operator
      loop pops exactly the operators of at least the incoming order. */
  lemma PopHigherRising(stack: seq<Token>, out: seq<Token>, order: int)
    requires Rising(stack, TokenOrder) && 0 <= order
    ensures var k := Below(stack, order, TokenOrder);
      PopHigher(stack, out, order) == (stack[..k], out + Reverse(stack[k..]))
  {
    var r := PopHigher(stack, out, order);
    var m := |r.0|;
    forall i | 0 <= i < m ensures TokenOrder(stack[i]) < order {
      assert r.0[m - 1] == stack[m - 1];
      if i < m - 1 {
        assert TokenOrder(stack[i]) < TokenOrder(stack[m - 1]);
      }
    }
    forall i | m <= i < |stack| ensures order <= TokenOrder(stack[i]) {
    }
    BelowAt(stack, m, order, TokenOrder);
    assert r.0 == stack[..m];
  }

  /** An operator character after an operand, with the stack holding a rising spine: the
      operand is emitted, the operators of at least its order go to the output, and its
      token is pushed. */
  lemma OperatorStep(text: string, i: nat, s: Scan, g: CT.Tree, base: seq<Token>) returns (s': Scan)
    requires i < |text| && IsOpChar(text[i]) && Keeps(s, g, base) && Lexical(g)
    requires Rising(CT.SpineOps(g), SymbolOrder)
    ensures var ops := CT.SpineOps(g);
      var k := Below(ops, SymbolOrder(text[i]), SymbolOrder);
      && Step(text, i, s) == Running(s')
      && s'.token == []
      && s'.last == Operator
      && s'.stack == Tokens(ops[..k] + [text[i]])
      && s'.postfix == base + Tokens(CT.SpineLefts(g) + [CT.LastLeaf(g)] + Reverse(ops[k..]))
  {
    var c := text[i];
    var ops := CT.SpineOps(g);
    SpineOpChars(g);
    var op := SelectOperator(c).value;
    OperatorAt(text, i, s, op);
    PushPending(s, g, base);
    var s1 := PushOperand(s).(last := Operator);
    RisingTokens(ops);
    var k := Below(ops, SymbolOrder(c), SymbolOrder);
    PopHigherRising(s1.stack, s1.postfix, SymbolOrder(c));
    BelowTokens(ops, SymbolOrder(c));
    MovedTokens(ops, k, c, CT.SpineLefts(g) + [CT.LastLeaf(g)], base);
    s' := Step(text, i, s).scan;
  }

  /** The token arithmetic of `OperatorStep`. */
  lemma MovedTokens(ops: string, k: nat, c: char, done: string, base: seq<Token>)
    requires k <= |ops|
    ensures Tokens(ops)[..k] + [Lexeme(c)] == Tokens(ops[..k] + [c])
    ensures (base + Tokens(done)) + Reverse(Tokens(ops)[k..]) == base + Tokens(done + Reverse(ops[k..]))
  {
    PushedTokens(ops, k, c);
    ReversedTokens(ops, k, done);
    AppendAssoc(base, Tokens(done), Tokens(Reverse(ops[k..])));
  }

  lemma PushedTokens(ops: string, k: nat, c: char)
    requires k <= |ops|
    ensures Tokens(ops)[..k] + [Lexeme(c)] == Tokens(ops[..k] + [c])
  {
    TokensSplit(ops, k);
    TokensAppend(ops[..k], [c]);
  }

  lemma AppendAssoc(a: seq<Token>, b: seq<Token>, c: seq<Token>)
    ensures (a + b) + c == a + (b + c)
  {
  }

  lemma ReversedTokens(ops: string, k: nat, done: string)
    requires k <= |ops|
    ensures Reverse(Tokens(ops)[k..]) == Tokens(Reverse(ops[k..]))
    ensures Tokens(done + Reverse(ops[k..])) == Tokens(done) + Tokens(Reverse(ops[k..]))
  {
    TokensSplit(ops, k);
    TokensReverse(ops[k..]);
    TokensAppend(done, Reverse(ops[k..]));
  }

  /** A one-character operand after an operator starts the buffer. */
  lemma OperandStep(text: string, i: nat, s: Scan)
    requires i < |text| && IsAlnum(text[i]) && s.last == Operator && s.token == []
    ensures Step(text, i, s) == Running(s.(last := Kind(text[i]), token := [text[i]]))
  {
    assert !IsWhiteSpace(text[i]);
  }

  lemma LoopTwo(text: string, n: nat, init: Scan, s: Scan, s': Scan)
    requires 2 <= n <= |text| && Loop(text, n - 2, init) == Running(s) && Step(text, n - 2, s) == Running(s')
    ensures Loop(text, n, init) == Step(text, n - 1, s')
  {
    assert Loop(text, n - 1, init) == Running(s');
  }

  /** An operator and the operand after it, read after an operand with the stack holding
      a rising spine. */
  lemma OperatorOperand(text: string, n: nat, init: Scan, s: Scan, g: CT.Tree, base: seq<Token>) returns (s'': Scan)
    requires 1 < n <= |text| && IsOpChar(text[n - 2]) && IsAlnum(text[n - 1])
    requires Lexical(g) && Rising(CT.SpineOps(g), SymbolOrder)
    requires Loop(text, n - 2, init) == Running(s) && Keeps(s, g, base)
    ensures var ops := CT.SpineOps(g);
      var k := Below(ops, SymbolOrder(text[n - 2]), SymbolOrder);
      && Loop(text, n, init) == Running(s'')
      && s''.token == [text[n - 1]]
      && s''.last == Kind(text[n - 1])
      && s''.stack == Tokens(ops[..k] + [text[n - 2]])
      && s''.postfix == base + Tokens(CT.SpineLefts(g) + [CT.LastLeaf(g)] + Reverse(ops[k..]))
  {
    var s' := OperatorStep(text, n - 2, s, g, base);
    OperandAfter(text, n, init, s, s');
    s'' := s'.(last := Kind(text[n - 1]), token := [text[n - 1]]);
  }

  /** An operand after an operator that the scan went through. */
  lemma OperandAfter(text: string, n: nat, init: Scan, s: Scan, s': Scan)
    requires 2 <= n <= |text| && IsAlnum(text[n - 1])
    requires Loop(text, n - 2, init) == Running(s) && Step(text, n - 2, s) == Running(s')
    requires s'.last == Operator && s'.token == []
    ensures Loop(text, n, init) == Running(s'.(last := Kind(text[n - 1]), token := [text[n - 1]]))
  {
    OperandStep(text, n - 1, s');
    LoopTwo(text, n, init, s, s');
  }

  /** The scan keeps the spine of a tree across one more operator and operand: it then
      keeps the spine of the tree with them inserted. */
  lemma SpineStep(text: string, n: nat, init: Scan, g: CT.Tree, base: seq<Token>)
    requires 1 < n <= |text| && IsOpChar(text[n - 2]) && IsAlnum(text[n - 1])
    requires Lexical(g) && Rising(CT.SpineOps(g), SymbolOrder)
    requires Loop(text, n - 2, init).Running? && Keeps(Loop(text, n - 2, init).scan, g, base)
    ensures Loop(text, n, init).Running?
    ensures Keeps(Loop(text, n, init).scan, CT.Insert(g, text[n - 2], text[n - 1], SymbolOrder), base)
  {
    var o, y := text[n - 2], text[n - 1];
    var s := OperatorOperand(text, n, init, Loop(text, n - 2, init).scan, g, base);
    var g' := CT.Insert(g, o, y, SymbolOrder);
    CT.InsertSpine(g, o, y, SymbolOrder);
    assert Keeps(s, g', base);
  }

  /** After each operand of a chain the scan keeps the spine of the grouping of the text
      so far. */
  lemma {:induction false} LoopGrouped(text: string, n: nat, init: Scan)
    requires OperandChain(text) && n <= |text| && n % 2 == 1
    requires init.token == [] && init.stack == [] && init.last == Start
    ensures Loop(text, n, init).Running?
    ensures Keeps(Loop(text, n, init).scan, CT.Grouped(text[..n], SymbolOrder), init.postfix)
    decreases n
  {
    if n == 1 {
      assert IsAlnum(text[0]);
      assert text[..1] == [text[0]];
      assert Loop(text, 1, init) == Step(text, 0, init);
    } else {
      LoopGrouped(text, n - 2, init);
      GroupedStep(text, n, init);
    }
  }

  /** The step of `LoopGrouped` from one operand of a chain to the next. */
  lemma GroupedStep(text: string, n: nat, init: Scan)
    requires 1 < n <= |text| && n % 2 == 1
    requires Loop(text, n - 2, init).Running?
    requires Keeps(Loop(text, n - 2, init).scan, CT.Grouped(text[..n - 2], SymbolOrder), init.postfix)
    ensures Loop(text, n, init).Running?
    requires OperandChain(text)
    ensures Keeps(Loop(text, n, init).scan, CT.Grouped(text[..n], SymbolOrder), init.postfix)
  {
    assert (n - 2) % 2 == 1;
    var g := CT.Grouped(text[..n - 2], SymbolOrder);
    OperandChainAt(text, n);
    GroupedLexical(text, n - 2);
    CT.GroupedReadsBack(text[..n - 2], SymbolOrder);
    CT.SpineRising(g, SymbolOrder);
    SpineStep(text, n, init, g, init.postfix);
    CT.GroupedPrefix(text, n, SymbolOrder);
  }

  /** The final loop moves a stack of operators to the output in reverse. */
  lemma {:induction false} DrainOperators(text: string, s: Scan)
    requires forall i :: 0 <= i < |s.stack| ==> s.stack[i].BinOp?
    ensures Drain(text, s).Running?
    ensures Drain(text, s).scan.postfix == s.postfix + Reverse(s.stack)
    decreases |s.stack|
  {
    if s.stack != [] {
      var top := s.stack[|s.stack| - 1];
      assert top.Text() == [Symbol(top.op)];
      DrainOperators(text, s.(stack := s.stack[..|s.stack| - 1], postfix := s.postfix + [top]));
      ReverseLast(s.stack, 0);
      assert s.stack[0..] == s.stack && s.stack[..|s.stack| - 1][0..] == s.stack[..|s.stack| - 1];
    }
  }

  /** After the last operand of a chain, the final `pushOperand` and the final loop
      complete the postorder of the grouping. */
  lemma FinishGrouped(text: string, s: Scan, g: CT.Tree, base: seq<Token>)
    requires Keeps(s, g, base) && Lexical(g)
    ensures Finish(text, Running(s)).Running?
    ensures Finish(text, Running(s)).scan.postfix == base + Postorder(ToTerm(g))
  {
    SpineOpChars(g);
    PushPending(s, g, base);
    var s1 := PushOperand(s);
    forall i | 0 <= i < |s1.stack| ensures s1.stack[i].BinOp? {
      LexemeOrder(CT.SpineOps(g)[i]);
    }
    DrainOperators(text, s1);
    PostorderTokens(g);
    assert (base + Tokens(CT.SpineLefts(g) + [CT.LastLeaf(g)])) + Reverse(Tokens(CT.SpineOps(g)))
      == base + (Tokens(CT.SpineLefts(g) + [CT.LastLeaf(g)]) + Reverse(Tokens(CT.SpineOps(g))));
  }

  /** The postfix list of the grouping, read off its spine. */
  lemma PostorderTokens(g: CT.Tree)
    requires Lexical(g)
    ensures Postorder(ToTerm(g)) == Tokens(CT.SpineLefts(g) + [CT.LastLeaf(g)]) + Reverse(Tokens(CT.SpineOps(g)))
  {
    CT.PostorderSpine(g);
    PostorderTerm(g);
    TokensReverse(CT.SpineOps(g));
    TokensAppend(CT.SpineLefts(g) + [CT.LastLeaf(g)], Reverse(CT.SpineOps(g)));
  }

  /** On a text of one-character operands separated by operators, `Parse` succeeds and
      appends to the postfix list the postorder of the reference grouping: `^` before
      `*` and `/`, those before `+` and `-`, and operators of one order from the left. */
  lemma ParseGrouped(e: Expression, text: string)
    requires OperandChain(text)
    ensures var g := CT.Grouped(text, SymbolOrder);
      && Lexical(g)
      && Parse(e, text).result == Success(e.postfix + Postorder(ToTerm(g)))
  {
    var init := Initial(e);
    var g := CT.Grouped(text, SymbolOrder);
    LoopGrouped(text, |text|, init);
    assert text[..|text|] == text;
    GroupedLexical(text, |text|);
    FinishGrouped(text, Loop(text, |text|, init).scan, g, e.postfix);
  }

  /** The leaves of an expression tree are operands. */
  predicate OperandLeaves(t: Term) {
    match t
    case Leaf(x) => x.Var? || x.Const?
    case Node(_, l, r) => OperandLeaves(l) && OperandLeaves(r)
  }

  lemma {:induction false} LexicalLeaves(t: CT.Tree)
    requires Lexical(t)
    ensures OperandLeaves(ToTerm(t))
  {
    match t
    case Leaf(x) =>
    case Node(_, l, r) =>
      LexicalLeaves(l);
      LexicalLeaves(r);
  }

  /** A tree whose postfix list the evaluator accepts has its variables registered. */
  lemma {:induction false} TermOkFromPostfix(t: Term, vars: Registry)
    requires OperandLeaves(t) && PostfixOk(Postorder(t), vars)
    ensures TermOk(t, vars)
  {
    match t
    case Leaf(x) =>
      assert Postorder(t)[0] == x;
    case Node(op, l, r) =>
      var p := Postorder(t);
      assert forall i :: 0 <= i < |Postorder(l)| ==> p[i] == Postorder(l)[i];
      assert forall i :: 0 <= i < |Postorder(r)| ==> p[|Postorder(l)| + i] == Postorder(r)[i];
      TermOkFromPostfix(l, vars);
      TermOkFromPostfix(r, vars);
  }

  /** A new expression made from a chain evaluates to the value of its grouping. */
  lemma CreateValue(text: string, pow: PowFn)
    requires OperandChain(text)
    ensures var g := CT.Grouped(text, SymbolOrder);
      var r := Create(text, true);
      && Lexical(g)
      && r.result.Success?
      && TermOk(ToTerm(g), r.expr.variables)
      && Valid(r.expr)
      && Evaluate(r.expr, pow) == TermValue(ToTerm(g), r.expr.variables, pow)
  {
    var g := CT.Grouped(text, SymbolOrder);
    var e := Expression(text, map[], []);
    ParseGrouped(e, text);
    var r := Create(text, true);
    assert e.postfix + Postorder(ToTerm(g)) == Postorder(ToTerm(g));
    assert Valid(e);
    LexicalLeaves(g);
    TermOkFromPostfix(ToTerm(g), r.expr.variables);
    EvaluateTerm(r.expr, ToTerm(g), pow);
  }
}
