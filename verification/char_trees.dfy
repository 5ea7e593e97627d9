/** Expression trees over single-letter variables: the reference the two char-level
    evaluators are compared with. A tree's postorder is the postfix text that
    `ToPostfix` produces for it. */
module CharTrees {
  import opened Chars
  import opened CharStacks

  datatype Tree =
    | Leaf(name: char)
    | Node(op: char, left: Tree, right: Tree)

  /** Leaves are letters and nodes are operators of `Parser.Operators`. */
  predicate TreeOk(t: Tree) {
    match t
    case Leaf(x) => IsLetter(x)
    case Node(op, l, r) => IsOperator(op) && TreeOk(l) && TreeOk(r)
  }

  function Postorder(t: Tree): (r: seq<char>)
    ensures |r| >= 1
  {
    match t
    case Leaf(x) => [x]
    case Node(op, l, r) => Postorder(l) + Postorder(r) + [op]
  }

  /** Every leaf of the tree has a value. */
  predicate Defined(t: Tree, vars: map<char, real>) {
    match t
    case Leaf(x) => x in vars
    case Node(_, l, r) => Defined(l, vars) && Defined(r, vars)
  }

  /** The tree read left to right: operands and operators in the order of the text. */
  function Inorder(t: Tree): (r: string)
    ensures |r| % 2 == 1
  {
    match t
    case Leaf(x) => [x]
    case Node(op, l, r) => Inorder(l) + [op] + Inorder(r)
  }

  /** Every operator of `t` has order at least `k`. */
  predicate AtLeast(t: Tree, k: int, order: char -> int) {
    match t
    case Leaf(_) => true
    case Node(op, l, r) => k <= order(op) && AtLeast(l, k, order) && AtLeast(r, k, order)
  }

  /** Precedence with left associativity: the operators inside an operator's left
      operand bind at least as tightly as it does, and those inside its right operand
      bind strictly more tightly. So `a-b-c` is `(a-b)-c` and `a+b*c` is `a+(b*c)`. */
  predicate Binds(t: Tree, order: char -> int) {
    match t
    case Leaf(_) => true
    case Node(op, l, r) =>
      && AtLeast(l, order(op), order) && AtLeast(r, order(op) + 1, order)
      && Binds(l, order) && Binds(r, order)
  }

  /** The tree of a text followed by `o y`: `o` takes as its left operand the largest
      subtree at the end of the right spine whose top operator binds at least as tightly. */
  function Insert(t: Tree, o: char, y: char, order: char -> int): Tree {
    if t.Node? && order(t.op) < order(o) then Node(t.op, t.left, Insert(t.right, o, y, order))
    else Node(o, t, Leaf(y))
  }

  /** The reference grouping of a chain `x0 o1 x1 ... ok xk`, built left to right. */
  function Grouped(s: string, order: char -> int): Tree
    requires |s| % 2 == 1
    decreases |s|
  {
    if |s| == 1 then Leaf(s[0])
    else Insert(Grouped(s[..|s| - 2], order), s[|s| - 2], s[|s| - 1], order)
  }

  lemma {:induction false} InsertInorder(t: Tree, o: char, y: char, order: char -> int)
    ensures Inorder(Insert(t, o, y, order)) == Inorder(t) + [o, y]
  {
    if t.Node? && order(t.op) < order(o) {
      InsertInorder(t.right, o, y, order);
    }
  }

  /** An operator that binds at least as tightly as `k` keeps every operator at least `k`. */
  lemma {:induction false} InsertAtLeast(t: Tree, o: char, y: char, k: int, order: char -> int)
    requires AtLeast(t, k, order) && k <= order(o)
    ensures AtLeast(Insert(t, o, y, order), k, order)
  {
    if t.Node? && order(t.op) < order(o) {
      InsertAtLeast(t.right, o, y, k, order);
    }
  }

  /** In a tree that `Binds`, the root's operator binds least tightly. */
  lemma {:induction false} RootLeast(t: Tree, order: char -> int)
    requires t.Node? && Binds(t, order)
    ensures AtLeast(t, order(t.op), order)
  {
    WeakerBound(t.right, order(t.op) + 1, order(t.op), order);
  }

  lemma {:induction false} WeakerBound(t: Tree, k: int, j: int, order: char -> int)
    requires AtLeast(t, k, order) && j <= k
    ensures AtLeast(t, j, order)
  {
    if t.Node? {
      WeakerBound(t.left, k, j, order);
      WeakerBound(t.right, k, j, order);
    }
  }

  lemma {:induction false} InsertBinds(t: Tree, o: char, y: char, order: char -> int)
    requires Binds(t, order)
    ensures Binds(Insert(t, o, y, order), order)
  {
    if t.Node? && order(t.op) < order(o) {
      InsertBinds(t.right, o, y, order);
      InsertAtLeast(t.right, o, y, order(t.op) + 1, order);
    } else if t.Node? {
      RootLeast(t, order);
      WeakerBound(t, order(t.op), order(o), order);
    }
  }

  /** The reference grouping reads back as the text, and respects precedence and left
      associativity. */
  lemma {:induction false} GroupedReadsBack(s: string, order: char -> int)
    requires |s| % 2 == 1
    ensures Inorder(Grouped(s, order)) == s
    ensures Binds(Grouped(s, order), order)
    decreases |s|
  {
    if |s| > 1 {
      var front := s[..|s| - 2];
      GroupedReadsBack(front, order);
      InsertInorder(Grouped(front, order), s[|s| - 2], s[|s| - 1], order);
      InsertBinds(Grouped(front, order), s[|s| - 2], s[|s| - 1], order);
      assert s == front + [s[|s| - 2], s[|s| - 1]];
    }
  }

  // ----- uniqueness -----

  /** The last operator of the text of a tree. */
  function LastOp(t: Tree): char
    requires t.Node?
  {
    if t.right.Leaf? then t.op else LastOp(t.right)
  }

  /** The leaf at the end of the right spine: the last operand of the text. */
  function LastLeaf(t: Tree): char {
    match t
    case Leaf(x) => x
    case Node(_, _, r) => LastLeaf(r)
  }

  /** The tree without its last operator and operand. */
  function DropLast(t: Tree): Tree
    requires t.Node?
  {
    if t.right.Leaf? then t.left else Node(t.op, t.left, DropLast(t.right))
  }

  lemma {:induction false} DropLastInorder(t: Tree)
    requires t.Node?
    ensures Inorder(t) == Inorder(DropLast(t)) + [LastOp(t), LastLeaf(t)]
  {
    if !t.right.Leaf? {
      DropLastInorder(t.right);
    }
  }

  lemma {:induction false} DropLastAtLeast(t: Tree, k: int, order: char -> int)
    requires t.Node? && AtLeast(t, k, order)
    ensures AtLeast(DropLast(t), k, order) && k <= order(LastOp(t))
  {
    if !t.right.Leaf? {
      DropLastAtLeast(t.right, k, order);
    }
  }

  lemma {:induction false} DropLastBinds(t: Tree, order: char -> int)
    requires t.Node? && Binds(t, order)
    ensures Binds(DropLast(t), order)
  {
    if !t.right.Leaf? {
      DropLastBinds(t.right, order);
      DropLastAtLeast(t.right, order(t.op) + 1, order);
    }
  }

  /** Putting the last operator and operand back where `Insert` puts them rebuilds a tree
      that `Binds`. */
  lemma {:induction false} InsertDropLast(t: Tree, order: char -> int)
    requires t.Node? && Binds(t, order)
    ensures Insert(DropLast(t), LastOp(t), LastLeaf(t), order) == t
  {
    if t.right.Leaf? {
      assert !(t.left.Node? && order(t.left.op) < order(t.op));
    } else {
      DropLastAtLeast(t.right, order(t.op) + 1, order);
      InsertDropLast(t.right, order);
    }
  }

  /** Only one tree reads back as a given text and respects precedence and left
      associativity: the reference grouping. */
  lemma {:induction false} GroupedUnique(t: Tree, order: char -> int)
    requires Binds(t, order)
    ensures t == Grouped(Inorder(t), order)
    decreases |Inorder(t)|
  {
    if t.Node? {
      var s := Inorder(t);
      var d := DropLast(t);
      DropLastInorder(t);
      DropLastBinds(t, order);
      GroupedUnique(d, order);
      assert s[..|s| - 2] == Inorder(d);
      InsertDropLast(t, order);
    }
  }

  /** An operator that binds no more tightly than any operator before it takes the whole
      text before it as its left operand: `a-b-c` is `(a-b)-c`, `a*b+c` is `(a*b)+c`. */
  lemma LeftOperandIsAll(s: string, o: char, y: char, order: char -> int)
    requires |s| % 2 == 1
    requires forall i :: 0 <= i < |s| && i % 2 == 1 ==> order(o) <= order(s[i])
    ensures Grouped(s + [o, y], order) == Node(o, Grouped(s, order), Leaf(y))
  {
    var w := s + [o, y];
    assert w[..|w| - 2] == s;
    GroupedReadsBack(s, order);
    AtLeastFromText(Grouped(s, order), order(o), order);
  }

  /** A bound on every operator of the text is a bound on every operator of the tree. */
  lemma {:induction false} AtLeastFromText(t: Tree, k: int, order: char -> int)
    requires forall i :: 0 <= i < |Inorder(t)| && i % 2 == 1 ==> k <= order(Inorder(t)[i])
    ensures AtLeast(t, k, order)
  {
    if t.Node? {
      var l, r := Inorder(t.left), Inorder(t.right);
      assert Inorder(t)[|l|] == t.op;
      forall i | 0 <= i < |l| && i % 2 == 1 ensures k <= order(l[i]) {
        assert Inorder(t)[i] == l[i];
      }
      forall i | 0 <= i < |r| && i % 2 == 1 ensures k <= order(r[i]) {
        assert Inorder(t)[|l| + 1 + i] == r[i];
      }
      AtLeastFromText(t.left, k, order);
      AtLeastFromText(t.right, k, order);
    }
  }

  // ----- the right spine, as the operator stack holds it -----

  /** The operators on the right spine, from the root down. */
  function SpineOps(t: Tree): seq<char> {
    match t
    case Leaf(_) => []
    case Node(op, _, r) => [op] + SpineOps(r)
  }

  /** The postorders of the left operands along the right spine, from the root down. */
  function SpineLefts(t: Tree): seq<char> {
    match t
    case Leaf(_) => []
    case Node(_, l, r) => Postorder(l) + SpineLefts(r)
  }

  /** The postorder is the left operands along the spine, the last operand, then the
      spine's operators from the bottom up. */
  lemma {:induction false} PostorderSpine(t: Tree)
    ensures Postorder(t) == SpineLefts(t) + [LastLeaf(t)] + Reverse(SpineOps(t))
  {
    if t.Node? {
      PostorderSpine(t.right);
      var ops := SpineOps(t);
      assert ops[1..] == SpineOps(t.right);
    }
  }

  /** What `Insert` does to the spine: the part above the operators that bind less
      tightly than `o` stays, `o` goes below it, and the rest moves to the left operands. */
  predicate SpineInserted(t: Tree, o: char, y: char, order: char -> int) {
    var ops := SpineOps(t);
    var k := Below(ops, order(o), order);
    var n := Insert(t, o, y, order);
    && SpineOps(n) == ops[..k] + [o]
    && SpineLefts(n) == SpineLefts(t) + [LastLeaf(t)] + Reverse(ops[k..])
    && LastLeaf(n) == y
  }

  /** Adding `o y` keeps the spine above the operators that bind less tightly than `o`,
      and moves the rest of the spine, in postorder, to the left operands. */
  lemma {:induction false} InsertSpine(t: Tree, o: char, y: char, order: char -> int)
    ensures var ops := SpineOps(t);
      var k := Below(ops, order(o), order);
      var n := Insert(t, o, y, order);
      && SpineOps(n) == ops[..k] + [o]
      && SpineLefts(n) == SpineLefts(t) + [LastLeaf(t)] + Reverse(ops[k..])
      && LastLeaf(n) == y
  {
    if t.Node? && order(t.op) < order(o) {
      InsertSpine(t.right, o, y, order);
      InsertSpineBelow(t, o, y, order);
    } else {
      InsertSpineAtTop(t, o, y, order);
    }
    assert SpineInserted(t, o, y, order);
  }

  lemma InsertSpineAtTop(t: Tree, o: char, y: char, order: char -> int)
    requires !(t.Node? && order(t.op) < order(o))
    ensures SpineInserted(t, o, y, order)
  {
    var ops := SpineOps(t);
    PostorderSpine(t);
    assert ops[..0] == [] && ops[0..] == ops;
  }

  lemma InsertSpineBelow(t: Tree, o: char, y: char, order: char -> int)
    requires t.Node? && order(t.op) < order(o) && SpineInserted(t.right, o, y, order)
    ensures SpineInserted(t, o, y, order)
  {
    var ops := SpineOps(t);
    var rops := SpineOps(t.right);
    assert ops[1..] == rops;
    var k := Below(ops, order(o), order);
    assert k == 1 + Below(rops, order(o), order);
    assert ops[..k] == [t.op] + rops[..k - 1];
    assert ops[k..] == rops[k - 1..];
    var n := Insert(t, o, y, order);
    var tail := [LastLeaf(t.right)] + Reverse(rops[k - 1..]);
    calc {
      SpineLefts(n);
      Postorder(t.left) + SpineLefts(Insert(t.right, o, y, order));
      Postorder(t.left) + (SpineLefts(t.right) + tail);
      (Postorder(t.left) + SpineLefts(t.right)) + tail;
    }
  }

  lemma {:induction false} SpineAtLeast(t: Tree, k: int, order: char -> int)
    requires AtLeast(t, k, order)
    ensures forall i :: 0 <= i < |SpineOps(t)| ==> k <= order(SpineOps(t)[i])
  {
    if t.Node? {
      SpineAtLeast(t.right, k, order);
      assert SpineOps(t)[1..] == SpineOps(t.right);
    }
  }

  /** In a tree that `Binds`, the spine's operators bind ever more tightly downwards. */
  lemma {:induction false} SpineRising(t: Tree, order: char -> int)
    requires Binds(t, order)
    ensures Rising(SpineOps(t), order)
  {
    if t.Node? {
      SpineRising(t.right, order);
      SpineAtLeast(t.right, order(t.op) + 1, order);
      var ops := SpineOps(t);
      assert ops[1..] == SpineOps(t.right);
      forall i, j | 0 <= i < j < |ops| ensures order(ops[i]) < order(ops[j]) {
        assert ops[j] == SpineOps(t.right)[j - 1];
        if i > 0 {
          assert ops[i] == SpineOps(t.right)[i - 1];
        }
      }
    }
  }

  lemma {:induction false} SpineOperators(t: Tree)
    requires TreeOk(t)
    ensures forall i :: 0 <= i < |SpineOps(t)| ==> IsOperator(SpineOps(t)[i])
  {
    if t.Node? {
      SpineOperators(t.right);
      assert SpineOps(t)[1..] == SpineOps(t.right);
    }
  }

  /** A text that alternates letters and operators, starting and ending with a letter. */
  predicate Chain(s: string) {
    && |s| % 2 == 1
    && forall i :: 0 <= i < |s| ==> if i % 2 == 0 then IsLetter(s[i]) else IsOperator(s[i])
  }

  lemma ChainFront(s: string)
    requires Chain(s) && |s| > 1
    ensures Chain(s[..|s| - 2]) && IsOperator(s[|s| - 2]) && IsLetter(s[|s| - 1])
  {
    var f := s[..|s| - 2];
    forall i | 0 <= i < |f| ensures if i % 2 == 0 then IsLetter(f[i]) else IsOperator(f[i]) {
      assert f[i] == s[i];
    }
  }

  /** What surrounds the operand that ends an odd prefix of a chain. */
  lemma ChainAt(s: string, n: nat)
    requires Chain(s) && 1 < n <= |s| && n % 2 == 1
    ensures IsOperator(s[n - 2]) && IsLetter(s[n - 1])
    ensures n == |s| || IsOperator(s[n])
  {
    assert (n - 2) % 2 == 1 && (n - 1) % 2 == 0;
  }

  /** The grouping of an odd prefix adds its last operator and operand to the grouping
      of the prefix before them. */
  lemma GroupedPrefix(s: string, n: nat, order: char -> int)
    requires 1 < n <= |s| && n % 2 == 1
    ensures Grouped(s[..n], order) == Insert(Grouped(s[..n - 2], order), s[n - 2], s[n - 1], order)
  {
    assert s[..n][..n - 2] == s[..n - 2];
  }

  /** The grouping of a chain is a tree of letters and operators. */
  lemma {:induction false} GroupedOk(s: string, order: char -> int)
    requires Chain(s)
    ensures TreeOk(Grouped(s, order))
    decreases |s|
  {
    if |s| > 1 {
      ChainFront(s);
      GroupedOk(s[..|s| - 2], order);
      InsertOk(Grouped(s[..|s| - 2], order), s[|s| - 2], s[|s| - 1], order);
    }
  }

  lemma {:induction false} InsertOk(t: Tree, o: char, y: char, order: char -> int)
    requires TreeOk(t) && IsOperator(o) && IsLetter(y)
    ensures TreeOk(Insert(t, o, y, order))
  {
    if t.Node? && order(t.op) < order(o) {
      InsertOk(t.right, o, y, order);
    }
  }

  /** Upper-casing a chain keeps it a chain and leaves its operators as they are. */
  lemma ChainUpper(s: string)
    requires Chain(s)
    ensures Chain(Upper(s))
    ensures forall i :: 0 <= i < |s| && i % 2 == 1 ==> Upper(s)[i] == s[i]
  {
    var u := Upper(s);
    forall i | 0 <= i < |u| ensures if i % 2 == 0 then IsLetter(u[i]) else IsOperator(u[i]) {
      assert u[i] == ToUpper(s[i]);
    }
  }
}
