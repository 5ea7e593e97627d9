/** The stack loops the two char-level `Parser` classes share word for word
    (MathParser/Parser.cs:112-143 and MathParser/Program.cs:247-275): the `)` loop, the
    operator loop and the final loop that empties the stack.

    The operator stack is a `seq<char>` whose top is its last element. `Tally` is what a
    scan keeps true after each accepted prefix of the text, whichever class runs it. */
module CharStacks {
  import opened Wrappers
  import opened Chars
  import opened Errors

  /** `Operators.Contains(c)`: `Parser.Operators` holds `+`, `-`, `*` and `/` in both
      classes, and no `^`. */
  predicate IsOperator(c: char) {
    c == '+' || c == '-' || c == '*' || c == '/'
  }

  /** What the operator stack can hold: `(` markers and operators. */
  predicate StackOk(stack: seq<char>) {
    forall i :: 0 <= i < |stack| ==> stack[i] == '(' || IsOperator(stack[i])
  }

  /** What the output can hold: variables and operators, never a bracket. */
  predicate OutOk(out: seq<char>) {
    forall i :: 0 <= i < |out| ==> IsLetter(out[i]) || IsOperator(out[i])
  }

  /** The `)` loop: moves the stack's top to the output until a `(` is on top. */
  function PopToOpen(stack: seq<char>, out: seq<char>): (r: (seq<char>, seq<char>))
    ensures r.0 <= stack
    ensures r.1 == out + Reverse(stack[|r.0|..])
    ensures r.0 == [] || r.0[|r.0| - 1] == '('
    ensures forall i :: |r.0| <= i < |stack| ==> stack[i] != '('
    decreases |stack|
  {
    if stack == [] || stack[|stack| - 1] == '(' then (stack, out)
    else
      var top := stack[|stack| - 1];
      var r := PopToOpen(stack[..|stack| - 1], out + [top]);
      PopToOpenStep(stack, out, r);
      r
  }

  /** One pop of the `)` loop, as `PopWhileStep` is for the operator loop. */
  lemma PopToOpenStep(stack: seq<char>, out: seq<char>, r: (seq<char>, seq<char>))
    requires stack != [] && stack[|stack| - 1] != '('
    requires var rest := stack[..|stack| - 1];
      && r.0 <= rest
      && r.1 == (out + [stack[|stack| - 1]]) + Reverse(rest[|r.0|..])
      && (forall i :: |r.0| <= i < |rest| ==> rest[i] != '(')
    ensures r.0 <= stack
    ensures r.1 == out + Reverse(stack[|r.0|..])
    ensures forall i :: |r.0| <= i < |stack| ==> stack[i] != '('
  {
    MoveLast(stack, out, |r.0|, r.1);
    forall i | |r.0| <= i < |stack| ensures stack[i] != '(' {
      if i < |stack| - 1 {
        assert stack[..|stack| - 1][i] == stack[i];
      }
    }
  }

  /** The operator loop: pops while the incoming rank is at most the top's order, and
      emits what it pops unless it is a bracket. */
  function PopWhile(stack: seq<char>, out: seq<char>, rank: int, order: char -> int): (r: (seq<char>, seq<char>))
    ensures r.0 <= stack
    ensures r.0 == [] || order(r.0[|r.0| - 1]) < rank
    ensures forall i :: |r.0| <= i < |stack| ==> rank <= order(stack[i])
    ensures order('(') < rank && order(')') < rank ==> r.1 == out + Reverse(stack[|r.0|..])
    decreases |stack|
  {
    if stack == [] || rank > order(stack[|stack| - 1]) then (stack, out)
    else
      var top := stack[|stack| - 1];
      var out' := if top != '(' && top != ')' then out + [top] else out;
      var r := PopWhile(stack[..|stack| - 1], out', rank, order);
      PopWhileStep(stack, out, rank, order, r);
      r
  }

  /** One pop of the operator loop: what the loop does on the stack without its top,
      after emitting that top, is what it does on the whole stack. */
  lemma PopWhileStep(stack: seq<char>, out: seq<char>, rank: int, order: char -> int, r: (seq<char>, seq<char>))
    requires stack != [] && rank <= order(stack[|stack| - 1])
    requires var top := stack[|stack| - 1];
      var rest := stack[..|stack| - 1];
      var out' := if top != '(' && top != ')' then out + [top] else out;
      && r.0 <= rest
      && (forall i :: |r.0| <= i < |rest| ==> rank <= order(rest[i]))
      && (order('(') < rank && order(')') < rank ==> r.1 == out' + Reverse(rest[|r.0|..]))
    ensures r.0 <= stack
    ensures forall i :: |r.0| <= i < |stack| ==> rank <= order(stack[i])
    ensures order('(') < rank && order(')') < rank ==> r.1 == out + Reverse(stack[|r.0|..])
  {
    var top := stack[|stack| - 1];
    if order('(') < rank && order(')') < rank {
      assert top != '(' && top != ')';
      MoveLast(stack, out, |r.0|, r.1);
    }
    BoundAbove(stack, stack[..|stack| - 1], |r.0|, rank, order);
  }

  /** The final loop: moves the rest of the stack to the output; a bracket on top raises
      the mismatch. */
  function Drain(expr: string, stack: seq<char>, out: seq<char>): (r: Result<seq<char>, Error>)
    ensures r.Success? <==> '(' !in stack && ')' !in stack
    ensures r.Success? ==> r.value == out + Reverse(stack)
    ensures r.Failure? ==> r.error == SyntaxError(expr, BracketMismatch)
    decreases |stack|
  {
    if stack == [] then Success(out)
    else
      var top := stack[|stack| - 1];
      assert stack == stack[..|stack| - 1] + [top];
      if top != '(' && top != ')' then
        ReverseLast(stack, 0);
        Drain(expr, stack[..|stack| - 1], out + [top])
      else Failure(SyntaxError(expr, BracketMismatch))
  }

  /** After an accepted prefix `p`: the stack holds one `(` per unclosed bracket of `p`, the
      output's variables are `letters` (the letters of `p` as the class writes them), and
      every operator character of `p` is on the stack or in the output. */
  predicate Tally(p: string, letters: string, stack: seq<char>, out: seq<char>) {
    && StackOk(stack)
    && OutOk(out)
    && Count('(', stack) == Depth(p)
    && Letters(out) == letters
    && multiset(OpChars(out)) + multiset(OpChars(stack)) == multiset(OpChars(p))
  }

  lemma {:induction false} LettersAppend(a: string, b: string)
    ensures Letters(a + b) == Letters(a) + Letters(b)
    decreases |b|
  {
    if b == [] {
      assert a + b == a;
    } else {
      assert (a + b)[..|a + b| - 1] == a + b[..|b| - 1];
      LettersAppend(a, b[..|b| - 1]);
    }
  }

  lemma {:induction false} OpCharsAppend(a: string, b: string)
    ensures OpChars(a + b) == OpChars(a) + OpChars(b)
    decreases |b|
  {
    if b == [] {
      assert a + b == a;
    } else {
      assert (a + b)[..|a + b| - 1] == a + b[..|b| - 1];
      OpCharsAppend(a, b[..|b| - 1]);
    }
  }

  lemma {:induction false} OpCharsReverse(s: string)
    ensures multiset(OpChars(Reverse(s))) == multiset(OpChars(s))
    decreases |s|
  {
    if s != [] {
      OpCharsReverse(s[1..]);
      OpCharsAppend(Reverse(s[1..]), [s[0]]);
      assert s == [s[0]] + s[1..];
      OpCharsAppend([s[0]], s[1..]);
    }
  }

  /** A text of brackets and operators has no letters. */
  lemma {:induction false} NoLetters(s: string)
    requires forall i :: 0 <= i < |s| ==> s[i] == '(' || IsOperator(s[i])
    ensures Letters(s) == []
    decreases |s|
  {
    if s != [] {
      NoLetters(s[..|s| - 1]);
    }
  }

  lemma {:induction false} CountAbsent<T>(x: T, s: seq<T>)
    requires x !in s
    ensures Count(x, s) == 0
    decreases |s|
  {
    if s != [] {
      assert s[..|s| - 1] <= s;
      CountAbsent(x, s[..|s| - 1]);
    }
  }

  lemma {:induction false} CountPresent<T>(x: T, s: seq<T>)
    requires x in s
    ensures Count(x, s) > 0
    decreases |s|
  {
    if s[|s| - 1] != x {
      assert s == s[..|s| - 1] + [s[|s| - 1]];
      CountPresent(x, s[..|s| - 1]);
    }
  }

  /** One more character at the end of a text, seen from the counts the tally keeps. */
  lemma AppendOne(s: string, c: char)
    ensures Count('(', s + [c]) == Count('(', s) + (if c == '(' then 1 else 0)
    ensures Depth(s + [c]) == Depth(s) + (if c == '(' then 1 else if c == ')' then -1 else 0)
    ensures OpChars(s + [c]) == OpChars(s) + (if IsOpChar(c) then [c] else [])
    ensures Letters(s + [c]) == Letters(s) + (if IsLetter(c) then [c] else [])
  {
    assert (s + [c])[..|s|] == s;
  }

  lemma OutOkPush(out: seq<char>, u: char)
    requires OutOk(out) && (IsLetter(u) || IsOperator(u))
    ensures OutOk(out + [u])
  {
    forall i | 0 <= i < |out + [u]| ensures IsLetter((out + [u])[i]) || IsOperator((out + [u])[i]) {
      if i < |out| {
        assert (out + [u])[i] == out[i];
      }
    }
  }

  lemma StackOkPush(stack: seq<char>, c: char)
    requires StackOk(stack) && (c == '(' || IsOperator(c))
    ensures StackOk(stack + [c])
  {
    forall i | 0 <= i < |stack + [c]| ensures (stack + [c])[i] == '(' || IsOperator((stack + [c])[i]) {
      if i < |stack| {
        assert (stack + [c])[i] == stack[i];
      }
    }
  }

  lemma BlankTally(p: string, letters: string, stack: seq<char>, out: seq<char>, c: char)
    requires Tally(p, letters, stack, out) && IsWhiteSpace(c)
    ensures Tally(p + [c], letters, stack, out)
  {
    AppendOne(p, c);
  }

  /** A variable: the output gains `u`, the way the class writes the letter `c`. */
  lemma LetterTally(p: string, letters: string, stack: seq<char>, out: seq<char>, c: char, u: char)
    requires Tally(p, letters, stack, out) && IsLetter(c) && IsLetter(u)
    ensures Tally(p + [c], letters + [u], stack, out + [u])
  {
    AppendOne(p, c);
    AppendOne(out, u);
    OutOkPush(out, u);
    assert Depth(p + [c]) == Depth(p);
    assert OpChars(p + [c]) == OpChars(p);
    assert OpChars(out + [u]) == OpChars(out);
    assert Letters(out + [u]) == letters + [u];
  }

  lemma OpenTally(p: string, letters: string, stack: seq<char>, out: seq<char>)
    requires Tally(p, letters, stack, out)
    ensures Tally(p + ['('], letters, stack + ['('], out)
  {
    AppendOne(p, '(');
    AppendOne(stack, '(');
    StackOkPush(stack, '(');
    assert OpChars(stack + ['(']) == OpChars(stack);
    assert OpChars(p + ['(']) == OpChars(p);
  }

  /** Operators moved from the top of the stack to the output: the output stays
      bracket-free and gains no variable. */
  lemma MoveShape(out: seq<char>, moved: seq<char>)
    requires OutOk(out)
    requires forall i :: 0 <= i < |moved| ==> IsOperator(moved[i])
    ensures OutOk(out + Reverse(moved))
    ensures Letters(out + Reverse(moved)) == Letters(out)
  {
    var r := Reverse(moved);
    assert forall i :: 0 <= i < |r| ==> r[i] == moved[|moved| - 1 - i];
    assert OutOk(out + r) by {
      forall i | 0 <= i < |out + r| ensures IsLetter((out + r)[i]) || IsOperator((out + r)[i]) {
        if i < |out| {
          assert (out + r)[i] == out[i];
        } else {
          assert (out + r)[i] == r[i - |out|];
        }
      }
    }
    LettersAppend(out, r);
    NoLetters(r);
  }

  /** ... every operator is still counted once, and no `(` left the stack. */
  lemma MoveCounts(kept: seq<char>, moved: seq<char>, out: seq<char>)
    requires forall i :: 0 <= i < |moved| ==> IsOperator(moved[i])
    ensures multiset(OpChars(out + Reverse(moved))) + multiset(OpChars(kept))
            == multiset(OpChars(out)) + multiset(OpChars(kept + moved))
    ensures Count('(', kept + moved) == Count('(', kept)
  {
    MoveOpChars(kept, moved, out);
    MoveOpens(kept, moved);
  }

  lemma MoveOpChars(kept: seq<char>, moved: seq<char>, out: seq<char>)
    ensures multiset(OpChars(out + Reverse(moved))) + multiset(OpChars(kept))
            == multiset(OpChars(out)) + multiset(OpChars(kept + moved))
  {
    OpCharsAppend(out, Reverse(moved));
    OpCharsReverse(moved);
    OpCharsAppend(kept, moved);
    var o, x, y := multiset(OpChars(out)), multiset(OpChars(kept)), multiset(OpChars(moved));
    assert multiset(OpChars(out + Reverse(moved))) == o + y;
    assert multiset(OpChars(kept + moved)) == x + y;
    assert (o + y) + x == o + (x + y);
  }

  lemma MoveOpens(kept: seq<char>, moved: seq<char>)
    requires forall i :: 0 <= i < |moved| ==> IsOperator(moved[i])
    ensures Count('(', kept + moved) == Count('(', kept)
  {
    CountAppend('(', kept, moved);
    assert '(' !in moved by {
      forall i | 0 <= i < |moved| ensures moved[i] != '(' {
        assert IsOperator(moved[i]);
      }
    }
    CountAbsent('(', moved);
  }

  lemma PushBoth(m: multiset<char>, s: string, q: string, c: char)
    requires m + multiset(s) == multiset(q)
    ensures m + multiset(s + [c]) == multiset(q + [c])
  {
    assert multiset(s + [c]) == multiset(s) + multiset{c};
    assert multiset(q + [c]) == multiset(q) + multiset{c};
  }

  /** `)`: after the loop has moved what is above the topmost `(` (`kept` is what it
      left), that `(` exists exactly when the stack holds one. */
  lemma CloseFound(stack: seq<char>, kept: seq<char>)
    requires kept <= stack && (kept == [] || kept[|kept| - 1] == '(')
    requires forall i :: |kept| <= i < |stack| ==> stack[i] != '('
    ensures kept == [] <==> Count('(', stack) <= 0
  {
    var k := |kept|;
    assert stack == kept + stack[k..];
    CountAppend('(', kept, stack[k..]);
    assert '(' !in stack[k..] by {
      forall i | 0 <= i < |stack[k..]| ensures stack[k..][i] != '(' {
        assert stack[k..][i] == stack[k + i];
      }
    }
    CountAbsent('(', stack[k..]);
    if k != 0 {
      assert kept == kept[..k - 1] + ['('];
      AppendOne(kept[..k - 1], '(');
    }
  }

  /** ... and when it does (the stack is `rest`, that `(`, then `moved`), the scan goes on
      with the tally kept. */
  lemma CloseTally(p: string, letters: string, rest: seq<char>, moved: seq<char>, out: seq<char>)
    requires Tally(p, letters, rest + ['('] + moved, out)
    requires forall i :: 0 <= i < |moved| ==> moved[i] != '('
    ensures Tally(p + [')'], letters, rest, out + Reverse(moved))
  {
    StackOkParts(rest + ['('], moved);
    StackOkParts(rest, ['(']);
    assert forall i :: 0 <= i < |moved| ==> IsOperator(moved[i]);
    MoveShape(out, moved);
    CloseCounts(p, rest, moved, out);
  }

  lemma StackOkParts(a: seq<char>, b: seq<char>)
    requires StackOk(a + b)
    ensures StackOk(a) && StackOk(b)
  {
    assert forall i :: 0 <= i < |a| ==> a[i] == (a + b)[i];
    assert forall i :: 0 <= i < |b| ==> b[i] == (a + b)[|a| + i];
  }

  lemma CloseCounts(p: string, rest: seq<char>, moved: seq<char>, out: seq<char>)
    requires forall i :: 0 <= i < |moved| ==> IsOperator(moved[i])
    requires Count('(', rest + ['('] + moved) == Depth(p)
    requires multiset(OpChars(out)) + multiset(OpChars(rest + ['('] + moved)) == multiset(OpChars(p))
    ensures Count('(', rest) == Depth(p + [')'])
    ensures multiset(OpChars(out + Reverse(moved))) + multiset(OpChars(rest)) == multiset(OpChars(p + [')']))
  {
    MoveCounts(rest + ['('], moved, out);
    AppendOne(p, ')');
    AppendOne(rest, '(');
  }

  /** An operator `c`: the loop pops only operators (`moved`, from above `kept`), so
      pushing `c` keeps the tally. */
  lemma OperatorTally(p: string, letters: string, kept: seq<char>, moved: seq<char>, out: seq<char>, c: char)
    requires Tally(p, letters, kept + moved, out) && IsOperator(c)
    requires forall i :: 0 <= i < |moved| ==> IsOperator(moved[i])
    ensures Tally(p + [c], letters, kept + [c], out + Reverse(moved))
  {
    var stack := kept + moved;
    MoveShape(out, moved);
    MoveCounts(kept, moved, out);
    AppendOne(p, c);
    AppendOne(kept, c);
    assert StackOk(kept) by {
      forall i | 0 <= i < |kept| ensures kept[i] == '(' || IsOperator(kept[i]) {
        assert kept[i] == stack[i];
      }
    }
    StackOkPush(kept, c);
    PushBoth(multiset(OpChars(out + Reverse(moved))), OpChars(kept), OpChars(p), c);
  }

  /** The final loop succeeds exactly when every bracket was closed, and then the output
      holds the tallied variables and every operator of the text. */
  lemma DrainTally(expr: string, p: string, letters: string, stack: seq<char>, out: seq<char>)
    requires Tally(p, letters, stack, out)
    ensures Drain(expr, stack, out).Success? <==> Depth(p) == 0
    ensures var r := Drain(expr, stack, out);
      r.Success? ==> OutOk(r.value) && Letters(r.value) == letters
                     && multiset(OpChars(r.value)) == multiset(OpChars(p))
  {
    assert ')' !in stack by {
      forall i | 0 <= i < |stack| ensures stack[i] != ')' {
        assert stack[i] == '(' || IsOperator(stack[i]);
      }
    }
    if '(' in stack {
      CountPresent('(', stack);
    } else {
      CountAbsent('(', stack);
      forall i | 0 <= i < |stack| ensures IsOperator(stack[i]) {
        assert stack[i] != '(';
      }
      MoveShape(out, stack);
      MoveCounts([], stack, out);
      assert [] + stack == stack;
    }
  }

  /** Popping the operators that rank at least as high as `c` and pushing `c` keeps the
      tally, for any order that ranks the brackets below `c`. */
  lemma OperatorPushed(p: string, letters: string, stack: seq<char>, out: seq<char>, c: char, order: char -> int)
    requires Tally(p, letters, stack, out) && IsOperator(c)
    requires order('(') < order(c) && order(')') < order(c)
    ensures var r := PopWhile(stack, out, order(c), order);
      Tally(p + [c], letters, r.0 + [c], r.1)
  {
    var r := PopWhile(stack, out, order(c), order);
    var kept := r.0;
    var moved := stack[|kept|..];
    assert r.1 == out + Reverse(moved);
    assert stack == kept + moved;
    PoppedOperators(stack, |kept|, order(c), order);
    OperatorTally(p, letters, kept, moved, out, c);
  }

  /** What the operator loop pops from a well-formed stack are operators: it ranks `(`
      below the incoming operator. */
  lemma PoppedOperators(stack: seq<char>, k: nat, rank: int, order: char -> int)
    requires StackOk(stack) && k <= |stack| && order('(') < rank
    requires forall i :: k <= i < |stack| ==> rank <= order(stack[i])
    ensures forall i :: 0 <= i < |stack[k..]| ==> IsOperator(stack[k..][i])
  {
    forall i | 0 <= i < |stack[k..]| ensures IsOperator(stack[k..][i]) {
      assert stack[k..][i] == stack[k + i];
      assert rank <= order(stack[k + i]);
    }
  }

  /** The operator loop looks at the order of stack elements only: two orders that agree
      on them pop the same. */
  lemma {:induction false} PopWhileOrders(stack: seq<char>, out: seq<char>, rank: int, order: char -> int, order': char -> int)
    requires forall i :: 0 <= i < |stack| ==> order(stack[i]) == order'(stack[i])
    ensures PopWhile(stack, out, rank, order) == PopWhile(stack, out, rank, order')
    decreases |stack|
  {
    if stack != [] && rank <= order(stack[|stack| - 1]) {
      var top := stack[|stack| - 1];
      var out' := if top != '(' && top != ')' then out + [top] else out;
      var rest := stack[..|stack| - 1];
      forall i | 0 <= i < |rest| ensures order(rest[i]) == order'(rest[i]) {
        assert rest[i] == stack[i];
      }
      PopWhileOrders(rest, out', rank, order, order');
    }
  }

  /** On a stack whose operators bind ever more tightly towards the top, the operator
      loop pops exactly the operators of at least the incoming rank: all of the stack
      above the first of them. */
  lemma PopWhileRising(stack: seq<char>, out: seq<char>, rank: int, order: char -> int)
    requires Rising(stack, order) && order('(') < rank && order(')') < rank
    ensures var k := Below(stack, rank, order);
      PopWhile(stack, out, rank, order) == (stack[..k], out + Reverse(stack[k..]))
  {
    var r := PopWhile(stack, out, rank, order);
    var m := |r.0|;
    forall i | 0 <= i < m ensures order(stack[i]) < rank {
      assert r.0[m - 1] == stack[m - 1];
      if i < m - 1 {
        assert order(stack[i]) < order(stack[m - 1]);
      }
    }
    BelowAt(stack, m, rank, order);
    assert r.0 == stack[..m];
  }
}
