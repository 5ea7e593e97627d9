/** Character classes and text helpers shared by the three parsers.

    The parsers call `char.IsWhiteSpace`, `char.IsDigit`, `char.IsLetter`, `char.ToUpper`
    and `Convert.ToDouble`; the model restricts these to their ASCII behaviour. */
module Chars {

  predicate IsWhiteSpace(c: char) {
    c == ' ' || '\t' <= c <= '\r'
  }

  predicate IsDigit(c: char) {
    '0' <= c <= '9'
  }

  predicate IsLower(c: char) {
    'a' <= c <= 'z'
  }

  predicate IsLetter(c: char) {
    IsLower(c) || 'A' <= c <= 'Z'
  }

  /** Letters and digits: the characters an operand of the final parser is made of. */
  predicate IsAlnum(c: char) {
    IsLetter(c) || IsDigit(c)
  }

  function ToUpper(c: char): (r: char)
    ensures IsLetter(r) <==> IsLetter(c)
    ensures !IsLower(r)
    ensures !IsLower(c) ==> r == c
  {
    if IsLower(c) then (c as int - 32) as char else c
  }

  /** `string.ToUpper` restricted to ASCII. */
  function Upper(s: string): (r: string)
    ensures |r| == |s|
    ensures forall i :: 0 <= i < |s| ==> r[i] == ToUpper(s[i])
  {
    if s == [] then [] else [ToUpper(s[0])] + Upper(s[1..])
  }

  /** A text that `Upper` leaves as it is. */
  predicate IsUpperText(s: string) {
    forall i :: 0 <= i < |s| ==> !IsLower(s[i])
  }

  function DigitValue(c: char): nat {
    if IsDigit(c) then c as int - '0' as int else 0
  }

  /** The value of a string of decimal digits, as `Convert.ToDouble` reads it. */
  function DecimalValue(s: string): nat
  {
    if s == [] then 0 else 10 * DecimalValue(s[..|s| - 1]) + DigitValue(s[|s| - 1])
  }

  /** The text with every white-space character removed. */
  function Strip(s: string): (r: string)
    ensures |r| <= |s|
    ensures forall i :: 0 <= i < |r| ==> !IsWhiteSpace(r[i])
  {
    if s == [] then []
    else if IsWhiteSpace(s[|s| - 1]) then Strip(s[..|s| - 1])
    else Strip(s[..|s| - 1]) + [s[|s| - 1]]
  }

  /** Number of occurrences of `c` in `s`. */
  function Count<T(==)>(c: T, s: seq<T>): nat
  {
    if s == [] then 0 else Count(c, s[..|s| - 1]) + (if s[|s| - 1] == c then 1 else 0)
  }

  function Reverse<T>(s: seq<T>): (r: seq<T>)
    ensures |r| == |s|
    ensures forall i :: 0 <= i < |s| ==> r[i] == s[|s| - 1 - i]
  {
    if s == [] then [] else Reverse(s[1..]) + [s[0]]
  }

  /** Reversing a sequence puts its last element first. */
  lemma ReverseLast<T>(s: seq<T>, k: nat)
    requires k < |s|
    ensures Reverse(s[k..]) == [s[|s| - 1]] + Reverse(s[..|s| - 1][k..])
  {
    var a := Reverse(s[k..]);
    var b := [s[|s| - 1]] + Reverse(s[..|s| - 1][k..]);
    assert |a| == |b|;
    forall i | 0 <= i < |a| ensures a[i] == b[i] {
      if i > 0 {
        assert b[i] == Reverse(s[..|s| - 1][k..])[i - 1];
      }
    }
  }

  /** Moving the last element of a stack to the output and then the rest of what lies
      above position `k` in reverse moves everything above `k` in reverse. */
  lemma MoveLast<T>(stack: seq<T>, out: seq<T>, k: nat, moved: seq<T>)
    requires k < |stack|
    requires moved == (out + [stack[|stack| - 1]]) + Reverse(stack[..|stack| - 1][k..])
    ensures moved == out + Reverse(stack[k..])
  {
    ReverseLast(stack, k);
  }

  /** A bound that holds above position `k` of a stack without its top, and on the top,
      holds above `k` of the whole stack. */
  lemma BoundAbove<T>(stack: seq<T>, rest: seq<T>, k: nat, rank: int, order: T -> int)
    requires k < |stack| && rest == stack[..|stack| - 1]
    requires forall i :: k <= i < |rest| ==> rank <= order(rest[i])
    requires rank <= order(stack[|stack| - 1])
    ensures forall i :: k <= i < |stack| ==> rank <= order(stack[i])
  {
    forall i | k <= i < |stack| ensures rank <= order(stack[i]) {
      if i < |stack| - 1 {
        assert rest[i] == stack[i];
      }
    }
  }

  /** A sequence is a non-empty prefix of itself without its last element, that element,
      and the rest. */
  lemma SplitAfter<T>(s: seq<T>, kept: seq<T>)
    requires kept <= s && kept != []
    ensures s == kept[..|kept| - 1] + [kept[|kept| - 1]] + s[|kept|..]
  {
    var k := |kept|;
    assert s == s[..k] + s[k..];
    assert kept == kept[..k - 1] + [kept[k - 1]];
  }

  /** A sequence is its part before `k` followed by its part from `k`. */
  lemma SplitAt<T>(s: seq<T>, k: nat)
    requires k <= |s|
    ensures s == s[..k] + s[k..]
  {
  }

  /** A non-empty sequence is its front followed by its last element. */
  lemma SplitLast<T>(s: seq<T>)
    requires s != []
    ensures s == s[..|s| - 1] + [s[|s| - 1]]
  {
  }

  /** Opening minus closing brackets. */
  function Depth(s: string): int {
    Count('(', s) - Count(')', s)
  }

  lemma {:induction false} CountAppend<T>(x: T, a: seq<T>, b: seq<T>)
    ensures Count(x, a + b) == Count(x, a) + Count(x, b)
    decreases |b|
  {
    if b != [] {
      assert (a + b)[..|a + b| - 1] == a + b[..|b| - 1];
      CountAppend(x, a, b[..|b| - 1]);
    } else {
      assert a + b == a;
    }
  }

  /** The five operator characters any of the parsers knows. */
  predicate IsOpChar(c: char) {
    c == '+' || c == '-' || c == '*' || c == '/' || c == '^'
  }

  /** The operator characters of a text, in order. */
  function OpChars(s: string): string {
    if s == [] then [] else OpChars(s[..|s| - 1]) + (if IsOpChar(s[|s| - 1]) then [s[|s| - 1]] else [])
  }

  /** The letters of a text, in order. */
  function Letters(s: string): (r: string)
    ensures forall i :: 0 <= i < |r| ==> IsLetter(r[i])
  {
    if s == [] then [] else Letters(s[..|s| - 1]) + (if IsLetter(s[|s| - 1]) then [s[|s| - 1]] else [])
  }

  lemma UpperSnoc(a: string, c: char)
    ensures Upper(a + [c]) == Upper(a) + [ToUpper(c)]
  {
    assert |Upper(a + [c])| == |Upper(a) + [ToUpper(c)]|;
    forall k | 0 <= k < |a| + 1 ensures Upper(a + [c])[k] == (Upper(a) + [ToUpper(c)])[k] {
      if k < |a| {
        assert (a + [c])[k] == a[k];
      }
    }
  }

  /** The orders strictly increase from the bottom of the stack to its top. */
  predicate Rising<T>(s: seq<T>, order: T -> int) {
    forall i, j :: 0 <= i < j < |s| ==> order(s[i]) < order(s[j])
  }

  /** How many elements from the front have order below `k`. */
  function Below<T>(s: seq<T>, k: int, order: T -> int): (r: nat)
    ensures r <= |s|
  {
    if s == [] || k <= order(s[0]) then 0 else 1 + Below(s[1..], k, order)
  }

  /** Where the elements below `k` end, `Below` stops. */
  lemma {:induction false} BelowAt<T>(s: seq<T>, m: nat, k: int, order: T -> int)
    requires m <= |s|
    requires forall i :: 0 <= i < m ==> order(s[i]) < k
    requires m < |s| ==> k <= order(s[m])
    ensures Below(s, k, order) == m
  {
    if m > 0 {
      BelowAt(s[1..], m - 1, k, order);
    }
  }
}
