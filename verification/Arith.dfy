/** The $((...)) evaluator of aishell_main.c: recursive descent over a moving cursor. */
module Arith {
  import opened Wrappers

  // A C string, as the characters before its terminating NUL.
  type NulFree = s: string | '\0' !in s

  // The character under a cursor; the terminating NUL at the end.
  function At(s: string, p: nat): char {
    if p < |s| then s[p] else '\0'
  }

  predicate IsBlank(c: char) { c == ' ' || c == '\t' }
  predicate IsDigit(c: char) { '0' <= c <= '9' }
  predicate IsLetter(c: char) { 'a' <= c <= 'z' || 'A' <= c <= 'Z' }
  predicate IsName(c: char) { IsLetter(c) || IsDigit(c) || c == '_' }
  predicate IsMul(c: char) { c == '*' || c == '/' || c == '%' }

  function Digit(c: char): int
    requires IsDigit(c)
  {
    c as int - '0' as int
  }

  /** What an evaluation depends on: the value of each variable, and what the machine does to the
      result of one arithmetic operation on longs. */
  datatype Context = Context(lookup: string -> int, norm: int -> int) {
    ghost predicate Longs() {
      forall x :: IsLong(norm(x))
    }

    // atol of a variable's text, 0 for an unset one.
    function Load(name: string): (v: int)
      ensures Longs() ==> IsLong(v)
    {
      var x: int := lookup(name);
      norm(x)
    }
  }

  predicate IsLong(x: int) {
    -0x8000_0000_0000_0000 <= x < 0x8000_0000_0000_0000
  }

  // Exact arithmetic, and 64-bit two's complement.
  function Exact(lookup: string -> int): Context {
    Context(lookup, x => x)
  }

  function Wrapping(lookup: string -> int): Context {
    Context(lookup, x => (x + 0x8000_0000_0000_0000) % 0x1_0000_0000_0000_0000 - 0x8000_0000_0000_0000)
  }

  // The wrapped result is the long that differs by a multiple of 2^64.
  lemma WrappingIs(lookup: string -> int, x: int, y: int)
    ensures Wrapping(lookup).norm(x) == y <==> IsLong(y) && (x - y) % 0x1_0000_0000_0000_0000 == 0
    ensures Exact(lookup).norm(x) == x
  {
  }

  // C division truncates towards zero; the evaluator turns a zero divisor into 0.
  function Quotient(a: int, b: int): int {
    if b == 0 then 0
    else if a >= 0 then (if b > 0 then a / b else -(a / -b))
    else if b > 0 then -(-a / b) else -a / -b
  }

  function Remainder(a: int, b: int): int {
    if b == 0 then 0 else a - b * Quotient(a, b)
  }

  function Apply(op: char, a: int, b: int): int {
    match op
    case '+' => a + b
    case '-' => a - b
    case '*' => a * b
    case '/' => Quotient(a, b)
    case _ => Remainder(a, b)
  }

  // ----- The evaluator as functions from a position to a value and a position -----

  function SkipBlanks(s: string, p: nat): (r: nat)
    requires p <= |s|
    ensures p <= r <= |s| && !IsBlank(At(s, r)) && forall k | p <= k < r :: IsBlank(s[k])
    decreases |s| - p
  {
    if IsBlank(At(s, p)) then SkipBlanks(s, p + 1) else p
  }

  function NameEnd(s: string, p: nat): (r: nat)
    requires p <= |s|
    ensures p <= r <= |s| && !IsName(At(s, r)) && forall k | p <= k < r :: IsName(s[k])
    decreases |s| - p
  {
    if IsName(At(s, p)) then NameEnd(s, p + 1) else p
  }

  function Literal(c: Context, s: string, p: nat, val: int): (r: (int, nat))
    requires p <= |s|
    ensures p <= r.1 <= |s|
    ensures c.Longs() && IsLong(val) ==> IsLong(r.0)
    decreases |s| - p
  {
    if IsDigit(At(s, p)) then Literal(c, s, p + 1, c.norm(val * 10 + Digit(s[p]))) else (val, p)
  }

  function Factor(c: Context, s: string, p0: nat): (r: (int, nat))
    requires p0 <= |s|
    ensures p0 <= r.1 <= |s|
    ensures c.Longs() ==> IsLong(r.0)
    decreases |s| - p0, 0
  {
    var p := SkipBlanks(s, p0);
    var ch := At(s, p);
    if ch == '-' then
      var (v, q) := Factor(c, s, p + 1);
      (c.norm(-v), q)
    else if ch == '+' then
      Factor(c, s, p + 1)
    else if ch == '(' then
      var (v, q) := Expr(c, s, p + 1);
      var q' := SkipBlanks(s, q);
      (v, if At(s, q') == ')' then q' + 1 else q')
    else if ch == '$' then
      var q := NameEnd(s, p + 1);
      (c.Load(s[p + 1..q]), q)
    else if IsLetter(ch) || ch == '_' then
      var q := NameEnd(s, p);
      (c.Load(s[p..q]), q)
    else
      Literal(c, s, p, 0)
  }

  function TermLoop(c: Context, s: string, p: nat, left: int): (r: (int, nat))
    requires p <= |s|
    ensures p <= r.1 <= |s|
    ensures c.Longs() && IsLong(left) ==> IsLong(r.0)
    decreases |s| - p, 1
  {
    if IsMul(At(s, p)) then
      var (right, q) := Factor(c, s, SkipBlanks(s, p + 1));
      TermLoop(c, s, SkipBlanks(s, q), c.norm(Apply(s[p], left, right)))
    else
      (left, p)
  }

  function Term(c: Context, s: string, p: nat): (r: (int, nat))
    requires p <= |s|
    ensures p <= r.1 <= |s|
    ensures c.Longs() ==> IsLong(r.0)
    decreases |s| - p, 2
  {
    var (left, q) := Factor(c, s, p);
    TermLoop(c, s, SkipBlanks(s, q), left)
  }

  // A '-' directly before ')' is not taken as an operator.
  predicate IsSum(s: string, p: nat) {
    At(s, p) == '+' || (At(s, p) == '-' && At(s, p + 1) != ')')
  }

  function ExprLoop(c: Context, s: string, p: nat, left: int): (r: (int, nat))
    requires p <= |s|
    ensures p <= r.1 <= |s|
    ensures c.Longs() && IsLong(left) ==> IsLong(r.0)
    decreases |s| - p, 3
  {
    if IsSum(s, p) then
      var (right, q) := Term(c, s, SkipBlanks(s, p + 1));
      ExprLoop(c, s, SkipBlanks(s, q), c.norm(Apply(s[p], left, right)))
    else
      (left, p)
  }

  function Expr(c: Context, s: string, p: nat): (r: (int, nat))
    requires p <= |s|
    ensures p <= r.1 <= |s|
    ensures c.Longs() ==> IsLong(r.0)
    decreases |s| - p, 4
  {
    var (left, q) := Term(c, s, p);
    ExprLoop(c, s, SkipBlanks(s, q), left)
  }

  // ----- What an evaluation does that may go wrong -----

  const NAME_SIZE: nat := 64
  const LONG_MIN: int := -0x8000_0000_0000_0000

  // A variable's name is read into a local array, or the machine divides.
  datatype Access = Name(name: string) | Division(a: int, b: int)

  /** A name does not fit with its NUL, or the quotient is no long and the division traps. */
  predicate Unsafe(x: Access) {
    match x
    case Name(name) => |name| >= NAME_SIZE
    case Division(a, b) => a == LONG_MIN && b == -1
  }

  predicate Safe(trace: seq<Access>) {
    forall x | x in trace :: !Unsafe(x)
  }

  // A division by zero is not left to the machine.
  function Divisions(op: char, a: int, b: int): seq<Access> {
    if op in "/%" && b != 0 then [Division(a, b)] else []
  }

  function FactorTrace(c: Context, s: string, p0: nat): seq<Access>
    requires p0 <= |s|
    decreases |s| - p0, 0
  {
    var p := SkipBlanks(s, p0);
    var ch := At(s, p);
    if ch == '-' || ch == '+' then FactorTrace(c, s, p + 1)
    else if ch == '(' then ExprTrace(c, s, p + 1)
    else if ch == '$' then [Name(s[p + 1..NameEnd(s, p + 1)])]
    else if IsLetter(ch) || ch == '_' then [Name(s[p..NameEnd(s, p)])]
    else []
  }

  function TermLoopTrace(c: Context, s: string, p: nat, left: int): seq<Access>
    requires p <= |s|
    decreases |s| - p, 1
  {
    if IsMul(At(s, p)) then
      var p1 := SkipBlanks(s, p + 1);
      var (right, q) := Factor(c, s, p1);
      FactorTrace(c, s, p1) + Divisions(s[p], left, right)
      + TermLoopTrace(c, s, SkipBlanks(s, q), c.norm(Apply(s[p], left, right)))
    else
      []
  }

  function TermTrace(c: Context, s: string, p: nat): seq<Access>
    requires p <= |s|
    decreases |s| - p, 2
  {
    var (left, q) := Factor(c, s, p);
    FactorTrace(c, s, p) + TermLoopTrace(c, s, SkipBlanks(s, q), left)
  }

  function ExprLoopTrace(c: Context, s: string, p: nat, left: int): seq<Access>
    requires p <= |s|
    decreases |s| - p, 3
  {
    if IsSum(s, p) then
      var p1 := SkipBlanks(s, p + 1);
      var (right, q) := Term(c, s, p1);
      TermTrace(c, s, p1) + ExprLoopTrace(c, s, SkipBlanks(s, q), c.norm(Apply(s[p], left, right)))
    else
      []
  }

  // Everything of that kind that evaluating an expression at p does, in order.
  function ExprTrace(c: Context, s: string, p: nat): seq<Access>
    requires p <= |s|
    decreases |s| - p, 4
  {
    var (left, q) := Term(c, s, p);
    TermTrace(c, s, p) + ExprLoopTrace(c, s, SkipBlanks(s, q), left)
  }

  // What ap_expr returns at p and where it leaves the cursor, unless it goes wrong.
  function Result(c: Context, s: string, p: nat): Option<(int, nat)>
    requires p <= |s|
  {
    if Safe(ExprTrace(c, s, p)) then Some(Expr(c, s, p)) else None
  }

  lemma SafeJoin(t: seq<Access>, u: seq<Access>)
    ensures Safe(t + u) <==> Safe(t) && Safe(u)
  {
    assert forall x :: x in t + u <==> x in t || x in u;
  }

  /** The evaluator itself: methods that move one shared cursor, with the local array that a name is
      read into. None stands for a run that has written past that array or trapped. */
  class AParser {
    const c: Context
    const s: string
    var p: nat

    constructor (c: Context, s: string)
      ensures this.c == c && this.s == s && p == 0
    {
      this.c, this.s, p := c, s, 0;
    }

    method ApWs()
      requires p <= |s|
      modifies this
      ensures p == SkipBlanks(s, old(p))
    {
      while IsBlank(At(s, p))
        invariant p <= |s| && SkipBlanks(s, p) == SkipBlanks(s, old(p))
        decreases |s| - p
      {
        p := p + 1;
      }
    }

    method ReadName() returns (name: Option<string>)
      requires p <= |s|
      modifies this
      ensures name.Some? <==> !Unsafe(Name(s[old(p)..NameEnd(s, old(p))]))
      ensures name.Some? ==> p == NameEnd(s, old(p)) && name.value == s[old(p)..p]
    {
      var buf := new char[NAME_SIZE](_ => '\0');
      var j := 0;
      while IsName(At(s, p))
        invariant old(p) <= p <= |s| && NameEnd(s, p) == NameEnd(s, old(p))
        invariant j == p - old(p) <= NAME_SIZE && buf[..j] == s[old(p)..p]
        decreases |s| - p
      {
        if j == buf.Length { return None; }
        buf[j] := s[p];
        j, p := j + 1, p + 1;
      }
      if j == buf.Length { return None; }
      buf[j] := '\0';
      return Some(buf[..j]);
    }

    method ApFactor() returns (v: Option<int>)
      requires p <= |s|
      modifies this
      ensures v.Some? <==> Safe(FactorTrace(c, s, old(p)))
      ensures v.Some? ==> (v.value, p) == Factor(c, s, old(p))
      decreases |s| - p, 1
    {
      SkipFirst(c, s, p);
      hide Safe, Factor, FactorTrace;
      ApWs();
      if At(s, p) == '-' || At(s, p) == '+' {
        v := ApSigned();
      } else if At(s, p) == '(' {
        v := ApParens();
      } else if At(s, p) == '$' || IsLetter(At(s, p)) || At(s, p) == '_' {
        v := ApVariable();
      } else {
        NumberIsFactor(c, s, p);
        var x := ReadNumber();
        v := Some(x);
      }
    }

    method ApSigned() returns (v: Option<int>)
      requires p < |s| && (s[p] == '-' || s[p] == '+')
      modifies this
      ensures v.Some? <==> Safe(FactorTrace(c, s, old(p)))
      ensures v.Some? ==> (v.value, p) == Factor(c, s, old(p))
      decreases |s| - p, 0
    {
      hide Safe, Expr, ExprTrace, Literal;
      var minus := s[p] == '-';
      p := p + 1;
      var x :- ApFactor();
      return Some(if minus then c.norm(-x) else x);
    }

    method ApParens() returns (v: Option<int>)
      requires p < |s| && s[p] == '('
      modifies this
      ensures v.Some? <==> Safe(FactorTrace(c, s, old(p)))
      ensures v.Some? ==> (v.value, p) == Factor(c, s, old(p))
      decreases |s| - p, 0
    {
      hide Safe, Expr, ExprTrace, Literal;
      p := p + 1;
      var x :- ApExpr();
      ApWs();
      if At(s, p) == ')' { p := p + 1; }
      return Some(x);
    }

    // A name, with or without the sigil.
    method ApVariable() returns (v: Option<int>)
      requires p <= |s| && (At(s, p) == '$' || IsLetter(At(s, p)) || At(s, p) == '_')
      modifies this
      ensures v.Some? <==> Safe(FactorTrace(c, s, old(p)))
      ensures v.Some? ==> (v.value, p) == Factor(c, s, old(p))
    {
      hide Term, TermLoop, Expr, ExprLoop, Literal, TermTrace, TermLoopTrace, ExprTrace, ExprLoopTrace;
      ghost var start := if At(s, p) == '$' then p + 1 else p;
      ghost var read := Name(s[start..NameEnd(s, start)]);
      assert SkipBlanks(s, p) == p && FactorTrace(c, s, p) == [read];
      assert Safe([read]) <==> !Unsafe(read) by { assert read in [read]; }
      hide Safe, Unsafe;
      if At(s, p) == '$' { p := p + 1; }
      var name :- ReadName();
      return Some(c.Load(name));
    }

    method ReadNumber() returns (v: int)
      requires p <= |s|
      modifies this
      ensures (v, p) == Literal(c, s, old(p), 0)
    {
      v := 0;
      ghost var start := p;
      while IsDigit(At(s, p))
        invariant p <= |s| && Literal(c, s, p, v) == Literal(c, s, start, 0)
        decreases |s| - p
      {
        v := c.norm(v * 10 + Digit(s[p]));
        p := p + 1;
      }
    }

    // One operator and its right operand; op is behind the cursor.
    method ApMul(op: char, left: int) returns (v: Option<int>)
      requires 0 < p <= |s| && IsMul(s[p - 1]) && op == s[p - 1]
      modifies this
      ensures v.Some? ==> old(p) <= p <= |s|
      ensures v.Some? ==> TermLoop(c, s, p, v.value) == TermLoop(c, s, old(p) - 1, left)
      ensures v.Some? ==> (Safe(TermLoopTrace(c, s, p, v.value)) <==> Safe(TermLoopTrace(c, s, old(p) - 1, left)))
      ensures v.None? ==> !Safe(TermLoopTrace(c, s, old(p) - 1, left))
      decreases |s| - p, 2
    {
      hide Factor, FactorTrace, Apply, Safe, Unsafe;
      ghost var p1 := SkipBlanks(s, p);
      ghost var (right', q) := Factor(c, s, p1);
      ghost var rest := TermLoopTrace(c, s, SkipBlanks(s, q), c.norm(Apply(op, left, right')));
      SafeJoin(FactorTrace(c, s, p1) + Divisions(op, left, right'), rest);
      SafeJoin(FactorTrace(c, s, p1), Divisions(op, left, right'));
      ApWs();
      var right :- ApFactor();
      SafeDivision(op, left, right);
      if op in "/%" && right != 0 && left == LONG_MIN && right == -1 { return None; }
      ApWs();
      return Some(c.norm(Apply(op, left, right)));
    }

    method ApTerm() returns (v: Option<int>)
      requires p <= |s|
      modifies this
      ensures v.Some? <==> Safe(TermTrace(c, s, old(p)))
      ensures v.Some? ==> (v.value, p) == Term(c, s, old(p))
      decreases |s| - p, 3
    {
      hide Factor, FactorTrace, TermLoop, TermLoopTrace, Safe;
      ghost var (x, q) := Factor(c, s, p);
      SafeJoin(FactorTrace(c, s, p), TermLoopTrace(c, s, SkipBlanks(s, q), x));
      var left :- ApFactor();
      ApWs();
      v := ApProducts(left);
    }

    // The loop over operators.
    method ApProducts(first: int) returns (v: Option<int>)
      requires p <= |s|
      modifies this
      ensures v.Some? <==> Safe(TermLoopTrace(c, s, old(p), first))
      ensures v.Some? ==> (v.value, p) == TermLoop(c, s, old(p), first)
      decreases |s| - p, 2
    {
      hide Factor, FactorTrace, Safe, Apply, Divisions;
      var left := first;
      while IsMul(At(s, p))
        invariant old(p) <= p <= |s|
        invariant TermLoop(c, s, p, left) == TermLoop(c, s, old(p), first)
        invariant Safe(TermLoopTrace(c, s, p, left)) <==> Safe(TermLoopTrace(c, s, old(p), first))
        decreases |s| - p
      {
        var op := s[p];
        p := p + 1;
        left :- ApMul(op, left);
      }
      NothingIsSafe();
      return Some(left);
    }

    method ApExpr() returns (v: Option<int>)
      requires p <= |s|
      modifies this
      ensures Result(c, s, old(p)) == if v.None? then None else Some((v.value, p))
      decreases |s| - p, 4
    {
      hide Term, TermTrace, ExprLoop, ExprLoopTrace, Safe;
      ghost var (x, q) := Term(c, s, p);
      SafeJoin(TermTrace(c, s, p), ExprLoopTrace(c, s, SkipBlanks(s, q), x));
      var left :- ApTerm();
      ApWs();
      v := ApSums(left);
    }

    // The loop over operators.
    method ApSums(first: int) returns (v: Option<int>)
      requires p <= |s|
      modifies this
      ensures v.Some? <==> Safe(ExprLoopTrace(c, s, old(p), first))
      ensures v.Some? ==> (v.value, p) == ExprLoop(c, s, old(p), first)
      decreases |s| - p, 2
    {
      hide Term, TermTrace, Safe, Apply;
      var left := first;
      while IsSum(s, p)
        invariant old(p) <= p <= |s|
        invariant ExprLoop(c, s, p, left) == ExprLoop(c, s, old(p), first)
        invariant Safe(ExprLoopTrace(c, s, p, left)) <==> Safe(ExprLoopTrace(c, s, old(p), first))
        decreases |s| - p
      {
        var op := s[p];
        p := p + 1;
        left :- ApSum(op, left);
      }
      NothingIsSafe();
      return Some(left);
    }

    // One operator and its right operand; op is behind the cursor.
    method ApSum(op: char, left: int) returns (v: Option<int>)
      requires 0 < p <= |s| && IsSum(s, p - 1) && op == s[p - 1]
      modifies this
      ensures v.Some? ==> old(p) <= p <= |s|
      ensures v.Some? ==> ExprLoop(c, s, p, v.value) == ExprLoop(c, s, old(p) - 1, left)
      ensures v.Some? ==> (Safe(ExprLoopTrace(c, s, p, v.value)) <==> Safe(ExprLoopTrace(c, s, old(p) - 1, left)))
      ensures v.None? ==> !Safe(ExprLoopTrace(c, s, old(p) - 1, left))
      decreases |s| - p, 4
    {
      hide Term, TermTrace, Apply, Safe;
      ghost var p1 := SkipBlanks(s, p);
      ghost var (right', q) := Term(c, s, p1);
      SafeJoin(TermTrace(c, s, p1), ExprLoopTrace(c, s, SkipBlanks(s, q), c.norm(Apply(op, left, right'))));
      ApWs();
      var right :- ApTerm();
      ApWs();
      return Some(c.norm(Apply(op, left, right)));
    }
  }

  // Blanks before a factor do not matter.
  lemma SkipFirst(c: Context, s: string, p: nat)
    requires p <= |s|
    ensures Factor(c, s, p) == Factor(c, s, SkipBlanks(s, p))
    ensures FactorTrace(c, s, p) == FactorTrace(c, s, SkipBlanks(s, p))
  {
    assert SkipBlanks(s, SkipBlanks(s, p)) == SkipBlanks(s, p);
    hide Expr, ExprTrace, Literal;
  }

  lemma NumberIsFactor(c: Context, s: string, p: nat)
    requires p <= |s| && !IsBlank(At(s, p)) && At(s, p) !in "-+($_" && !IsLetter(At(s, p))
    ensures Factor(c, s, p) == Literal(c, s, p, 0) && Safe(FactorTrace(c, s, p))
  {
    assert SkipBlanks(s, p) == p;
    hide Expr, ExprTrace, Literal;
  }

  lemma NothingIsSafe()
    ensures Safe([])
  {
  }

  lemma SafeDivision(op: char, a: int, b: int)
    ensures Safe(Divisions(op, a, b)) <==> !(op in "/%" && b != 0 && a == LONG_MIN && b == -1)
  {
    assert Division(a, b) in [Division(a, b)];
  }

  /** C's division: the identity holds, the remainder is smaller than the divisor and has the dividend's
      sign. The evaluator gives 0 for both when the divisor is zero. */
  lemma DivisionTruncates(a: int, b: int)
    ensures b == 0 ==> Quotient(a, b) == 0 && Remainder(a, b) == 0
    ensures b != 0 ==> a == b * Quotient(a, b) + Remainder(a, b)
    ensures b != 0 ==> if a >= 0 then 0 <= Remainder(a, b) else Remainder(a, b) <= 0
    ensures b != 0 ==> -(if b > 0 then b else -b) < Remainder(a, b) < (if b > 0 then b else -b)
  {
    if b != 0 {
      var x, y := if a >= 0 then a else -a, if b > 0 then b else -b;
      assert x == y * (x / y) + x % y;
      assert b * Quotient(a, b) == if a >= 0 then y * (x / y) else -(y * (x / y));
    }
  }
}
