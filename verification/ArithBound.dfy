/** How large a value can get: text without variables yields less than ten to the number of digits
    it consumes, at every step, so that 18 digits cannot overflow a 64-bit long. */
module ArithBound {
  import opened Numerals
  import opened Arith

  ghost predicate Bounded(v: int, k: nat) {
    -Pow10(k) < v < Pow10(k)
  }

  function DigitCount(s: string, p: nat, q: nat): nat
    requires p <= q <= |s|
    decreases q - p
  {
    if p == q then 0 else (if IsDigit(s[p]) then 1 else 0) + DigitCount(s, p + 1, q)
  }

  // No letters, no '_' and no '$', so no variable is looked up.
  predicate Plain(s: string) {
    forall k | 0 <= k < |s| :: !IsLetter(s[k]) && s[k] != '_' && s[k] != '$'
  }

  // The machine's arithmetic is exact below ten to the n.
  ghost predicate ExactBelow(c: Context, n: nat) {
    forall x: int | Bounded(x, n) :: c.norm(x) == x
  }

  lemma Widen(v: int, k: nat, m: nat)
    requires Bounded(v, k) && k <= m
    ensures Bounded(v, m)
  {
    PowJoin(m - k, k);
    assert (Pow10(m - k) - 1) * Pow10(k) >= 0;
  }

  lemma {:induction false} DigitsJoin(s: string, p: nat, q: nat, r: nat)
    requires p <= q <= r <= |s|
    ensures DigitCount(s, p, r) == DigitCount(s, p, q) + DigitCount(s, q, r)
    decreases q - p
  {
    if p < q {
      DigitsJoin(s, p + 1, q, r);
    }
  }

  lemma Monotone(a: int, b: int, c: int)
    requires a <= b && c >= 0
    ensures a * c <= b * c
  {
    assert (b - a) * c >= 0;
  }

  lemma NaturalProduct(a: nat, b: nat, x: int, y: int)
    requires a < x && b < y
    ensures a * b < x * y
  {
    Monotone(b, y - 1, a);
    Monotone(a, x - 1, y);
    assert b * a == a * b && (y - 1) * a == a * y - a && (x - 1) * y == x * y - y;
  }

  function Size(a: int): nat {
    if a < 0 then -a else a
  }

  lemma SignedProduct(a: int, b: int)
    ensures a * b == Size(a) * Size(b) || a * b == -(Size(a) * Size(b))
  {
  }

  lemma ProductBound(a: int, b: int, x: int, y: int)
    requires -x < a < x && -y < b < y
    ensures -(x * y) < a * b < x * y
  {
    NaturalProduct(Size(a), Size(b), x, y);
    SignedProduct(a, b);
  }

  lemma NaturalDivision(x: nat, y: int)
    requires y > 0
    ensures x == y * (x / y) + x % y && 0 <= x / y <= x && 0 <= x % y <= x
  {
    var d, r := x / y, x % y;
    assert x == y * d + r && 0 <= r < y;
    DivisorShare(d, r, y);
  }

  lemma DivisorShare(d: int, r: int, y: int)
    requires y > 0 && 0 <= r < y && y * d + r >= 0
    ensures 0 <= d <= y * d + r && r <= y * d + r
  {
    if d >= 0 {
      assert (y - 1) * d >= 0;
    } else {
      NegativeMultiple(y, d);
    }
  }

  lemma NegativeMultiple(y: int, d: int)
    requires y > 0 && d < 0
    ensures y * d <= -y
  {
    assert y * (-d - 1) >= 0;
  }

  lemma SignedQuotient(a: int, b: int)
    requires b != 0
    ensures Size(b) > 0
    ensures Quotient(a, b) == if (a >= 0) == (b > 0) then Size(a) / Size(b) else -(Size(a) / Size(b))
  {
  }

  lemma Signs(b: int, d: int)
    ensures (-b) * (-d) == b * d && b * (-d) == -(b * d) && (-b) * d == -(b * d)
  {
  }

  // Quotient and remainder are those of the sizes, up to their signs.
  lemma SignedDivision(a: int, b: int)
    requires b != 0
    ensures Size(b) > 0
    ensures Quotient(a, b) in {Size(a) / Size(b), -(Size(a) / Size(b))}
    ensures Remainder(a, b) in {Size(a) % Size(b), -(Size(a) % Size(b))}
  {
    SignedQuotient(a, b);
    var x: int, y: int := Size(a), Size(b);
    var d: int := x / y;
    NaturalDivision(x, y);
    Signs(y, d);
    hide Quotient;
    assert x % y == x - y * d;
    assert b * Quotient(a, b) == if a >= 0 then y * d else -(y * d);
  }

  lemma QuotientBound(a: int, b: int)
    requires b != 0
    ensures Size(Quotient(a, b)) <= Size(a) && Size(Remainder(a, b)) <= Size(a)
  {
    hide Quotient, Remainder;
    SignedDivision(a, b);
    NaturalDivision(Size(a), Size(b));
  }

  lemma SumBound(a: int, b: int, k: nat, m: nat)
    requires Bounded(a, k) && Bounded(b, m)
    ensures Bounded(a + b, k + m) && Bounded(a - b, k + m)
  {
    hide Pow10;
    PowJoin(k, m);
    ProductIsMore(Pow10(k), Pow10(m));
  }

  lemma ProductIsMore(x: int, y: int)
    requires x >= 1 && y >= 1
    ensures x * y >= x + y - 1
  {
    assert (x - 1) * (y - 1) == x * y - x - y + 1;
  }

  lemma ApplyBound(op: char, a: int, b: int, k: nat, m: nat)
    requires Bounded(a, k) && Bounded(b, m)
    ensures Bounded(Apply(op, a, b), k + m)
  {
    hide Quotient, Remainder, Pow10;
    PowJoin(k, m);
    match op {
      case '+' => SumBound(a, b, k, m);
      case '-' => SumBound(a, b, k, m);
      case '*' => ProductBound(a, b, Pow10(k), Pow10(m));
      case '/' => DivBound(a, b, k); Widen(Quotient(a, b), k, k + m);
      case _ => DivBound(a, b, k); Widen(Remainder(a, b), k, k + m);
    }
  }

  lemma DivBound(a: int, b: int, k: nat)
    requires Bounded(a, k)
    ensures Bounded(Quotient(a, b), k) && Bounded(Remainder(a, b), k)
  {
    if b != 0 { QuotientBound(a, b); }
  }

  // ----- The evaluator, one function at a time -----

  // The same result under c as exactly, and below ten to the digits consumed since k.
  ghost predicate Tame(r: (int, nat), exact: (int, nat), s: string, p: nat, k: nat) {
    r == exact && p <= r.1 <= |s| && Bounded(r.0, k + DigitCount(s, p, r.1))
  }

  lemma {:induction false} LiteralTame(c: Context, n: nat, s: string, p: nat, val: int, k: nat)
    requires ExactBelow(c, n) && p <= |s| && 0 <= val && Bounded(val, k) && k + DigitCount(s, p, |s|) <= n
    ensures Tame(Literal(c, s, p, val), Literal(Exact(c.lookup), s, p, val), s, p, k)
    decreases |s| - p
  {
    if IsDigit(At(s, p)) {
      var next := val * 10 + Digit(s[p]);
      assert Bounded(next, k + 1);
      Widen(next, k + 1, n);
      LiteralTame(c, n, s, p + 1, next, k + 1);
    }
  }

  // A bound carries over from a later start and an earlier end.
  lemma Later(s: string, p0: nat, p: nat, v: int, q: nat, r: nat)
    requires p0 <= p <= q <= r <= |s| && Bounded(v, DigitCount(s, p, q))
    ensures Bounded(v, DigitCount(s, p0, r))
  {
    Split(s, p0, p, q, r);
    Widen(v, DigitCount(s, p, q), DigitCount(s, p0, r));
  }

  lemma MinusTame(c: Context, n: nat, s: string, p0: nat, p: nat, r: (int, nat))
    requires ExactBelow(c, n) && p0 <= p <= r.1 <= |s| && DigitCount(s, p0, |s|) <= n
    requires Bounded(r.0, DigitCount(s, p, r.1))
    ensures c.norm(-r.0) == -r.0 && Bounded(-r.0, DigitCount(s, p0, r.1))
  {
    Split(s, p0, p, r.1, r.1);
    Negated(r.0, DigitCount(s, p, r.1), DigitCount(s, p0, r.1), n);
  }

  lemma {:induction false} FactorTame(c: Context, n: nat, s: string, p0: nat)
    requires Plain(s) && ExactBelow(c, n) && p0 <= |s| && DigitCount(s, p0, |s|) <= n
    ensures Tame(Factor(c, s, p0), Factor(Exact(c.lookup), s, p0), s, p0, 0)
    decreases |s| - p0, 0
  {
    hide Term, TermLoop, Expr, ExprLoop, Literal, Bounded, ExactBelow, DigitCount, SkipBlanks;
    var p := SkipBlanks(s, p0);
    var r := Factor(c, s, p0);
    DigitsJoin(s, p0, p, |s|);
    if p < |s| { DigitsJoin(s, p, p + 1, |s|); }
    if At(s, p) == '-' {
      FactorTame(c, n, s, p + 1);
      MinusTame(c, n, s, p0, p + 1, Factor(c, s, p + 1));
    } else if At(s, p) == '+' {
      FactorTame(c, n, s, p + 1);
      Later(s, p0, p + 1, r.0, r.1, r.1);
    } else if At(s, p) == '(' {
      ExprTame(c, n, s, p + 1);
      Later(s, p0, p + 1, Expr(c, s, p + 1).0, Expr(c, s, p + 1).1, r.1);
    } else {
      BoundedZero();
      LiteralTame(c, n, s, p, 0, 0);
      Later(s, p0, p, r.0, r.1, r.1);
    }
  }

  lemma BoundedZero()
    ensures Bounded(0, 0)
  {
  }

  lemma Negated(v: int, k: nat, m: nat, n: nat)
    requires Bounded(v, k) && k <= m <= n
    ensures Bounded(-v, m) && Bounded(-v, n)
  {
    Widen(-v, k, m);
    Widen(-v, k, n);
  }

  // One operation is exact, and bounded by the digits of both operands.
  lemma OperationTame(c: Context, n: nat, op: char, left: int, right: int, k: nat, m: nat, digits: nat)
    requires ExactBelow(c, n) && Bounded(left, k) && Bounded(right, m) && k + m <= digits <= n
    ensures Bounded(Apply(op, left, right), digits) && c.norm(Apply(op, left, right)) == Apply(op, left, right)
  {
    hide Apply, Bounded;
    ApplyBound(op, left, right, k, m);
    Widen(Apply(op, left, right), k + m, digits);
    Widen(Apply(op, left, right), digits, n);
  }

  lemma {:induction false} TermLoopTame(c: Context, n: nat, s: string, p: nat, left: int, k: nat)
    requires Plain(s) && ExactBelow(c, n) && p <= |s| && Bounded(left, k) && k + DigitCount(s, p, |s|) <= n
    ensures Tame(TermLoop(c, s, p, left), TermLoop(Exact(c.lookup), s, p, left), s, p, k)
    decreases |s| - p, 1
  {
    hide Term, Factor, Expr, ExprLoop, Literal, Bounded, Apply, Plain, DigitCount, ExactBelow, SkipBlanks;
    NoDigits(s, p);
    if IsMul(At(s, p)) {
      var p1 := SkipBlanks(s, p + 1);
      var (right, q) := Factor(c, s, p1);
      var q1 := SkipBlanks(s, q);
      Split(s, p, p1, q, q1);
      FactorTame(c, n, s, p1);
      var m := DigitCount(s, p1, q);
      OperationTame(c, n, s[p], left, right, k, m, k + DigitCount(s, p, q1));
      var r := TermLoop(c, s, p, left);
      TermLoopTame(c, n, s, q1, Apply(s[p], left, right), k + DigitCount(s, p, q1));
      DigitsJoin(s, p, q1, r.1);
    }
  }

  lemma NoDigits(s: string, p: nat)
    requires p <= |s|
    ensures DigitCount(s, p, p) == 0
  {
  }

  // Digit counts around one operator and operand.
  lemma Split(s: string, p: nat, p1: nat, q: nat, q1: nat)
    requires p <= p1 <= q <= q1 <= |s|
    ensures DigitCount(s, p1, q) <= DigitCount(s, p, q1) <= DigitCount(s, p, |s|)
    ensures DigitCount(s, p, |s|) == DigitCount(s, p, q1) + DigitCount(s, q1, |s|)
    ensures DigitCount(s, p1, |s|) <= DigitCount(s, p, |s|)
  {
    DigitsJoin(s, p, p1, q1);
    DigitsJoin(s, p1, q, q1);
    DigitsJoin(s, p, q1, |s|);
    DigitsJoin(s, p, p1, |s|);
  }

  lemma {:induction false} TermTame(c: Context, n: nat, s: string, p: nat)
    requires Plain(s) && ExactBelow(c, n) && p <= |s| && DigitCount(s, p, |s|) <= n
    ensures Tame(Term(c, s, p), Term(Exact(c.lookup), s, p), s, p, 0)
    decreases |s| - p, 2
  {
    hide Factor, TermLoop, Bounded, Plain;
    FactorTame(c, n, s, p);
    var (left, q) := Factor(c, s, p);
    var q1 := SkipBlanks(s, q);
    Split(s, p, p, q, q1);
    Widen(left, DigitCount(s, p, q), DigitCount(s, p, q1));
    TermLoopTame(c, n, s, q1, left, DigitCount(s, p, q1));
    DigitsJoin(s, p, q1, Term(c, s, p).1);
  }

  lemma {:induction false} ExprLoopTame(c: Context, n: nat, s: string, p: nat, left: int, k: nat)
    requires Plain(s) && ExactBelow(c, n) && p <= |s| && Bounded(left, k) && k + DigitCount(s, p, |s|) <= n
    ensures Tame(ExprLoop(c, s, p, left), ExprLoop(Exact(c.lookup), s, p, left), s, p, k)
    decreases |s| - p, 3
  {
    hide Term, TermLoop, Factor, Expr, Literal, Bounded, Apply, Plain, DigitCount, ExactBelow, SkipBlanks;
    NoDigits(s, p);
    if IsSum(s, p) {
      var p1 := SkipBlanks(s, p + 1);
      var (right, q) := Term(c, s, p1);
      var q1 := SkipBlanks(s, q);
      Split(s, p, p1, q, q1);
      TermTame(c, n, s, p1);
      var m := DigitCount(s, p1, q);
      OperationTame(c, n, s[p], left, right, k, m, k + DigitCount(s, p, q1));
      var r := ExprLoop(c, s, p, left);
      ExprLoopTame(c, n, s, q1, Apply(s[p], left, right), k + DigitCount(s, p, q1));
      DigitsJoin(s, p, q1, r.1);
    }
  }

  /** Under any arithmetic that is exact below ten to the n, text with at most n digits evaluates
      to its exact value, which is below ten to the digits consumed. */
  lemma {:induction false} ExprTame(c: Context, n: nat, s: string, p: nat)
    requires Plain(s) && ExactBelow(c, n) && p <= |s| && DigitCount(s, p, |s|) <= n
    ensures Tame(Expr(c, s, p), Expr(Exact(c.lookup), s, p), s, p, 0)
    decreases |s| - p, 4
  {
    hide Term, ExprLoop, Bounded, Plain;
    TermTame(c, n, s, p);
    var (left, q) := Term(c, s, p);
    var q1 := SkipBlanks(s, q);
    Split(s, p, p, q, q1);
    Widen(left, DigitCount(s, p, q), DigitCount(s, p, q1));
    ExprLoopTame(c, n, s, q1, left, DigitCount(s, p, q1));
    DigitsJoin(s, p, q1, Expr(c, s, p).1);
  }

  // Exact values are bounded by the digits consumed, however many there are.
  lemma ExactValueBound(lookup: string -> int, s: string)
    requires Plain(s)
    ensures var (v, q) := Expr(Exact(lookup), s, 0); Bounded(v, DigitCount(s, 0, q))
  {
    ExprTame(Exact(lookup), DigitCount(s, 0, |s|), s, 0);
  }

  lemma ExactTo18(lookup: string -> int)
    ensures ExactBelow(Wrapping(lookup), 18)
  {
    assert Pow10(18) == 1_000_000_000_000_000_000 by {
      PowJoin(9, 9);
      assert Pow10(9) == 1_000_000_000 by { PowJoin(4, 5); }
    }
  }

  /** Eighteen digits cannot overflow: 64-bit arithmetic gives the exact value. */
  lemma NoOverflow(lookup: string -> int, s: string)
    requires Plain(s) && DigitCount(s, 0, |s|) <= 18
    ensures Expr(Wrapping(lookup), s, 0) == Expr(Exact(lookup), s, 0)
  {
    ExactTo18(lookup);
    ExprTame(Wrapping(lookup), 18, s, 0);
  }
}
