/** Which $((...)) are safe to evaluate: conditions that can be read off the text, and texts on which
    the evaluator overruns a name's array or traps in a division. */
module ArithSafety {
  import opened Texts
  import opened Numerals
  import opened Wrappers
  import opened Arith
  import opened ArithText
  import opened ArithBound
  import opened ArithTraps
  import opened ArithExpansion

  // No name, nor any run of name characters, is too long for the array.
  ghost predicate ShortNames(s: string) {
    forall p: nat | p <= |s| :: NameEnd(s, p) - p < NAME_SIZE
  }

  predicate NoDivision(s: string) {
    '/' !in s && '%' !in s
  }

  lemma SafeName(name: string)
    ensures Safe([Name(name)]) <==> |name| < NAME_SIZE
  {
    assert Name(name) in [Name(name)];
  }

  // ----- Without division only names matter -----

  lemma {:induction false} FactorIsSafe(c: Context, s: string, p0: nat)
    requires ShortNames(s) && NoDivision(s) && p0 <= |s|
    ensures Safe(FactorTrace(c, s, p0))
    decreases |s| - p0, 0
  {
    hide Expr, Term, TermLoop, ExprLoop, Literal, Safe, TermTrace, ExprLoopTrace, TermLoopTrace;
    var p := SkipBlanks(s, p0);
    var ch := At(s, p);
    NothingIsSafe();
    if ch == '-' || ch == '+' {
      FactorIsSafe(c, s, p + 1);
    } else if ch == '(' {
      ExprIsSafe(c, s, p + 1);
    } else if ch == '$' || IsLetter(ch) || ch == '_' {
      var start := if ch == '$' then p + 1 else p;
      SafeName(s[start..NameEnd(s, start)]);
    }
  }

  lemma {:induction false} TermLoopIsSafe(c: Context, s: string, p: nat, left: int)
    requires ShortNames(s) && NoDivision(s) && p <= |s|
    ensures Safe(TermLoopTrace(c, s, p, left))
    decreases |s| - p, 1
  {
    hide Factor, Safe, FactorTrace, ShortNames;
    NothingIsSafe();
    if IsMul(At(s, p)) {
      assert s[p] in s;
      var p1 := SkipBlanks(s, p + 1);
      var (right, q) := Factor(c, s, p1);
      FactorIsSafe(c, s, p1);
      TermLoopIsSafe(c, s, SkipBlanks(s, q), c.norm(Apply(s[p], left, right)));
      hide Apply;
      SafeJoin(FactorTrace(c, s, p1) + [], TermLoopTrace(c, s, SkipBlanks(s, q), c.norm(Apply(s[p], left, right))));
      assert FactorTrace(c, s, p1) + [] == FactorTrace(c, s, p1);
    }
  }

  lemma {:induction false} TermIsSafe(c: Context, s: string, p: nat)
    requires ShortNames(s) && NoDivision(s) && p <= |s|
    ensures Safe(TermTrace(c, s, p))
    decreases |s| - p, 2
  {
    hide Factor, Safe, FactorTrace, TermLoopTrace, ShortNames, NoDivision;
    var (left, q) := Factor(c, s, p);
    FactorIsSafe(c, s, p);
    TermLoopIsSafe(c, s, SkipBlanks(s, q), left);
    SafeJoin(FactorTrace(c, s, p), TermLoopTrace(c, s, SkipBlanks(s, q), left));
  }

  lemma {:induction false} ExprLoopIsSafe(c: Context, s: string, p: nat, left: int)
    requires ShortNames(s) && NoDivision(s) && p <= |s|
    ensures Safe(ExprLoopTrace(c, s, p, left))
    decreases |s| - p, 3
  {
    hide Term, Safe, TermTrace, ShortNames, NoDivision, Apply;
    NothingIsSafe();
    if IsSum(s, p) {
      var p1 := SkipBlanks(s, p + 1);
      var (right, q) := Term(c, s, p1);
      TermIsSafe(c, s, p1);
      ExprLoopIsSafe(c, s, SkipBlanks(s, q), c.norm(Apply(s[p], left, right)));
      SafeJoin(TermTrace(c, s, p1), ExprLoopTrace(c, s, SkipBlanks(s, q), c.norm(Apply(s[p], left, right))));
    }
  }

  lemma {:induction false} ExprIsSafe(c: Context, s: string, p: nat)
    requires ShortNames(s) && NoDivision(s) && p <= |s|
    ensures Safe(ExprTrace(c, s, p))
    decreases |s| - p, 4
  {
    hide Term, Safe, TermTrace, ExprLoopTrace, ShortNames, NoDivision;
    var (left, q) := Term(c, s, p);
    TermIsSafe(c, s, p);
    ExprLoopIsSafe(c, s, SkipBlanks(s, q), left);
    SafeJoin(TermTrace(c, s, p), ExprLoopTrace(c, s, SkipBlanks(s, q), left));
  }

  // ----- Without variables, 18 digits cannot make LONG_MIN -----

  lemma SmallIsNotMin(a: int, k: nat)
    requires Bounded(a, k) && k <= 18
    ensures a != LONG_MIN
  {
    Widen(a, k, 18);
    assert Pow10(18) == 1_000_000_000_000_000_000 by {
      PowJoin(9, 9);
      assert Pow10(9) == 1_000_000_000 by { PowJoin(4, 5); }
    }
  }

  lemma SmallDivision(op: char, a: int, b: int, k: nat)
    requires Bounded(a, k) && k <= 18
    ensures Safe(Divisions(op, a, b))
  {
    SmallIsNotMin(a, k);
    SafeDivision(op, a, b);
  }

  lemma {:induction false} PlainFactorIsSafe(c: Context, n: nat, s: string, p0: nat)
    requires Plain(s) && ExactBelow(c, n) && p0 <= |s| && DigitCount(s, p0, |s|) <= n <= 18
    ensures Safe(FactorTrace(c, s, p0))
    decreases |s| - p0, 0
  {
    hide Expr, Term, TermLoop, ExprLoop, Literal, Safe, TermTrace, ExprLoopTrace, TermLoopTrace, ExactBelow;
    var p := SkipBlanks(s, p0);
    NothingIsSafe();
    if At(s, p) == '-' || At(s, p) == '+' {
      DigitsJoin(s, p0, p + 1, |s|);
      PlainFactorIsSafe(c, n, s, p + 1);
    } else if At(s, p) == '(' {
      DigitsJoin(s, p0, p + 1, |s|);
      PlainExprIsSafe(c, n, s, p + 1);
    }
  }

  lemma {:induction false} PlainTermLoopIsSafe(c: Context, n: nat, s: string, p: nat, left: int, k: nat)
    requires Plain(s) && ExactBelow(c, n) && p <= |s| && Bounded(left, k) && k + DigitCount(s, p, |s|) <= n <= 18
    ensures Safe(TermLoopTrace(c, s, p, left))
    decreases |s| - p, 1
  {
    hide Term, Factor, Expr, ExprLoop, Literal, Bounded, Apply, Plain, Safe, FactorTrace, ExactBelow;
    NothingIsSafe();
    if IsMul(At(s, p)) {
      var p1 := SkipBlanks(s, p + 1);
      var (right, q) := Factor(c, s, p1);
      var q1 := SkipBlanks(s, q);
      Split(s, p, p1, q, q1);
      FactorTame(c, n, s, p1);
      var m := DigitCount(s, p1, q);
      OperationTame(c, n, s[p], left, right, k, m, k + DigitCount(s, p, q1));
      PlainFactorIsSafe(c, n, s, p1);
      SmallDivision(s[p], left, right, k);
      PlainTermLoopIsSafe(c, n, s, q1, Apply(s[p], left, right), k + DigitCount(s, p, q1));
      hide DigitCount;
      SafeJoin(FactorTrace(c, s, p1), Divisions(s[p], left, right));
      SafeJoin(FactorTrace(c, s, p1) + Divisions(s[p], left, right), TermLoopTrace(c, s, q1, Apply(s[p], left, right)));
    }
  }

  lemma {:induction false} PlainTermIsSafe(c: Context, n: nat, s: string, p: nat)
    requires Plain(s) && ExactBelow(c, n) && p <= |s| && DigitCount(s, p, |s|) <= n <= 18
    ensures Safe(TermTrace(c, s, p))
    decreases |s| - p, 2
  {
    hide Factor, Bounded, Plain, Safe, FactorTrace, TermLoopTrace, ExactBelow;
    var (left, q) := Factor(c, s, p);
    var q1 := SkipBlanks(s, q);
    FactorTame(c, n, s, p);
    Split(s, p, p, q, q1);
    Widen(left, DigitCount(s, p, q), DigitCount(s, p, q1));
    PlainFactorIsSafe(c, n, s, p);
    PlainTermLoopIsSafe(c, n, s, q1, left, DigitCount(s, p, q1));
    SafeJoin(FactorTrace(c, s, p), TermLoopTrace(c, s, q1, left));
  }

  lemma {:induction false} PlainExprLoopIsSafe(c: Context, n: nat, s: string, p: nat, left: int, k: nat)
    requires Plain(s) && ExactBelow(c, n) && p <= |s| && Bounded(left, k) && k + DigitCount(s, p, |s|) <= n <= 18
    ensures Safe(ExprLoopTrace(c, s, p, left))
    decreases |s| - p, 3
  {
    hide Term, TermLoop, Factor, Expr, Literal, Bounded, Apply, Plain, Safe, TermTrace, ExactBelow;
    NothingIsSafe();
    if IsSum(s, p) {
      var p1 := SkipBlanks(s, p + 1);
      var (right, q) := Term(c, s, p1);
      var q1 := SkipBlanks(s, q);
      Split(s, p, p1, q, q1);
      TermTame(c, n, s, p1);
      OperationTame(c, n, s[p], left, right, k, DigitCount(s, p1, q), k + DigitCount(s, p, q1));
      PlainTermIsSafe(c, n, s, p1);
      PlainExprLoopIsSafe(c, n, s, q1, Apply(s[p], left, right), k + DigitCount(s, p, q1));
      hide DigitCount;
      SafeJoin(TermTrace(c, s, p1), ExprLoopTrace(c, s, q1, Apply(s[p], left, right)));
    }
  }

  lemma {:induction false} PlainExprIsSafe(c: Context, n: nat, s: string, p: nat)
    requires Plain(s) && ExactBelow(c, n) && p <= |s| && DigitCount(s, p, |s|) <= n <= 18
    ensures Safe(ExprTrace(c, s, p))
    decreases |s| - p, 4
  {
    hide Term, Bounded, Plain, Safe, TermTrace, ExprLoopTrace, ExactBelow;
    var (left, q) := Term(c, s, p);
    var q1 := SkipBlanks(s, q);
    TermTame(c, n, s, p);
    Split(s, p, p, q, q1);
    Widen(left, DigitCount(s, p, q), DigitCount(s, p, q1));
    PlainTermIsSafe(c, n, s, p);
    PlainExprLoopIsSafe(c, n, s, q1, left, DigitCount(s, p, q1));
    SafeJoin(TermTrace(c, s, p), ExprLoopTrace(c, s, q1, left));
  }

  // ----- Conditions on the text -----

  /** Short names and no division, or no variables and at most 18 digits. */
  ghost predicate Harmless(s: string) {
    (ShortNames(s) && NoDivision(s)) || (Plain(s) && DigitCount(s, 0, |s|) <= 18)
  }

  /** A harmless expression is safe; with no variables and at most 18 digits it also has its exact value. */
  lemma HarmlessIsSafe(lookup: string -> int, s: string)
    requires Harmless(s)
    ensures Safe(ExprTrace(Wrapping(lookup), s, 0))
    ensures Plain(s) && DigitCount(s, 0, |s|) <= 18 ==> Expr(Wrapping(lookup), s, 0) == Expr(Exact(lookup), s, 0)
  {
    hide Expr, ExprTrace, DigitCount, Plain, ShortNames, NoDivision, Safe;
    if Plain(s) && DigitCount(s, 0, |s|) <= 18 {
      NoOverflow(lookup, s);
      ExactTo18(lookup);
      PlainExprIsSafe(Wrapping(lookup), 18, s, 0);
    } else {
      ExprIsSafe(Wrapping(lookup), s, 0);
    }
  }

  // Every expression that is replaced eagerly is harmless.
  ghost predicate EagerIsHarmless(c: Context, line: string, p: nat)
    requires p <= |line|
    decreases |line| - p
  {
    if p == |line| then true
    else if OpensAt(line, p) && !HasVarsAt(line, p + 3) then
      Harmless(line[p + 3..Scan(line, p + 3, 0)]) && EagerIsHarmless(c, line, ArithEvalAt(c, line, p + 3).1)
    else
      EagerIsHarmless(c, line, p + 1)
  }

  /** A line whose eager expressions are harmless is preprocessed without harm. */
  lemma {:induction false} HarmlessLineIsSafe(lookup: string -> int, line: string, p: nat)
    requires p <= |line| && EagerIsHarmless(Wrapping(lookup), line, p)
    ensures Safe(LineTrace(Wrapping(lookup), line, p))
    decreases |line| - p
  {
    hide Safe, Harmless, HasVarsAt, Wrapping;
    var c := Wrapping(lookup);
    NothingIsSafe();
    if p == |line| {
    } else if OpensAt(line, p) && !HasVarsAt(line, p + 3) {
      var next := ArithEvalAt(c, line, p + 3).1;
      HarmlessIsSafe(lookup, line[p + 3..Scan(line, p + 3, 0)]);
      HarmlessLineIsSafe(lookup, line, next);
      SafeJoin(ArithEvalTrace(c, line, p + 3), LineTrace(c, line, next));
    } else {
      HarmlessLineIsSafe(lookup, line, p + 1);
    }
  }

  // A name in a part of the line is part of a name in the line.
  lemma {:induction false} NameInPart(line: string, from: nat, to: nat, p: nat)
    requires from + p <= to <= |line|
    ensures from + NameEnd(line[from..to], p) <= NameEnd(line, from + p)
    decreases |line| - p
  {
    if IsName(At(line[from..to], p)) {
      NameInPart(line, from, to, p + 1);
    }
  }

  lemma PartIsHarmless(line: string, from: nat, to: nat)
    requires ShortNames(line) && NoDivision(line) && from <= to <= |line|
    ensures Harmless(line[from..to])
  {
    var t := line[from..to];
    forall p: nat | p <= |t| ensures NameEnd(t, p) - p < NAME_SIZE {
      NameInPart(line, from, to, p);
    }
    assert forall ch | ch in t :: ch in line;
  }

  /** In particular a line without '/', '%' and runs of 64 name characters is. */
  lemma {:induction false} LineWithoutDivision(c: Context, line: string, p: nat)
    requires p <= |line| && ShortNames(line) && NoDivision(line)
    ensures EagerIsHarmless(c, line, p)
    decreases |line| - p
  {
    hide Harmless, ShortNames, NoDivision, HasVarsAt;
    if p == |line| {
    } else if OpensAt(line, p) && !HasVarsAt(line, p + 3) {
      PartIsHarmless(line, p + 3, Scan(line, p + 3, 0));
      LineWithoutDivision(c, line, ArithEvalAt(c, line, p + 3).1);
    } else {
      LineWithoutDivision(c, line, p + 1);
    }
  }

  // ----- A name that is too long -----

  function Underscores(k: nat): (s: string)
    ensures |s| == k && forall i | 0 <= i < k :: s[i] == '_'
  {
    seq(k, _ => '_')
  }

  lemma {:induction false} UnderscoresEnd(s: string, p: nat)
    requires p <= |s| && forall i | p <= i < |s| :: s[i] == '_'
    ensures NameEnd(s, p) == |s|
    decreases |s| - p
  {
    if p < |s| {
      UnderscoresEnd(s, p + 1);
    }
  }

  /** $((___...___)) with 64 or more underscores has no letter, so it is evaluated when the line is
      preprocessed, and the name overruns its array. */
  lemma LongNameOverruns(c: Context, k: nat)
    requires k >= NAME_SIZE
    ensures var line := "$((" + (Underscores(k) + "))");
            OpensAt(line, 0) && !HasVarsAt(line, 3) && !Safe(LineTrace(c, line, 0))
  {
    var u := Underscores(k);
    var line := "$((" + (u + "))");
    FindsUnderscores(line, u);
    hide Safe, Scan, ExprTrace, ArithEvalAt;
    LongNameIsUnsafe(c, u);
    var next := ArithEvalAt(c, line, 3).1;
    SafeJoin(ArithEvalTrace(c, line, 3), LineTrace(c, line, next));
  }

  lemma FindsUnderscores(line: string, u: string)
    requires line == "$((" + (u + "))") && forall i | 0 <= i < |u| :: u[i] == '_'
    ensures OpensAt(line, 0) && Scan(line, 3, 0) == 3 + |u| && line[3..3 + |u|] == u && !HasVarsAt(line, 3)
  {
    hide Scan;
    Around(line, u);
    NoParens(u);
    ScanOver(line, 3, u);
    assert forall i | 3 <= i < 3 + |u| :: line[i] == u[i - 3];
  }

  lemma Around(line: string, u: string)
    requires line == "$((" + (u + "))")
    ensures OpensAt(line, 0) && Has(line, 3, u) && Closes(line, 3 + |u|) && line[3..3 + |u|] == u
  {
    var end := u + "))";
    assert end[|u|] == ')' && end[|u| + 1] == ')';
    assert forall i | 0 <= i < |end| :: line[3 + i] == end[i];
  }

  lemma ScanOver(line: string, p: nat, t: string)
    requires Balanced(t) && Has(line, p, t) && Closes(line, p + |t|)
    ensures Scan(line, p, 0) == p + |t|
  {
    assert Scan(line, p, 0) == Scan(line, p + |t|, 0);
  }

  lemma LongNameIsUnsafe(c: Context, u: string)
    requires |u| >= NAME_SIZE && forall i | 0 <= i < |u| :: u[i] == '_'
    ensures !Safe(ExprTrace(c, u, 0))
  {
    UnderscoresEnd(u, 0);
    assert u[0..|u|] == u;
    assert SkipBlanks(u, 0) == 0;
    assert FactorTrace(c, u, 0) == [Name(u)];
    SafeName(u);
    hide Safe, FactorTrace, ExprLoopTrace, TermLoopTrace;
    var (left, q) := Factor(c, u, 0);
    SafeJoin(FactorTrace(c, u, 0), TermLoopTrace(c, u, SkipBlanks(u, q), left));
    var (value, r) := Term(c, u, 0);
    SafeJoin(TermTrace(c, u, 0), ExprLoopTrace(c, u, SkipBlanks(u, r), value));
  }

  // ----- A division that traps -----

  const LONG_MAX: nat := 0x7fff_ffff_ffff_ffff

  function NumberExp(digits: string): Exp {
    ETrm(TFac(FNum("", digits)))
  }

  function Minus(e: Exp, digits: string): Exp {
    EBin(e, "", '-', TFac(FNum("", digits)))
  }

  // (0-9223372036854775807-1) and (0-1), in parentheses.
  function LeastLong(): Fac {
    FParen("", Minus(Minus(NumberExp("0"), Digits(LONG_MAX)), "1"), "")
  }

  function MinusOne(): Fac {
    FParen("", Minus(NumberExp("0"), "1"), "")
  }

  lemma MinusValue(lookup: string -> int, e: Exp, digits: string)
    requires ValidExp(e) && ValidAst(Num(digits))
    ensures var c := Wrapping(lookup);
            && ValidExp(Minus(e, digits)) && ValidAst(ExpAst(e)) && ValidAst(ExpAst(Minus(e, digits)))
            && Value(c, ExpAst(Minus(e, digits))) == c.norm(Value(c, ExpAst(e)) - Fold(c, digits, 0))
  {
    ValidExpAst(e);
    ValidExpAst(Minus(e, digits));
    assert TrmAst(TFac(FNum("", digits))) == Num(digits);
  }

  lemma SmallNumber(lookup: string -> int, d: nat)
    requires d < 10
    ensures ValidAst(Num(Digits(d))) && Fold(Wrapping(lookup), Digits(d), 0) == d
  {
    DigitsReadBack(lookup, d);
  }

  lemma WrapsToLeast(lookup: string -> int)
    ensures var norm := Wrapping(lookup).norm;
            norm(LONG_MAX) == LONG_MAX && norm(norm(0 - LONG_MAX) - 1) == LONG_MIN && norm(0 - 1) == -1
  {
  }

  lemma MinusOneValue(lookup: string -> int)
    ensures ValidFac(MinusOne()) && ValidAst(FacAst(MinusOne())) && Value(Wrapping(lookup), FacAst(MinusOne())) == -1
  {
    var zero := NumberExp("0");
    SmallNumber(lookup, 0);
    SmallNumber(lookup, 1);
    assert Digits(0) == "0" && Digits(1) == "1";
    assert ValidExp(zero) && ExpAst(zero) == Num("0");
    MinusValue(lookup, zero, "1");
    WrapsToLeast(lookup);
    hide Fold, Wrapping;
  }

  lemma ZeroAndOne(lookup: string -> int)
    ensures var c, zero := Wrapping(lookup), NumberExp("0");
            && ValidExp(zero) && ValidAst(ExpAst(zero)) && Value(c, ExpAst(zero)) == 0
            && ValidAst(Num("1")) && Fold(c, "1", 0) == 1
  {
    SmallNumber(lookup, 0);
    SmallNumber(lookup, 1);
    assert Digits(0) == "0" && Digits(1) == "1";
  }

  lemma LeastLongValue(lookup: string -> int)
    ensures ValidFac(LeastLong()) && ValidAst(FacAst(LeastLong()))
        && Value(Wrapping(lookup), FacAst(LeastLong())) == LONG_MIN
  {
    var c, zero := Wrapping(lookup), NumberExp("0");
    hide *;
    ZeroAndOne(lookup);
    DigitsReadBack(lookup, LONG_MAX);
    var most := Minus(zero, Digits(LONG_MAX));
    MinusValue(lookup, zero, Digits(LONG_MAX));
    MinusValue(lookup, most, "1");
    WrapsToLeast(lookup);
    ParenthesesKeep(c, Minus(most, "1"));
    LeastLongIs();
  }

  lemma LeastLongIs()
    ensures LeastLong() == FParen("", Minus(Minus(NumberExp("0"), Digits(LONG_MAX)), "1"), "")
  {
  }

  lemma ParenthesesKeep(c: Context, e: Exp)
    requires ValidExp(e) && ValidAst(ExpAst(e))
    ensures var f := FParen("", e, ""); ValidFac(f) && FacAst(f) == ExpAst(e)
  {
  }

  // Their quotient or remainder.
  function Trapping(op: char): Exp {
    ETrm(TBin(TFac(LeastLong()), "", op, MinusOne()))
  }

  lemma TrappingIs(op: char)
    requires IsMul(op) && ValidFac(LeastLong()) && ValidFac(MinusOne())
    ensures ValidExp(Trapping(op)) && ExpAst(Trapping(op)) == Bin(op, FacAst(LeastLong()), FacAst(MinusOne()))
    ensures ExpText(Trapping(op)) + "" == ExpText(Trapping(op))
  {
    hide LeastLong, MinusOne;
    assert ValidTrm(TFac(LeastLong())) && TrmAst(TFac(LeastLong())) == FacAst(LeastLong());
  }

  /** (0-9223372036854775807-1)/(0-1) traps, for the quotient would be one more than the greatest long;
      so does the remainder. */
  lemma QuotientTraps(lookup: string -> int, op: char)
    requires op in "/%"
    ensures ValidExp(Trapping(op)) && Result(Wrapping(lookup), ExpText(Trapping(op)), 0) == None
  {
    hide *;
    LeastLongValue(lookup);
    MinusOneValue(lookup);
    MulSign(op);
    TrappingIs(op);
    LeastByMinusOne(Wrapping(lookup), op, FacAst(LeastLong()), FacAst(MinusOne()));
    TextIsEvaluatedIff(Wrapping(lookup), Trapping(op), "");
  }

  lemma MulSign(op: char)
    requires op in "/%"
    ensures IsMul(op) && Blank("")
  {
  }

  lemma LeastByMinusOne(c: Context, op: char, l: Ast, r: Ast)
    requires op in "/%" && ValidAst(l) && ValidAst(r) && Value(c, l) == LONG_MIN && Value(c, r) == -1
    ensures ValidAst(Bin(op, l, r)) && !NoTrap(c, Bin(op, l, r))
  {
  }
}
