/** Which expressions trap: evaluating the text of an expression ends with its value exactly if no
    division in it has the least long on its left and -1 on its right. */
module ArithTraps {
  import opened Texts
  import opened Wrappers
  import opened Arith
  import opened ArithText
  import opened ArithBound

  // No quotient or remainder in the expression is one that the machine traps on.
  ghost predicate NoTrap(c: Context, e: Ast)
    requires ValidAst(e)
  {
    match e
    case Num(_) => true
    case Var(_) => true
    case Neg(e) => NoTrap(c, e)
    case Pos(e) => NoTrap(c, e)
    case Bin(op, l, r) =>
      NoTrap(c, l) && NoTrap(c, r) && !(op in "/%" && Value(c, l) == LONG_MIN && Value(c, r) == -1)
  }

  // ----- The accesses of one factor -----

  lemma NumTrace(c: Context, s: string, p: nat, ws: string, digits: string)
    requires Blank(ws) && ValidAst(Num(digits)) && Has(s, p, ws + digits)
    ensures Safe(FactorTrace(c, s, p))
  {
    var q := p + |ws|;
    HasJoin(s, p, ws, digits);
    HasChar(s, q, digits, 0);
    BlankOrNot(s, p, ws, s[q]);
    hide Has, Blank, SkipBlanks;
    NumberIsFactor(c, s, q);
    SkipFirst(c, s, p);
  }

  lemma NameTrace(c: Context, s: string, p: nat, q: nat, start: nat)
    requires p <= |s| && SkipBlanks(s, p) == q && start <= |s|
    requires if start == q then IsLetter(At(s, q)) || At(s, q) == '_' else start == q + 1 && At(s, q) == '$'
    ensures FactorTrace(c, s, p) == [Name(s[start..NameEnd(s, start)])]
  {
  }

  lemma VarTrace(c: Context, s: string, p: nat, ws: string, sigil: string, name: string)
    requires Blank(ws) && ValidAst(Var(name)) && (sigil == "" || sigil == "$")
    requires Has(s, p, ws + (sigil + name)) && NoGlue(s, p + |ws + (sigil + name)|)
    ensures Safe(FactorTrace(c, s, p))
  {
    hide FactorTrace, NameEnd, SkipBlanks, Blank;
    var q, start := p + |ws|, p + |ws| + |sigil|;
    HasJoin(s, p, ws, sigil + name);
    HasJoin(s, q, sigil, name);
    HasChar(s, start, name, 0);
    if sigil != "" { HasChar(s, q, sigil, 0); }
    BlankOrNot(s, p, ws, s[q]);
    ReadName(s, start, name);
    NameTrace(c, s, p, q, start);
    assert s[start..start + |name|] == name;
  }

  lemma SignTrace(c: Context, s: string, p: nat, ws: string, minus: bool, text: string)
    requires Blank(ws) && Has(s, p, ws + ((if minus then "-" else "+") + text))
    ensures p + |ws| + 1 <= |s| && FactorTrace(c, s, p) == FactorTrace(c, s, p + |ws| + 1)
  {
    hide ExprTrace, Has, Blank;
    var sign := if minus then "-" else "+";
    HasJoin(s, p, ws, sign + text);
    HasJoin(s, p + |ws|, sign, text);
    HasChar(s, p + |ws|, sign, 0);
    BlankOrNot(s, p, ws, s[p + |ws|]);
  }

  lemma ParenTrace(c: Context, s: string, p: nat, q: nat)
    requires p <= q < |s| && SkipBlanks(s, p) == q && At(s, q) == '('
    ensures FactorTrace(c, s, p) == ExprTrace(c, s, q + 1)
  {
    hide ExprTrace;
  }

  // A loop that stops at once does nothing.
  lemma LoopsEnd(c: Context, s: string, p: nat, left: int)
    requires p <= |s|
    ensures !IsMul(At(s, p)) ==> Safe(TermLoopTrace(c, s, p, left))
    ensures !IsSum(s, p) ==> Safe(ExprLoopTrace(c, s, p, left))
  {
    NothingIsSafe();
  }

  // ----- One turn of each loop -----

  lemma TermTurn(c: Context, s: string, o: nat, left: int, right: int, end: nat)
    requires o < |s| && IsMul(s[o]) && Factor(c, s, o + 1) == (right, end)
    ensures Safe(TermLoopTrace(c, s, o, left)) <==>
            && Safe(FactorTrace(c, s, o + 1))
            && !(s[o] in "/%" && left == LONG_MIN && right == -1)
            && Safe(TermLoopTrace(c, s, SkipBlanks(s, end), c.norm(Apply(s[o], left, right))))
  {
    hide Factor, FactorTrace, Safe, Apply;
    SkipFirst(c, s, o + 1);
    SafeDivision(s[o], left, right);
    var rest := TermLoopTrace(c, s, SkipBlanks(s, end), c.norm(Apply(s[o], left, right)));
    SafeJoin(FactorTrace(c, s, o + 1) + Divisions(s[o], left, right), rest);
    SafeJoin(FactorTrace(c, s, o + 1), Divisions(s[o], left, right));
  }

  lemma TermStart(c: Context, s: string, p: nat, left: int, end: nat)
    requires p <= |s| && Factor(c, s, p) == (left, end)
    ensures Safe(TermTrace(c, s, p)) <==>
            Safe(FactorTrace(c, s, p)) && Safe(TermLoopTrace(c, s, SkipBlanks(s, end), left))
  {
    hide Factor, FactorTrace, TermLoopTrace, Safe;
    SafeJoin(FactorTrace(c, s, p), TermLoopTrace(c, s, SkipBlanks(s, end), left));
  }

  lemma ExprTurn(c: Context, s: string, o: nat, left: int, right: int, end: nat)
    requires o < |s| && IsSum(s, o) && Term(c, s, o + 1) == (right, end)
    ensures Safe(ExprLoopTrace(c, s, o, left)) <==>
            && Safe(TermTrace(c, s, o + 1))
            && Safe(ExprLoopTrace(c, s, SkipBlanks(s, end), c.norm(Apply(s[o], left, right))))
  {
    SkipIdle(c, s, o + 1);
    TermTraceSkips(c, s, o + 1);
    hide Term, TermTrace, Safe, Apply;
    SafeJoin(TermTrace(c, s, o + 1), ExprLoopTrace(c, s, SkipBlanks(s, end), c.norm(Apply(s[o], left, right))));
  }

  lemma TermTraceSkips(c: Context, s: string, p: nat)
    requires p <= |s|
    ensures TermTrace(c, s, SkipBlanks(s, p)) == TermTrace(c, s, p)
  {
    SkipFirst(c, s, p);
    hide Factor, FactorTrace, TermLoopTrace;
  }

  lemma ExprStart(c: Context, s: string, p: nat, left: int, end: nat)
    requires p <= |s| && Term(c, s, p) == (left, end)
    ensures Safe(ExprTrace(c, s, p)) <==>
            Safe(TermTrace(c, s, p)) && Safe(ExprLoopTrace(c, s, SkipBlanks(s, end), left))
  {
    hide Term, TermTrace, ExprLoopTrace, Safe;
    SafeJoin(TermTrace(c, s, p), ExprLoopTrace(c, s, SkipBlanks(s, end), left));
  }

  // ----- Texts -----

  lemma {:induction false} FacIsSafeIff(c: Context, s: string, p: nat, f: Fac)
    requires ValidFac(f) && Has(s, p, FacText(f)) && NoGlue(s, p + |FacText(f)|)
    ensures ValidAst(FacAst(f)) && (Safe(FactorTrace(c, s, p)) <==> NoTrap(c, FacAst(f)))
    decreases f, 0
  {
    hide FactorTrace, ExprTrace, ExprLoopTrace, SkipBlanks, Has, Blank, Safe, Value;
    ValidFacAst(f);
    match f {
      case FNum(ws, digits) =>
        NumTrace(c, s, p, ws, digits);
      case FVar(ws, dollar, name) =>
        VarTrace(c, s, p, ws, if dollar then "$" else "", name);
      case FSign(ws, minus, g) =>
        var sign := if minus then "-" else "+";
        HasJoin(s, p, ws, sign + FacText(g));
        HasJoin(s, p + |ws|, sign, FacText(g));
        FacIsSafeIff(c, s, p + |ws| + 1, g);
        SignTrace(c, s, p, ws, minus, FacText(g));
      case FParen(ws, e, ws2) =>
        ParenParts(s, p, ws, ExpText(e), ws2);
        ParenTrace(c, s, p, p + |ws|);
        ExpIsSafeIff(c, s, p + |ws| + 1, e);
        LoopsEnd(c, s, p + |ws| + 1 + |ExpText(e)| + |ws2|, Value(c, ExpAst(e)));
    }
  }

  lemma {:induction false} TrmIsSafeIff(c: Context, s: string, p: nat, t: Trm)
    requires ValidTrm(t) && Has(s, p, TrmText(t)) && NoGlue(s, p + |TrmText(t)|)
    ensures p + |TrmText(t)| <= |s| && ValidAst(TrmAst(t))
    ensures Safe(TermTrace(c, s, p)) <==>
            && NoTrap(c, TrmAst(t))
            && Safe(TermLoopTrace(c, s, SkipBlanks(s, p + |TrmText(t)|), Value(c, TrmAst(t))))
    decreases t, 1
  {
    hide Factor, FactorTrace, TermTrace, TermLoopTrace, SkipBlanks, Has, Blank, Safe, Apply;
    ValidTrmAst(t);
    match t {
      case TFac(f) =>
        ReadFac(c, s, p, f);
        FacIsSafeIff(c, s, p, f);
        TermStart(c, s, p, Value(c, FacAst(f)), p + |FacText(f)|);
      case TBin(l, ws, op, f) =>
        HasJoin(s, p, TrmText(l), ws + ([op] + FacText(f)));
        var q := p + |TrmText(l)|;
        OperatorParts(s, q, ws, op, FacText(f));
        TrmIsSafeIff(c, s, p, l);
        ReadFac(c, s, q + |ws| + 1, f);
        FacIsSafeIff(c, s, q + |ws| + 1, f);
        OperationIs(c, op, TrmAst(l), FacAst(f));
        TermTurn(c, s, q + |ws|, Value(c, TrmAst(l)), Value(c, FacAst(f)), p + |TrmText(t)|);
    }
  }

  /** Wherever an expression's text stands: evaluating there is safe exactly if the expression has no
      trap and going on behind it is safe. */
  lemma {:induction false} ExpIsSafeIff(c: Context, s: string, p: nat, e: Exp)
    requires ValidExp(e) && Has(s, p, ExpText(e)) && NoGlue(s, p + |ExpText(e)|)
    requires !IsMul(At(s, SkipBlanks(s, p + |ExpText(e)|)))
    ensures ValidAst(ExpAst(e))
    ensures Safe(ExprTrace(c, s, p)) <==>
            && NoTrap(c, ExpAst(e))
            && Safe(ExprLoopTrace(c, s, SkipBlanks(s, p + |ExpText(e)|), Value(c, ExpAst(e))))
    decreases e, 1
  {
    hide *;
    TrmAtStart(p, e);
    ValidExpAst(e);
    ExpParts(e);
    var end := p + |ExpText(e)|;
    ReadTrmAt(c, s, p, e);
    SkipTwice(s, end);
    LastTrmIsSafeIff(c, s, p, e);
    if e.ETrm? {
      TermAlone(c, s, p, SkipBlanks(s, end), Value(c, TrmAst(e.t)));
      ExprStart(c, s, p, Value(c, TrmAst(e.t)), SkipBlanks(s, end));
    } else {
      ExpIsSafeIff(c, s, p, e.e);
      SumFacts(c, e.e, e.ws, e.op, e.t);
      SumTraps(c, e.e, e.ws, e.op, e.t);
      SumIsSafeIff(c, s, p, TrmAt(p, e) - 1, SkipBlanks(s, end), Value(c, ExpAst(e.e)), Value(c, TrmAst(e.t)),
                   NoTrap(c, ExpAst(e.e)), NoTrap(c, TrmAst(e.t)));
    }
  }

  lemma TrmAtStart(p: nat, e: Exp)
    ensures e.ETrm? ==> TrmAt(p, e) == p
  {
  }

  lemma SumIsSafeIff(c: Context, s: string, p: nat, o: nat, end: nat, vl: int, vt: int, before: bool, last: bool)
    requires p <= |s| && o < |s| && IsSum(s, o) && (Safe(TermTrace(c, s, o + 1)) <==> last)
    requires Safe(ExprTrace(c, s, p)) <==> before && Safe(ExprLoopTrace(c, s, o, vl))
    requires end <= |s| && Term(c, s, o + 1) == TermLoop(c, s, end, vt)
    requires !IsMul(At(s, end)) && SkipBlanks(s, end) == end
    ensures Safe(ExprTrace(c, s, p)) <==>
            before && last && Safe(ExprLoopTrace(c, s, end, c.norm(Apply(s[o], vl, vt))))
  {
    hide *;
    TermAlone(c, s, o + 1, end, vt);
    ExprTurn(c, s, o, vl, vt, end);
  }

  lemma SumTraps(c: Context, l: Exp, ws: string, op: char, t: Trm)
    requires ValidExp(EBin(l, ws, op, t)) && ValidAst(ExpAst(l)) && ValidAst(TrmAst(t))
    requires ValidAst(ExpAst(EBin(l, ws, op, t)))
    ensures NoTrap(c, ExpAst(EBin(l, ws, op, t))) <==> NoTrap(c, ExpAst(l)) && NoTrap(c, TrmAst(t))
  {
  }

  lemma {:induction false} LastTrmIsSafeIff(c: Context, s: string, p: nat, e: Exp)
    requires ValidExp(e) && Has(s, p, ExpText(e)) && NoGlue(s, p + |ExpText(e)|)
    requires !IsMul(At(s, SkipBlanks(s, p + |ExpText(e)|)))
    ensures TrmAt(p, e) <= |s| && ValidAst(TrmAst(e.t))
    ensures Safe(TermTrace(c, s, TrmAt(p, e))) <==> NoTrap(c, TrmAst(e.t))
    decreases e, 0
  {
    hide *;
    LastTrmStands(s, p, e);
    TrmIsSafeIff(c, s, TrmAt(p, e), e.t);
    LoopsEnd(c, s, SkipBlanks(s, p + |ExpText(e)|), Value(c, TrmAst(e.t)));
  }

  lemma LastTrmStands(s: string, p: nat, e: Exp)
    requires ValidExp(e) && Has(s, p, ExpText(e))
    ensures ValidTrm(e.t) && Has(s, TrmAt(p, e), TrmText(e.t)) && TrmAt(p, e) + |TrmText(e.t)| == p + |ExpText(e)|
    ensures TrmAt(p, e) + |TrmText(e.t)| <= |s|
  {
    hide Blank, TrmText;
    ExpParts(e);
    if e.EBin? {
      SumParts(s, p, e.e, e.ws, e.op, e.t, TrmAt(p, e) - 1, p + |ExpText(e)|);
    }
  }

  // ----- Expressions that cannot trap -----

  // Whatever is divided by is written as a number of at most 18 digits.
  ghost predicate NumberDivisors(e: Ast) {
    match e
    case Num(_) => true
    case Var(_) => true
    case Neg(e) => NumberDivisors(e)
    case Pos(e) => NumberDivisors(e)
    case Bin(op, l, r) => NumberDivisors(l) && NumberDivisors(r) && (op in "/%" ==> r.Num? && |r.digits| <= 18)
  }

  lemma {:induction false} FoldIsPositive(lookup: string -> int, digits: string, val: int, k: nat)
    requires (forall d | d in digits :: IsDigit(d)) && 0 <= val && Bounded(val, k) && k + |digits| <= 18
    ensures Fold(Wrapping(lookup), digits, val) >= 0
    decreases |digits|
  {
    hide Bounded, Wrapping, ExactBelow, IsDigit, Digit;
    if digits != "" {
      assert digits[0] in digits && forall d | d in digits[1..] :: d in digits;
      OneDigitMore(lookup, digits[0], val, k);
      FoldIsPositive(lookup, digits[1..], val * 10 + Digit(digits[0]), k + 1);
    }
  }

  lemma OneDigitMore(lookup: string -> int, d: char, val: int, k: nat)
    requires IsDigit(d) && 0 <= val && Bounded(val, k) && k < 18
    ensures var next := val * 10 + Digit(d);
            0 <= next && Bounded(next, k + 1) && Wrapping(lookup).norm(next) == next
  {
    var next := val * 10 + Digit(d);
    hide Wrapping;
    assert Bounded(next, k + 1);
    Widen(next, k + 1, 18);
    ExactTo18(lookup);
  }

  lemma {:induction false} NumberDivisorsAreSafe(lookup: string -> int, e: Ast)
    requires ValidAst(e) && NumberDivisors(e)
    ensures NoTrap(Wrapping(lookup), e)
    decreases e
  {
    hide Wrapping;
    match e {
      case Neg(f) => NumberDivisorsAreSafe(lookup, f);
      case Pos(f) => NumberDivisorsAreSafe(lookup, f);
      case Bin(op, l, r) =>
        NumberDivisorsAreSafe(lookup, l);
        NumberDivisorsAreSafe(lookup, r);
        if op in "/%" {
          BoundedZero();
          FoldIsPositive(lookup, r.digits, 0, 0);
        }
      case _ =>
    }
  }

  // ----- What the evaluator returns -----

  /** Wherever an expression's text stands, evaluating there is going on behind it with its value, exactly
      if the expression has no trap. */
  lemma TextInsideIff(c: Context, s: string, p: nat, e: Exp)
    requires ValidExp(e) && Has(s, p, ExpText(e)) && NoGlue(s, p + |ExpText(e)|)
    requires !IsMul(At(s, SkipBlanks(s, p + |ExpText(e)|)))
    ensures ValidAst(ExpAst(e))
    ensures var end, v := SkipBlanks(s, p + |ExpText(e)|), Value(c, ExpAst(e));
            Result(c, s, p) == if NoTrap(c, ExpAst(e)) && Safe(ExprLoopTrace(c, s, end, v))
                               then Some(ExprLoop(c, s, end, v)) else None
  {
    hide Expr, ExprLoop, ExprTrace, ExprLoopTrace, ExpText, Value, ExpAst, ValidExp, ValidAst, Has, Blank, NoTrap, Safe;
    ReadExp(c, s, p, e);
    ExpIsSafeIff(c, s, p, e);
  }

  /** On the text of an expression and blanks, ap_expr returns exactly if the expression has no trap,
      and then its value, with the cursor at the end. */
  lemma TextIsEvaluatedIff(c: Context, e: Exp, ws: string)
    requires ValidExp(e) && Blank(ws)
    ensures ValidAst(ExpAst(e))
    ensures var s := ExpText(e) + ws;
            Result(c, s, 0) == if NoTrap(c, ExpAst(e)) then Some((Value(c, ExpAst(e)), |s|)) else None
  {
    hide Factor, Term, TermLoop, Expr, ExprTrace, ExpText, Value, ExpAst, ValidExp, ValidAst, Has, Blank, NoTrap, Safe,
        IsMul, IsSum, NoGlue, At;
    EndOfText(ExpText(e), ws);
    ReadsWholeText(c, e, ws);
    ExpIsSafeIff(c, ExpText(e) + ws, 0, e);
    LoopsEnd(c, ExpText(e) + ws, |ExpText(e) + ws|, Value(c, ExpAst(e)));
  }

  lemma EndOfText(t: string, ws: string)
    requires Blank(ws)
    ensures var s := t + ws;
            && Has(s, 0, t) && NoGlue(s, |t|) && SkipBlanks(s, |t|) == |s|
            && !IsMul(At(s, |s|)) && !IsSum(s, |s|)
  {
    HasWhole(t, ws);
    BlankOrNot(t + ws, |t|, ws, '\0');
  }

  /** Printing an expression, with the fewest or with all parentheses, and evaluating the text gives its
      value, exactly if the expression has no trap. */
  lemma PrintThenEvaluate(c: Context, e: Ast)
    requires ValidAst(e)
    ensures var s := ExpText(MinExp(e)); Result(c, s, 0) == if NoTrap(c, e) then Some((Value(c, e), |s|)) else None
    ensures var s := FacText(FullFac(e)); Result(c, s, 0) == if NoTrap(c, e) then Some((Value(c, e), |s|)) else None
  {
    MinIsText(e);
    TextIsEvaluatedIff(c, MinExp(e), "");
    assert ExpText(MinExp(e)) + "" == ExpText(MinExp(e));
    FullIsText(e);
    FullTextIs(e);
    TextIsEvaluatedIff(c, ETrm(TFac(FullFac(e))), "");
  }

  lemma FullTextIs(e: Ast)
    requires ValidFac(FullFac(e)) && FacAst(FullFac(e)) == e
    ensures var x := ETrm(TFac(FullFac(e)));
            ValidExp(x) && ExpAst(x) == e && ExpText(x) + "" == FacText(FullFac(e))
  {
    var t := TFac(FullFac(e));
    assert ValidTrm(t) && TrmAst(t) == e && TrmText(t) == FacText(FullFac(e));
    hide FullFac;
    assert ExpText(ETrm(t)) == TrmText(t);
  }
}
