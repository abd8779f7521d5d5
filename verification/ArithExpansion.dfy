/** Finding and replacing $((...)) in a command line. */
module ArithExpansion {
  import opened Texts
  import opened Numerals
  import opened Wrappers
  import opened Arith
  import opened ArithText
  import opened ArithBound
  import opened ArithTraps

  // Where the scan for "))" stops; the depth may go below zero on unbalanced text.
  function Scan(s: string, p: nat, depth: int): (q: nat)
    requires p <= |s|
    ensures p <= q <= |s| && (q < |s| ==> Closes(s, q))
    decreases |s| - p
  {
    if p == |s| then p
    else if s[p] == '(' then Scan(s, p + 1, depth + 1)
    else if s[p] == ')' then
      if depth == 0 && At(s, p + 1) == ')' then p else Scan(s, p + 1, depth - 1)
    else Scan(s, p + 1, depth)
  }

  predicate Closes(s: string, q: nat) {
    At(s, q) == ')' && At(s, q + 1) == ')'
  }

  // The value of the expression that starts at p, and the position just past it.
  function ArithEvalAt(c: Context, s: string, p: nat): (r: (int, nat))
    requires p <= |s|
    ensures p <= r.1 <= |s|
    ensures c.Longs() ==> IsLong(r.0)
  {
    var q := Scan(s, p, 0);
    (Expr(c, s[p..q], 0).0, if Closes(s, q) then q + 2 else q)
  }

  function ArithEvalTrace(c: Context, s: string, p: nat): seq<Access>
    requires p <= |s|
  {
    ExprTrace(c, s[p..Scan(s, p, 0)], 0)
  }

  // What arith_eval returns, unless it goes wrong.
  function ArithEvalResult(c: Context, s: string, p: nat): Option<(int, nat)>
    requires p <= |s|
  {
    if Safe(ArithEvalTrace(c, s, p)) then Some(ArithEvalAt(c, s, p)) else None
  }

  predicate HasVarsAt(s: string, p: nat)
    requires p <= |s|
  {
    exists k | p <= k < Scan(s, p, 0) :: IsLetter(s[k])
  }

  /** The value and the position just past the "))", unless the evaluation overruns a name's array or
      traps. */
  method ArithEval(c: Context, s: NulFree, start: nat) returns (r: Option<(int, nat)>)
    requires start <= |s|
    ensures r == ArithEvalResult(c, s, start)
  {
    hide Safe, ExprTrace, Expr;
    var p, depth := start, 0;
    while p < |s|
      invariant start <= p <= |s| && Scan(s, p, depth) == Scan(s, start, 0)
    {
      if s[p] == '(' {
        depth, p := depth + 1, p + 1;
      } else if s[p] == ')' {
        if depth == 0 && At(s, p + 1) == ')' { break; }
        depth, p := depth - 1, p + 1;
      } else {
        p := p + 1;
      }
    }
    var parser := new AParser(c, s[start..p]);
    var v :- parser.ApExpr();
    return Some((v, if Closes(s, p) then p + 2 else p));
  }

  method ArithHasVars(s: NulFree, start: nat) returns (r: bool)
    requires start <= |s|
    ensures r == HasVarsAt(s, start)
  {
    var p, depth := start, 0;
    while p < |s|
      invariant start <= p <= |s| && Scan(s, p, depth) == Scan(s, start, 0)
      invariant forall k | start <= k < p :: !IsLetter(s[k])
    {
      if s[p] == '(' {
        depth, p := depth + 1, p + 1;
      } else if s[p] == ')' {
        if depth == 0 && At(s, p + 1) == ')' { break; }
        depth, p := depth - 1, p + 1;
      } else {
        if IsLetter(s[p]) {
          assert Scan(s, p, depth) == Scan(s, p + 1, depth) > p;
          return true;
        }
        p := p + 1;
      }
    }
    return false;
  }

  // ----- The matching "))" of an expression -----

  // Text that leaves the depth as it was and hides no "))" at that depth.
  ghost predicate Balanced(t: string) {
    forall s: string, p: nat, d: int | Has(s, p, t) && d >= 0 :: Scan(s, p, d) == Scan(s, p + |t|, d)
  }

  lemma {:induction false} NoParens(t: string)
    requires forall ch | ch in t :: ch != '(' && ch != ')'
    ensures Balanced(t)
    decreases |t|
  {
    if t == "" {
    } else {
      assert t[0] in t && forall ch | ch in t[1..] :: ch in t;
      NoParens(t[1..]);
      forall s: string, p: nat, d: int | Has(s, p, t) && d >= 0
        ensures Scan(s, p, d) == Scan(s, p + |t|, d)
      {
        HasChar(s, p, t, 0);
        assert t == [t[0]] + t[1..];
        HasJoin(s, p, [t[0]], t[1..]);
      }
    }
  }

  lemma BalancedJoin(t: string, u: string)
    requires Balanced(t) && Balanced(u)
    ensures Balanced(t + u)
  {
    hide Scan;
    forall s: string, p: nat, d: int | Has(s, p, t + u) && d >= 0
      ensures Scan(s, p, d) == Scan(s, p + |t + u|, d)
    {
      HasJoin(s, p, t, u);
    }
  }

  lemma BalancedParens(t: string)
    requires Balanced(t)
    ensures Balanced("(" + (t + ")"))
  {
    var u := "(" + (t + ")");
    forall s: string, p: nat, d: int | Has(s, p, u) && d >= 0
      ensures Scan(s, p, d) == Scan(s, p + |u|, d)
    {
      HasJoin(s, p, "(", t + ")");
      HasJoin(s, p + 1, t, ")");
      HasChar(s, p, "(", 0);
      HasChar(s, p + 1 + |t|, ")", 0);
      assert Scan(s, p + 1, d + 1) == Scan(s, p + 1 + |t|, d + 1);
    }
  }

  lemma {:induction false} FacBalanced(f: Fac)
    requires ValidFac(f)
    ensures Balanced(FacText(f))
    decreases f
  {
    hide Balanced;
    NoParens(f.ws);
    match f {
      case FNum(ws, digits) =>
        NoParens(digits);
        BalancedJoin(ws, digits);
      case FVar(ws, dollar, name) =>
        var sigil := if dollar then "$" else "";
        NoParens(sigil + name);
        BalancedJoin(ws, sigil + name);
      case FSign(ws, minus, g) =>
        var sign := if minus then "-" else "+";
        FacBalanced(g);
        NoParens(sign);
        BalancedJoin(sign, FacText(g));
        BalancedJoin(ws, sign + FacText(g));
      case FParen(ws, e, ws2) =>
        ExpBalanced(e);
        NoParens(ws2);
        BalancedJoin(ExpText(e), ws2);
        BalancedParens(ExpText(e) + ws2);
        assert ExpText(e) + (ws2 + ")") == (ExpText(e) + ws2) + ")";
        BalancedJoin(ws, "(" + ((ExpText(e) + ws2) + ")"));
    }
  }

  lemma {:induction false} TrmBalanced(t: Trm)
    requires ValidTrm(t)
    ensures Balanced(TrmText(t))
    decreases t
  {
    hide Balanced;
    FacBalanced(t.f);
    if t.TBin? {
      TrmBalanced(t.t);
      NoParens(t.ws);
      NoParens([t.op]);
      BalancedJoin([t.op], FacText(t.f));
      BalancedJoin(t.ws, [t.op] + FacText(t.f));
      BalancedJoin(TrmText(t.t), t.ws + ([t.op] + FacText(t.f)));
    }
  }

  lemma {:induction false} ExpBalanced(e: Exp)
    requires ValidExp(e)
    ensures Balanced(ExpText(e))
    decreases e
  {
    hide Balanced;
    TrmBalanced(e.t);
    if e.EBin? {
      ExpBalanced(e.e);
      NoParens(e.ws);
      NoParens([e.op]);
      BalancedJoin([e.op], TrmText(e.t));
      BalancedJoin(e.ws, [e.op] + TrmText(e.t));
      BalancedJoin(ExpText(e.e), e.ws + ([e.op] + TrmText(e.t)));
    }
  }

  /** In any line, an expression's text followed by blanks and "))" is found whole. Exactly if the
      expression has no trap it is evaluated, to its value, and left just past the "))". */
  lemma MatcherFindsExpression(c: Context, line: string, p: nat, e: Exp, ws: string)
    requires ValidExp(e) && Blank(ws) && Has(line, p, (ExpText(e) + ws) + "))")
    ensures ValidAst(ExpAst(e))
    ensures ArithEvalResult(c, line, p)
            == if NoTrap(c, ExpAst(e)) then Some((Value(c, ExpAst(e)), p + |ExpText(e)| + |ws| + 2)) else None
  {
    hide ExpText, ValidExp, ValidAst, ExpAst, Value, NoTrap, Safe, Expr, ExprTrace, Result;
    var t := ExpText(e) + ws;
    ExpBalanced(e);
    NoParens(ws);
    BalancedJoin(ExpText(e), ws);
    ScanFinds(line, p, t);
    TextIsEvaluatedIff(c, e, ws);
    ResultIs(c, t);
  }

  lemma ResultIs(c: Context, s: string)
    ensures Result(c, s, 0) == if Safe(ExprTrace(c, s, 0)) then Some(Expr(c, s, 0)) else None
  {
  }

  lemma ScanFinds(line: string, p: nat, t: string)
    requires Balanced(t) && Has(line, p, t + "))")
    ensures p + |t| < |line| && Scan(line, p, 0) == p + |t| && line[p..p + |t|] == t && Closes(line, p + |t|)
  {
    HasJoin(line, p, t, "))");
    HasChar(line, p + |t|, "))", 0);
    HasChar(line, p + |t|, "))", 1);
    assert Scan(line, p, 0) == Scan(line, p + |t|, 0) == p + |t|;
  }

  // ----- Replacing constant expressions in a line -----

  function DigitChar(d: nat): char {
    (d % 10 + '0' as int) as char
  }

  function Digits(n: nat): string {
    Numeral(n, DigitChar)
  }

  // printf's %ld.
  function Show(v: int): string {
    if v < 0 then "-" + Digits(-v) else Digits(v)
  }

  predicate OpensAt(line: string, p: nat) {
    At(line, p) == '$' && At(line, p + 1) == '(' && At(line, p + 2) == '('
  }

  // The line from p on, with every $((...)) that has no letters replaced by its value.
  function Expand(c: Context, line: string, p: nat): string
    requires p <= |line|
    decreases |line| - p
  {
    if p == |line| then ""
    else if OpensAt(line, p) && !HasVarsAt(line, p + 3) then
      var (v, endp) := ArithEvalAt(c, line, p + 3);
      Show(v) + Expand(c, line, endp)
    else
      [line[p]] + Expand(c, line, p + 1)
  }

  /** Text in which no "$((" begins is kept as it is. */
  lemma {:induction false} OtherTextIsKept(c: Context, line: string, p: nat, q: nat)
    requires p <= q <= |line| && forall k | p <= k < q :: !OpensAt(line, k)
    ensures Expand(c, line, p) == line[p..q] + Expand(c, line, q)
    decreases q - p
  {
    hide OpensAt, HasVarsAt, ArithEvalAt, Show;
    if p < q {
      OtherTextIsKept(c, line, p + 1, q);
      assert line[p..q] == [line[p]] + line[p + 1..q];
    } else {
      assert line[p..q] == "";
    }
  }

  /** A "$((", an expression without letters and without a trap, and "))" become the expression's value,
      and the rest of the line is expanded behind them. */
  lemma ExpressionIsReplaced(c: Context, line: string, p: nat, e: Exp, ws: string)
    requires ValidExp(e) && Blank(ws) && Has(line, p, "$((" + ((ExpText(e) + ws) + "))"))
    requires ValidAst(ExpAst(e)) && NoTrap(c, ExpAst(e)) && forall ch | ch in ExpText(e) :: !IsLetter(ch)
    ensures var next := p + 3 + |ExpText(e)| + |ws| + 2;
            next <= |line| && Expand(c, line, p) == Show(Value(c, ExpAst(e))) + Expand(c, line, next)
  {
    hide ExpText, ValidExp, ValidAst, ExpAst, Value, NoTrap, Safe, Show, Has, Balanced, HasVarsAt, ArithEvalAt;
    var t := ExpText(e) + ws;
    HasJoin(line, p, "$((", t + "))");
    Opens(line, p);
    MatcherFindsExpression(c, line, p + 3, e, ws);
    ExpBalanced(e);
    BlanksBalanced(ws);
    BalancedJoin(ExpText(e), ws);
    ScanFinds(line, p + 3, t);
    BlanksAreNoLetters(ws);
    NoLettersThere(line, p + 3, t);
  }

  lemma Opens(line: string, p: nat)
    requires Has(line, p, "$((")
    ensures p + 3 <= |line| && OpensAt(line, p)
  {
    HasChar(line, p, "$((", 0);
    HasChar(line, p, "$((", 1);
    HasChar(line, p, "$((", 2);
  }

  lemma BlanksBalanced(ws: string)
    requires Blank(ws)
    ensures Balanced(ws)
  {
    NoParens(ws);
  }

  lemma BlanksAreNoLetters(ws: string)
    requires Blank(ws)
    ensures forall ch | ch in ws :: !IsLetter(ch)
  {
  }

  lemma NoLettersThere(line: string, p: nat, t: string)
    requires p + |t| <= |line| && Scan(line, p, 0) == p + |t| && line[p..p + |t|] == t
    requires forall ch | ch in t :: !IsLetter(ch)
    ensures !HasVarsAt(line, p)
  {
    forall k | p <= k < p + |t| ensures !IsLetter(line[k]) {
      assert line[k] == t[k - p] && t[k - p] in t;
    }
  }

  /** One with a letter is left for later, as far as no other "$((" begins inside it. */
  lemma VariablesAreKept(c: Context, line: string, p: nat, q: nat)
    requires p < q <= |line| && OpensAt(line, p) && HasVarsAt(line, p + 3) && forall k | p < k < q :: !OpensAt(line, k)
    ensures Expand(c, line, p) == line[p..q] + Expand(c, line, q)
  {
    hide *;
    OtherTextIsKept(c, line, p + 1, q);
    FirstIsKept(c, line, p);
    assert line[p..q] == [line[p]] + line[p + 1..q];
  }

  lemma FirstIsKept(c: Context, line: string, p: nat)
    requires p < |line| && OpensAt(line, p) && HasVarsAt(line, p + 3)
    ensures Expand(c, line, p) == [line[p]] + Expand(c, line, p + 1)
  {
    hide HasVarsAt, ArithEvalAt, Show;
  }

  // What preprocessing a line does that may go wrong.
  function LineTrace(c: Context, line: string, p: nat): seq<Access>
    requires p <= |line|
    decreases |line| - p
  {
    if p == |line| then []
    else if OpensAt(line, p) && !HasVarsAt(line, p + 3) then
      ArithEvalTrace(c, line, p + 3) + LineTrace(c, line, ArithEvalAt(c, line, p + 3).1)
    else
      LineTrace(c, line, p + 1)
  }

  lemma ShowLength(v: int, k: nat)
    requires Bounded(v, k)
    ensures |Show(v)| <= k + 1
  {
    if k > 0 {
      NumeralLength(if v < 0 then -v else v, DigitChar, k);
    }
  }

  lemma LongLength(v: int)
    requires IsLong(v)
    ensures |Show(v)| <= 20
  {
    assert Pow10(19) == 10_000_000_000_000_000_000 by {
      PowJoin(9, 10);
      PowJoin(9, 1);
      PowJoin(4, 5);
      assert Pow10(4) == 10_000 && Pow10(5) == 100_000;
    }
    ShowLength(v, 19);
  }

  method Append(buf: array<char>, o: nat, text: string)
    requires o + |text| <= buf.Length
    modifies buf
    ensures buf[..o + |text|] == old(buf[..o]) + text
  {
    for k := 0 to |text|
      invariant buf[..o] == old(buf[..o])
      invariant forall x | 0 <= x < k :: buf[o + x] == text[x]
    {
      buf[o + k] := text[k];
    }
    assert buf[..o + |text|] == buf[..o] + buf[o..o + |text|];
  }

  // What is written for position p, where reading resumes, and how long both are.
  method NextPiece(c: Context, line: NulFree, p: nat) returns (piece: Option<(string, nat)>)
    requires c.Longs() && p < |line|
    ensures piece.None? ==> !Safe(LineTrace(c, line, p))
    ensures piece.Some? ==> var (text, next) := piece.value;
            && p < next <= |line| && Expand(c, line, p) == text + Expand(c, line, next)
            && (Safe(LineTrace(c, line, p)) <==> Safe(LineTrace(c, line, next)))
            && |text| <= 20 && (|text| <= 4 * (next - p) || (next == |line| && |text| <= 4 * (next - p) + 8))
  {
    hide Safe;
    var eager := false;
    if OpensAt(line, p) {
      var vars := ArithHasVars(line, p + 3);
      eager := !vars;
    }
    if eager {
      SafeJoin(ArithEvalTrace(c, line, p + 3), LineTrace(c, line, ArithEvalAt(c, line, p + 3).1));
      var r :- ArithEval(c, line, p + 3);
      LongLength(r.0);
      return Some((Show(r.0), r.1));
    }
    return Some(([line[p]], p + 1));
  }

  /** The line is expanded unless some eager evaluation overruns a name's array or traps. The output
      buffer of four bytes a character and 64 more is never overrun, on any line whatever: a value
      takes at most 20 characters and replaces at least five, or ends the line. */
  method PreprocessArith(c: Context, line: NulFree) returns (out: Option<string>)
    requires c.Longs()
    ensures out.Some? <==> Safe(LineTrace(c, line, 0))
    ensures out.Some? ==> out.value == Expand(c, line, 0) && |out.value| < 4 * |line| + 64
  {
    hide ArithEvalAt, ArithEvalTrace, HasVarsAt, OpensAt, Show, Safe, Expand, LineTrace;
    LineEnds(c, line);
    var buf := new char[|line| * 4 + 64](_ => '\0');
    var o, p := 0, 0;
    while p < |line|
      invariant 0 <= p <= |line|
      invariant 0 <= o <= 4 * p + (if p == |line| then 8 else 0)
      invariant buf[..o] + Expand(c, line, p) == Expand(c, line, 0)
      invariant Safe(LineTrace(c, line, p)) <==> Safe(LineTrace(c, line, 0))
      decreases |line| - p
    {
      ghost var done := buf[..o];
      var piece :- NextPiece(c, line, p);
      var (text, next) := piece;
      Append(buf, o, text);
      Regroup(done, text, Expand(c, line, next));
      o, p := o + |text|, next;
    }
    assert buf[..o] + "" == buf[..o];
    out := Some(buf[..o]);
  }

  lemma LineEnds(c: Context, line: string)
    ensures Expand(c, line, |line|) == "" && Safe(LineTrace(c, line, |line|))
  {
    NothingIsSafe();
  }

  // Every expression that is replaced eagerly has no '_' and no '$' either.
  predicate EagerIsPlain(c: Context, line: string, p: nat)
    requires p <= |line|
    decreases |line| - p
  {
    if p == |line| then true
    else if OpensAt(line, p) && !HasVarsAt(line, p + 3) then
      Plain(line[p + 3..Scan(line, p + 3, 0)]) && EagerIsPlain(c, line, ArithEvalAt(c, line, p + 3).1)
    else
      EagerIsPlain(c, line, p + 1)
  }

  lemma {:induction false} DigitsFit(s: string, p: nat, q: nat)
    requires p <= q <= |s|
    ensures DigitCount(s, p, q) <= q - p
    decreases q - p
  {
    if p < q {
      DigitsFit(s, p + 1, q);
    }
  }

  // A plain expression's value is at most two characters longer than its text.
  lemma PlainValueLength(lookup: string -> int, s: string)
    requires Plain(s)
    ensures |Show(Expr(Wrapping(lookup), s, 0).0)| <= |s| + 1
  {
    var (v, q) := Expr(Wrapping(lookup), s, 0);
    DigitsFit(s, 0, |s|);
    if DigitCount(s, 0, |s|) <= 18 {
      NoOverflow(lookup, s);
      ExactValueBound(lookup, s);
      DigitsFit(s, 0, q);
      ShowLength(v, DigitCount(s, 0, q));
    } else {
      assert Wrapping(lookup).Longs();
      LongLength(v);
    }
  }

  /** When what is replaced eagerly is plain, the line never grows. */
  lemma {:induction false} PlainLineNeverGrows(lookup: string -> int, line: string, p: nat)
    requires p <= |line| && EagerIsPlain(Wrapping(lookup), line, p)
    ensures |Expand(Wrapping(lookup), line, p)| <= |line| - p
    decreases |line| - p
  {
    var c := Wrapping(lookup);
    if p == |line| {
    } else if OpensAt(line, p) && !HasVarsAt(line, p + 3) {
      var q := Scan(line, p + 3, 0);
      PlainValueLength(lookup, line[p + 3..q]);
      PlainLineNeverGrows(lookup, line, ArithEvalAt(c, line, p + 3).1);
    } else {
      PlainLineNeverGrows(lookup, line, p + 1);
    }
  }

  // ----- A value that was printed reads back as itself -----

  lemma {:induction false} FoldJoin(c: Context, s: string, d: char, val: int)
    requires (forall k | k in s :: IsDigit(k)) && IsDigit(d)
    ensures Fold(c, s + [d], val) == c.norm(Fold(c, s, val) * 10 + Digit(d))
    decreases |s|
  {
    if s == "" {
      assert s + [d] == [d] && [d][1..] == "";
    } else {
      assert (s + [d])[1..] == s[1..] + [d];
      FoldJoin(c, s[1..], d, c.norm(val * 10 + Digit(s[0])));
    }
  }

  // Wrapping early or late makes no difference.
  lemma WrapsOnce(lookup: string -> int, x: int, d: int)
    ensures var norm := Wrapping(lookup).norm; norm(norm(x) * 10 + d) == norm(x * 10 + d)
  {
    var two63, two64 := 0x8000_0000_0000_0000, 0x1_0000_0000_0000_0000;
    var q := (x + two63) / two64;
    var y := Wrapping(lookup).norm(x);
    assert y == x - two64 * q;
    assert y * 10 + d + two63 == (x * 10 + d + two63) + two64 * (-10 * q);
    Shift(x * 10 + d + two63, -10 * q);
  }

  lemma Shift(x: int, k: int)
    ensures (x + 0x1_0000_0000_0000_0000 * k) % 0x1_0000_0000_0000_0000 == x % 0x1_0000_0000_0000_0000
  {
  }

  lemma {:induction false} DigitsReadBack(lookup: string -> int, n: nat)
    ensures Digits(n) != "" && forall d | d in Digits(n) :: IsDigit(d)
    ensures Fold(Wrapping(lookup), Digits(n), 0) == Wrapping(lookup).norm(n)
    ensures Fold(Exact(lookup), Digits(n), 0) == n
    decreases n
  {
    hide *;
    DigitsAre(n);
    if n < 10 {
      FoldOne(Exact(lookup), DigitChar(n));
      FoldOne(Wrapping(lookup), DigitChar(n));
      NormsAre(lookup, n);
    } else {
      var d := DigitChar(n % 10);
      DigitsReadBack(lookup, n / 10);
      FoldJoin(Exact(lookup), Digits(n / 10), d, 0);
      FoldJoin(Wrapping(lookup), Digits(n / 10), d, 0);
      WrapsOnce(lookup, n / 10, n % 10);
      NormsAre(lookup, n);
    }
  }

  // One level of the definition.
  lemma DigitsAre(n: nat)
    ensures var d := DigitChar(n % 10);
            && IsDigit(d) && Digit(d) == n % 10
            && Digits(n) == if n < 10 then [d] else Digits(n / 10) + [d]
  {
  }

  lemma FoldOne(c: Context, d: char)
    requires IsDigit(d)
    ensures Fold(c, [d], 0) == c.norm(Digit(d))
  {
    assert [d][1..] == "";
  }

  lemma NormsAre(lookup: string -> int, n: nat)
    ensures Exact(lookup).norm(n) == n && n / 10 * 10 + n % 10 == n
  {
  }

  // The text of a number as an expression.
  function ShownExp(v: int): Exp {
    var num := FNum("", Digits(if v < 0 then -v else v));
    ETrm(TFac(if v < 0 then FSign("", true, num) else num))
  }

  lemma ShownIsText(lookup: string -> int, v: int)
    ensures ValidExp(ShownExp(v)) && ExpText(ShownExp(v)) == Show(v)
    ensures var num := Num(Digits(if v < 0 then -v else v)); ExpAst(ShownExp(v)) == if v < 0 then Neg(num) else num
  {
    var n := if v < 0 then -v else v;
    DigitsReadBack(lookup, n);
    var num := FNum("", Digits(n));
    assert ValidFac(num) && FacText(num) == "" + Digits(n) == Digits(n) && FacAst(num) == Num(Digits(n));
    hide Digits;
    var f := if v < 0 then FSign("", true, num) else num;
    assert ValidFac(f) && FacText(f) == Show(v);
    assert ValidTrm(TFac(f)) && TrmText(TFac(f)) == Show(v) && TrmAst(TFac(f)) == FacAst(f);
  }

  // A number's text evaluates to what its digits fold to, negated under a sign.
  lemma ShownValue(c: Context, v: int)
    ensures var n := if v < 0 then -v else v;
            && (forall d | d in Digits(n) :: IsDigit(d)) && Digits(n) != ""
            && Expr(c, Show(v), 0)
               == (if v < 0 then c.norm(-Fold(c, Digits(n), 0)) else Fold(c, Digits(n), 0), |Show(v)|)
  {
    var n := if v < 0 then -v else v;
    hide Digits, Expr, Fold, ExpText, ShownExp, Show, Value, ValidExp, ExpAst, ValidAst;
    DigitsReadBack(c.lookup, n);
    ShownIsText(c.lookup, v);
    ReadsWholeText(c, ShownExp(v), "");
    assert ExpText(ShownExp(v)) + "" == Show(v);
    ValueOfNumber(c, Digits(n));
  }

  lemma ValueOfNumber(c: Context, digits: string)
    requires digits != "" && forall d | d in digits :: IsDigit(d)
    ensures ValidAst(Num(digits)) && ValidAst(Neg(Num(digits)))
    ensures Value(c, Num(digits)) == Fold(c, digits, 0) && Value(c, Neg(Num(digits))) == c.norm(-Fold(c, digits, 0))
  {
  }

  /** Replacing an expression by its value keeps that value when the result is evaluated again, for
      every long under 64-bit arithmetic and for every integer under exact arithmetic. */
  lemma ShownValueReadsBack(lookup: string -> int, v: int)
    ensures IsLong(v) ==> Expr(Wrapping(lookup), Show(v), 0) == (v, |Show(v)|)
    ensures Expr(Exact(lookup), Show(v), 0) == (v, |Show(v)|)
  {
    hide Digits, Expr, Fold, Show, Wrapping;
    DigitsReadBack(lookup, if v < 0 then -v else v);
    ShownValue(Wrapping(lookup), v);
    ShownValue(Exact(lookup), v);
    LongIsKept(lookup, v);
  }

  // Wrapping keeps a long, also when it is taken apart into sign and size.
  lemma LongIsKept(lookup: string -> int, v: int)
    ensures IsLong(v) ==> var norm := Wrapping(lookup).norm; if v < 0 then norm(-norm(-v)) == v else norm(v) == v
  {
  }
}
