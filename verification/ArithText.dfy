/** Texts of arithmetic expressions, with any blanks and any parentheses, and the proof that the
    evaluator consumes such a text whole and returns its value under the usual rules. */
module ArithText {
  import opened Texts
  import opened Arith

  datatype Ast =
    | Num(digits: string)
    | Var(name: string)
    | Neg(e: Ast)
    | Pos(e: Ast)
    | Bin(op: char, l: Ast, r: Ast)

  function Fold(c: Context, digits: string, val: int): int
    requires forall d | d in digits :: IsDigit(d)
  {
    if digits == "" then val else Fold(c, digits[1..], c.norm(val * 10 + Digit(digits[0])))
  }

  ghost predicate ValidName(name: string) {
    0 < |name| < 64 && forall ch | ch in name :: IsName(ch)
  }

  ghost predicate ValidAst(e: Ast) {
    match e
    case Num(digits) => digits != "" && forall d | d in digits :: IsDigit(d)
    case Var(name) => ValidName(name) && !IsDigit(name[0])
    case Neg(e) => ValidAst(e)
    case Pos(e) => ValidAst(e)
    case Bin(op, l, r) => op in {'+', '-', '*', '/', '%'} && ValidAst(l) && ValidAst(r)
  }

  // A real number without its fraction.
  function Truncated(x: real): int {
    if x >= 0.0 then x.Floor else -(-x).Floor
  }

  /** The value of an expression, whatever the machine does to each result: the operations are those of
      the integers, division truncates the exact quotient, and dividing by zero gives 0. */
  ghost function Value(c: Context, e: Ast): int
    requires ValidAst(e)
  {
    match e
    case Num(digits) => Fold(c, digits, 0)
    case Var(name) => c.Load(name)
    case Neg(e) => c.norm(-Value(c, e))
    case Pos(e) => Value(c, e)
    case Bin(op, l, r) =>
      var a, b := Value(c, l), Value(c, r);
      if op == '+' then c.norm(a + b)
      else if op == '-' then c.norm(a - b)
      else if op == '*' then c.norm(a * b)
      else if b == 0 then c.norm(0)
      else if op == '/' then c.norm(Truncated(a as real / b as real))
      else c.norm(a - b * Truncated(a as real / b as real))
  }

  lemma RealQuotient(x: nat, y: nat)
    requires y > 0
    ensures (x as real / y as real).Floor == x / y && x as real / y as real >= 0.0
  {
    var q, r := x / y, x % y;
    assert x == y * q + r;
    var exact := x as real / y as real;
    assert exact * y as real == x as real;
    assert (exact - q as real) * y as real == r as real;
    Fraction(exact - q as real, y as real, r as real);
    FloorIs(exact, q);
  }

  lemma Fraction(z: real, y: real, r: real)
    requires z * y == r && 0.0 <= r < y
    ensures 0.0 <= z < 1.0
  {
    Product(z, y);
  }

  lemma Product(z: real, y: real)
    requires y > 0.0
    ensures (z < 0.0 ==> z * y < 0.0) && (z >= 1.0 ==> z * y >= y)
  {
    assert z >= 1.0 ==> (z - 1.0) * y >= 0.0;
  }

  lemma FloorIs(x: real, q: int)
    requires 0.0 <= x - q as real < 1.0
    ensures x.Floor == q
  {
  }

  lemma NegatedQuotient(x: real, y: real)
    requires y != 0.0
    ensures -x / y == -(x / y) && x / -y == -(x / y) && -x / -y == x / y
  {
  }

  // The evaluator's quotient is the exact one without its fraction.
  lemma QuotientTruncates(a: int, b: int)
    requires b != 0
    ensures Quotient(a, b) == Truncated(a as real / b as real)
  {
    var x: nat, y: nat := if a >= 0 then a else -a, if b > 0 then b else -b;
    RealQuotient(x, y);
    NegatedQuotient(x as real, y as real);
  }

  lemma OperationIs(c: Context, op: char, l: Ast, r: Ast)
    requires ValidAst(Bin(op, l, r))
    ensures Value(c, Bin(op, l, r)) == c.norm(Apply(op, Value(c, l), Value(c, r)))
  {
    hide Truncated, Quotient;
    if Value(c, r) != 0 {
      QuotientTruncates(Value(c, l), Value(c, r));
    } else {
      ZeroQuotient(Value(c, l));
    }
  }

  lemma ZeroQuotient(a: int)
    ensures Quotient(a, 0) == 0
  {
  }

  // ----- Concrete syntax: every way to write an expression down -----

  datatype Fac =
    | FNum(ws: string, digits: string)
    | FVar(ws: string, dollar: bool, name: string)
    | FSign(ws: string, minus: bool, f: Fac)
    | FParen(ws: string, e: Exp, ws2: string)

  datatype Trm = TFac(f: Fac) | TBin(t: Trm, ws: string, op: char, f: Fac)

  datatype Exp = ETrm(t: Trm) | EBin(e: Exp, ws: string, op: char, t: Trm)

  ghost predicate Blank(ws: string) {
    forall ch | ch in ws :: IsBlank(ch)
  }

  ghost predicate ValidFac(f: Fac) {
    Blank(f.ws) &&
    match f
    case FNum(_, digits) => ValidAst(Num(digits))
    case FVar(_, _, name) => ValidAst(Var(name))
    case FSign(_, _, g) => ValidFac(g)
    case FParen(_, e, ws2) => ValidExp(e) && Blank(ws2)
  }

  ghost predicate ValidTrm(t: Trm) {
    match t
    case TFac(f) => ValidFac(f)
    case TBin(t, ws, op, f) => ValidTrm(t) && Blank(ws) && IsMul(op) && ValidFac(f)
  }

  ghost predicate ValidExp(e: Exp) {
    match e
    case ETrm(t) => ValidTrm(t)
    case EBin(e, ws, op, t) => ValidExp(e) && Blank(ws) && op in {'+', '-'} && ValidTrm(t)
  }

  function FacText(f: Fac): string {
    f.ws +
    match f
    case FNum(_, digits) => digits
    case FVar(_, dollar, name) => (if dollar then "$" else "") + name
    case FSign(_, minus, g) => (if minus then "-" else "+") + FacText(g)
    case FParen(_, e, ws2) => "(" + (ExpText(e) + (ws2 + ")"))
  }

  function TrmText(t: Trm): string {
    match t
    case TFac(f) => FacText(f)
    case TBin(t, ws, op, f) => TrmText(t) + (ws + ([op] + FacText(f)))
  }

  function ExpText(e: Exp): string {
    match e
    case ETrm(t) => TrmText(t)
    case EBin(e, ws, op, t) => ExpText(e) + (ws + ([op] + TrmText(t)))
  }

  // What a text means: '*', '/' and '%' bind tighter, and all of them associate to the left.
  function FacAst(f: Fac): Ast {
    match f
    case FNum(_, digits) => Num(digits)
    case FVar(_, _, name) => Var(name)
    case FSign(_, minus, g) => if minus then Neg(FacAst(g)) else Pos(FacAst(g))
    case FParen(_, e, _) => ExpAst(e)
  }

  function TrmAst(t: Trm): Ast {
    match t
    case TFac(f) => FacAst(f)
    case TBin(t, _, op, f) => Bin(op, TrmAst(t), FacAst(f))
  }

  function ExpAst(e: Exp): Ast {
    match e
    case ETrm(t) => TrmAst(t)
    case EBin(e, _, op, t) => Bin(op, ExpAst(e), TrmAst(t))
  }

  lemma {:induction false} ValidFacAst(f: Fac)
    requires ValidFac(f)
    ensures ValidAst(FacAst(f))
    decreases f
  {
    match f {
      case FSign(_, _, g) => ValidFacAst(g);
      case FParen(_, e, _) => ValidExpAst(e);
      case _ =>
    }
  }

  lemma {:induction false} ValidTrmAst(t: Trm)
    requires ValidTrm(t)
    ensures ValidAst(TrmAst(t))
    decreases t
  {
    ValidFacAst(t.f);
    if t.TBin? { ValidTrmAst(t.t); }
  }

  lemma {:induction false} ValidExpAst(e: Exp)
    requires ValidExp(e)
    ensures ValidAst(ExpAst(e))
    decreases e
  {
    ValidTrmAst(e.t);
    if e.EBin? { ValidExpAst(e.e); }
  }

  // ----- Text at a position -----

  lemma HasChar(s: string, p: nat, t: string, k: nat)
    requires Has(s, p, t) && k < |t|
    ensures p + k < |s| && s[p + k] == t[k] && t[k] in t
  {
  }

  lemma {:induction false} SkipOver(s: string, p: nat, ws: string)
    requires Has(s, p, ws) && Blank(ws)
    ensures SkipBlanks(s, p) == SkipBlanks(s, p + |ws|)
    decreases |ws|
  {
    if ws != "" {
      HasChar(s, p, ws, 0);
      assert ws == ws[..1] + ws[1..];
      HasJoin(s, p, ws[..1], ws[1..]);
      SkipOver(s, p + 1, ws[1..]);
    }
  }

  // Blanks before a factor or a term change nothing.
  lemma SkipIdle(c: Context, s: string, p: nat)
    requires p <= |s|
    ensures Factor(c, s, SkipBlanks(s, p)) == Factor(c, s, p)
    ensures Term(c, s, SkipBlanks(s, p)) == Term(c, s, p)
  {
    assert SkipBlanks(s, SkipBlanks(s, p)) == SkipBlanks(s, p);
  }

  // A text does not end in the middle of a number or name.
  ghost predicate NoGlue(s: string, q: nat) {
    !IsName(At(s, q))
  }

  lemma {:induction false} ReadDigits(c: Context, s: string, p: nat, digits: string, val: int)
    requires Has(s, p, digits) && (forall d | d in digits :: IsDigit(d)) && NoGlue(s, p + |digits|)
    ensures Literal(c, s, p, val) == (Fold(c, digits, val), p + |digits|)
    decreases |digits|
  {
    if digits != "" {
      HasChar(s, p, digits, 0);
      assert digits == digits[..1] + digits[1..];
      HasJoin(s, p, digits[..1], digits[1..]);
      ReadDigits(c, s, p + 1, digits[1..], c.norm(val * 10 + Digit(digits[0])));
    }
  }

  lemma {:induction false} ReadName(s: string, p: nat, name: string)
    requires Has(s, p, name) && (forall ch | ch in name :: IsName(ch)) && NoGlue(s, p + |name|)
    ensures NameEnd(s, p) == p + |name|
    decreases |name|
  {
    if name != "" {
      HasChar(s, p, name, 0);
      assert name == name[..1] + name[1..];
      HasJoin(s, p, name[..1], name[1..]);
      ReadName(s, p + 1, name[1..]);
    }
  }

  lemma BlankOrNot(s: string, p: nat, ws: string, ch: char)
    requires Has(s, p, ws) && Blank(ws) && At(s, p + |ws|) == ch && !IsBlank(ch)
    ensures SkipBlanks(s, p) == p + |ws|
    ensures !IsName(ch) ==> NoGlue(s, p)
  {
    SkipOver(s, p, ws);
    if ws != "" { HasChar(s, p, ws, 0); }
  }

  // A term never starts with a closing parenthesis, so a '-' before it is an operator.
  lemma {:induction false} FacStart(f: Fac)
    requires ValidFac(f)
    ensures FacText(f) != "" && FacText(f)[0] != ')' && (FacText(f)[0] == '(' ==> f.FParen?)
  {
    if f.ws != "" { assert f.ws[0] in f.ws; }
    if f.FNum? { assert f.digits[0] in f.digits; }
    if f.FVar? { assert f.name[0] in f.name; }
  }

  lemma {:induction false} TrmStart(t: Trm)
    requires ValidTrm(t)
    ensures TrmText(t) != "" && TrmText(t)[0] != ')'
    decreases t
  {
    if t.TBin? { TrmStart(t.t); } else { FacStart(t.f); }
  }

  // ----- Reading a text -----

  lemma ReadNum(c: Context, s: string, p: nat, ws: string, digits: string)
    requires Blank(ws) && ValidAst(Num(digits)) && Has(s, p, ws + digits) && NoGlue(s, p + |ws + digits|)
    ensures Factor(c, s, p) == (Fold(c, digits, 0), p + |ws + digits|)
  {
    hide Term, TermLoop, Expr, ExprLoop, Has, Blank;
    var q := p + |ws|;
    HasJoin(s, p, ws, digits);
    HasChar(s, q, digits, 0);
    BlankOrNot(s, p, ws, s[q]);
    ReadDigits(c, s, q, digits, 0);
  }

  lemma NameFactor(c: Context, s: string, p: nat, q: nat, start: nat)
    requires p <= |s| && SkipBlanks(s, p) == q && start <= |s|
    requires if start == q then IsLetter(At(s, q)) || At(s, q) == '_' else start == q + 1 && At(s, q) == '$'
    ensures Factor(c, s, p) == (c.Load(s[start..NameEnd(s, start)]), NameEnd(s, start))
  {
  }

  lemma ReadVar(c: Context, s: string, p: nat, ws: string, sigil: string, name: string)
    requires Blank(ws) && ValidAst(Var(name)) && (sigil == "" || sigil == "$")
    requires Has(s, p, ws + (sigil + name)) && NoGlue(s, p + |ws + (sigil + name)|)
    ensures Factor(c, s, p) == (c.Load(name), p + |ws + (sigil + name)|)
  {
    hide Factor, NameEnd, SkipBlanks, Blank;
    var q, start := p + |ws|, p + |ws| + |sigil|;
    HasJoin(s, p, ws, sigil + name);
    HasJoin(s, q, sigil, name);
    HasChar(s, start, name, 0);
    if sigil != "" { HasChar(s, q, sigil, 0); }
    BlankOrNot(s, p, ws, s[q]);
    ReadName(s, start, name);
    NameFactor(c, s, p, q, start);
    assert s[start..start + |name|] == name;
  }

  lemma ReadSign(c: Context, s: string, p: nat, ws: string, minus: bool, text: string, v: int)
    requires Blank(ws) && Has(s, p, ws + ((if minus then "-" else "+") + text))
    requires Factor(c, s, p + |ws| + 1) == (v, p + |ws| + 1 + |text|)
    ensures Factor(c, s, p) == (if minus then c.norm(-v) else v, p + |ws| + 1 + |text|)
  {
    hide Term, TermLoop, Expr, ExprLoop, Literal, Has, Blank;
    var sign := if minus then "-" else "+";
    HasJoin(s, p, ws, sign + text);
    HasJoin(s, p + |ws|, sign, text);
    HasChar(s, p + |ws|, sign, 0);
    BlankOrNot(s, p, ws, s[p + |ws|]);
  }

  // Inside parentheses, an expression ends where its closing parenthesis stands.
  lemma ParenParts(s: string, p: nat, ws: string, text: string, ws2: string)
    requires Blank(ws) && Blank(ws2) && Has(s, p, ws + ("(" + (text + (ws2 + ")"))))
    ensures var q := p + |ws|;
            var end := q + 1 + |text|;
            && At(s, q) == '(' && SkipBlanks(s, p) == q
            && Has(s, q + 1, text) && NoGlue(s, end)
            && At(s, end + |ws2|) == ')' && SkipBlanks(s, end) == end + |ws2| && end + |ws2| < |s|
  {
    var q := p + |ws|;
    var end := q + 1 + |text|;
    HasJoin(s, p, ws, "(" + (text + (ws2 + ")")));
    HasJoin(s, q, "(", text + (ws2 + ")"));
    HasJoin(s, q + 1, text, ws2 + ")");
    HasJoin(s, end, ws2, ")");
    HasChar(s, q, "(", 0);
    HasChar(s, end + |ws2|, ")", 0);
    BlankOrNot(s, p, ws, '(');
    BlankOrNot(s, end, ws2, ')');
  }

  lemma ReadParen(c: Context, s: string, p: nat, q: nat, close: nat, v: int)
    requires p <= q < |s| && SkipBlanks(s, p) == q && At(s, q) == '('
    requires q < close < |s| && At(s, close) == ')'
    requires SkipBlanks(s, close) == close && Expr(c, s, q + 1) == ExprLoop(c, s, close, v)
    ensures Factor(c, s, p) == (v, close + 1)
  {
    hide Term, TermLoop, Expr, Literal;
  }

  // An operator and its right operand, after a left operand that ends at q.
  lemma OperatorParts(s: string, q: nat, ws: string, op: char, text: string)
    requires Blank(ws) && op in {'+', '-', '*', '/', '%'} && Has(s, q, ws + ([op] + text))
    ensures var o := q + |ws|;
            NoGlue(s, q) && SkipBlanks(s, q) == o && o < |s| && s[o] == op && Has(s, o + 1, text)
  {
    var o := q + |ws|;
    HasJoin(s, q, ws, [op] + text);
    HasJoin(s, o, [op], text);
    HasChar(s, o, [op], 0);
    BlankOrNot(s, q, ws, op);
  }

  lemma LoopFactor(c: Context, s: string, o: nat, left: int, right: int, end: nat)
    requires o < |s| && IsMul(s[o]) && Factor(c, s, o + 1) == (right, end)
    ensures TermLoop(c, s, o, left) == TermLoop(c, s, SkipBlanks(s, end), c.norm(Apply(s[o], left, right)))
  {
    SkipIdle(c, s, o + 1);
  }

  lemma TermAlone(c: Context, s: string, p: nat, end: nat, v: int)
    requires p <= |s| && end <= |s| && Term(c, s, p) == TermLoop(c, s, end, v) && !IsMul(At(s, end))
    requires SkipBlanks(s, end) == end
    ensures Term(c, s, p) == (v, end) && Expr(c, s, p) == ExprLoop(c, s, end, v)
  {
    hide Factor, Term;
  }

  lemma LoopTerm(c: Context, s: string, o: nat, left: int, right: int, end: nat)
    requires o < |s| && IsSum(s, o) && Term(c, s, o + 1) == (right, end)
    ensures ExprLoop(c, s, o, left) == ExprLoop(c, s, SkipBlanks(s, end), c.norm(Apply(s[o], left, right)))
  {
    SkipIdle(c, s, o + 1);
  }

  lemma {:induction false} ReadFac(c: Context, s: string, p: nat, f: Fac)
    requires ValidFac(f) && Has(s, p, FacText(f)) && NoGlue(s, p + |FacText(f)|)
    ensures ValidAst(FacAst(f))
    ensures Factor(c, s, p) == (Value(c, FacAst(f)), p + |FacText(f)|)
    decreases f
  {
    hide Factor, Term, TermLoop, Expr, ExprLoop, SkipBlanks, Has, Blank;
    ValidFacAst(f);
    match f {
      case FNum(ws, digits) =>
        ReadNum(c, s, p, ws, digits);
      case FVar(ws, dollar, name) =>
        ReadVar(c, s, p, ws, if dollar then "$" else "", name);
      case FSign(ws, minus, g) =>
        var sign := if minus then "-" else "+";
        HasJoin(s, p, ws, sign + FacText(g));
        HasJoin(s, p + |ws|, sign, FacText(g));
        ReadFac(c, s, p + |ws| + 1, g);
        ReadSign(c, s, p, ws, minus, FacText(g), Value(c, FacAst(g)));
      case FParen(ws, e, ws2) =>
        ParenParts(s, p, ws, ExpText(e), ws2);
        ReadExp(c, s, p + |ws| + 1, e);
        ReadParen(c, s, p, p + |ws|, p + |ws| + 1 + |ExpText(e)| + |ws2|, Value(c, ExpAst(e)));
    }
  }

  lemma {:induction false} ReadTrm(c: Context, s: string, p: nat, t: Trm)
    requires ValidTrm(t) && Has(s, p, TrmText(t)) && NoGlue(s, p + |TrmText(t)|)
    ensures ValidAst(TrmAst(t))
    ensures Term(c, s, p) == TermLoop(c, s, SkipBlanks(s, p + |TrmText(t)|), Value(c, TrmAst(t)))
    decreases t
  {
    hide Factor, TermLoop, Expr, ExprLoop, SkipBlanks, Has, Blank;
    ValidTrmAst(t);
    match t {
      case TFac(f) =>
        ReadFac(c, s, p, f);
      case TBin(l, ws, op, f) =>
        HasJoin(s, p, TrmText(l), ws + ([op] + FacText(f)));
        var q := p + |TrmText(l)|;
        OperatorParts(s, q, ws, op, FacText(f));
        ReadTrm(c, s, p, l);
        ReadFac(c, s, q + |ws| + 1, f);
        OperationIs(c, op, TrmAst(l), FacAst(f));
        LoopFactor(c, s, q + |ws|, Value(c, TrmAst(l)), Value(c, FacAst(f)), p + |TrmText(t)|);
    }
  }

  lemma ReadSum(c: Context, s: string, p: nat, o: nat, end: nat, vl: int, vt: int)
    requires p <= |s| && o < |s| && Expr(c, s, p) == ExprLoop(c, s, o, vl) && IsSum(s, o)
    requires end <= |s| && Term(c, s, o + 1) == TermLoop(c, s, end, vt)
    requires !IsMul(At(s, end)) && SkipBlanks(s, end) == end
    ensures Expr(c, s, p) == ExprLoop(c, s, end, c.norm(Apply(s[o], vl, vt)))
  {
    hide Term, TermLoop, Expr, ExprLoop;
    TermAlone(c, s, o + 1, end, vt);
    LoopTerm(c, s, o, vl, vt, end);
  }

  lemma SumFacts(c: Context, l: Exp, ws: string, op: char, t: Trm)
    requires ValidExp(EBin(l, ws, op, t)) && ValidAst(ExpAst(l)) && ValidAst(TrmAst(t))
    ensures var e := EBin(l, ws, op, t);
            && |ExpText(e)| == |ExpText(l)| + |ws| + 1 + |TrmText(t)|
            && ValidAst(ExpAst(e))
            && Value(c, ExpAst(e)) == c.norm(Apply(op, Value(c, ExpAst(l)), Value(c, TrmAst(t))))
  {
    hide Value, Apply;
    OperationIs(c, op, ExpAst(l), TrmAst(t));
  }

  lemma {:induction false} ReadExp(c: Context, s: string, p: nat, e: Exp)
    requires ValidExp(e) && Has(s, p, ExpText(e)) && NoGlue(s, p + |ExpText(e)|)
    requires !IsMul(At(s, SkipBlanks(s, p + |ExpText(e)|)))
    ensures ValidAst(ExpAst(e))
    ensures Expr(c, s, p) == ExprLoop(c, s, SkipBlanks(s, p + |ExpText(e)|), Value(c, ExpAst(e)))
    decreases e, 1
  {
    hide Factor, Term, TermLoop, Expr, ExprLoop, SkipBlanks, Has, Blank, NoGlue, IsMul, IsSum;
    hide Value, ExpText, Apply, ExpAst, TrmText, TrmAst, ValidAst, ValidTrm, ValidExp;
    ValidExpAst(e);
    ExpParts(e);
    var end := p + |ExpText(e)|;
    SkipTwice(s, end);
    ReadTrmAt(c, s, p, e);
    if e.ETrm? {
      TermAlone(c, s, p, SkipBlanks(s, end), Value(c, TrmAst(e.t)));
    } else {
      ReadExp(c, s, p, e.e);
      SumFacts(c, e.e, e.ws, e.op, e.t);
      ReadSum(c, s, p, TrmAt(p, e) - 1, SkipBlanks(s, end), Value(c, ExpAst(e.e)), Value(c, TrmAst(e.t)));
    }
  }

  // Where the last term of an expression at p starts.
  function TrmAt(p: nat, e: Exp): (q: nat)
    ensures q >= p && (e.EBin? ==> q > p)
  {
    if e.ETrm? then p else p + |ExpText(e.e)| + |e.ws| + 1
  }

  lemma ExpParts(e: Exp)
    requires ValidExp(e)
    ensures ValidTrm(e.t) && ValidAst(TrmAst(e.t))
    ensures e.ETrm? ==> ExpText(e) == TrmText(e.t) && ExpAst(e) == TrmAst(e.t)
    ensures e.EBin? ==> ValidExp(e.e) && ValidAst(ExpAst(e.e))
  {
    ValidTrmAst(e.t);
    if e.EBin? {
      ValidExpAst(e.e);
    }
  }

  // The last term is read, and what stands before it ends at its operator.
  lemma {:induction false} ReadTrmAt(c: Context, s: string, p: nat, e: Exp)
    requires ValidExp(e) && Has(s, p, ExpText(e)) && NoGlue(s, p + |ExpText(e)|)
    ensures p + |ExpText(e)| <= |s| && TrmAt(p, e) <= |s| && ValidAst(TrmAst(e.t))
    ensures Term(c, s, TrmAt(p, e)) == TermLoop(c, s, SkipBlanks(s, p + |ExpText(e)|), Value(c, TrmAst(e.t)))
    ensures e.EBin? ==> var q, o := p + |ExpText(e.e)|, TrmAt(p, e) - 1;
            && Has(s, p, ExpText(e.e)) && NoGlue(s, q) && SkipBlanks(s, q) == o && o < |s| && s[o] == e.op
            && IsSum(s, o) && !IsMul(At(s, o))
    decreases e, 0
  {
    hide Factor, Term, TermLoop, Expr, ExprLoop, SkipBlanks, NoGlue, IsMul, IsSum, Value, Apply, ExpAst, TrmAst,
        ValidAst;
    ExpParts(e);
    if e.EBin? {
      SumParts(s, p, e.e, e.ws, e.op, e.t, TrmAt(p, e) - 1, p + |ExpText(e)|);
    }
    hide ExpText, TrmText, ValidTrm, ValidExp;
    ReadTrm(c, s, TrmAt(p, e), e.t);
  }

  lemma SkipTwice(s: string, p: nat)
    requires p <= |s|
    ensures SkipBlanks(s, SkipBlanks(s, p)) == SkipBlanks(s, p)
  {
  }

  // Where the parts of a sum stand: its operator at o and its end at end.
  lemma SumParts(s: string, p: nat, l: Exp, ws: string, op: char, t: Trm, o: nat, end: nat)
    requires ValidExp(EBin(l, ws, op, t)) && Has(s, p, ExpText(EBin(l, ws, op, t)))
    requires o == p + |ExpText(l)| + |ws| && end == p + |ExpText(EBin(l, ws, op, t))|
    ensures Has(s, p, ExpText(l)) && NoGlue(s, p + |ExpText(l)|) && SkipBlanks(s, p + |ExpText(l)|) == o
    ensures o < |s| && s[o] == op && !IsMul(op) && IsSum(s, o)
    ensures Has(s, o + 1, TrmText(t)) && end == o + 1 + |TrmText(t)| && end <= |s|
  {
    assert ExpText(EBin(l, ws, op, t)) == ExpText(l) + (ws + ([op] + TrmText(t)));
    SumOperator(op);
    TrmStart(t);
    hide ExpText, TrmText, ValidTrm, SkipBlanks, NoGlue, IsMul;
    HasJoin(s, p, ExpText(l), ws + ([op] + TrmText(t)));
    OperatorParts(s, p + |ExpText(l)|, ws, op, TrmText(t));
    HasChar(s, o + 1, TrmText(t), 0);
  }

  lemma SumOperator(op: char)
    ensures op in {'+', '-'} ==> !IsMul(op)
  {
  }

  /** The whole of a text and the blanks after it are consumed, and its value is returned. */
  lemma ReadsWholeText(c: Context, e: Exp, ws: string)
    requires ValidExp(e) && Blank(ws)
    ensures ValidAst(ExpAst(e))
    ensures Expr(c, ExpText(e) + ws, 0) == (Value(c, ExpAst(e)), |ExpText(e) + ws|)
  {
    hide Factor, Term, TermLoop, Expr, ExpText, Value, ExpAst, ValidExp, ValidAst;
    var s, n := ExpText(e) + ws, |ExpText(e)|;
    HasWhole(ExpText(e), ws);
    BlankOrNot(s, n, ws, '\0');
    hide Has, Blank;
    ReadExp(c, s, 0, e);
    assert SkipBlanks(s, n) == |s|;
  }

  lemma HasWhole(t: string, ws: string)
    ensures Has(t + ws, 0, t) && Has(t + ws, |t|, ws)
  {
  }

  // ----- Every expression has a text: with as few and with as many parentheses as possible -----

  function MinFac(e: Ast): Fac
    decreases e, 0
  {
    match e
    case Num(digits) => FNum("", digits)
    case Var(name) => FVar("", false, name)
    case Neg(e) => FSign("", true, MinFac(e))
    case Pos(e) => FSign("", false, MinFac(e))
    case Bin(op, l, r) =>
      FParen("", if IsMul(op) then ETrm(TBin(MinTrm(l), "", op, MinFac(r))) else EBin(MinExp(l), "", op, MinTrm(r)), "")
  }

  function MinTrm(e: Ast): Trm
    decreases e, 1
  {
    if e.Bin? && IsMul(e.op) then TBin(MinTrm(e.l), "", e.op, MinFac(e.r)) else TFac(MinFac(e))
  }

  function MinExp(e: Ast): Exp
    decreases e, 2
  {
    if e.Bin? && !IsMul(e.op) then EBin(MinExp(e.l), "", e.op, MinTrm(e.r)) else ETrm(MinTrm(e))
  }

  // Parentheses around every operation.
  function FullFac(e: Ast): Fac {
    match e
    case Num(digits) => FNum("", digits)
    case Var(name) => FVar("", false, name)
    case Neg(e) => FSign("", true, FullFac(e))
    case Pos(e) => FSign("", false, FullFac(e))
    case Bin(op, l, r) =>
      var lf, rf := FullFac(l), FullFac(r);
      FParen("", if IsMul(op) then ETrm(TBin(TFac(lf), "", op, rf)) else EBin(ETrm(TFac(lf)), "", op, TFac(rf)), "")
  }

  // The top of an operation's text.
  lemma InnerText(e: Exp)
    requires e.ETrm? ==> e.t.TBin? && ValidTrm(e.t.t) && Blank(e.t.ws) && IsMul(e.t.op) && ValidFac(e.t.f)
    requires e.EBin? ==> ValidExp(e.e) && Blank(e.ws) && e.op in {'+', '-'} && ValidTrm(e.t)
    ensures ValidExp(e)
    ensures e.ETrm? ==> ExpAst(e) == Bin(e.t.op, TrmAst(e.t.t), FacAst(e.t.f))
    ensures e.EBin? ==> ExpAst(e) == Bin(e.op, ExpAst(e.e), TrmAst(e.t))
  {
  }

  lemma {:induction false} MinIsText(e: Ast)
    requires ValidAst(e)
    ensures ValidFac(MinFac(e)) && FacAst(MinFac(e)) == e
    ensures ValidTrm(MinTrm(e)) && TrmAst(MinTrm(e)) == e
    ensures ValidExp(MinExp(e)) && ExpAst(MinExp(e)) == e
    decreases e
  {
    match e {
      case Neg(f) => MinIsText(f);
      case Pos(f) => MinIsText(f);
      case Bin(op, l, r) =>
        MinIsText(l);
        MinIsText(r);
        var inner := if IsMul(op) then ETrm(TBin(MinTrm(l), "", op, MinFac(r))) else EBin(MinExp(l), "", op, MinTrm(r));
        InnerText(inner);
        assert ExpAst(inner) == e;
        assert MinFac(e) == FParen("", inner, "");
      case _ =>
    }
  }

  lemma {:induction false} FullIsText(e: Ast)
    requires ValidAst(e)
    ensures ValidFac(FullFac(e)) && FacAst(FullFac(e)) == e
    decreases e
  {
    match e {
      case Neg(f) => FullIsText(f);
      case Pos(f) => FullIsText(f);
      case Bin(op, l, r) =>
        FullIsText(l);
        FullIsText(r);
        var lf, rf := FullFac(l), FullFac(r);
        var inner := if IsMul(op) then ETrm(TBin(TFac(lf), "", op, rf)) else EBin(ETrm(TFac(lf)), "", op, TFac(rf));
        assert ValidTrm(TFac(lf)) && ValidTrm(TFac(rf)) && TrmAst(TFac(lf)) == l && TrmAst(TFac(rf)) == r;
        assert ValidExp(ETrm(TFac(lf))) && ExpAst(ETrm(TFac(lf))) == l;
        InnerText(inner);
        assert ExpAst(inner) == e;
        assert FullFac(e) == FParen("", inner, "");
      case _ =>
    }
  }
}
