/** lcs_diff: the flat table of 16-bit cells, the traceback into an array, and its reversal. */
module DiffLcs {
  import opened DiffLines
  import opened DiffScript

  // A value stored in a short.
  function AsShort(x: int): int {
    (x + 0x8000) % 0x1_0000 - 0x8000
  }

  // The cell of row i and column j in a table with w columns.
  function Cell(i: nat, j: nat, w: nat): nat {
    i * w + j
  }

  lemma CellInTable(i: nat, j: nat, n: nat, w: nat)
    requires i <= n && j < w
    ensures Cell(i, j, w) < (n + 1) * w
  {
    assert (i + 1) * w <= (n + 1) * w;
  }

  lemma CellsDiffer(i: nat, j: nat, i': nat, j': nat, w: nat)
    requires j < w && j' < w && (i, j) != (i', j')
    ensures Cell(i, j, w) != Cell(i', j', w)
  {
    if i < i' {
      assert (i + 1) * w <= i' * w;
    } else if i' < i {
      assert (i' + 1) * w <= i * w;
    }
  }

  ghost predicate Holds(dp: array<int>, a: seq<Line>, b: seq<Line>, o: Options, x: nat, y: nat)
    reads dp
  {
    && x <= |a| && y <= |b| && Cell(x, y, |b| + 1) < dp.Length
    && dp[Cell(x, y, |b| + 1)] == Lcs(a, b, o, x, y)
  }

  // The first i rows and the first j cells of row i hold the recurrence.
  ghost predicate Filled(dp: array<int>, a: seq<Line>, b: seq<Line>, o: Options, i: nat, j: nat)
    reads dp
  {
    && dp.Length == (|a| + 1) * (|b| + 1)
    && forall x: nat, y: nat | x <= |a| && y <= |b| && (x < i || y == 0 || (x == i && y < j)) ::
         Holds(dp, a, b, o, x, y)
  }

  method Load(dp: array<int>, a: seq<Line>, b: seq<Line>, o: Options, i: nat, j: nat, x: nat, y: nat)
    returns (v: int)
    requires Filled(dp, a, b, o, i, j)
    requires x <= |a| && y <= |b| && (x < i || y == 0 || (x == i && y < j))
    ensures v == Lcs(a, b, o, x, y)
  {
    assert Holds(dp, a, b, o, x, y);
    v := dp[Cell(x, y, |b| + 1)];
  }

  method Store(dp: array<int>, v: int, a: seq<Line>, b: seq<Line>, o: Options, i: nat, j: nat)
    requires 0 < i <= |a| && 0 < j <= |b| && Filled(dp, a, b, o, i, j)
    requires v == Lcs(a, b, o, i, j)
    modifies dp
    ensures Filled(dp, a, b, o, i, j + 1)
  {
    var w := |b| + 1;
    CellInTable(i, j, |a|, w);
    dp[Cell(i, j, w)] := v;
    forall x: nat, y: nat | x <= |a| && y <= |b| && (x < i || y == 0 || (x == i && y <= j))
      ensures Holds(dp, a, b, o, x, y)
    {
      CellInTable(x, y, |a|, w);
      if (x, y) != (i, j) {
        assert old(Holds(dp, a, b, o, x, y));
        CellsDiffer(i, j, x, y, w);
      }
    }
  }

  // One step of the inner loop. No cell overflows while one file has at most 32767 lines.
  method ComputeCell(dp: array<int>, a: seq<Line>, b: seq<Line>, o: Options, i: nat, j: nat)
    requires |a| <= 0x7fff || |b| <= 0x7fff
    requires 0 < i <= |a| && 0 < j <= |b| && Filled(dp, a, b, o, i, j)
    modifies dp
    ensures Filled(dp, a, b, o, i, j + 1)
  {
    LcsBound(a, b, o, i, j);
    var same := LinesEq(a[i - 1], b[j - 1], o);
    var v;
    if same {
      v := Load(dp, a, b, o, i, j, i - 1, j - 1);
      v := AsShort(v + 1);
    } else {
      var u := Load(dp, a, b, o, i, j, i - 1, j);
      var l := Load(dp, a, b, o, i, j, i, j - 1);
      v := if u > l then u else l;
    }
    Store(dp, v, a, b, o, i, j);
  }

  // calloc leaves row 0 and column 0 as the recurrence wants them.
  method NewTable(a: seq<Line>, b: seq<Line>, o: Options) returns (dp: array<int>)
    ensures Filled(dp, a, b, o, 1, 0) && fresh(dp)
  {
    var w := |b| + 1;
    dp := new int[(|a| + 1) * w](_ => 0);
    forall x: nat, y: nat | x <= |a| && y <= |b| && (x < 1 || y == 0)
      ensures Holds(dp, a, b, o, x, y)
    {
      CellInTable(x, y, |a|, w);
    }
  }

  lemma NextRow(dp: array<int>, a: seq<Line>, b: seq<Line>, o: Options, i: nat)
    requires i <= |a|
    ensures Filled(dp, a, b, o, i, 0) ==> Filled(dp, a, b, o, i, 1)
    ensures Filled(dp, a, b, o, i, |b| + 1) ==> Filled(dp, a, b, o, i + 1, 0)
  {
    hide Holds;
  }

  // read_lines stops at 4096 lines, far below the limit of a short.
  method FillTable(a: seq<Line>, b: seq<Line>, o: Options) returns (dp: array<int>)
    requires |a| <= 0x7fff || |b| <= 0x7fff
    ensures Filled(dp, a, b, o, |a| + 1, 0)
  {
    dp := NewTable(a, b, o);
    for i := 1 to |a| + 1
      invariant Filled(dp, a, b, o, i, 0)
    {
      NextRow(dp, a, b, o, i);
      for j := 1 to |b| + 1
        invariant Filled(dp, a, b, o, i, j)
      {
        ComputeCell(dp, a, b, o, i, j);
      }
      NextRow(dp, a, b, o, i);
    }
  }

  function Reversed(es: seq<Edit>): (r: seq<Edit>)
    ensures |r| == |es| && forall k | 0 <= k < |r| :: r[k] == es[|es| - 1 - k]
  {
    if es == [] then [] else Reversed(es[1..]) + [es[0]]
  }

  lemma {:induction false} ReversedPush(es: seq<Edit>, e: Edit)
    ensures Reversed(es + [e]) == [e] + Reversed(es)
  {
    var l, r := Reversed(es + [e]), [e] + Reversed(es);
    forall k | 0 <= k < |l| ensures l[k] == r[k] {
    }
  }

  // The operation that the traceback takes back from row i and column j.
  method TraceStep(dp: array<int>, a: seq<Line>, b: seq<Line>, o: Options, i: nat, j: nat)
    returns (e: Edit, i': nat, j': nat)
    requires Filled(dp, a, b, o, |a| + 1, 0) && i <= |a| && j <= |b| && i + j > 0
    ensures i' <= i && j' <= j && i' + j' < i + j
    ensures Trace(a, b, o, i, j) == Trace(a, b, o, i', j') + [e]
  {
    hide Lcs, Same, Filled;
    var same := false;
    if i > 0 && j > 0 {
      same := LinesEq(a[i - 1], b[j - 1], o);
    }
    if same {
      return Edit(EQ, i - 1, j - 1), i - 1, j - 1;
    }
    var add := j > 0 && i == 0;
    if j > 0 && i > 0 {
      var u := Load(dp, a, b, o, |a| + 1, 0, i - 1, j);
      var l := Load(dp, a, b, o, |a| + 1, 0, i, j - 1);
      add := u <= l;
    }
    if add {
      return Edit(ADD, -1, j - 1), i, j - 1;
    }
    return Edit(DEL, i - 1, -1), i - 1, j;
  }

  // The traceback, which writes the last operation first.
  method Traceback(dp: array<int>, a: seq<Line>, b: seq<Line>, o: Options, ops: array<Edit>) returns (nops: nat)
    requires Filled(dp, a, b, o, |a| + 1, 0) && ops.Length > |a| + |b|
    modifies ops
    ensures nops <= |a| + |b|
    ensures Reversed(ops[..nops]) == Trace(a, b, o, |a|, |b|)
  {
    var i, j := |a|, |b|;
    nops := 0;
    ghost var done: seq<Edit> := [];
    while i > 0 || j > 0
      invariant 0 <= i <= |a| && 0 <= j <= |b| && nops + i + j <= |a| + |b|
      invariant done == ops[..nops]
      invariant Trace(a, b, o, i, j) + Reversed(done) == Trace(a, b, o, |a|, |b|)
      decreases i + j
    {
      var e, i', j' := TraceStep(dp, a, b, o, i, j);
      ghost var t := Trace(a, b, o, i', j');
      assert (t + [e]) + Reversed(done) == t + ([e] + Reversed(done));
      ReversedPush(done, e);
      ops[nops] := e;
      nops, i, j, done := nops + 1, i', j', done + [e];
    }
    assert Trace(a, b, o, 0, 0) + Reversed(done) == Reversed(done);
  }

  method ReverseInPlace(ops: array<Edit>, nops: nat)
    requires nops <= ops.Length
    modifies ops
    ensures ops[..nops] == Reversed(old(ops[..nops]))
    ensures ops[nops..] == old(ops[nops..])
  {
    hide Reversed, Swapped;
    ghost var was := ops[..];
    NoneSwapped(was, nops);
    var k := 0;
    while k < nops / 2
      invariant 0 <= k <= nops / 2 && Swapped(was, ops[..], nops, k)
    {
      OneSwapMore(was, ops[..], nops, k);
      ops[k], ops[nops - 1 - k] := ops[nops - 1 - k], ops[k];
      k := k + 1;
    }
    AllSwapped(was, ops[..], nops);
  }

  // The k first and the k last of n entries are exchanged.
  ghost predicate Swapped(was: seq<Edit>, now: seq<Edit>, n: nat, k: nat) {
    && |now| == |was| && k <= n / 2 && n <= |was|
    && forall x | 0 <= x < |was| :: now[x] == was[if x < k || n - k <= x < n then n - 1 - x else x]
  }

  lemma NoneSwapped(was: seq<Edit>, n: nat)
    requires n <= |was|
    ensures Swapped(was, was, n, 0)
  {
  }

  lemma OneSwapMore(was: seq<Edit>, now: seq<Edit>, n: nat, k: nat)
    requires Swapped(was, now, n, k) && k < n / 2
    ensures Swapped(was, now[k := now[n - 1 - k]][n - 1 - k := now[k]], n, k + 1)
  {
  }

  lemma AllSwapped(was: seq<Edit>, now: seq<Edit>, n: nat)
    requires Swapped(was, now, n, n / 2)
    ensures now[..n] == Reversed(was[..n]) && now[n..] == was[n..]
  {
    ReversedIs(was[..n], now[..n]);
  }

  lemma ReversedIs(es: seq<Edit>, r: seq<Edit>)
    requires |r| == |es| && forall x | 0 <= x < |es| :: r[x] == es[|es| - 1 - x]
    ensures r == Reversed(es)
  {
  }

  /** The script of lcs_diff: the traceback of the table, whose validity and optimality
      DiffScript proves. */
  method LcsDiff(a: seq<Line>, b: seq<Line>, o: Options) returns (script: seq<Edit>)
    requires |a| <= 0x7fff || |b| <= 0x7fff
    ensures script == Trace(a, b, o, |a|, |b|)
    ensures Aligns(script, a, b, o, 0, 0) && Count(script, EQ) == Lcs(a, b, o, |a|, |b|)
  {
    var dp := FillTable(a, b, o);
    var ops := new Edit[|a| + |b| + 1](_ => Edit(EQ, 0, 0));
    var nops := Traceback(dp, a, b, o, ops);
    ReverseInPlace(ops, nops);
    script := ops[..nops];
    TraceIsOptimal(a, b, o);
    TraceKeepsLcs(a, b, o, |a|, |b|);
  }
}
