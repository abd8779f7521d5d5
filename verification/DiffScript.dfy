/** Edit scripts: what makes one valid for two files, and how good one can be. */
module DiffScript {
  import opened DiffLines

  datatype Op = EQ | DEL | ADD

  // As in the source, the position that an operation does not use is -1.
  datatype Edit = Edit(op: Op, l1: int, l2: int)

  /** es walks a from line i and b from line j to their ends, each line exactly once and in order,
      and keeps only lines that are the same. */
  ghost predicate Aligns(es: seq<Edit>, a: seq<Line>, b: seq<Line>, o: Options, i: nat, j: nat) {
    if es == [] then i == |a| && j == |b| else
    match es[0]
    case Edit(EQ, l1, l2) =>
      l1 == i < |a| && l2 == j < |b| && Same(a[i], b[j], o) && Aligns(es[1..], a, b, o, i + 1, j + 1)
    case Edit(DEL, l1, l2) => l1 == i < |a| && l2 == -1 && Aligns(es[1..], a, b, o, i + 1, j)
    case Edit(ADD, l1, l2) => l1 == -1 && l2 == j < |b| && Aligns(es[1..], a, b, o, i, j + 1)
  }

  function Count(es: seq<Edit>, op: Op): nat {
    if es == [] then 0 else (if es[0].op == op then 1 else 0) + Count(es[1..], op)
  }

  // The pairs of lines that a script keeps.
  function Kept(es: seq<Edit>): seq<(int, int)> {
    if es == [] then []
    else (if es[0].op == EQ then [(es[0].l1, es[0].l2)] else []) + Kept(es[1..])
  }

  // A common subsequence, as strictly increasing positions in both files.
  ghost predicate Common(ps: seq<(int, int)>, a: seq<Line>, b: seq<Line>, o: Options) {
    && (forall k | 0 <= k < |ps| :: 0 <= ps[k].0 < |a| && 0 <= ps[k].1 < |b| && Same(a[ps[k].0], b[ps[k].1], o))
    && (forall k | 0 <= k < |ps| - 1 :: ps[k].0 < ps[k + 1].0 && ps[k].1 < ps[k + 1].1)
  }

  lemma CommonAfter(p: (int, int), ps: seq<(int, int)>, a: seq<Line>, b: seq<Line>, o: Options)
    requires Common(ps, a, b, o)
    requires 0 <= p.0 < |a| && 0 <= p.1 < |b| && Same(a[p.0], b[p.1], o)
    requires ps != [] ==> p.0 < ps[0].0 && p.1 < ps[0].1
    ensures Common([p] + ps, a, b, o)
  {
    var qs := [p] + ps;
    forall k | 0 <= k < |qs|
      ensures 0 <= qs[k].0 < |a| && 0 <= qs[k].1 < |b| && Same(a[qs[k].0], b[qs[k].1], o)
    {
      assert k > 0 ==> qs[k] == ps[k - 1];
    }
    forall k | 0 <= k < |qs| - 1
      ensures qs[k].0 < qs[k + 1].0 && qs[k].1 < qs[k + 1].1
    {
      assert qs[k + 1] == ps[k] && (k > 0 ==> qs[k] == ps[k - 1]);
    }
  }

  lemma CommonPrefix(ps: seq<(int, int)>, n: nat, a: seq<Line>, b: seq<Line>, o: Options)
    requires Common(ps, a, b, o) && n <= |ps|
    ensures Common(ps[..n], a, b, o) && Common([], a, b, o)
  {
  }

  // What a script keeps is a common subsequence.
  lemma {:induction false} KeptIsCommon(es: seq<Edit>, a: seq<Line>, b: seq<Line>, o: Options, i: nat, j: nat)
    requires Aligns(es, a, b, o, i, j)
    ensures Common(Kept(es), a, b, o) && |Kept(es)| == Count(es, EQ)
    ensures Kept(es) != [] ==> i <= Kept(es)[0].0 && j <= Kept(es)[0].1
    decreases |es|
  {
    if es != [] {
      hide Common, Same;
      var i' := if es[0].op == ADD then i else i + 1;
      var j' := if es[0].op == DEL then j else j + 1;
      KeptIsCommon(es[1..], a, b, o, i', j');
      if es[0].op == EQ {
        CommonAfter((i, j), Kept(es[1..]), a, b, o);
      } else {
        assert Kept(es) == Kept(es[1..]);
      }
    }
  }

  // Every script deletes or keeps each line of a and adds or keeps each line of b.
  lemma {:induction false} Totals(es: seq<Edit>, a: seq<Line>, b: seq<Line>, o: Options, i: nat, j: nat)
    requires Aligns(es, a, b, o, i, j)
    ensures Count(es, EQ) + Count(es, DEL) == |a| - i
    ensures Count(es, EQ) + Count(es, ADD) == |b| - j
    decreases |es|
  {
    if es != [] {
      var i' := if es[0].op == ADD then i else i + 1;
      var j' := if es[0].op == DEL then j else j + 1;
      Totals(es[1..], a, b, o, i', j');
    }
  }

  // ----- The longest common subsequence of prefixes -----

  function Lcs(a: seq<Line>, b: seq<Line>, o: Options, i: nat, j: nat): nat
    requires i <= |a| && j <= |b|
  {
    if i == 0 || j == 0 then 0
    else if Same(a[i - 1], b[j - 1], o) then Lcs(a, b, o, i - 1, j - 1) + 1
    else
      var u := Lcs(a, b, o, i - 1, j);
      var l := Lcs(a, b, o, i, j - 1);
      if u > l then u else l
  }

  // One more line on one side adds at most one, and never takes away.
  lemma {:induction false} LcsSteps(a: seq<Line>, b: seq<Line>, o: Options, i: nat, j: nat)
    requires i <= |a| && j <= |b|
    ensures i > 0 ==> Lcs(a, b, o, i - 1, j) <= Lcs(a, b, o, i, j) <= Lcs(a, b, o, i - 1, j) + 1
    ensures j > 0 ==> Lcs(a, b, o, i, j - 1) <= Lcs(a, b, o, i, j) <= Lcs(a, b, o, i, j - 1) + 1
    decreases i + j
  {
    if i > 0 && j > 0 {
      LcsSteps(a, b, o, i - 1, j);
      LcsSteps(a, b, o, i, j - 1);
      LcsSteps(a, b, o, i - 1, j - 1);
    }
  }

  lemma {:induction false} LcsGrows(a: seq<Line>, b: seq<Line>, o: Options, i: nat, j: nat, i': nat, j': nat)
    requires i <= i' <= |a| && j <= j' <= |b|
    ensures Lcs(a, b, o, i, j) <= Lcs(a, b, o, i', j')
    decreases i' + j'
  {
    if i < i' {
      LcsGrows(a, b, o, i, j, i' - 1, j');
      LcsSteps(a, b, o, i', j');
    } else if j < j' {
      LcsGrows(a, b, o, i, j, i', j' - 1);
      LcsSteps(a, b, o, i', j');
    }
  }

  lemma {:induction false} LcsBound(a: seq<Line>, b: seq<Line>, o: Options, i: nat, j: nat)
    requires i <= |a| && j <= |b|
    ensures Lcs(a, b, o, i, j) <= i && Lcs(a, b, o, i, j) <= j
    decreases i + j
  {
    if i > 0 && j > 0 {
      LcsBound(a, b, o, i - 1, j - 1);
      LcsBound(a, b, o, i - 1, j);
      LcsBound(a, b, o, i, j - 1);
    }
  }

  /** No common subsequence whatsoever is longer than the recurrence says. */
  lemma {:induction false} CommonIsBounded(ps: seq<(int, int)>, a: seq<Line>, b: seq<Line>, o: Options)
    requires Common(ps, a, b, o)
    ensures ps == [] || |ps| <= Lcs(a, b, o, ps[|ps| - 1].0 + 1, ps[|ps| - 1].1 + 1)
    ensures |ps| <= Lcs(a, b, o, |a|, |b|)
    decreases |ps|
  {
    if ps != [] {
      var n := |ps| - 1;
      CommonPrefix(ps, n, a, b, o);
      assert n > 0 ==> ps[n - 1].0 < ps[n].0 && ps[n - 1].1 < ps[n].1;
      assert 0 <= ps[n].0 < |a| && 0 <= ps[n].1 < |b| && Same(a[ps[n].0], b[ps[n].1], o);
      hide Common, Same;
      CommonIsBounded(ps[..n], a, b, o);
      assert n > 0 ==> ps[..n][n - 1] == ps[n - 1];
      if n > 0 {
        LcsGrows(a, b, o, ps[n - 1].0 + 1, ps[n - 1].1 + 1, ps[n].0, ps[n].1);
      }
      LcsGrows(a, b, o, ps[n].0 + 1, ps[n].1 + 1, |a|, |b|);
    }
  }

  // ----- The script that the traceback reads off the table -----

  // Ties go to an addition, which the reversed order puts last.
  function Trace(a: seq<Line>, b: seq<Line>, o: Options, i: nat, j: nat): seq<Edit>
    requires i <= |a| && j <= |b|
    decreases i + j
  {
    if i == 0 && j == 0 then []
    else if i > 0 && j > 0 && Same(a[i - 1], b[j - 1], o) then
      Trace(a, b, o, i - 1, j - 1) + [Edit(EQ, i - 1, j - 1)]
    else if j > 0 && (i == 0 || Lcs(a, b, o, i - 1, j) <= Lcs(a, b, o, i, j - 1)) then
      Trace(a, b, o, i, j - 1) + [Edit(ADD, -1, j - 1)]
    else
      Trace(a, b, o, i - 1, j) + [Edit(DEL, i - 1, -1)]
  }

  lemma {:induction false} CountOfJoin(es: seq<Edit>, fs: seq<Edit>, op: Op)
    ensures Count(es + fs, op) == Count(es, op) + Count(fs, op)
    decreases |es|
  {
    if es == [] {
      assert es + fs == fs;
    } else {
      assert (es + fs)[1..] == es[1..] + fs;
      CountOfJoin(es[1..], fs, op);
    }
  }

  lemma {:induction false} TraceAlignsWith(a: seq<Line>, b: seq<Line>, o: Options, i: nat, j: nat, rest: seq<Edit>)
    requires i <= |a| && j <= |b| && Aligns(rest, a, b, o, i, j)
    ensures Aligns(Trace(a, b, o, i, j) + rest, a, b, o, 0, 0)
    decreases i + j
  {
    if i == 0 && j == 0 {
      assert Trace(a, b, o, i, j) + rest == rest;
    } else {
      var t := Trace(a, b, o, i, j);
      var e := t[|t| - 1];
      var i' := if e.op == ADD then i else i - 1;
      var j' := if e.op == DEL then j else j - 1;
      assert t + rest == Trace(a, b, o, i', j') + ([e] + rest);
      assert ([e] + rest)[1..] == rest;
      TraceAlignsWith(a, b, o, i', j', [e] + rest);
    }
  }

  lemma {:induction false} TraceKeepsLcs(a: seq<Line>, b: seq<Line>, o: Options, i: nat, j: nat)
    requires i <= |a| && j <= |b|
    ensures Count(Trace(a, b, o, i, j), EQ) == Lcs(a, b, o, i, j)
    decreases i + j
  {
    if i > 0 || j > 0 {
      var t := Trace(a, b, o, i, j);
      var e := t[|t| - 1];
      var i' := if e.op == ADD then i else i - 1;
      var j' := if e.op == DEL then j else j - 1;
      TraceKeepsLcs(a, b, o, i', j');
      CountOfJoin(Trace(a, b, o, i', j'), [e], EQ);
    }
  }

  /** The script is valid, keeps a longest common subsequence, and no valid script has fewer
      deletions plus additions. */
  lemma TraceIsOptimal(a: seq<Line>, b: seq<Line>, o: Options)
    ensures var t := Trace(a, b, o, |a|, |b|);
            && Aligns(t, a, b, o, 0, 0)
            && Common(Kept(t), a, b, o)
            && (forall ps | Common(ps, a, b, o) :: |ps| <= |Kept(t)|)
            && (forall es | Aligns(es, a, b, o, 0, 0) ::
                  Count(t, DEL) + Count(t, ADD) <= Count(es, DEL) + Count(es, ADD))
  {
    var t := Trace(a, b, o, |a|, |b|);
    TraceAlignsWith(a, b, o, |a|, |b|, []);
    assert t + [] == t;
    TraceKeepsLcs(a, b, o, |a|, |b|);
    KeptIsCommon(t, a, b, o, 0, 0);
    Totals(t, a, b, o, 0, 0);
    forall ps | Common(ps, a, b, o) ensures |ps| <= |Kept(t)| {
      CommonIsBounded(ps, a, b, o);
    }
    forall es | Aligns(es, a, b, o, 0, 0)
      ensures Count(t, DEL) + Count(t, ADD) <= Count(es, DEL) + Count(es, ADD)
    {
      KeptIsCommon(es, a, b, o, 0, 0);
      CommonIsBounded(Kept(es), a, b, o);
      Totals(es, a, b, o, 0, 0);
    }
  }

  ghost predicate DeletionsFirst(t: seq<Edit>) {
    forall k | 0 < k < |t| && t[k].op == DEL :: t[k - 1].op != ADD
  }

  lemma DeletionsFirstPush(t: seq<Edit>, e: Edit)
    requires DeletionsFirst(t)
    requires t != [] && e.op == DEL ==> t[|t| - 1].op != ADD
    ensures DeletionsFirst(t + [e])
  {
    var u := t + [e];
    forall k | 0 < k < |u| && u[k].op == DEL ensures u[k - 1].op != ADD {
      assert u[k - 1] == t[k - 1];
      assert k < |t| ==> u[k] == t[k];
    }
  }

  lemma LastAddition(a: seq<Line>, b: seq<Line>, o: Options, i: nat, j: nat)
    requires i <= |a| && j <= |b|
    ensures var t := Trace(a, b, o, i, j);
            t != [] && t[|t| - 1].op == ADD ==> j > 0 && Lcs(a, b, o, i, j) == Lcs(a, b, o, i, j - 1)
  {
  }

  /** Between two kept lines all deletions come before all additions, as the printing of a change
      needs: an addition is never directly followed by a deletion. */
  lemma {:induction false} DeletionsComeFirst(a: seq<Line>, b: seq<Line>, o: Options, i: nat, j: nat)
    requires i <= |a| && j <= |b|
    ensures DeletionsFirst(Trace(a, b, o, i, j))
    decreases i + j
  {
    if i > 0 || j > 0 {
      var t := Trace(a, b, o, i, j);
      var e := t[|t| - 1];
      var i' := if e.op == ADD then i else i - 1;
      var j' := if e.op == DEL then j else j - 1;
      DeletionsComeFirst(a, b, o, i', j');
      LastAddition(a, b, o, i', j');
      if e.op == DEL && j > 0 {
        LcsSteps(a, b, o, i, j - 1);
      }
      DeletionsFirstPush(Trace(a, b, o, i', j'), e);
    }
  }
}
