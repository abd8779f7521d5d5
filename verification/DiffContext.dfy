/** How much context a unified diff shows, read off the hunks alone: three lines around every change, or
    as many as there are, and no more hunks than that takes. */
module DiffContext {
  import opened DiffLines
  import opened DiffScript
  import opened DiffUnified

  predicate Kept(l: (char, Line)) {
    l.0 == ' '
  }

  // How many kept lines a body begins and ends with.
  function Lead(body: seq<(char, Line)>): (r: nat)
    ensures r <= |body| && (forall x | 0 <= x < r :: Kept(body[x])) && (r < |body| ==> !Kept(body[r]))
  {
    if body == [] || !Kept(body[0]) then 0 else 1 + Lead(body[1..])
  }

  function Trail(body: seq<(char, Line)>): (r: nat)
    ensures r <= |body| && (forall x | |body| - r <= x < |body| :: Kept(body[x]))
    ensures r < |body| ==> !Kept(body[|body| - 1 - r])
  {
    if body == [] || !Kept(body[|body| - 1]) then 0 else 1 + Trail(body[..|body| - 1])
  }

  function Min(x: int, y: int): int {
    if x < y then x else y
  }

  // The lines of the first file between hunk k - 1 and hunk k, or between a hunk and the file's ends.
  function LeftOut(hs: seq<Hunk>, n: nat, k: nat): int
    requires k <= |hs|
  {
    var from := if k == 0 then 0 else hs[k - 1].start1 - 1 + hs[k - 1].count1;
    var to := if k == |hs| then n else hs[k].start1 - 1;
    to - from
  }

  // The kept lines in front of hunk k's first change, up to the change before it or the file's beginning.
  function KeptInFront(hs: seq<Hunk>, n: nat, k: nat): int
    requires k < |hs|
  {
    (if k == 0 then 0 else Trail(hs[k - 1].body)) + LeftOut(hs, n, k) + Lead(hs[k].body)
  }

  function KeptBehind(hs: seq<Hunk>, n: nat, k: nat): int
    requires k < |hs|
  {
    Trail(hs[k].body) + LeftOut(hs, n, k + 1) + (if k + 1 == |hs| then 0 else Lead(hs[k + 1].body))
  }

  // Two changes with only kept lines between them.
  ghost predicate Neighbours(body: seq<(char, Line)>, x: int, y: int) {
    0 <= x < y < |body| && !Kept(body[x]) && !Kept(body[y]) && forall z | x < z < y :: Kept(body[z])
  }

  /** Every hunk shows a change, and before its first and behind its last one the lesser of three and
      the number of kept lines there are. Between two changes of a hunk stand at most six kept lines, and
      between two hunks at least one line is left out; n is the length of the first file. */
  ghost predicate ThreeLinesAround(hs: seq<Hunk>, n: nat) {
    && (forall k | 0 <= k < |hs| ::
          && Lead(hs[k].body) < |hs[k].body|
          && Lead(hs[k].body) == Min(3, KeptInFront(hs, n, k))
          && Trail(hs[k].body) == Min(3, KeptBehind(hs, n, k)))
    && (forall k, x, y | 0 <= k < |hs| && Neighbours(hs[k].body, x, y) :: y - x - 1 <= 6)
    && (forall k | 0 < k < |hs| :: LeftOut(hs, n, k) >= 1)
  }

  // ----- The runs of operations -----

  // Where each hunk's operations begin and end.
  function Runs(es: seq<Edit>, i: nat): seq<(nat, nat)>
    requires i <= |es|
    decreases |es| - i
  {
    if i == |es| then []
    else if !Near(es, i) then Runs(es, i + 1)
    else [(i, RunEnd(es, i + 1))] + Runs(es, RunEnd(es, i + 1))
  }

  ghost predicate NoneNear(es: seq<Edit>, from: nat, to: nat) {
    forall x | from <= x < to :: !Near(es, x)
  }

  ghost predicate IsRun(es: seq<Edit>, r: (nat, nat)) {
    RunStart(es, r.0) && r.1 == RunEnd(es, r.0 + 1)
  }

  function GapFrom(runs: seq<(nat, nat)>, i: nat, k: nat): nat
    requires k <= |runs|
  {
    if k == 0 then i else runs[k - 1].1
  }

  function GapTo(es: seq<Edit>, runs: seq<(nat, nat)>, k: nat): nat
    requires k <= |runs|
  {
    if k == |runs| then |es| else runs[k].0
  }

  ghost predicate Hunked(es: seq<Edit>, a: seq<Line>, b: seq<Line>, h: Hunk, r: (nat, nat)) {
    IsRun(es, r) && h == HunkOf(es[r.0..r.1], a, b)
  }

  ghost predicate GapIs(es: seq<Edit>, runs: seq<(nat, nat)>, i: nat, k: nat)
    requires k <= |runs|
  {
    GapFrom(runs, i, k) <= GapTo(es, runs, k) && NoneNear(es, GapFrom(runs, i, k), GapTo(es, runs, k))
  }

  lemma {:induction false} RunsAreHunks(es: seq<Edit>, a: seq<Line>, b: seq<Line>, i: nat)
    requires i <= |es| && (i == 0 || i == |es| || !Near(es, i) || !Near(es, i - 1))
    ensures |Runs(es, i)| == |Hunks(es, a, b, i)|
    ensures forall k | 0 <= k < |Runs(es, i)| :: Hunked(es, a, b, Hunks(es, a, b, i)[k], Runs(es, i)[k])
    decreases |es| - i
  {
    hide HunkOf, Near, Hunked;
    if i == |es| {
    } else if !Near(es, i) {
      RunsAreHunks(es, a, b, i + 1);
    } else {
      RunsAreHunks(es, a, b, RunEnd(es, i + 1));
      FirstHunked(es, a, b, i);
    }
  }

  lemma FirstHunked(es: seq<Edit>, a: seq<Line>, b: seq<Line>, i: nat)
    requires RunStart(es, i)
    ensures Hunked(es, a, b, HunkOf(es[i..RunEnd(es, i + 1)], a, b), (i, RunEnd(es, i + 1)))
  {
    hide HunkOf, Near;
  }

  lemma {:induction false} GapsAre(es: seq<Edit>, i: nat)
    requires i <= |es|
    ensures forall k | 0 <= k <= |Runs(es, i)| :: GapIs(es, Runs(es, i), i, k)
    decreases |es| - i
  {
    hide Near, GapIs;
    if i == |es| {
      NoGap(es, i);
    } else if !Near(es, i) {
      GapsAre(es, i + 1);
      LongerGaps(es, Runs(es, i + 1), i, i + 1);
      assert Runs(es, i) == Runs(es, i + 1);
    } else {
      var he := RunEnd(es, i + 1);
      GapsAre(es, he);
      OneGapMore(es, Runs(es, he), i, he);
    }
  }

  lemma NoGap(es: seq<Edit>, i: nat)
    requires i == |es|
    ensures GapIs(es, [], i, 0)
  {
  }

  lemma LongerGaps(es: seq<Edit>, runs: seq<(nat, nat)>, i: nat, next: nat)
    requires !Near(es, i) && next == i + 1 && forall k | 0 <= k <= |runs| :: GapIs(es, runs, next, k)
    ensures forall k | 0 <= k <= |runs| :: GapIs(es, runs, i, k)
  {
    hide Near;
    forall k | 0 <= k <= |runs| ensures GapIs(es, runs, i, k) {
      assert GapIs(es, runs, next, k);
    }
  }

  lemma OneGapMore(es: seq<Edit>, rest: seq<(nat, nat)>, i: nat, he: nat)
    requires forall k | 0 <= k <= |rest| :: GapIs(es, rest, he, k)
    ensures forall k | 0 <= k <= |rest| + 1 :: GapIs(es, [(i, he)] + rest, i, k)
  {
    hide Near;
    forall k | 0 <= k <= |rest| + 1 ensures GapIs(es, [(i, he)] + rest, i, k) {
      if k > 0 {
        assert GapIs(es, rest, he, k - 1);
      }
    }
  }

  // ----- The context of one run -----

  lemma BodyIs(es: seq<Edit>, a: seq<Line>, b: seq<Line>, i: nat, he: nat)
    requires i <= he <= |es|
    ensures var body := HunkOf(es[i..he], a, b).body;
            |body| == he - i && forall x | 0 <= x < |body| :: Kept(body[x]) <==> es[i + x].op == EQ
  {
  }

  lemma RunHasChange(es: seq<Edit>, r: (nat, nat), c: nat, x: nat)
    requires IsRun(es, r) && c < |es| && es[c].op != EQ && r.0 <= x < r.1 && x - 3 <= c <= x + 3
    ensures r.0 <= c < r.1
  {
    if r.0 > 0 { assert !Near(es, r.0 - 1); }
    if r.1 < |es| { assert !Near(es, r.1); }
  }

  // A run has changes within three operations of both ends.
  lemma FirstChange(es: seq<Edit>, r: (nat, nat)) returns (c: nat)
    requires IsRun(es, r)
    ensures r.0 <= c < r.1 <= |es| && c <= r.0 + 3 && es[c].op != EQ
    ensures r.0 > 0 ==> forall x | r.0 <= x < r.0 + 3 && x < |es| :: es[x].op == EQ
  {
    assert Near(es, r.0);
    c :| 0 <= c < |es| && es[c].op != EQ && r.0 - 3 <= c <= r.0 + 3;
    RunHasChange(es, r, c, r.0);
    if r.0 > 0 { NoneAround(es, r.0 - 1); }
  }

  lemma LastChange(es: seq<Edit>, r: (nat, nat)) returns (c: nat)
    requires IsRun(es, r)
    ensures r.0 <= c < r.1 <= |es| && c >= r.1 - 4 && es[c].op != EQ
    ensures r.1 < |es| ==> forall x | 0 <= x < r.1 && x >= r.1 - 3 :: es[x].op == EQ
  {
    assert Near(es, r.1 - 1);
    c :| 0 <= c < |es| && es[c].op != EQ && r.1 - 1 - 3 <= c <= r.1 - 1 + 3;
    RunHasChange(es, r, c, r.1 - 1);
    if r.1 < |es| { NoneAround(es, r.1); }
  }

  lemma LeadIs(es: seq<Edit>, a: seq<Line>, b: seq<Line>, r: (nat, nat))
    requires IsRun(es, r)
    ensures var body := HunkOf(es[r.0..r.1], a, b).body;
            Lead(body) < |body| && Lead(body) <= 3 && (r.0 > 0 ==> Lead(body) == 3)
  {
    hide HunkOf, Near, Lead, IsRun;
    var c := FirstChange(es, r);
    BodyIs(es, a, b, r.0, r.1);
    var body := HunkOf(es[r.0..r.1], a, b).body;
    assert !Kept(body[c - r.0]);
  }

  lemma NoneAround(es: seq<Edit>, x: nat)
    requires !Near(es, x)
    ensures forall c | 0 <= c < |es| && x - 3 <= c <= x + 3 :: es[c].op == EQ
  {
  }

  lemma TrailIs(es: seq<Edit>, a: seq<Line>, b: seq<Line>, r: (nat, nat))
    requires IsRun(es, r)
    ensures var body := HunkOf(es[r.0..r.1], a, b).body;
            Trail(body) < |body| && Trail(body) <= 3 && (r.1 < |es| ==> Trail(body) == 3)
  {
    hide HunkOf, Near, Trail, IsRun;
    var c := LastChange(es, r);
    BodyIs(es, a, b, r.0, r.1);
    var body := HunkOf(es[r.0..r.1], a, b).body;
    assert !Kept(body[c - r.0]);
  }

  lemma InsideIs(es: seq<Edit>, a: seq<Line>, b: seq<Line>, r: (nat, nat), x: int, y: int)
    requires IsRun(es, r) && Neighbours(HunkOf(es[r.0..r.1], a, b).body, x, y)
    ensures y - x - 1 <= 6
  {
    var body := HunkOf(es[r.0..r.1], a, b).body;
    BodyIs(es, a, b, r.0, r.1);
    hide HunkOf, Near;
    forall z | r.0 + x < z < r.0 + y ensures es[z].op == EQ {
      assert Kept(body[z - r.0]);
    }
    WideGap(es, r.0 + x, r.0 + y);
  }

  lemma WideGap(es: seq<Edit>, p: nat, q: nat)
    requires p < q <= |es| && forall z | p < z < q :: es[z].op == EQ
    ensures q - p - 1 > 6 ==> !Near(es, p + 4)
  {
  }

  // ----- All hunks -----

  // What the headers leave out between two hunks is what the script keeps between their runs.
  lemma LeftOutIs(es: seq<Edit>, a: seq<Line>, b: seq<Line>, o: Options, k: nat)
    requires Aligns(es, a, b, o, 0, 0) && k <= |Hunks(es, a, b, 0)|
    ensures |Runs(es, 0)| == |Hunks(es, a, b, 0)|
    ensures LeftOut(Hunks(es, a, b, 0), |a|, k) == GapTo(es, Runs(es, 0), k) - GapFrom(Runs(es, 0), 0, k)
  {
    hide Near, HunkOf, Old, New, Count, Aligns, Runs, Hunks, OldLines, NewLines;
    var hs, runs := Hunks(es, a, b, 0), Runs(es, 0);
    RunsAreHunks(es, a, b, 0);
    GapsAre(es, 0);
    var from, to := GapFrom(runs, 0, k), GapTo(es, runs, k);
    assert GapIs(es, runs, 0, k);
    if k > 0 {
      assert Hunked(es, a, b, hs[k - 1], runs[k - 1]);
      HeaderIsExact(es, a, b, o, runs[k - 1].0);
    } else {
      WalkedNone(es, a);
    }
    if k < |runs| {
      assert Hunked(es, a, b, hs[k], runs[k]);
      HeaderIsExact(es, a, b, o, runs[k].0);
    } else {
      WalkedAll(es, a, b, o);
    }
    Gap(es, a, b, o, from, to);
    GapLength(es, a, b, from, to);
  }

  lemma WalkedNone(es: seq<Edit>, a: seq<Line>)
    ensures Walked1(es, a, 0) == 0
  {
    assert es[..0] == [];
  }

  lemma WalkedAll(es: seq<Edit>, a: seq<Line>, b: seq<Line>, o: Options)
    requires Aligns(es, a, b, o, 0, 0)
    ensures Walked1(es, a, |es|) == |a|
  {
    WholeOld(es, a, b, o, 0, 0);
    assert es[..|es|] == es;
  }

  lemma GapLength(es: seq<Edit>, a: seq<Line>, b: seq<Line>, from: nat, to: nat)
    requires from <= to <= |es| && NoneNear(es, from, to)
    ensures |New(es[from..to], a, b)| == to - from
  {
    GapIsKept(es, from, to);
    KeptCount(es[from..to], a, b);
  }

  lemma {:induction false} KeptCount(es: seq<Edit>, a: seq<Line>, b: seq<Line>)
    requires forall e | e in es :: e.op == EQ
    ensures |New(es, a, b)| == |es|
    decreases |es|
  {
    if es != [] {
      KeptCount(es[1..], a, b);
    }
  }

  lemma ContextIsThreeLines(es: seq<Edit>, a: seq<Line>, b: seq<Line>, o: Options)
    requires Aligns(es, a, b, o, 0, 0)
    ensures ThreeLinesAround(Hunks(es, a, b, 0), |a|)
  {
    hide Near, HunkOf, Aligns, Runs, Hunks, Lead, Trail, Neighbours, KeptInFront, KeptBehind, LeftOut, Min;
    var hs := Hunks(es, a, b, 0);
    forall k, x, y | 0 <= k < |hs| && Neighbours(hs[k].body, x, y) ensures y - x - 1 <= 6 {
      var r := RunOf(es, a, b, k);
      InsideIs(es, a, b, r, x, y);
    }
    forall k | 0 <= k < |hs|
      ensures Lead(hs[k].body) < |hs[k].body|
      ensures Lead(hs[k].body) == Min(3, KeptInFront(hs, |a|, k))
      ensures Trail(hs[k].body) == Min(3, KeptBehind(hs, |a|, k))
      ensures k > 0 ==> LeftOut(hs, |a|, k) >= 1
    {
      HunkContext(es, a, b, o, k);
    }
  }

  lemma RunOf(es: seq<Edit>, a: seq<Line>, b: seq<Line>, k: nat) returns (r: (nat, nat))
    requires k < |Hunks(es, a, b, 0)|
    ensures |Runs(es, 0)| == |Hunks(es, a, b, 0)| && r == Runs(es, 0)[k]
    ensures Hunked(es, a, b, Hunks(es, a, b, 0)[k], r)
  {
    hide Hunked, Runs, Hunks, Near;
    RunsAreHunks(es, a, b, 0);
    r := Runs(es, 0)[k];
  }

  // Where run k lies, and that its hunk has at most three lines of context, exactly three inside the script.
  lemma RunContext(es: seq<Edit>, a: seq<Line>, b: seq<Line>, k: nat)
    requires k < |Hunks(es, a, b, 0)|
    ensures |Runs(es, 0)| == |Hunks(es, a, b, 0)|
    ensures var body, r := Hunks(es, a, b, 0)[k].body, Runs(es, 0)[k];
            && r.0 < r.1 <= |es| && Near(es, r.0) && (r.1 < |es| ==> !Near(es, r.1))
            && Lead(body) < |body| && Lead(body) <= 3 && (r.0 > 0 ==> Lead(body) == 3)
            && Trail(body) <= 3 && (r.1 < |es| ==> Trail(body) == 3)
  {
    hide Near, HunkOf, Runs, Hunks, Lead, Trail;
    var r := RunOf(es, a, b, k);
    LeadIs(es, a, b, r);
    TrailIs(es, a, b, r);
  }

  lemma HunkContext(es: seq<Edit>, a: seq<Line>, b: seq<Line>, o: Options, k: nat)
    requires Aligns(es, a, b, o, 0, 0) && k < |Hunks(es, a, b, 0)|
    ensures var hs := Hunks(es, a, b, 0);
            && Lead(hs[k].body) < |hs[k].body|
            && Lead(hs[k].body) == Min(3, KeptInFront(hs, |a|, k))
            && Trail(hs[k].body) == Min(3, KeptBehind(hs, |a|, k))
            && (k > 0 ==> LeftOut(hs, |a|, k) >= 1)
  {
    hide Near, Aligns, Runs, Hunks, Lead, Trail, LeftOut, NoneNear;
    var hs, runs := Hunks(es, a, b, 0), Runs(es, 0);
    RunContext(es, a, b, k);
    LeftOutIs(es, a, b, o, k);
    LeftOutIs(es, a, b, o, k + 1);
    GapsAre(es, 0);
    assert GapIs(es, runs, 0, k) && GapIs(es, runs, 0, k + 1);
    if k > 0 { RunContext(es, a, b, k - 1); }
    if k + 1 < |hs| { RunContext(es, a, b, k + 1); }
  }
}
