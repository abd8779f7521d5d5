/** The core of diff_run: compare, decide whether the files differ, and print a unified diff. */
module DiffRun {
  import opened DiffLines
  import opened DiffScript
  import opened DiffLcs
  import opened DiffUnified
  import opened DiffContext

  lemma {:induction false} AlignsIsNumbered(es: seq<Edit>, a: seq<Line>, b: seq<Line>, o: Options, i: nat, j: nat)
    requires Aligns(es, a, b, o, i, j)
    ensures Numbered(es)
    decreases |es|
  {
    if es != [] {
      AlignsIsNumbered(es[1..], a, b, o, if es[0].op == ADD then i else i + 1, if es[0].op == DEL then j else j + 1);
      forall k | 0 <= k < |es| ensures (es[k].op != ADD ==> es[k].l1 >= 0) && (es[k].op != DEL ==> es[k].l2 >= 0) {
        if k > 0 { assert es[k] == es[1..][k - 1]; }
      }
    }
  }

  lemma {:induction false} AllKept(es: seq<Edit>)
    ensures Count(es, EQ) + Count(es, DEL) + Count(es, ADD) == |es|
    ensures Count(es, EQ) == |es| <==> forall k | 0 <= k < |es| :: es[k].op == EQ
    decreases |es|
  {
    if es != [] {
      AllKept(es[1..]);
      if Count(es, EQ) == |es| {
        forall k | 0 <= k < |es| ensures es[k].op == EQ {
          if k > 0 { assert es[k] == es[1..][k - 1]; }
        }
      }
    }
  }

  // Files that are the same keep every line, as pairing each line with itself shows.
  lemma SameKeepsAll(a: seq<Line>, b: seq<Line>, o: Options)
    requires SameLines(a, b, o)
    ensures Lcs(a, b, o, |a|, |b|) >= |a|
  {
    var ps := seq(|a|, k requires 0 <= k < |a| => (k, k));
    assert Common(ps, a, b, o);
    CommonIsBounded(ps, a, b, o);
  }

  lemma KeepAllIsSame(es: seq<Edit>, a: seq<Line>, b: seq<Line>, o: Options)
    requires Aligns(es, a, b, o, 0, 0) && forall k | 0 <= k < |es| :: es[k].op == EQ
    ensures SameLines(a, b, o)
  {
    KeptGap(es, a, b);
    WholeOld(es, a, b, o, 0, 0);
    WholeNew(es, a, b, o, 0, 0);
    assert a[0..] == a && b[0..] == b;
  }

  /** The optimal script changes nothing iff the files are the same line by line. */
  lemma UnchangedIffSame(a: seq<Line>, b: seq<Line>, o: Options, t: seq<Edit>)
    requires Aligns(t, a, b, o, 0, 0) && Count(t, EQ) == Lcs(a, b, o, |a|, |b|)
    ensures (forall k | 0 <= k < |t| :: t[k].op == EQ) <==> SameLines(a, b, o)
  {
    AllKept(t);
    Totals(t, a, b, o, 0, 0);
    if SameLines(a, b, o) {
      SameKeepsAll(a, b, o);
    }
    if forall k | 0 <= k < |t| :: t[k].op == EQ {
      KeepAllIsSame(t, a, b, o);
    }
  }

  lemma NoHunksNoContext(n: nat)
    ensures ThreeLinesAround([], n)
  {
  }

  /** The exit status is 1 iff the files differ, and then the hunks turn a into b. */
  method UnifiedDiff(a: seq<Line>, b: seq<Line>, o: Options) returns (status: int, hunks: seq<Hunk>)
    requires |a| <= 0x7fff || |b| <= 0x7fff
    ensures status == if SameLines(a, b, o) then 0 else 1
    ensures status == 0 ==> hunks == []
    ensures ThreeLinesAround(hunks, |a|)
    ensures status == 1 ==> var r := Patch(hunks, a, 0, 0);
                            && r.Some? && SameLines(r.value, b, o)
                            && (!o.ignoreCase && !o.ignoreSpace ==> r.value == b)
  {
    var script := LcsDiff(a, b, o);
    UnchangedIffSame(a, b, o, script);
    var differ := false;
    var k := 0;
    while k < |script| && !differ
      invariant k <= |script|
      invariant !differ ==> forall x | 0 <= x < k :: script[x].op == EQ
      invariant differ ==> !SameLines(a, b, o)
    {
      if script[k].op != EQ { differ := true; }
      k := k + 1;
    }
    hide ThreeLinesAround;
    if !differ {
      NoHunksNoContext(|a|);
      return 0, [];
    }
    ContextIsThreeLines(script, a, b, o);
    AlignsIsNumbered(script, a, b, o, 0, 0);
    hunks := EmitUnified(script, a, b);
    PatchYieldsSecondFile(script, a, b, o);
    return 1, hunks;
  }
}
