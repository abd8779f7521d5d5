/** The headers of a unified diff read as the format defines them: the range of no lines names the line
    that it stands behind. */
module DiffFormat {
  import opened Wrappers
  import opened DiffLines
  import opened DiffScript
  import opened DiffUnified

  // How many lines come before a range.
  function LinesBefore(start: int, count: int): int {
    if count == 0 then start else start - 1
  }

  /** The strict patch, with every header read by the format. */
  function FormatPatch(hs: seq<Hunk>, a: seq<Line>, pos: nat, out: nat): Option<seq<Line>>
    requires pos <= |a|
  {
    if hs == [] then Some(a[pos..]) else
    var h := hs[0];
    var at, to := LinesBefore(h.start1, h.count1), LinesBefore(h.start2, h.count2);
    if !(pos <= at && at + h.count1 <= |a|) || OldLines(h.body) != a[at..at + h.count1] then None
    else if to != out + (at - pos) || |NewLines(h.body)| != h.count2 then None
    else
      var rest :- FormatPatch(hs[1..], a, at + h.count1, to + h.count2);
      Some(a[pos..at] + NewLines(h.body) + rest)
  }

  // Hunks that show lines of each file that has any.
  ghost predicate Full(hs: seq<Hunk>, a: seq<Line>, b: seq<Line>) {
    forall h | h in hs :: (h.count1 == 0 ==> a == []) && (h.count2 == 0 ==> b == [])
  }

  lemma {:induction false} FullReadsAlike(hs: seq<Hunk>, a: seq<Line>, b: seq<Line>, pos: nat, out: nat)
    requires Full(hs, a, b) && a != [] && b != [] && pos <= |a|
    ensures FormatPatch(hs, a, pos, out) == Patch(hs, a, pos, out)
    decreases |hs|
  {
    hide OldLines, NewLines;
    if hs != [] {
      var h := hs[0];
      assert h in hs;
      if pos <= h.start1 - 1 && h.start1 - 1 + h.count1 <= |a| && h.start2 - 1 == out + (h.start1 - 1 - pos) {
        FullReadsAlike(hs[1..], a, b, h.start1 - 1 + h.count1, h.start2 - 1 + h.count2);
      }
    }
  }

  lemma {:induction false} HunksAreFull(es: seq<Edit>, a: seq<Line>, b: seq<Line>, o: Options, i: nat)
    requires Aligns(es, a, b, o, 0, 0) && i <= |es|
    requires i == 0 || i == |es| || !Near(es, i) || !Near(es, i - 1)
    ensures Full(Hunks(es, a, b, i), a, b)
    decreases |es| - i
  {
    if i == |es| {
    } else if !Near(es, i) {
      HunksAreFull(es, a, b, o, i + 1);
    } else {
      EmptyRange(es, a, b, o, i);
      HunksAreFull(es, a, b, o, RunEnd(es, i + 1));
    }
  }

  lemma NoHunks(a: seq<Line>)
    ensures Patch([], a, 0, 0) == Some(a)
  {
    assert a[0..] == a;
  }

  lemma FirstIsAccepted(hs: seq<Hunk>, a: seq<Line>) returns (rest: seq<Line>)
    requires hs != [] && Patch(hs, a, 0, 0).Some?
    ensures var h := hs[0]; var at := h.start1 - 1;
            && 0 <= at && at + h.count1 <= |a| && h.start2 == h.start1 && |NewLines(h.body)| == h.count2
            && Patch(hs, a, 0, 0).value == a[0..at] + NewLines(h.body) + rest
  {
    hide OldLines, NewLines;
    var h := hs[0];
    rest := Patch(hs[1..], a, h.start1 - 1 + h.count1, h.start2 - 1 + h.count2).value;
  }

  lemma FirstIsRefused(hs: seq<Hunk>, a: seq<Line>)
    requires hs != []
    requires var h := hs[0]; var at := LinesBefore(h.start1, h.count1);
             !(0 <= at && at + h.count1 <= |a|) || LinesBefore(h.start2, h.count2) != at
    ensures FormatPatch(hs, a, 0, 0) == None
  {
    hide OldLines, NewLines;
  }

  // A patch of an empty file, or one that leaves an empty file, begins with a range of no lines at 1.
  lemma EmptyIsRefused(hs: seq<Hunk>, a: seq<Line>, b: seq<Line>)
    requires Full(hs, a, b) && Patch(hs, a, 0, 0).Some? && |Patch(hs, a, 0, 0).value| == |b|
    requires a == [] <==> b != []
    ensures FormatPatch(hs, a, 0, 0) == None
  {
    hide Patch, FormatPatch, NewLines;
    NoHunks(a);
    var rest := FirstIsAccepted(hs, a);
    assert hs[0] in hs;
    FirstIsRefused(hs, a);
  }

  /** Read by the format, the hunks of a valid script patch just as before exactly if both files have
      lines or neither has; when one is empty, the code's range 1,0 stands behind a first line that is
      not there, and the patch is refused. */
  lemma FormatAgreesIff(es: seq<Edit>, a: seq<Line>, b: seq<Line>, o: Options)
    requires Aligns(es, a, b, o, 0, 0)
    ensures FormatPatch(Hunks(es, a, b, 0), a, 0, 0) == Patch(Hunks(es, a, b, 0), a, 0, 0) <==>
            (a == [] <==> b == [])
    ensures (a == [] <==> b != []) ==> FormatPatch(Hunks(es, a, b, 0), a, 0, 0) == None
  {
    hide Patch, FormatPatch, Full;
    PatchYieldsSecondFile(es, a, b, o);
    HunksAreFull(es, a, b, o, 0);
    if a != [] && b != [] {
      FullReadsAlike(Hunks(es, a, b, 0), a, b, 0, 0);
    } else if a != b {
      EmptyIsRefused(Hunks(es, a, b, 0), a, b);
    } else {
      NothingToRead(es, a, b, o);
    }
  }

  lemma NothingToRead(es: seq<Edit>, a: seq<Line>, b: seq<Line>, o: Options)
    requires Aligns(es, a, b, o, 0, 0) && a == b == []
    ensures FormatPatch(Hunks(es, a, b, 0), a, 0, 0) == Patch(Hunks(es, a, b, 0), a, 0, 0)
  {
    assert es == [];
  }
}
