/** emit_unified: which operations belong to a hunk, what each header says, and the proof that a
    strict patch accepts the hunks and rebuilds the second file. */
module DiffUnified {
  import opened Texts
  import opened Wrappers
  import opened DiffLines
  import opened DiffScript

  const CONTEXT_LINES := 3

  // Start lines count from 1, as they are printed.
  datatype Hunk = Hunk(start1: int, count1: nat, start2: int, count2: nat, body: seq<(char, Line)>)

  function LineAt(a: seq<Line>, k: int): Line {
    if 0 <= k < |a| then a[k] else ""
  }

  function Printed(e: Edit, a: seq<Line>, b: seq<Line>): (char, Line) {
    match e.op
    case EQ => (' ', LineAt(a, e.l1))
    case DEL => ('-', LineAt(a, e.l1))
    case ADD => ('+', LineAt(b, e.l2))
  }

  function Body(es: seq<Edit>, a: seq<Line>, b: seq<Line>): (r: seq<(char, Line)>)
    ensures |r| == |es| && forall k | 0 <= k < |es| :: r[k] == Printed(es[k], a, b)
  {
    if es == [] then [] else [Printed(es[0], a, b)] + Body(es[1..], a, b)
  }

  // The lines of either file that a body shows.
  function OldLines(body: seq<(char, Line)>): seq<Line> {
    if body == [] then [] else (if body[0].0 == '+' then [] else [body[0].1]) + OldLines(body[1..])
  }

  function NewLines(body: seq<(char, Line)>): seq<Line> {
    if body == [] then [] else (if body[0].0 == '-' then [] else [body[0].1]) + NewLines(body[1..])
  }

  // ----- What the source computes -----

  // The first line of either file in a segment, or -1.
  function First1(es: seq<Edit>): int {
    if es == [] then -1 else if es[0].op != ADD then es[0].l1 else First1(es[1..])
  }

  function First2(es: seq<Edit>): int {
    if es == [] then -1 else if es[0].op != DEL then es[0].l2 else First2(es[1..])
  }

  function HunkOf(es: seq<Edit>, a: seq<Line>, b: seq<Line>): Hunk {
    var f1 := First1(es);
    var f2 := First2(es);
    Hunk((if f1 < 0 then 0 else f1) + 1, Count(es, EQ) + Count(es, DEL),
         (if f2 < 0 then 0 else f2) + 1, Count(es, EQ) + Count(es, ADD), Body(es, a, b))
  }

  // Within three operations of a change.
  predicate Near(es: seq<Edit>, k: int) {
    exists c | 0 <= c < |es| :: es[c].op != EQ && k - CONTEXT_LINES <= c <= k + CONTEXT_LINES
  }

  function RunEnd(es: seq<Edit>, i: nat): (r: nat)
    requires i <= |es|
    ensures i <= r <= |es| && (forall k | i <= k < r :: Near(es, k)) && (r < |es| ==> !Near(es, r))
    decreases |es| - i
  {
    if i < |es| && Near(es, i) then RunEnd(es, i + 1) else i
  }

  function Hunks(es: seq<Edit>, a: seq<Line>, b: seq<Line>, i: nat): seq<Hunk>
    requires i <= |es|
    decreases |es| - i
  {
    if i == |es| then []
    else if !Near(es, i) then Hunks(es, a, b, i + 1)
    else
      var he := RunEnd(es, i + 1);
      [HunkOf(es[i..he], a, b)] + Hunks(es, a, b, he)
  }

  method MarkHunks(es: seq<Edit>) returns (inHunk: array<bool>)
    ensures inHunk.Length == |es|
    ensures forall k | 0 <= k < |es| :: inHunk[k] == Near(es, k)
  {
    inHunk := new bool[|es|](_ => false);
    for k := 0 to |es|
      invariant forall x | 0 <= x < |es| ::
        inHunk[x] <==> exists c | 0 <= c < k :: es[c].op != EQ && x - CONTEXT_LINES <= c <= x + CONTEXT_LINES
    {
      if es[k].op != EQ {
        ghost var before := inHunk[..];
        for c := k - CONTEXT_LINES to k + CONTEXT_LINES + 1
          invariant forall x | 0 <= x < |es| :: inHunk[x] <==> before[x] || k - CONTEXT_LINES <= x < c
        {
          if 0 <= c < |es| { inHunk[c] := true; }
        }
      }
    }
  }

  // Positions that an operation uses are not -1.
  ghost predicate Numbered(es: seq<Edit>) {
    forall k | 0 <= k < |es| :: (es[k].op != ADD ==> es[k].l1 >= 0) && (es[k].op != DEL ==> es[k].l2 >= 0)
  }

  lemma {:induction false} SliceStep(es: seq<Edit>, i: nat, k: nat, op: Op)
    requires i <= k < |es| && Numbered(es)
    ensures Count(es[i..k + 1], op) == Count(es[i..k], op) + (if es[k].op == op then 1 else 0)
    ensures First1(es[i..k + 1]) == if First1(es[i..k]) == -1 && es[k].op != ADD then es[k].l1 else First1(es[i..k])
    ensures First2(es[i..k + 1]) == if First2(es[i..k]) == -1 && es[k].op != DEL then es[k].l2 else First2(es[i..k])
    decreases k - i
  {
    if i < k {
      SliceStep(es, i + 1, k, op);
      assert es[i..k + 1][1..] == es[i + 1..k + 1] && es[i..k][1..] == es[i + 1..k];
    } else {
      assert es[i..k + 1] == [es[k]] && es[i..k + 1][1..] == [];
    }
  }

  // The inner loop that collects the header and prints the body.
  method OneHunk(es: seq<Edit>, a: seq<Line>, b: seq<Line>, hs: nat, he: nat) returns (h: Hunk)
    requires hs <= he <= |es|
    requires Numbered(es)
    ensures h == HunkOf(es[hs..he], a, b)
  {
    var l1, l2, n1, n2 := -1, -1, 0, 0;
    var body := [];
    ghost var seg := es[hs..hs];
    for k := hs to he
      invariant seg == es[hs..k] && Collected(seg, a, b, l1, l2, n1, n2, body)
    {
      hide Collected;
      OneMore(es, a, b, hs, k, l1, l2, n1, n2, body);
      if es[k].op == EQ || es[k].op == DEL {
        if l1 < 0 { l1 := es[k].l1; }
        n1 := n1 + 1;
      }
      if es[k].op == EQ || es[k].op == ADD {
        if l2 < 0 { l2 := es[k].l2; }
        n2 := n2 + 1;
      }
      body := body + [Printed(es[k], a, b)];
      seg := es[hs..k + 1];
    }
    h := Hunk((if l1 < 0 then 0 else l1) + 1, n1, (if l2 < 0 then 0 else l2) + 1, n2, body);
  }

  // What the loop has gathered of a segment.
  ghost predicate Collected(seg: seq<Edit>, a: seq<Line>, b: seq<Line>, l1: int, l2: int, n1: int, n2: int,
                            body: seq<(char, Line)>) {
    && l1 == First1(seg) && l2 == First2(seg) && l1 >= -1 && l2 >= -1
    && n1 == Count(seg, EQ) + Count(seg, DEL) && n2 == Count(seg, EQ) + Count(seg, ADD)
    && body == Body(seg, a, b)
  }

  lemma OneMore(es: seq<Edit>, a: seq<Line>, b: seq<Line>, hs: nat, k: nat, l1: int, l2: int, n1: int, n2: int,
                body: seq<(char, Line)>)
    requires hs <= k < |es| && Numbered(es) && Collected(es[hs..k], a, b, l1, l2, n1, n2, body)
    ensures var old_line, new_line := es[k].op != ADD, es[k].op != DEL;
            Collected(es[hs..k + 1], a, b, if old_line && l1 < 0 then es[k].l1 else l1,
                      if new_line && l2 < 0 then es[k].l2 else l2,
                      if old_line then n1 + 1 else n1, if new_line then n2 + 1 else n2, body + [Printed(es[k], a, b)])
  {
    hide Count, First1, First2, Printed, Body;
    SliceStep(es, hs, k, EQ);
    SliceStep(es, hs, k, DEL);
    SliceStep(es, hs, k, ADD);
    BodyMore(es, a, b, hs, k);
  }

  lemma BodyMore(es: seq<Edit>, a: seq<Line>, b: seq<Line>, hs: nat, k: nat)
    requires hs <= k < |es|
    ensures Body(es[hs..k + 1], a, b) == Body(es[hs..k], a, b) + [Printed(es[k], a, b)]
  {
    hide Printed, Body;
    var l, r := Body(es[hs..k + 1], a, b), Body(es[hs..k], a, b) + [Printed(es[k], a, b)];
    assert forall x | 0 <= x < |l| :: l[x] == r[x] == Printed(es[hs + x], a, b);
  }

  method EndOfRun(inHunk: array<bool>, es: seq<Edit>, i: nat) returns (he: nat)
    requires i <= |es| == inHunk.Length && forall k | 0 <= k < |es| :: inHunk[k] == Near(es, k)
    ensures he == RunEnd(es, i)
  {
    he := i;
    while he < |es| && inHunk[he]
      invariant i <= he <= |es| && RunEnd(es, i) == RunEnd(es, he)
    {
      he := he + 1;
    }
  }

  method EmitUnified(es: seq<Edit>, a: seq<Line>, b: seq<Line>) returns (hunks: seq<Hunk>)
    requires Numbered(es)
    ensures hunks == Hunks(es, a, b, 0)
  {
    var inHunk := MarkHunks(es);
    hunks := [];
    var i := 0;
    while i < |es|
      invariant 0 <= i <= |es|
      invariant forall k | 0 <= k < |es| :: inHunk[k] == Near(es, k)
      invariant hunks + Hunks(es, a, b, i) == Hunks(es, a, b, 0)
    {
      if !inHunk[i] {
        i := i + 1;
      } else {
        var he := EndOfRun(inHunk, es, i + 1);
        var h := OneHunk(es, a, b, i, he);
        ghost var rest := Hunks(es, a, b, he);
        assert hunks + ([h] + rest) == (hunks + [h]) + rest;
        hunks := hunks + [h];
        i := he;
      }
    }
  }

  // ----- A strict patch -----

  /** Applies hunks to a from line pos on, when `out` lines of output exist. A hunk is refused unless
      it starts at or after pos, its old lines are exactly the lines of a that its header names,
      and its new lines land exactly where its header says. */
  function Patch(hs: seq<Hunk>, a: seq<Line>, pos: nat, out: nat): Option<seq<Line>>
    requires pos <= |a|
  {
    if hs == [] then Some(a[pos..]) else
    var h := hs[0];
    var at := h.start1 - 1;
    if !(pos <= at && at + h.count1 <= |a|) || OldLines(h.body) != a[at..at + h.count1] then None
    else if h.start2 - 1 != out + (at - pos) || |NewLines(h.body)| != h.count2 then None
    else
      var rest :- Patch(hs[1..], a, at + h.count1, h.start2 - 1 + h.count2);
      Some(a[pos..at] + NewLines(h.body) + rest)
  }

  // ----- The lines a script walks over -----

  function Old(es: seq<Edit>, a: seq<Line>): seq<Line> {
    if es == [] then [] else OldOf(es[0], a) + Old(es[1..], a)
  }

  function OldOf(e: Edit, a: seq<Line>): seq<Line> {
    if e.op == ADD then [] else [LineAt(a, e.l1)]
  }

  // What the patched file contains: kept lines as they are in a, and added lines.
  function New(es: seq<Edit>, a: seq<Line>, b: seq<Line>): seq<Line> {
    if es == [] then [] else NewOf(es[0], a, b) + New(es[1..], a, b)
  }

  function NewOf(e: Edit, a: seq<Line>, b: seq<Line>): seq<Line> {
    match e.op
    case EQ => [LineAt(a, e.l1)]
    case DEL => []
    case ADD => [LineAt(b, e.l2)]
  }

  lemma OldJoin(es: seq<Edit>, fs: seq<Edit>, a: seq<Line>, b: seq<Line>)
    ensures Old(es + fs, a) == Old(es, a) + Old(fs, a)
    ensures New(es + fs, a, b) == New(es, a, b) + New(fs, a, b)
  {
    OldOfJoin(es, fs, a);
    NewOfJoin(es, fs, a, b);
  }

  lemma {:induction false} OldOfJoin(es: seq<Edit>, fs: seq<Edit>, a: seq<Line>)
    ensures Old(es + fs, a) == Old(es, a) + Old(fs, a)
    decreases |es|
  {
    hide OldOf;
    if es == [] {
      assert es + fs == fs;
    } else {
      assert (es + fs)[0] == es[0] && (es + fs)[1..] == es[1..] + fs;
      OldOfJoin(es[1..], fs, a);
      Regroup(OldOf(es[0], a), Old(es[1..], a), Old(fs, a));
    }
  }

  lemma {:induction false} NewOfJoin(es: seq<Edit>, fs: seq<Edit>, a: seq<Line>, b: seq<Line>)
    ensures New(es + fs, a, b) == New(es, a, b) + New(fs, a, b)
    decreases |es|
  {
    hide NewOf;
    if es == [] {
      assert es + fs == fs;
    } else {
      assert (es + fs)[0] == es[0] && (es + fs)[1..] == es[1..] + fs;
      NewOfJoin(es[1..], fs, a, b);
      Regroup(NewOf(es[0], a, b), New(es[1..], a, b), New(fs, a, b));
    }
  }

  lemma {:induction false} BodyLines(es: seq<Edit>, a: seq<Line>, b: seq<Line>)
    ensures OldLines(Body(es, a, b)) == Old(es, a) && NewLines(Body(es, a, b)) == New(es, a, b)
    ensures |Old(es, a)| == Count(es, EQ) + Count(es, DEL)
    ensures |New(es, a, b)| == Count(es, EQ) + Count(es, ADD)
    decreases |es|
  {
    if es != [] {
      BodyLines(es[1..], a, b);
      assert Body(es, a, b)[1..] == Body(es[1..], a, b);
    }
  }

  // A valid script walks over a, and its result is the same as b line by line.
  lemma {:induction false} WholeOld(es: seq<Edit>, a: seq<Line>, b: seq<Line>, o: Options, i: nat, j: nat)
    requires Aligns(es, a, b, o, i, j)
    ensures i <= |a| && Old(es, a) == a[i..]
    decreases |es|
  {
    if es != [] {
      var i' := if es[0].op == ADD then i else i + 1;
      WholeOld(es[1..], a, b, o, i', if es[0].op == DEL then j else j + 1);
      assert i' == i + 1 ==> OldOf(es[0], a) + a[i'..] == a[i..];
      assert i' == i ==> OldOf(es[0], a) + a[i..] == a[i..];
    }
  }

  lemma {:induction false} WholeNew(es: seq<Edit>, a: seq<Line>, b: seq<Line>, o: Options, i: nat, j: nat)
    requires Aligns(es, a, b, o, i, j)
    ensures j <= |b| && SameLines(New(es, a, b), b[j..], o)
    decreases |es|
  {
    if es != [] {
      var i' := if es[0].op == ADD then i else i + 1;
      var j' := if es[0].op == DEL then j else j + 1;
      WholeNew(es[1..], a, b, o, i', j');
      if es[0].op != DEL {
        assert b[j..] == [b[j]] + b[j + 1..];
        SameLinesAfter(New(es, a, b)[0], b[j], New(es[1..], a, b), b[j + 1..], o);
      }
    }
  }

  ghost predicate SameLines(s: seq<Line>, t: seq<Line>, o: Options) {
    |s| == |t| && forall k | 0 <= k < |s| :: Same(s[k], t[k], o)
  }

  lemma SameLinesAfter(l: Line, m: Line, s: seq<Line>, t: seq<Line>, o: Options)
    requires Same(l, m, o) && SameLines(s, t, o)
    ensures SameLines([l] + s, [m] + t, o)
  {
  }

  // Line numbers of an operation count the lines walked over before it.
  lemma {:induction false} LineNumbers(es: seq<Edit>, a: seq<Line>, b: seq<Line>, o: Options, i: nat, j: nat, k: nat)
    requires Aligns(es, a, b, o, i, j) && k < |es|
    ensures es[k].op != ADD ==> es[k].l1 == i + |Old(es[..k], a)|
    ensures es[k].op != DEL ==> es[k].l2 == j + |New(es[..k], a, b)|
    decreases |es|
  {
    if k > 0 {
      var i' := if es[0].op == ADD then i else i + 1;
      var j' := if es[0].op == DEL then j else j + 1;
      LineNumbers(es[1..], a, b, o, i', j', k - 1);
      assert es[..k][1..] == es[1..][..k - 1] && es[..k][0] == es[0];
    }
  }

  ghost function Walked1(es: seq<Edit>, a: seq<Line>, k: nat): nat
    requires k <= |es|
  {
    |Old(es[..k], a)|
  }

  ghost function Walked2(es: seq<Edit>, a: seq<Line>, b: seq<Line>, k: nat): nat
    requires k <= |es|
  {
    |New(es[..k], a, b)|
  }

  // A segment of a valid script covers one contiguous range of a, and adds its new lines.
  lemma Segment(es: seq<Edit>, a: seq<Line>, b: seq<Line>, o: Options, i: nat, k: nat)
    requires Aligns(es, a, b, o, 0, 0) && i <= k <= |es|
    ensures Walked1(es, a, i) <= Walked1(es, a, k) <= |a|
    ensures Old(es[i..k], a) == a[Walked1(es, a, i)..Walked1(es, a, k)]
    ensures |New(es[i..k], a, b)| == Walked2(es, a, b, k) - Walked2(es, a, b, i)
  {
    WholeOld(es, a, b, o, 0, 0);
    assert es[..k] == es[..i] + es[i..k];
    OldJoin(es[..i], es[i..k], a, b);
    assert es == es[..k] + es[k..];
    OldJoin(es[..k], es[k..], a, b);
    assert Old(es, a) == a;
    assert a == Old(es[..i], a) + Old(es[i..k], a) + Old(es[k..], a);
  }

  lemma {:induction false} FirstLines(es: seq<Edit>, a: seq<Line>, b: seq<Line>, o: Options, i: nat, k: nat)
    requires Aligns(es, a, b, o, 0, 0) && i <= k <= |es|
    ensures First1(es[i..k]) == if Count(es[i..k], EQ) + Count(es[i..k], DEL) > 0 then Walked1(es, a, i) else -1
    ensures First2(es[i..k]) == if Count(es[i..k], EQ) + Count(es[i..k], ADD) > 0 then Walked2(es, a, b, i) else -1
    decreases k - i
  {
    if i < k {
      LineNumbers(es, a, b, o, 0, 0, i);
      FirstLines(es, a, b, o, i + 1, k);
      assert es[i..k][1..] == es[i + 1..k];
      assert es[..i + 1] == es[..i] + [es[i]];
      OldJoin(es[..i], [es[i]], a, b);
    }
  }

  // The start of a run: nothing before it is near a change.
  ghost predicate RunStart(es: seq<Edit>, i: nat) {
    i < |es| && Near(es, i) && (i == 0 || !Near(es, i - 1))
  }

  lemma {:induction false} NoneCounted(es: seq<Edit>, op: Op)
    requires Count(es, op) == 0
    ensures forall k | 0 <= k < |es| :: es[k].op != op
    decreases |es|
  {
    if es != [] {
      NoneCounted(es[1..], op);
      forall k | 0 <= k < |es| ensures es[k].op != op {
        if k > 0 { assert es[k] == es[1..][k - 1]; }
      }
    }
  }

  /** A hunk shows no line of one file only when it is the whole script, so that file is empty. */
  lemma EmptyRange(es: seq<Edit>, a: seq<Line>, b: seq<Line>, o: Options, i: nat)
    requires Aligns(es, a, b, o, 0, 0) && RunStart(es, i)
    ensures var seg := es[i..RunEnd(es, i + 1)];
            && (Count(seg, EQ) + Count(seg, DEL) == 0 ==> i == 0 && RunEnd(es, i + 1) == |es| && a == [])
            && (Count(seg, EQ) + Count(seg, ADD) == 0 ==> i == 0 && RunEnd(es, i + 1) == |es| && b == [])
  {
    var he := RunEnd(es, i + 1);
    var seg := es[i..he];
    if Count(seg, EQ) + Count(seg, DEL) == 0 || Count(seg, EQ) + Count(seg, ADD) == 0 {
      NoneCounted(seg, EQ);
      assert seg[0] == es[i] && seg[he - 1 - i] == es[he - 1];
      assert i > 0 ==> Near(es, i - 1);
      assert he < |es| ==> Near(es, he);
      assert seg == es;
      Totals(es, a, b, o, 0, 0);
    }
  }

  // Each header gives exactly the ranges that its body covers.
  lemma HeaderIsExact(es: seq<Edit>, a: seq<Line>, b: seq<Line>, o: Options, i: nat)
    requires Aligns(es, a, b, o, 0, 0) && RunStart(es, i)
    ensures var he := RunEnd(es, i + 1);
            var h := HunkOf(es[i..he], a, b);
            && h.start1 - 1 == Walked1(es, a, i) && h.start1 - 1 + h.count1 == Walked1(es, a, he)
            && h.start2 - 1 == Walked2(es, a, b, i) && h.start2 - 1 + h.count2 == Walked2(es, a, b, he)
            && Walked1(es, a, i) <= Walked1(es, a, he) <= |a|
            && OldLines(h.body) == a[Walked1(es, a, i)..Walked1(es, a, he)]
            && NewLines(h.body) == New(es[i..he], a, b) && |New(es[i..he], a, b)| == h.count2
  {
    var he := RunEnd(es, i + 1);
    FirstLines(es, a, b, o, i, he);
    Segment(es, a, b, o, i, he);
    BodyLines(es[i..he], a, b);
    EmptyRange(es, a, b, o, i);
    if i == 0 { assert es[..i] == []; }
  }

  lemma {:induction false} KeptGap(es: seq<Edit>, a: seq<Line>, b: seq<Line>)
    requires forall e | e in es :: e.op == EQ
    ensures Old(es, a) == New(es, a, b)
    decreases |es|
  {
    if es != [] {
      KeptGap(es[1..], a, b);
    }
  }

  lemma GapIsKept(es: seq<Edit>, g: nat, i: nat)
    requires g <= i <= |es| && forall k | g <= k < i :: !Near(es, k)
    ensures forall e | e in es[g..i] :: e.op == EQ
  {
    forall e | e in es[g..i] ensures e.op == EQ {
      var k :| 0 <= k < i - g && es[g..i][k] == e;
      assert !Near(es, g + k);
      assert es[g + k] == e;
    }
  }

  lemma PatchStep(h: Hunk, rest: seq<Hunk>, a: seq<Line>, pos: nat, out: nat, r: seq<Line>)
    requires pos <= h.start1 - 1 && h.start1 - 1 + h.count1 <= |a|
    requires OldLines(h.body) == a[h.start1 - 1..h.start1 - 1 + h.count1]
    requires h.start2 - 1 == out + (h.start1 - 1 - pos) && |NewLines(h.body)| == h.count2
    requires Patch(rest, a, h.start1 - 1 + h.count1, h.start2 - 1 + h.count2) == Some(r)
    ensures Patch([h] + rest, a, pos, out) == Some(a[pos..h.start1 - 1] + NewLines(h.body) + r)
  {
    assert ([h] + rest)[1..] == rest;
  }

  // The output wanted from the hunks from operation i on, after the kept operations g to i.
  ghost predicate Patches(es: seq<Edit>, a: seq<Line>, b: seq<Line>, g: nat, i: nat)
    requires g <= |es| && i <= |es|
  {
    && Walked1(es, a, g) <= |a|
    && Patch(Hunks(es, a, b, i), a, Walked1(es, a, g), Walked2(es, a, b, g)) == Some(New(es[g..], a, b))
  }

  lemma Gap(es: seq<Edit>, a: seq<Line>, b: seq<Line>, o: Options, g: nat, i: nat)
    requires Aligns(es, a, b, o, 0, 0) && g <= i <= |es| && forall k | g <= k < i :: !Near(es, k)
    ensures Walked1(es, a, g) <= Walked1(es, a, i) <= |a|
    ensures New(es[g..i], a, b) == a[Walked1(es, a, g)..Walked1(es, a, i)]
    ensures Walked2(es, a, b, i) - Walked2(es, a, b, g) == Walked1(es, a, i) - Walked1(es, a, g)
  {
    Segment(es, a, b, o, g, i);
    GapIsKept(es, g, i);
    KeptGap(es[g..i], a, b);
  }

  lemma PatchEnd(es: seq<Edit>, a: seq<Line>, b: seq<Line>, o: Options, g: nat)
    requires Aligns(es, a, b, o, 0, 0) && g <= |es| && forall k | g <= k < |es| :: !Near(es, k)
    ensures Patches(es, a, b, g, |es|)
  {
    Gap(es, a, b, o, g, |es|);
    assert es[..|es|] == es && es[g..|es|] == es[g..];
    WholeOld(es, a, b, o, 0, 0);
    var pos := Walked1(es, a, g);
    assert Walked1(es, a, |es|) == |a| && a[pos..|a|] == a[pos..];
    assert Patch(Hunks(es, a, b, |es|), a, pos, Walked2(es, a, b, g)) == Some(a[pos..]);
  }

  lemma PatchRun(es: seq<Edit>, a: seq<Line>, b: seq<Line>, o: Options, g: nat, i: nat)
    requires Aligns(es, a, b, o, 0, 0) && g <= i <= |es| && forall k | g <= k < i :: !Near(es, k)
    requires RunStart(es, i)
    requires Patches(es, a, b, RunEnd(es, i + 1), RunEnd(es, i + 1))
    ensures Patches(es, a, b, g, i)
  {
    hide Aligns, Old, New, Count, Near, Body, OldLines, NewLines, First1, First2, HunkOf, Patch;
    var he := RunEnd(es, i + 1);
    Gap(es, a, b, o, g, i);
    HeaderIsExact(es, a, b, o, i);
    var h := HunkOf(es[i..he], a, b);
    assert Hunks(es, a, b, i) == [h] + Hunks(es, a, b, he);
    PatchStep(h, Hunks(es, a, b, he), a, Walked1(es, a, g), Walked2(es, a, b, g), New(es[he..], a, b));
    NewOfThree(es, a, b, g, i, he);
  }

  lemma {:induction false} PatchFrom(es: seq<Edit>, a: seq<Line>, b: seq<Line>, o: Options, g: nat, i: nat)
    requires Aligns(es, a, b, o, 0, 0) && g <= i <= |es| && forall k | g <= k < i :: !Near(es, k)
    requires i == 0 || i == |es| || !Near(es, i) || !Near(es, i - 1)
    ensures Patches(es, a, b, g, i)
    decreases |es| - i
  {
    if i == |es| {
      PatchEnd(es, a, b, o, g);
    } else if !Near(es, i) {
      PatchFrom(es, a, b, o, g, i + 1);
    } else {
      var he := RunEnd(es, i + 1);
      PatchFrom(es, a, b, o, he, he);
      PatchRun(es, a, b, o, g, i);
    }
  }

  lemma NewOfThree(es: seq<Edit>, a: seq<Line>, b: seq<Line>, g: nat, i: nat, k: nat)
    requires g <= i <= k <= |es|
    ensures New(es[g..], a, b) == New(es[g..i], a, b) + New(es[i..k], a, b) + New(es[k..], a, b)
  {
    assert es[g..] == es[g..i] + (es[i..k] + es[k..]);
    OldJoin(es[g..i], es[i..k] + es[k..], a, b);
    OldJoin(es[i..k], es[k..], a, b);
  }

  /** The strict patch accepts the hunks of every valid script and yields b, line by line the same
      under the comparison options, and exactly b when no ignore flag is set. */
  lemma PatchYieldsSecondFile(es: seq<Edit>, a: seq<Line>, b: seq<Line>, o: Options)
    requires Aligns(es, a, b, o, 0, 0)
    ensures var r := Patch(Hunks(es, a, b, 0), a, 0, 0);
            && r.Some? && |r.value| == |b|
            && (forall k | 0 <= k < |b| :: Same(r.value[k], b[k], o))
            && (!o.ignoreCase && !o.ignoreSpace ==> r.value == b)
  {
    assert es[..0] == [] && es[0..] == es;
    PatchFrom(es, a, b, o, 0, 0);
    WholeNew(es, a, b, o, 0, 0);
    var r := Patch(Hunks(es, a, b, 0), a, 0, 0).value;
    if !o.ignoreCase && !o.ignoreSpace {
      forall k | 0 <= k < |b| ensures r[k] == b[k] {
        PlainSame(r[k], b[k], o);
      }
    }
  }
}
