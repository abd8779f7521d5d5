/** The command history: a ring of one hundred rows of 1024 bytes, each row a NUL-terminated string. */
module History {

  const HIST_MAX: nat := 100
  const HIST_LINE: nat := 1024

  // What fits into a row.
  function Cut(line: string): (r: string)
    ensures |r| < HIST_LINE && r <= line && (|r| == |line| || |r| == 1023)
  {
    if |line| < HIST_LINE then line else line[..HIST_LINE - 1]
  }

  function LastFew(entries: seq<string>): (r: seq<string>)
    ensures |r| <= HIST_MAX
  {
    if |entries| <= HIST_MAX then entries else entries[|entries| - HIST_MAX..]
  }

  lemma LastFewAre(entries: seq<string>)
    ensures if |entries| <= 100 then LastFew(entries) == entries
            else |LastFew(entries)| == 100 && LastFew(entries) == entries[|entries| - 100..]
  {
  }

  // The entries after one more line.
  function Recorded(entries: seq<string>, line: string): seq<string> {
    if line == "" || (entries != [] && entries[|entries| - 1] == line) then entries
    else LastFew(entries + [Cut(line)])
  }

  // Where the i-th oldest of the used rows before tail is.
  function Position(tail: nat, used: nat, i: nat): (p: nat)
    requires tail < HIST_MAX && used <= HIST_MAX
    ensures p < HIST_MAX
  {
    ((tail - used + 2 * HIST_MAX) % HIST_MAX + i) % HIST_MAX
  }

  lemma PositionIs(tail: nat, used: nat, i: nat)
    requires tail < HIST_MAX && i <= used <= HIST_MAX
    ensures Position(tail, used, i)
        == if tail - used + i >= 0 then (if tail - used + i < HIST_MAX then tail - used + i else 0)
                                       else tail - used + i + HIST_MAX
  {
  }

  // The rows in use, oldest first.
  ghost function Listed(rows: seq<string>, tail: nat, used: nat): (r: seq<string>)
    requires |rows| == HIST_MAX && tail < HIST_MAX && used <= HIST_MAX
    ensures |r| == used
  {
    seq(used, i requires 0 <= i < used => rows[Position(tail, used, i)])
  }

  // One more row in use, or the oldest one overwritten.
  lemma StoreAppends(rows: seq<string>, tail: nat, used: nat, row: string)
    requires |rows| == HIST_MAX && tail < HIST_MAX && used <= HIST_MAX
    ensures Listed(rows[tail := row], (tail + 1) % HIST_MAX, if used < HIST_MAX then used + 1 else used)
            == LastFew(Listed(rows, tail, used) + [row])
  {
    hide Position;
    var used' := if used < HIST_MAX then used + 1 else used;
    var tail' := if tail + 1 < HIST_MAX then tail + 1 else 0;
    assert tail' == (tail + 1) % HIST_MAX;
    var drop, before := used + 1 - used', Listed(rows, tail, used);
    var after := Listed(rows[tail := row], tail', used');
    forall i | 0 <= i < used' ensures after[i] == (before + [row])[i + drop] {
      PositionIs(tail', used', i);
      PositionIs(tail, used, i + drop);
    }
  }

  class Ring {
    const rows: array<string>
    var tail: nat
    var used: nat

    ghost predicate Valid()
      reads this, rows
    {
      && rows.Length == HIST_MAX && tail < HIST_MAX && used <= HIST_MAX
      && forall i | 0 <= i < HIST_MAX :: |rows[i]| < HIST_LINE
    }

    // Oldest first.
    ghost function Entries(): (r: seq<string>)
      reads this, rows
      requires Valid()
      ensures |r| == used
    {
      Listed(rows[..], tail, used)
    }

    constructor ()
      ensures Valid() && fresh(rows) && Entries() == []
    {
      rows := new string[HIST_MAX](_ => "");
      tail, used := 0, 0;
    }

    method Add(line: string)
      requires Valid()
      modifies this`tail, this`used, rows
      ensures Valid() && Entries() == Recorded(old(Entries()), line)
    {
      hide Position, Cut, LastFew;
      if line == "" {
        return;
      }
      if used > 0 {
        var last := (tail - 1 + HIST_MAX) % HIST_MAX;
        PositionIs(tail, used, used - 1);
        if rows[last] == line {
          return;
        }
      }
      Store(line);
    }

    method Store(line: string)
      requires Valid()
      modifies this`tail, this`used, rows
      ensures Valid() && Entries() == LastFew(old(Entries()) + [Cut(line)])
    {
      hide Listed, Cut, LastFew;
      StoreAppends(rows[..], tail, used, Cut(line));
      rows[tail] := Cut(line);
      tail := (tail + 1) % HIST_MAX;
      if used < HIST_MAX {
        used := used + 1;
      }
    }

    method Get(i: int) returns (line: string)
      requires Valid()
      ensures line == if 0 <= i < used then Entries()[i] else ""
    {
      if i < 0 || i >= used {
        return "";
      }
      var start := (tail - used + 2 * HIST_MAX) % HIST_MAX;
      line := rows[(start + i) % HIST_MAX];
    }

    method Clear()
      requires Valid()
      modifies this`tail, this`used
      ensures Valid() && Entries() == []
    {
      tail, used := 0, 0;
    }
  }

  // ----- What the ring holds after any sequence of lines -----

  function RecordedAll(entries: seq<string>, lines: seq<string>): seq<string>
    decreases |lines|
  {
    if lines == [] then entries else Recorded(RecordedAll(entries, lines[..|lines| - 1]), lines[|lines| - 1])
  }

  function NonEmpty(lines: seq<string>): (r: seq<string>)
    ensures forall i | 0 <= i < |r| :: r[i] != ""
  {
    if lines == [] then []
    else
      var rest := NonEmpty(lines[..|lines| - 1]);
      if lines[|lines| - 1] == "" then rest else rest + [lines[|lines| - 1]]
  }

  // The lines that differ from what a row would hold of the line before.
  function Changes(lines: seq<string>): seq<string> {
    if lines == [] then []
    else
      var n := |lines| - 1;
      if n > 0 && Cut(lines[n - 1]) == lines[n] then Changes(lines[..n]) else Changes(lines[..n]) + [Cut(lines[n])]
  }

  // Consecutive duplicates removed.
  function Distinct(lines: seq<string>): seq<string> {
    if lines == [] then []
    else
      var n := |lines| - 1;
      if n > 0 && lines[n - 1] == lines[n] then Distinct(lines[..n]) else Distinct(lines[..n]) + [lines[n]]
  }

  // Keeping only the last few now or later is the same.
  lemma KeepLater(entries: seq<string>, line: string)
    ensures LastFew(LastFew(entries) + [Cut(line)]) == LastFew(entries + [Cut(line)])
    ensures entries != [] ==>
              LastFew(entries) != [] && LastFew(entries)[|LastFew(entries)| - 1] == entries[|entries| - 1]
  {
    hide Cut;
  }

  lemma {:induction false} ChangesEnd(lines: seq<string>)
    requires lines != []
    ensures Changes(lines) != [] && Changes(lines)[|Changes(lines)| - 1] == Cut(lines[|lines| - 1])
  {
    var n := |lines| - 1;
    if n > 0 && Cut(lines[n - 1]) == lines[n] {
      ChangesEnd(lines[..n]);
    }
  }

  lemma ChangesStep(past: seq<string>, line: string)
    ensures Changes(past + [line]) == if past != [] && Cut(past[|past| - 1]) == line then Changes(past)
                                      else Changes(past) + [Cut(line)]
  {
    assert (past + [line])[..|past|] == past;
    hide Cut;
  }

  lemma OneMoreChange(past: seq<string>, line: string)
    requires line != ""
    ensures Recorded(LastFew(Changes(past)), line) == LastFew(Changes(past + [line]))
  {
    ChangesStep(past, line);
    KeepLater(Changes(past), line);
    if past != [] {
      ChangesEnd(past);
      hide Changes, LastFew, Cut;
    }
  }

  /** Whatever lines come in, the history is the last hundred changes among the nonempty ones. */
  lemma {:induction false} HistoryIsRecentChanges(lines: seq<string>)
    ensures RecordedAll([], lines) == LastFew(Changes(NonEmpty(lines)))
  {
    if lines != [] {
      var n := |lines| - 1;
      HistoryIsRecentChanges(lines[..n]);
      hide Changes, LastFew, Cut;
      if lines[n] != "" {
        OneMoreChange(NonEmpty(lines[..n]), lines[n]);
      }
    }
  }

  lemma {:induction false} ShortChanges(lines: seq<string>)
    requires forall i | 0 <= i < |lines| :: |lines[i]| < HIST_LINE
    ensures Changes(lines) == Distinct(lines)
  {
    if lines != [] {
      ShortChanges(lines[..|lines| - 1]);
    }
  }

  lemma {:induction false} NonEmptyAreLines(lines: seq<string>)
    ensures forall i | 0 <= i < |NonEmpty(lines)| :: NonEmpty(lines)[i] in lines
  {
    if lines != [] {
      NonEmptyAreLines(lines[..|lines| - 1]);
    }
  }

  /** For lines that fit into a row these are the lines without consecutive duplicates. */
  lemma HistoryOfShortLines(lines: seq<string>)
    requires forall i | 0 <= i < |lines| :: |lines[i]| < HIST_LINE
    ensures RecordedAll([], lines) == LastFew(Distinct(NonEmpty(lines)))
  {
    HistoryIsRecentChanges(lines);
    NonEmptyAreLines(lines);
    ShortChanges(NonEmpty(lines));
  }

  // The j-th entry from the end.
  function FromEnd(s: seq<string>, j: nat): string
    requires j < |s|
  {
    s[|s| - 1 - j]
  }

  // The last k entries fit into rows.
  ghost predicate ShortEnd(d: seq<string>, k: nat) {
    k <= |d| && forall j: nat | j < k :: |FromEnd(d, j)| < HIST_LINE
  }

  ghost predicate SameEnd(c: seq<string>, d: seq<string>, k: nat) {
    k <= |c| && k <= |d| && forall j: nat | j < k :: FromEnd(c, j) == FromEnd(d, j)
  }

  lemma ShortEndBefore(d: seq<string>, x: string, k: nat)
    requires 0 < k && ShortEnd(d + [x], k)
    ensures |x| < HIST_LINE && ShortEnd(d, k - 1)
  {
    assert FromEnd(d + [x], 0) == x;
    assert forall j: nat | j < k - 1 :: FromEnd(d, j) == FromEnd(d + [x], j + 1);
  }

  lemma SameEndAfter(c: seq<string>, d: seq<string>, x: string, k: nat)
    requires 0 < k && SameEnd(c, d, k - 1)
    ensures SameEnd(c + [x], d + [x], k)
  {
    forall j: nat | j < k ensures FromEnd(c + [x], j) == FromEnd(d + [x], j) {
      assert j > 0 ==> FromEnd(c, j - 1) == FromEnd(d, j - 1);
    }
  }

  // The last k distinct lines, when they fit into rows, are also what was stored last.
  lemma {:induction false} LastShortOnes(lines: seq<string>, k: nat)
    requires 0 < k && ShortEnd(Distinct(lines), k)
    ensures SameEnd(Changes(lines), Distinct(lines), k)
    decreases |lines|
  {
    NotEmpty(lines, k);
    var n := |lines| - 1;
    var past, x := lines[..n], lines[n];
    DistinctStep(past, x);
    ChangesStep(past, x);
    assert lines == past + [x];
    hide *;
    if n > 0 && past[n - 1] == x {
      StoredIsSame(past, k);
      LastShortOnes(past, k);
    } else if n > 0 && Cut(past[n - 1]) == x {
      ShortEndBefore(Distinct(past), x, k);
      LongIsLast(past, x, k);
    } else {
      ShortEndBefore(Distinct(past), x, k);
      assert Cut(x) == x;
      if k > 1 {
        LastShortOnes(past, k - 1);
      } else {
        NoEnd(Changes(past), Distinct(past));
      }
      SameEndAfter(Changes(past), Distinct(past), x, k);
    }
  }

  lemma NotEmpty(lines: seq<string>, k: nat)
    requires 0 < k && ShortEnd(Distinct(lines), k)
    ensures lines != []
  {
  }

  lemma NoEnd(c: seq<string>, d: seq<string>)
    ensures SameEnd(c, d, 0)
  {
  }

  // A last line that is among the last k distinct ones fits into its row.
  lemma StoredIsSame(past: seq<string>, k: nat)
    requires past != [] && 0 < k && ShortEnd(Distinct(past), k)
    ensures Cut(past[|past| - 1]) == past[|past| - 1]
  {
    DistinctEnd(past);
    assert FromEnd(Distinct(past), 0) == past[|past| - 1];
  }

  // A line equal to the row of a longer one before it: only that line itself counts.
  lemma LongIsLast(past: seq<string>, x: string, k: nat)
    requires past != [] && past[|past| - 1] != x && Cut(past[|past| - 1]) == x
    requires 0 < k && ShortEnd(Distinct(past), k - 1) && Distinct(past + [x]) == Distinct(past) + [x]
    ensures k == 1 && SameEnd(Changes(past), Distinct(past) + [x], k)
  {
    DistinctEnd(past);
    ChangesEnd(past);
    assert FromEnd(Distinct(past), 0) == past[|past| - 1];
    assert FromEnd(Changes(past), 0) == x == FromEnd(Distinct(past) + [x], 0);
  }

  lemma DistinctStep(past: seq<string>, line: string)
    ensures Distinct(past + [line])
            == if past != [] && past[|past| - 1] == line then Distinct(past) else Distinct(past) + [line]
  {
    assert (past + [line])[..|past|] == past;
  }

  lemma {:induction false} DistinctEnd(lines: seq<string>)
    requires lines != []
    ensures Distinct(lines) != [] && Distinct(lines)[|Distinct(lines)| - 1] == lines[|lines| - 1]
  {
    var n := |lines| - 1;
    if n > 0 && lines[n - 1] == lines[n] {
      DistinctEnd(lines[..n]);
    }
  }

  lemma {:induction false} DistinctHasAll(lines: seq<string>)
    ensures forall l | l in lines :: l in Distinct(lines)
  {
    if lines != [] {
      var n := |lines| - 1;
      DistinctHasAll(lines[..n]);
      assert lines == lines[..n] + [lines[n]];
      if n > 0 && lines[n - 1] == lines[n] {
        assert lines[n] in lines[..n];
      }
    }
  }

  // Rows hold what fits.
  lemma {:induction false} ChangesAreShort(lines: seq<string>)
    ensures forall l | l in Changes(lines) :: |l| < HIST_LINE
  {
    if lines != [] {
      ChangesAreShort(lines[..|lines| - 1]);
    }
  }

  /** The history is the last hundred lines without consecutive duplicates exactly when each of those
      lines fits into a row, whatever came before them. */
  lemma HistoryIsLastDistinctIff(lines: seq<string>)
    ensures RecordedAll([], lines) == LastFew(Distinct(NonEmpty(lines)))
       <==> forall l | l in LastFew(Distinct(NonEmpty(lines))) :: |l| < HIST_LINE
  {
    var ls := NonEmpty(lines);
    HistoryIsRecentChanges(lines);
    ChangesAreShort(ls);
    hide RecordedAll, NonEmpty, Changes, Distinct;
    var c, d := Changes(ls), Distinct(ls);
    assert forall l | l in LastFew(c) :: l in c;
    if forall l | l in LastFew(d) :: |l| < HIST_LINE {
      if |d| < HIST_MAX {
        DistinctHasAll(ls);
        ShortChanges(ls);
      } else {
        assert forall j: nat | j < HIST_MAX :: FromEnd(d, j) == LastFew(d)[HIST_MAX - 1 - j];
        LastShortOnes(ls, HIST_MAX);
        assert |LastFew(c)| == |LastFew(d)|;
        assert forall i | 0 <= i < HIST_MAX :: LastFew(c)[i] == FromEnd(c, HIST_MAX - 1 - i);
      }
    }
  }

  // The other rows of a ring, once the oldest is dropped.
  lemma {:induction false} AllAlike(rows: seq<string>, row: string, k: nat)
    requires rows != [] && rows[1..] + [row] == rows && k <= |rows|
    ensures forall i | |rows| - k <= i < |rows| :: rows[i] == row
    decreases k
  {
    if k > 0 {
      AllAlike(rows, row, k - 1);
      var i := |rows| - k;
      assert rows[i] == (rows[1..] + [row])[i];
    }
  }

  /** On any ring, recording a line once more changes nothing exactly when the line fits into a row, or
      the ring already is nothing but its cut-off row; a longer line is compared with that row. */
  lemma RepeatIsDroppedIff(entries: seq<string>, line: string)
    requires |entries| <= HIST_MAX && forall l | l in entries :: |l| < HIST_LINE
    ensures var once := Recorded(entries, line);
            Recorded(once, line) == once <==>
            line == "" || |line| < HIST_LINE || (|once| == HIST_MAX && forall l | l in once :: l == Cut(line))
  {
    var once := Recorded(entries, line);
    assert entries != [] ==> entries[|entries| - 1] in entries;
    if line != "" && |line| >= HIST_LINE {
      var row := Cut(line);
      assert once[|once| - 1] == row;
      if |once| == HIST_MAX {
        assert LastFew(once + [row]) == once[1..] + [row];
        if once[1..] + [row] == once {
          AllAlike(once, row, |once|);
        }
        if forall l | l in once :: l == row {
          assert forall i | 0 <= i < |once| :: once[i] in once;
          assert once[1..] + [row] == once;
        }
      }
    }
  }
}
