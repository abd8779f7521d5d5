/** Line editing through a file: edit_utils.c cuts it into lines with fgets, cmd_edit.c changes the
    list, and the lines are written back one after the other. */
module EditLines {
  import opened Texts
  import opened Wrappers
  import opened CStrings

  // fgets with a buffer of 8192 bytes reads at most this many.
  const LIMIT: nat := 8191

  // How much of s one fgets takes: through the first newline, or up to the limit.
  function Taken(s: string, limit: nat): (k: nat)
    ensures k <= |s| && k <= limit
    ensures s != "" && limit > 0 ==> k > 0
    ensures forall i | 0 <= i < k - 1 :: s[i] != '\n'
    ensures k < |s| && k < limit ==> k > 0 && s[k - 1] == '\n'
  {
    if s == "" || limit == 0 then 0 else if s[0] == '\n' then 1 else 1 + Taken(s[1..], limit - 1)
  }

  function Chunks(s: string): seq<string>
    decreases |s|
  {
    if s == "" then [] else [s[..Taken(s, LIMIT)]] + Chunks(s[Taken(s, LIMIT)..])
  }

  // strdup keeps each chunk up to its first NUL.
  function Heads(chunks: seq<string>): (r: seq<string>)
    ensures |r| == |chunks| && forall i | 0 <= i < |r| :: r[i] == Head(chunks[i])
  {
    seq(|chunks|, i requires 0 <= i < |chunks| => Head(chunks[i]))
  }

  function Lines(file: string): seq<string> {
    Heads(Chunks(file))
  }

  function Concat(lines: seq<string>): string {
    if lines == [] then "" else lines[0] + Concat(lines[1..])
  }

  function WithNewline(text: string): (r: string)
    ensures r != "" && r[|r| - 1] == '\n'
    ensures if text != "" && text[|text| - 1] == '\n' then r == text else |r| == |text| + 1 && text <= r
  {
    if text != "" && text[|text| - 1] == '\n' then text else text + "\n"
  }

  // ----- Chunks -----

  ghost predicate IsChunk(c: string) {
    c != "" && |c| <= LIMIT && forall i | 0 <= i < |c| - 1 :: c[i] != '\n'
  }

  // Nothing that follows can become part of it.
  ghost predicate Closed(c: string) {
    IsChunk(c) && (|c| == LIMIT || c[|c| - 1] == '\n')
  }

  ghost predicate AllClosed(chunks: seq<string>) {
    forall i | 0 <= i < |chunks| :: Closed(chunks[i])
  }

  lemma TakenIs(s: string, k: nat)
    requires 0 < k <= |s| && k <= LIMIT && (forall i | 0 <= i < k - 1 :: s[i] != '\n')
    requires k == LIMIT || k == |s| || s[k - 1] == '\n'
    ensures Taken(s, LIMIT) == k
  {
    var t := Taken(s, LIMIT);
    var atTaken, atK := s[t - 1], s[k - 1];
  }

  lemma ClosedFirst(c: string, rest: string)
    requires Closed(c)
    ensures Chunks(c + rest) == [c] + Chunks(rest)
  {
    var s := c + rest;
    assert forall i | 0 <= i < |c| :: s[i] == c[i];
    TakenIs(s, |c|);
    assert s[..|c|] == c && s[|c|..] == rest;
  }

  lemma {:induction false} ClosedPrefix(chunks: seq<string>, rest: string)
    requires AllClosed(chunks)
    ensures Chunks(Concat(chunks) + rest) == chunks + Chunks(rest)
    decreases |chunks|
  {
    hide Chunks;
    if chunks == [] {
      assert Concat(chunks) + rest == rest;
    } else {
      ClosedPrefix(chunks[1..], rest);
      ClosedFirst(chunks[0], Concat(chunks[1..]) + rest);
      assert Concat(chunks) + rest == chunks[0] + (Concat(chunks[1..]) + rest);
    }
  }

  /** Every file is its chunks one after the other; all of them are closed, but for the last one if
      it is short and has no newline. */
  lemma {:induction false} ChunksAre(s: string)
    ensures Concat(Chunks(s)) == s
    ensures forall i | 0 <= i < |Chunks(s)| :: IsChunk(Chunks(s)[i]) && (i < |Chunks(s)| - 1 ==> Closed(Chunks(s)[i]))
    ensures Chunks(s) == [] <==> s == ""
    decreases |s|
  {
    if s == "" {
      NoChunks();
    } else {
      var k := Taken(s, LIMIT);
      FirstIsChunk(s);
      FirstChunk(s);
      ChunksAre(s[k..]);
      hide IsChunk, Closed, Chunks, Taken;
      assert ([s[..k]] + Chunks(s[k..]))[1..] == Chunks(s[k..]);
      assert s == s[..k] + s[k..];
    }
  }

  lemma FirstIsChunk(s: string)
    requires s != ""
    ensures IsChunk(s[..Taken(s, LIMIT)]) && (s[Taken(s, LIMIT)..] != "" ==> Closed(s[..Taken(s, LIMIT)]))
  {
    var k := Taken(s, LIMIT);
    assert forall i | 0 <= i < k :: s[..k][i] == s[i];
  }

  lemma {:induction false} ConcatJoin(a: seq<string>, b: seq<string>)
    ensures Concat(a + b) == Concat(a) + Concat(b)
    decreases |a|
  {
    if a == [] {
      assert a + b == b;
    } else {
      assert (a + b)[1..] == a[1..] + b;
      ConcatJoin(a[1..], b);
    }
  }

  // ----- The operations -----

  function Insert(lines: seq<string>, at: nat, line: string): seq<string>
    requires at <= |lines|
  {
    lines[..at] + [line] + lines[at..]
  }

  function Remove(lines: seq<string>, at: nat): seq<string>
    requires at < |lines|
  {
    lines[..at] + lines[at + 1..]
  }

  // The file after each operation; None where it reports an error and writes nothing.
  function Inserted(file: Option<string>, linenum: int, text: string): Option<string> {
    if file.None? then (if linenum == 1 then Some(WithNewline(text)) else None)
    else
      var lines := Lines(file.value);
      if linenum < 1 || linenum > |lines| + 1 then None
      else Some(Concat(Insert(lines, linenum - 1, WithNewline(text))))
  }

  function Deleted(file: Option<string>, linenum: int): Option<string> {
    if file.None? then None
    else
      var lines := Lines(file.value);
      if linenum < 1 || linenum > |lines| then None else Some(Concat(Remove(lines, linenum - 1)))
  }

  function Replaced(file: Option<string>, linenum: int, text: string): Option<string> {
    if file.None? then None
    else
      var lines := Lines(file.value);
      if linenum < 1 || linenum > |lines| then None else Some(Concat(lines[linenum - 1 := WithNewline(text)]))
  }

  // ----- The code -----

  function ChunkAt(file: string, pos: nat): string
    requires pos <= |file|
  {
    file[pos..][..Taken(file[pos..], LIMIT)]
  }

  // fgets.
  method ReadChunk(file: string, pos: nat) returns (buf: string)
    requires pos <= |file|
    ensures buf == ChunkAt(file, pos)
  {
    hide Taken;
    ghost var rest := file[pos..];
    var k := 0;
    TakenStart(rest);
    while pos + k < |file| && k < LIMIT && (k == 0 || file[pos + k - 1] != '\n')
      invariant pos + k <= |file| && k <= LIMIT
      invariant forall i | 0 <= i < k - 1 :: rest[i] != '\n'
    {
      k := k + 1;
    }
    if k > 0 {
      TakenIs(rest, k);
    }
    buf := file[pos..pos + k];
    assert buf == rest[..k];
  }

  lemma TakenStart(s: string)
    ensures Taken(s, LIMIT) == 0 <==> s == ""
  {
  }

  /** edit_read_lines, into an array that doubles when it is full. */
  method ReadLines(file: string) returns (lines: array<string>, n: nat)
    ensures fresh(lines) && n <= lines.Length && lines[..n] == Lines(file)
  {
    hide Chunks, ChunkAt, Heads;
    lines := new string[256](_ => "");
    n := 0;
    var pos := 0;
    ghost var done: seq<string> := [];
    assert file[0..] == file;
    var buf := ReadChunk(file, pos);
    while buf != ""
      invariant pos <= |file| && fresh(lines) && 0 < lines.Length
      invariant buf == ChunkAt(file, pos)
      invariant n == |done| <= lines.Length && lines[..n] == Heads(done)
      invariant done + Chunks(file[pos..]) == Chunks(file)
      decreases |file| - pos
    {
      lines := Push(lines, n, Head(buf));
      n := n + 1;
      NextChunk(file, pos);
      HeadsMore(done, buf);
      assert done + ([buf] + Chunks(file[pos + |buf|..])) == (done + [buf]) + Chunks(file[pos + |buf|..]);
      done := done + [buf];
      pos := pos + |buf|;
      buf := ReadChunk(file, pos);
    }
    NoneLeft(file, pos);
    assert done + [] == done;
  }

  lemma NoneLeft(file: string, pos: nat)
    requires pos <= |file| && ChunkAt(file, pos) == ""
    ensures Chunks(file[pos..]) == []
  {
    TakenStart(file[pos..]);
  }

  lemma HeadsMore(done: seq<string>, c: string)
    ensures Heads(done + [c]) == Heads(done) + [Head(c)]
  {
  }

  lemma NextChunk(file: string, pos: nat)
    requires pos <= |file| && ChunkAt(file, pos) != ""
    ensures var buf := ChunkAt(file, pos);
            pos + |buf| <= |file| && Chunks(file[pos..]) == [buf] + Chunks(file[pos + |buf|..])
  {
    hide Chunks, Taken;
    FirstChunk(file[pos..]);
    SuffixOf(file, pos, Taken(file[pos..], LIMIT));
  }

  lemma SuffixOf(file: string, pos: nat, k: nat)
    requires pos + k <= |file|
    ensures file[pos..][k..] == file[pos + k..]
  {
  }

  lemma NoChunks()
    ensures Chunks("") == []
  {
  }

  // Stores one line more, in an array of twice the size when this one is full.
  method Push(a: array<string>, n: nat, line: string) returns (b: array<string>)
    requires n <= a.Length && 0 < a.Length
    modifies a
    ensures (b == a || fresh(b)) && n < b.Length && b[..n + 1] == old(a[..n]) + [line]
  {
    b := a;
    if n == a.Length {
      b := Doubled(a);
    }
    b[n] := line;
    assert b[..n] == old(a[..n]);
  }

  method Doubled(a: array<string>) returns (b: array<string>)
    ensures fresh(b) && b.Length == 2 * a.Length && b[..a.Length] == a[..]
  {
    b := new string[2 * a.Length](_ => "");
    for i := 0 to a.Length
      invariant forall k | 0 <= k < i :: b[k] == a[k]
    {
      b[i] := a[i];
    }
  }

  // edit_write_lines: what the file holds afterwards.
  method WriteLines(lines: array<string>, count: nat) returns (file: string)
    requires count <= lines.Length
    ensures file == Concat(lines[..count])
  {
    file := "";
    for i := 0 to count
      invariant file == Concat(lines[..i])
    {
      assert lines[..i + 1] == lines[..i] + [lines[i]];
      ConcatJoin(lines[..i], [lines[i]]);
      file := file + lines[i];
    }
  }

  method InsertLine(file: Option<string>, linenum: int, text: string) returns (file': Option<string>)
    ensures file' == Inserted(file, linenum, text)
  {
    hide Chunks;
    var lines, count := new string[1](_ => ""), 0;
    if file.None? {
      if linenum != 1 {
        return None;
      }
    } else {
      lines, count := ReadLines(file.value);
    }
    if linenum < 1 || linenum > count + 1 {
      return None;
    }
    var newline := WithNewline(text);
    var nlines := InsertInto(lines, count, linenum - 1, newline);
    assert lines[..0] == [] && Insert([], 0, newline) == [newline] && Concat([newline]) == newline;
    var out := WriteLines(nlines, count + 1);
    file' := Some(out);
  }

  method InsertInto(lines: array<string>, count: nat, ins: nat, newline: string) returns (nlines: array<string>)
    requires ins <= count <= lines.Length
    ensures nlines.Length == count + 1 && nlines[..count + 1] == Insert(lines[..count], ins, newline)
  {
    nlines := new string[count + 1](_ => "");
    for i := 0 to ins
      invariant forall k | 0 <= k < i :: nlines[k] == lines[k]
    {
      nlines[i] := lines[i];
    }
    nlines[ins] := newline;
    ghost var start := nlines[..ins + 1];
    assert start == lines[..ins] + [newline];
    for i := ins to count
      invariant nlines[..ins + 1] == start
      invariant nlines[ins + 1..i + 1] == lines[ins..i]
    {
      nlines[i + 1] := lines[i];
      assert nlines[ins + 1..i + 2] == nlines[ins + 1..i + 1] + [nlines[i + 1]];
    }
    assert nlines[..count + 1] == start + lines[ins..count];
    assert lines[..count][..ins] == lines[..ins] && lines[..count][ins..] == lines[ins..count];
  }

  method DeleteLine(file: Option<string>, linenum: int) returns (file': Option<string>)
    ensures file' == Deleted(file, linenum)
  {
    if file.None? {
      return None;
    }
    var lines, count := ReadLines(file.value);
    if linenum < 1 || linenum > count {
      return None;
    }
    RemoveFrom(lines, count, linenum - 1);
    var out := WriteLines(lines, count - 1);
    file' := Some(out);
  }

  // The lines behind move up by one.
  method RemoveFrom(lines: array<string>, count: nat, at: nat)
    requires at < count <= lines.Length
    modifies lines
    ensures lines[..count - 1] == Remove(old(lines[..count]), at)
  {
    ghost var before := lines[..count];
    for i := at to count - 1
      invariant forall k | 0 <= k < at :: lines[k] == before[k]
      invariant forall k | at <= k < i :: lines[k] == before[k + 1]
      invariant forall k | i <= k < count :: lines[k] == before[k]
    {
      lines[i] := lines[i + 1];
    }
    assert lines[..count - 1] == Remove(before, at);
  }

  method ReplaceLine(file: Option<string>, linenum: int, text: string) returns (file': Option<string>)
    ensures file' == Replaced(file, linenum, text)
  {
    if file.None? {
      return None;
    }
    var lines, count := ReadLines(file.value);
    if linenum < 1 || linenum > count {
      return None;
    }
    ghost var before := lines[..count];
    lines[linenum - 1] := WithNewline(text);
    assert lines[..count] == before[linenum - 1 := WithNewline(text)];
    var out := WriteLines(lines, count);
    file' := Some(out);
  }

  // ----- Reading and writing back -----

  lemma HeadsOfPlain(chunks: seq<string>)
    requires forall i | 0 <= i < |chunks| :: '\0' !in chunks[i]
    ensures Heads(chunks) == chunks
  {
    forall i | 0 <= i < |chunks| ensures Head(chunks[i]) == chunks[i] {
      HeadIs(chunks[i], chunks[i]);
    }
  }

  lemma {:induction false} NulIn(lines: seq<string>)
    ensures '\0' in Concat(lines) <==> exists i :: 0 <= i < |lines| && '\0' in lines[i]
    decreases |lines|
  {
    if lines != [] {
      NulIn(lines[1..]);
      assert forall i | 1 <= i < |lines| :: lines[i] == lines[1..][i - 1];
      assert Concat(lines) == lines[0] + Concat(lines[1..]);
    }
  }

  // A file without NUL is read as its chunks.
  lemma PlainLines(file: string)
    requires '\0' !in file
    ensures Lines(file) == Chunks(file) && Concat(Lines(file)) == file
  {
    ChunksAre(file);
    NulIn(Chunks(file));
    HeadsOfPlain(Chunks(file));
  }

  /** Reading a file and writing its lines back keeps it exactly if it has no NUL. */
  lemma ReadThenWriteIff(file: string)
    ensures Concat(Lines(file)) == file <==> '\0' !in file
  {
    NulIn(Lines(file));
    if '\0' !in file {
      PlainLines(file);
    }
  }

  // ----- Insert, then delete -----

  // The file after inserting at linenum and then deleting that line, whatever the calls report.
  function InsertDelete(file: string, linenum: int, text: string): string {
    var after := Inserted(Some(file), linenum, text);
    if after.None? then file
    else
      var again := Deleted(after, linenum);
      if again.None? then after.value else again.value
  }

  // The new line is read back as one line.
  ghost predicate OneLine(text: string) {
    Closed(WithNewline(text))
  }

  // The last line is short and has no newline.
  ghost predicate OpenEnd(file: string) {
    file != "" && var chunks := Chunks(file); chunks != [] && !Closed(chunks[|chunks| - 1])
  }

  // Inserting behind closed lines: what is read there again.
  lemma InsertReads(file: string, at: nat, line: string)
    requires '\0' !in file && '\0' !in line && at <= |Chunks(file)| && AllClosed(Chunks(file)[..at])
    ensures var rest := line + Concat(Chunks(file)[at..]);
            && Concat(Insert(Lines(file), at, line)) == Concat(Chunks(file)[..at]) + rest
            && '\0' !in Concat(Chunks(file)[..at]) + rest
            && Chunks(Concat(Chunks(file)[..at]) + rest) == Chunks(file)[..at] + Chunks(rest)
  {
    hide *;
    var chunks := Chunks(file);
    PlainLines(file);
    ClosedPrefix(chunks[..at], line + Concat(chunks[at..]));
    ConcatInsert(chunks, at, line);
    ConcatSplit(chunks, at);
    assert file == Concat(chunks[..at]) + Concat(chunks[at..]);
  }

  lemma ConcatInsert(lines: seq<string>, at: nat, line: string)
    requires at <= |lines|
    ensures Concat(Insert(lines, at, line)) == Concat(lines[..at]) + (line + Concat(lines[at..]))
  {
    hide Concat;
    var before, behind := lines[..at], lines[at..];
    ConcatThree(before, line, behind);
    Regroup(Concat(before), line, Concat(behind));
  }

  lemma ConcatSplit(lines: seq<string>, at: nat)
    requires at <= |lines|
    ensures Concat(lines) == Concat(lines[..at]) + Concat(lines[at..])
  {
    assert lines == lines[..at] + lines[at..];
    hide *;
    ConcatJoin(lines[..at], lines[at..]);
  }

  lemma {:induction false} ClosedTaken(line: string, rest: string)
    requires line != "" && line[|line| - 1] == '\n'
    ensures 0 < Taken(line + rest, LIMIT) <= |line|
    ensures Taken(line + rest, LIMIT) == |line| <==> Closed(line)
  {
    var s := line + rest;
    var t := Taken(s, LIMIT);
    assert s[|line| - 1] == '\n';
    assert forall i | 0 <= i < |line| :: s[i] == line[i];
    if Closed(line) {
      TakenIs(s, |line|);
    }
  }

  // The first chunk of the rest removed again.
  lemma RemoveFirst(before: seq<string>, rest: string)
    requires rest != ""
    ensures var chunks := before + Chunks(rest);
            |before| < |chunks| && Concat(Remove(chunks, |before|)) == Concat(before) + rest[Taken(rest, LIMIT)..]
  {
    hide Chunks, Concat;
    var k := Taken(rest, LIMIT);
    FirstChunk(rest);
    assert Remove(before + Chunks(rest), |before|) == before + Chunks(rest[k..]);
    ConcatJoin(before, Chunks(rest[k..]));
    ChunksAre(rest[k..]);
  }

  lemma RestoredWhenClosed(file: string, at: nat, text: string)
    requires '\0' !in file && '\0' !in text && at <= |Lines(file)| && |Chunks(file)| == |Lines(file)|
    requires AllClosed(Chunks(file)[..at])
    ensures InsertDelete(file, at + 1, text) == file <==> OneLine(text)
  {
    hide Chunks, AllClosed, Closed, Concat;
    var line, chunks := WithNewline(text), Chunks(file);
    var a, b := Concat(chunks[..at]), Concat(chunks[at..]);
    InsertReads(file, at, line);
    PlainLines(a + (line + b));
    RemoveFirst(chunks[..at], line + b);
    ClosedTaken(line, b);
    ChunksAre(file);
    ConcatJoin(chunks[..at], chunks[at..]);
    assert chunks == chunks[..at] + chunks[at..];
    var k := Taken(line + b, LIMIT);
    assert (line + b)[k..] == line[k..] + b;
    assert InsertDelete(file, at + 1, text) == a + (line[k..] + b);
    assert |InsertDelete(file, at + 1, text)| == |file| + |line| - k;
    assert k == |line| ==> line[k..] + b == b;
  }

  lemma OpenTaken(last: string, line: string)
    requires IsChunk(last) && !Closed(last) && line != ""
    ensures |last| < Taken(last + line, LIMIT)
  {
    var s := last + line;
    var t := Taken(s, LIMIT);
    assert forall i | 0 <= i < |last| :: s[i] == last[i];
    var atTaken := s[t - 1];
  }

  // Appended behind an open line, the new text becomes part of it.
  lemma LostWhenOpen(file: string, text: string)
    requires '\0' !in file && '\0' !in text && OpenEnd(file)
    ensures InsertDelete(file, |Lines(file)| + 1, text) != file
  {
    hide Chunks, Closed, IsChunk, Concat;
    var line, chunks := WithNewline(text), Chunks(file);
    var n := |chunks| - 1;
    var before, last := chunks[..n], chunks[n];
    ChunksAre(file);
    PlainLines(file);
    assert chunks == before + [last];
    ConcatJoin(before, [last]);
    ConcatOne(last);
    assert file == Concat(before) + last;
    ConcatJoin(chunks, [line]);
    ConcatOne(line);
    assert Insert(chunks, n + 1, line) == chunks + [line];
    var after := file + line;
    assert Inserted(Some(file), n + 2, text) == Some(after);
    assert after == Concat(before) + (last + line);
    ClosedPrefix(before, last + line);
    PlainLines(after);
    OpenTaken(last, line);
    var k := Taken(last + line, LIMIT);
    var first, rest := (last + line)[..k], (last + line)[k..];
    FirstChunk(last + line);
    assert Lines(after) == before + ([first] + Chunks(rest));
    if rest == "" {
      NoChunks();
      assert |Lines(after)| == n + 1;
    } else {
      assert Lines(after) == (before + [first]) + Chunks(rest);
      RemoveFirst(before + [first], rest);
      ConcatJoin(before, [first]);
      ConcatOne(first);
    }
  }

  lemma ConcatOne(line: string)
    ensures Concat([line]) == line
  {
  }

  lemma FirstChunk(s: string)
    requires s != ""
    ensures Chunks(s) == [s[..Taken(s, LIMIT)]] + Chunks(s[Taken(s, LIMIT)..])
  {
  }

  // What is written has no NUL.
  lemma PlainAfter(file: string, linenum: int, text: string)
    requires '\0' !in text && 1 <= linenum <= |Lines(file)| + 1
    ensures '\0' !in InsertDelete(file, linenum, text)
  {
    hide Chunks, Concat;
    assert '\0' !in WithNewline(text);
    var lines, line := Lines(file), WithNewline(text);
    var inserted := Insert(lines, linenum - 1, line);
    assert forall i | 0 <= i < |inserted| :: '\0' !in inserted[i];
    NulIn(inserted);
    var again := Lines(Concat(inserted));
    if linenum <= |again| {
      var left := Remove(again, linenum - 1);
      assert forall i | 0 <= i < |left| :: '\0' !in left[i];
      NulIn(left);
    }
  }

  /** Inserting a line and deleting it again restores the file's bytes exactly if the file has no NUL,
      the new text is read back as one line (it has no newline but at its end and at most 8190 bytes
      before that), and it was not appended behind a short last line without newline. */
  lemma InsertThenDeleteIff(file: string, linenum: int, text: string)
    requires '\0' !in text && 1 <= linenum <= |Lines(file)| + 1
    ensures InsertDelete(file, linenum, text) == file <==>
            '\0' !in file && OneLine(text) && !(linenum == |Lines(file)| + 1 && OpenEnd(file))
  {
    hide Chunks, InsertDelete, Closed, IsChunk;
    PlainAfter(file, linenum, text);
    if '\0' !in file {
      ChunksAre(file);
      if linenum == |Lines(file)| + 1 && OpenEnd(file) {
        LostWhenOpen(file, text);
      } else {
        RestoredWhenClosed(file, linenum - 1, text);
      }
    }
  }

  /** What OneLine means for the text as it was given. */
  lemma OneLineIs(text: string)
    ensures OneLine(text) <==>
            var n := if text != "" && text[|text| - 1] == '\n' then |text| - 1 else |text|;
            n <= 8190 && '\n' !in text[..n]
  {
    var line := WithNewline(text);
    assert line[..|line| - 1] == text[..|line| - 1];
    assert forall i | 0 <= i < |line| - 1 :: line[i] == text[..|line| - 1][i];
  }

  /** Replacing a line by itself keeps the file exactly if it has no NUL and the line ends with a
      newline: otherwise a newline is added. */
  lemma ReplaceBySameIff(file: string, linenum: int)
    requires 1 <= linenum <= |Lines(file)|
    ensures var line := Lines(file)[linenum - 1];
            Replaced(Some(file), linenum, line) == Some(file) <==>
            '\0' !in file && line != "" && line[|line| - 1] == '\n'
  {
    hide Chunks, Concat;
    var lines := Lines(file);
    var line := lines[linenum - 1];
    var changed := lines[linenum - 1 := WithNewline(line)];
    assert forall i | 0 <= i < |changed| :: '\0' !in changed[i];
    NulIn(changed);
    hide Lines, Heads, WithNewline;
    if '\0' !in file {
      PlainLines(file);
      assert lines == lines[..linenum - 1] + [line] + lines[linenum..];
      assert changed == lines[..linenum - 1] + [WithNewline(line)] + lines[linenum..];
      ConcatThree(lines[..linenum - 1], line, lines[linenum..]);
      ConcatThree(lines[..linenum - 1], WithNewline(line), lines[linenum..]);
      SameWithNewline(line);
    }
  }

  lemma SameWithNewline(line: string)
    ensures |WithNewline(line)| == |line| <==> WithNewline(line) == line
    ensures WithNewline(line) == line <==> line != "" && line[|line| - 1] == '\n'
  {
  }

  lemma ConcatThree(a: seq<string>, line: string, b: seq<string>)
    ensures Concat(a + [line] + b) == Concat(a) + line + Concat(b)
  {
    hide Concat;
    ConcatJoin(a + [line], b);
    ConcatJoin(a, [line]);
    ConcatOne(line);
  }
}
