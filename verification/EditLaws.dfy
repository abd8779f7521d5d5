/** What the three line operations make of a file's bytes, and of the lines that are read afterwards. */
module EditLaws {
  import opened Texts
  import opened Wrappers
  import opened EditLines

  // Where line k of a file begins, from 0 on.
  function Start(file: string, k: nat): (p: nat)
    requires k <= |Chunks(file)|
    ensures p <= |file|
  {
    PartIsInside(file, k);
    |Concat(Chunks(file)[..k])|
  }

  lemma PartIsInside(file: string, k: nat)
    requires k <= |Chunks(file)|
    ensures file == Concat(Chunks(file)[..k]) + Concat(Chunks(file)[k..])
  {
    hide Chunks, Concat;
    ChunksAre(file);
    ConcatSplit(Chunks(file), k);
  }

  // Lines stand one behind the other from the file's beginning to its end.
  lemma LineStands(file: string, k: nat)
    requires k < |Chunks(file)|
    ensures var p, line := Start(file, k), Chunks(file)[k];
            p + |line| == Start(file, k + 1) <= |file| && file[p..p + |line|] == line
  {
    var chunks := Chunks(file);
    FileParts(file, k);
    FileParts(file, k + 1);
    hide Chunks, Concat;
    assert chunks[..k + 1] == chunks[..k] + [chunks[k]];
    ConcatJoin(chunks[..k], [chunks[k]]);
    ConcatOne(chunks[k]);
    var before, line, behind := Concat(chunks[..k]), chunks[k], Concat(chunks[k + 1..]);
    MiddleStands(before, line, behind);
  }

  lemma MiddleStands(a: string, b: string, c: string)
    ensures ((a + b) + c)[|a|..|a| + |b|] == b
  {
  }

  lemma FileParts(file: string, k: nat)
    requires k <= |Chunks(file)|
    ensures file == Concat(Chunks(file)[..k]) + Concat(Chunks(file)[k..])
    ensures file[..Start(file, k)] == Concat(Chunks(file)[..k]) && file[Start(file, k)..] == Concat(Chunks(file)[k..])
  {
    hide Chunks, Concat;
    PartIsInside(file, k);
  }

  // ----- The bytes -----

  /** Inserting puts the text, with a newline at its end, where the line of that number begins or where
      the file ends, and changes nothing else. */
  lemma InsertedIs(file: string, linenum: int, text: string)
    requires '\0' !in file
    ensures var n := |Chunks(file)|;
            Inserted(Some(file), linenum, text) == if linenum < 1 || linenum > n + 1 then None else
              Some(file[..Start(file, linenum - 1)] + WithNewline(text) + file[Start(file, linenum - 1)..])
  {
    hide Chunks, Concat, Start;
    PlainLines(file);
    if 1 <= linenum <= |Chunks(file)| + 1 {
      var k := linenum - 1;
      FileParts(file, k);
      ConcatInsert(Chunks(file), k, WithNewline(text));
      Regroup(file[..Start(file, k)], WithNewline(text), file[Start(file, k)..]);
    }
  }

  /** Deleting takes out exactly the bytes of that line. */
  lemma DeletedIs(file: string, linenum: int)
    requires '\0' !in file
    ensures var n := |Chunks(file)|;
            Deleted(Some(file), linenum) == if linenum < 1 || linenum > n then None else
              Some(file[..Start(file, linenum - 1)] + file[Start(file, linenum)..])
  {
    hide Chunks, Concat, Start;
    PlainLines(file);
    if 1 <= linenum <= |Chunks(file)| {
      FileParts(file, linenum - 1);
      FileParts(file, linenum);
      ConcatJoin(Chunks(file)[..linenum - 1], Chunks(file)[linenum..]);
    }
  }

  /** Replacing puts the text, with a newline at its end, in the place of exactly the bytes of that line. */
  lemma ReplacedIs(file: string, linenum: int, text: string)
    requires '\0' !in file
    ensures var n := |Chunks(file)|;
            Replaced(Some(file), linenum, text) == if linenum < 1 || linenum > n then None else
              Some(file[..Start(file, linenum - 1)] + WithNewline(text) + file[Start(file, linenum)..])
  {
    hide Chunks, Concat, Start;
    PlainLines(file);
    if 1 <= linenum <= |Chunks(file)| {
      var chunks, k := Chunks(file), linenum - 1;
      FileParts(file, k);
      FileParts(file, k + 1);
      UpdateIs(chunks, k, WithNewline(text));
      ConcatThree(chunks[..k], WithNewline(text), chunks[k + 1..]);
    }
  }

  lemma UpdateIs(lines: seq<string>, k: nat, line: string)
    requires k < |lines|
    ensures lines[k := line] == lines[..k] + [line] + lines[k + 1..]
  {
  }

  /** A file that does not exist can only get a first line. */
  lemma MissingFile(linenum: int, text: string)
    ensures Inserted(None, linenum, text) == if linenum == 1 then Some(WithNewline(text)) else None
    ensures Deleted(None, linenum) == None && Replaced(None, linenum, text) == None
  {
  }

  // ----- The lines that are read afterwards -----

  // What stands behind a line is cut into the same lines wherever it stands.
  lemma RestOfLines(file: string, k: nat)
    requires k <= |Chunks(file)|
    ensures Chunks(Concat(Chunks(file)[k..])) == Chunks(file)[k..]
    ensures k < |Chunks(file)| ==> AllClosed(Chunks(file)[..k])
  {
    var chunks := Chunks(file);
    ChunksAre(file);
    ConcatSplit(chunks, k);
    hide Chunks, Concat, Closed, IsChunk;
    if k == |chunks| {
      assert chunks[k..] == [];
      NoText();
    } else {
      ClosedPrefix(chunks[..k], Concat(chunks[k..]));
      assert chunks == chunks[..k] + chunks[k..];
    }
  }

  lemma NoText()
    ensures Concat([]) == "" && Chunks("") == []
  {
  }

  lemma ClosedMore(before: seq<string>, line: string)
    requires AllClosed(before) && Closed(line)
    ensures AllClosed(before + [line])
  {
    hide Closed;
  }

  /** The replaced line is read back as itself, with all others unchanged, exactly if the text is a line. */
  lemma ReplaceReadsBackIff(file: string, linenum: int, text: string)
    requires '\0' !in file && '\0' !in text && 1 <= linenum <= |Chunks(file)|
    ensures Replaced(Some(file), linenum, text).Some?
    ensures Lines(Replaced(Some(file), linenum, text).value) == Lines(file)[linenum - 1 := WithNewline(text)] <==>
            OneLine(text)
  {
    hide *;
    var chunks, k, line := Chunks(file), linenum - 1, WithNewline(text);
    ReplacedIs(file, linenum, text);
    FileParts(file, k);
    FileParts(file, k + 1);
    PlainLines(file);
    WithNewlineHasNoNul(text);
    PlainReplaced(file, Start(file, k), line, Start(file, k + 1));
    PlainLines(file[..Start(file, k)] + line + file[Start(file, k + 1)..]);
    RestOfLines(file, k);
    RestOfLines(file, k + 1);
    MiddleReadsBackIff(chunks[..k], line, Concat(chunks[k + 1..]), chunks[k + 1..]);
    UpdateIs(chunks, k, line);
  }

  lemma MiddleReadsBackIff(before: seq<string>, line: string, rest: string, behind: seq<string>)
    requires AllClosed(before) && line != "" && line[|line| - 1] == '\n' && Chunks(rest) == behind
    ensures Chunks((Concat(before) + line) + rest) == (before + [line]) + behind <==> Closed(line)
  {
    hide *;
    Regroup(Concat(before), line, rest);
    ClosedPrefix(before, line + rest);
    LineThenRestIff(line, rest);
    Regroup(before, [line], behind);
    SameBehindIff(before, Chunks(line + rest), [line] + behind);
  }

  lemma WithNewlineHasNoNul(text: string)
    requires '\0' !in text
    ensures '\0' !in WithNewline(text) && WithNewline(text) != "" && WithNewline(text)[|WithNewline(text)| - 1] == '\n'
    ensures OneLine(text) <==> Closed(WithNewline(text))
  {
  }

  lemma PlainReplaced(file: string, p: nat, line: string, q: nat)
    requires '\0' !in file && '\0' !in line && p <= |file| && q <= |file|
    ensures '\0' !in file[..p] + line + file[q..]
  {
  }

  lemma SameBehindIff(a: seq<string>, b: seq<string>, c: seq<string>)
    ensures a + b == a + c <==> b == c
  {
    assert (a + b)[|a|..] == b && (a + c)[|a|..] == c;
  }

  // A text that ends with a newline is read back in front of others exactly if it is closed.
  lemma LineThenRestIff(line: string, rest: string)
    requires line != "" && line[|line| - 1] == '\n'
    ensures Chunks(line + rest) == [line] + Chunks(rest) <==> Closed(line)
  {
    hide Chunks, Closed, Taken;
    ClosedTaken(line, rest);
    FirstChunk(line + rest);
    var k := Taken(line + rest, LIMIT);
    if k == |line| {
      assert (line + rest)[..k] == line && (line + rest)[k..] == rest;
    } else {
      assert |(line + rest)[..k]| == k;
      assert Chunks(line + rest)[0] != ([line] + Chunks(rest))[0];
    }
  }

  /** After a deletion exactly the other lines are read. */
  lemma DeleteReadsBack(file: string, linenum: int)
    requires '\0' !in file && 1 <= linenum <= |Chunks(file)|
    ensures Deleted(Some(file), linenum).Some?
    ensures var left := Deleted(Some(file), linenum).value;
            '\0' !in left && Lines(left) == Chunks(left) == Lines(file)[..linenum - 1] + Lines(file)[linenum..]
  {
    var chunks, k := Chunks(file), linenum - 1;
    hide *;
    DeletedIs(file, linenum);
    FileParts(file, k);
    FileParts(file, k + 1);
    PlainLines(file);
    PlainReplaced(file, Start(file, k), "", Start(file, k + 1));
    assert file[..Start(file, k)] + "" == file[..Start(file, k)];
    PlainLines(file[..Start(file, k)] + file[Start(file, k + 1)..]);
    RestOfLines(file, k);
    RestOfLines(file, k + 1);
    ClosedPrefix(chunks[..k], Concat(chunks[k + 1..]));
  }

  /** Replacing a line is deleting it and inserting the text there, for every number. */
  lemma ReplaceIsDeleteThenInsert(file: string, linenum: int, text: string)
    requires '\0' !in file
    ensures var left := Deleted(Some(file), linenum);
            Replaced(Some(file), linenum, text) == if left.None? then None else Inserted(left, linenum, text)
  {
    hide *;
    ReplacedIs(file, linenum, text);
    DeletedIs(file, linenum);
    if 1 <= linenum <= |Chunks(file)| {
      var k := linenum - 1;
      DeleteReadsBack(file, linenum);
      FileParts(file, k);
      FileParts(file, k + 1);
      PlainLines(file);
      var left := Deleted(Some(file), linenum).value;
      InsertedIs(left, linenum, text);
      SameStart(file, left, k);
    }
  }

  // A file that begins with the same lines.
  lemma SameStart(file: string, left: string, k: nat)
    requires k < |Chunks(file)|
    requires Chunks(left) == Chunks(file)[..k] + Chunks(file)[k + 1..]
    requires left == file[..Start(file, k)] + file[Start(file, k + 1)..]
    ensures k <= |Chunks(left)| && Start(left, k) == Start(file, k) <= |left|
    ensures left[..Start(left, k)] == file[..Start(file, k)] && left[Start(left, k)..] == file[Start(file, k + 1)..]
  {
    hide Chunks, Concat;
    assert Chunks(left)[..k] == Chunks(file)[..k];
  }
}
