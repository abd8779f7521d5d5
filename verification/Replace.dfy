/** The two literal replace-alls, of xargs -I and of edit replace: a counting pass sizes a buffer
    and a copying pass fills it. */
module Replace {
  import opened Wrappers
  import opened CStrings

  predicate StartsWith(s: string, pat: string) {
    |pat| <= |s| && s[..|pat|] == pat
  }

  // strstr(s + from, pat).
  function Find(s: string, pat: string, from: nat): (at: Option<nat>)
    requires from <= |s|
    ensures at.Some? ==> from <= at.value && at.value + |pat| <= |s|
    decreases |s| - from
  {
    if StartsWith(s[from..], pat) then Some(from)
    else if from == |s| then None
    else Find(s, pat, from + 1)
  }

  /** Every occurrence from left to right, going on behind it. */
  function Replaced(s: string, pat: string, new_s: string): string
    requires pat != ""
    decreases |s|
  {
    if s == "" then ""
    else if StartsWith(s, pat) then new_s + Replaced(s[|pat|..], pat, new_s)
    else [s[0]] + Replaced(s[1..], pat, new_s)
  }

  function Count(s: string, pat: string): nat
    requires pat != ""
    decreases |s|
  {
    if s == "" then 0 else if StartsWith(s, pat) then 1 + Count(s[|pat|..], pat) else Count(s[1..], pat)
  }

  // ----- What a replacement is -----

  // The text between the occurrences.
  function Pieces(s: string, pat: string): (r: seq<string>)
    requires pat != ""
    ensures r != []
    decreases |s|
  {
    if s == "" then [""]
    else if StartsWith(s, pat) then [""] + Pieces(s[|pat|..], pat)
    else var rest := Pieces(s[1..], pat); [[s[0]] + rest[0]] + rest[1..]
  }

  function Join(pieces: seq<string>, sep: string): string
    requires pieces != []
    decreases |pieces|
  {
    if |pieces| == 1 then pieces[0] else pieces[0] + sep + Join(pieces[1..], sep)
  }

  lemma JoinMore(pieces: seq<string>, sep: string, c: char)
    requires pieces != []
    ensures Join([""] + pieces, sep) == sep + Join(pieces, sep)
    ensures Join([[c] + pieces[0]] + pieces[1..], sep) == [c] + Join(pieces, sep)
  {
    assert ([""] + pieces)[1..] == pieces;
    var longer := [[c] + pieces[0]] + pieces[1..];
    assert longer[1..] == pieces[1..];
    if |pieces| > 1 {
      assert Join(longer, sep) == ([c] + pieces[0]) + sep + Join(pieces[1..], sep);
      assert Join(longer, sep) == [c] + (pieces[0] + sep + Join(pieces[1..], sep));
    }
  }

  lemma {:induction false} JoinPieces(s: string, pat: string, sep: string)
    requires pat != ""
    ensures Join(Pieces(s, pat), sep) == Replaced(s, pat, sep)
    decreases |s|
  {
    if s != "" {
      var rest := if StartsWith(s, pat) then s[|pat|..] else s[1..];
      JoinPieces(rest, pat, sep);
      JoinMore(Pieces(rest, pat), sep, s[0]);
      hide Join;
    }
  }

  // Replacing by the same text changes nothing.
  lemma {:induction false} ReplacedBySame(s: string, pat: string)
    requires pat != ""
    ensures Replaced(s, pat, pat) == s
    decreases |s|
  {
    if s != "" {
      ReplacedBySame(if StartsWith(s, pat) then s[|pat|..] else s[1..], pat);
    }
  }

  lemma {:induction false} PiecesCount(s: string, pat: string)
    requires pat != ""
    ensures |Pieces(s, pat)| == Count(s, pat) + 1
    decreases |s|
  {
    if s != "" {
      PiecesCount(if StartsWith(s, pat) then s[|pat|..] else s[1..], pat);
    }
  }

  // No occurrence begins inside a piece, even one that runs into what follows.
  ghost predicate Clear(pieces: seq<string>, pat: string)
    requires pieces != []
    decreases |pieces|
  {
    var all := Join(pieces, pat);
    (forall i | 0 <= i < |pieces[0]| :: !StartsWith(all[i..], pat)) && (|pieces| > 1 ==> Clear(pieces[1..], pat))
  }

  lemma {:induction false} PiecesAreClear(s: string, pat: string)
    requires pat != ""
    ensures Clear(Pieces(s, pat), pat)
    decreases |s|
  {
    JoinPieces(s, pat, pat);
    ReplacedBySame(s, pat);
    if s != "" {
      if StartsWith(s, pat) {
        PiecesAreClear(s[|pat|..], pat);
        assert Pieces(s, pat)[1..] == Pieces(s[|pat|..], pat);
      } else {
        PiecesAreClear(s[1..], pat);
        JoinPieces(s[1..], pat, pat);
        ReplacedBySame(s[1..], pat);
        var rest := Pieces(s[1..], pat);
        assert Pieces(s, pat)[1..] == rest[1..];
        forall i | 0 <= i < |rest[0]| + 1 ensures !StartsWith(s[i..], pat) {
          assert i > 0 ==> s[i..] == s[1..][i - 1..];
        }
      }
    }
  }

  /** The text is the pieces with the pattern between them, none of which an occurrence begins in;
      the result is the same pieces with the new text between them. */
  lemma ReplacedMeans(s: string, pat: string, new_s: string)
    requires pat != ""
    ensures var pieces := Pieces(s, pat);
            && s == Join(pieces, pat) && Clear(pieces, pat) && |pieces| == Count(s, pat) + 1
            && Replaced(s, pat, new_s) == Join(pieces, new_s)
  {
    JoinPieces(s, pat, pat);
    ReplacedBySame(s, pat);
    JoinPieces(s, pat, new_s);
    PiecesAreClear(s, pat);
    PiecesCount(s, pat);
  }

  /** The exact size of the result. */
  lemma {:induction false} ReplacedLength(s: string, pat: string, new_s: string)
    requires pat != ""
    ensures |Replaced(s, pat, new_s)| == |s| + Count(s, pat) * (|new_s| - |pat|)
    decreases |s|
  {
    if s != "" {
      if StartsWith(s, pat) {
        ReplacedLength(s[|pat|..], pat, new_s);
        OneMore(Count(s[|pat|..], pat), |new_s| - |pat|);
      } else {
        ReplacedLength(s[1..], pat, new_s);
      }
    }
  }

  lemma OneMore(n: nat, d: int)
    ensures (1 + n) * d == d + n * d
  {
  }

  // One step of the definitions, at an index.
  lemma StepAt(s: string, pat: string, new_s: string, from: nat)
    requires pat != "" && from <= |s|
    ensures from < |s| && StartsWith(s[from..], pat) ==>
              && from + |pat| <= |s| && Replaced(s[from..], pat, new_s)
                  == new_s + Replaced(s[from + |pat|..], pat, new_s)
              && Count(s[from..], pat) == 1 + Count(s[from + |pat|..], pat)
    ensures from < |s| && !StartsWith(s[from..], pat) ==>
              && Replaced(s[from..], pat, new_s) == [s[from]] + Replaced(s[from + 1..], pat, new_s)
              && Count(s[from..], pat) == Count(s[from + 1..], pat)
    ensures from == |s| ==>
              && !StartsWith(s[from..], pat) && Replaced(s[from..], pat, new_s) == s[from..]
              && Count(s[from..], pat) == 0
  {
    if from < |s| {
      assert s[from..][1..] == s[from + 1..];
      if StartsWith(s[from..], pat) {
        assert s[from..][|pat|..] == s[from + |pat|..];
      }
    }
  }

  // What strstr's answer says about the rest of the text.
  lemma {:induction false} FindSkips(s: string, pat: string, new_s: string, from: nat)
    requires pat != "" && from <= |s|
    ensures match Find(s, pat, from)
            case Some(at) =>
              && Replaced(s[from..], pat, new_s) == s[from..at] + (new_s + Replaced(s[at + |pat|..], pat, new_s))
              && Count(s[from..], pat) == 1 + Count(s[at + |pat|..], pat)
            case None => Replaced(s[from..], pat, new_s) == s[from..] && Count(s[from..], pat) == 0
    decreases |s| - from
  {
    hide Replaced, Count, StartsWith;
    StepAt(s, pat, new_s, from);
    if StartsWith(s[from..], pat) {
      assert s[from..from] == "";
    } else if from < |s| {
      FindSkips(s, pat, new_s, from + 1);
      var at := Find(s, pat, from + 1);
      if at.None? {
        assert s[from..] == [s[from]] + s[from + 1..];
      } else {
        assert s[from..at.value] == [s[from]] + s[from + 1..at.value];
      }
    }
  }

  // ----- The two passes -----

  method CountOccurrences(s: string, pat: string) returns (n: nat)
    requires pat != ""
    ensures n == Count(s, pat)
  {
    hide Count, Find, Replaced;
    n := 0;
    var q := 0;
    assert s[0..] == s;
    var hit := Find(s, pat, q);
    while hit.Some?
      invariant q <= |s| && hit == Find(s, pat, q)
      invariant n + Count(s[q..], pat) == Count(s, pat)
      decreases |s| - q
    {
      FindSkips(s, pat, "", q);
      n := n + 1;
      q := hit.value + |pat|;
      hit := Find(s, pat, q);
    }
    FindSkips(s, pat, "", q);
  }

  // memcpy of text to dst from index d on.
  method CopyIn(dst: array<char>, d: nat, text: string)
    requires d + |text| <= dst.Length
    modifies dst
    ensures dst[..d + |text|] == old(dst[..d]) + text
  {
    forall i | d <= i < d + |text| {
      dst[i] := text[i - d];
    }
  }

  method CopyHit(dst: array<char>, d: nat, between: string, new_s: string) returns (d': nat)
    requires d + |between| + |new_s| <= dst.Length
    modifies dst
    ensures d' == d + |between| + |new_s|
    ensures dst[..d'] == old(dst[..d]) + between + new_s
  {
    CopyIn(dst, d, between);
    d' := d + |between|;
    CopyIn(dst, d', new_s);
    d' := d' + |new_s|;
  }

  /** The copying pass: head is the C string at src, tail what follows it in the buffer. */
  method CopyReplaced(dst: array<char>, head: string, tail: string, pat: string, new_s: string) returns (d: nat)
    requires pat != "" && |Replaced(head, pat, new_s)| + |tail| < dst.Length
    modifies dst
    ensures d == |Replaced(head, pat, new_s)| + |tail|
    ensures dst[..d + 1] == Replaced(head, pat, new_s) + tail + ['\0']
  {
    hide Replaced, Find;
    ghost var all := Replaced(head, pat, new_s);
    d := 0;
    var p := 0;
    assert head[0..] == head;
    var hit := Find(head, pat, p);
    while hit.Some?
      invariant p <= |head| && hit == Find(head, pat, p) && d <= dst.Length
      invariant dst[..d] + Replaced(head[p..], pat, new_s) == all
      decreases |head| - p
    {
      FindSkips(head, pat, new_s, p);
      var at := hit.value;
      HitThenRest(dst[..d], head[p..at], new_s, Replaced(head[at + |pat|..], pat, new_s));
      d := CopyHit(dst, d, head[p..at], new_s);
      p := at + |pat|;
      hit := Find(head, pat, p);
    }
    FindSkips(head, pat, new_s, p);
    d := CopyHit(dst, d, head[p..], tail);
    CopyIn(dst, d, ['\0']);
  }

  lemma HitThenRest(a: string, b: string, c: string, d: string)
    ensures a + (b + (c + d)) == (a + b + c) + d
    ensures |a + (b + (c + d))| == |a| + |b| + |c| + |d|
  {
  }

  /** str_replace_all: the result fills its buffer exactly. */
  method ReplaceAll(src: string, old_s: string, new_s: string) returns (res: array<char>)
    ensures fresh(res)
    ensures res[..] == (if old_s == "" then src else Replaced(src, old_s, new_s)) + ['\0']
  {
    if old_s == "" {
      res := Duplicate(src);
      return;
    }
    var count := CountOccurrences(src, old_s);
    ReplacedLength(src, old_s, new_s);
    if count == 0 {
      NoneToReplace(src, old_s, new_s);
      res := Duplicate(src);
      return;
    }
    var delta := |new_s| - |old_s|;
    var newlen := |src| + count * delta + 1;
    res := new char[newlen](_ => '\0');
    var d := CopyReplaced(res, src, "", old_s, new_s);
    assert res[..] == res[..d + 1];
  }

  lemma {:induction false} NoneToReplace(s: string, pat: string, new_s: string)
    requires pat != "" && Count(s, pat) == 0
    ensures Replaced(s, pat, new_s) == s
    decreases |s|
  {
    if s != "" {
      NoneToReplace(s[1..], pat, new_s);
    }
  }

  method Duplicate(s: string) returns (res: array<char>)
    ensures fresh(res) && res[..] == s + ['\0']
  {
    res := new char[|s| + 1](i requires 0 <= i <= |s| => (s + ['\0'])[i]);
  }

  // ----- edit replace -----

  datatype Outcome = EmptyPattern | Unchanged | Written(contents: string, replaced: nat)

  /** What edit_op_replace makes of a file's contents: occurrences before the first NUL are replaced,
      everything from there on is kept, and the buffer sized beforehand is large enough. */
  method EditReplace(file: string, pattern: string, replacement: string) returns (r: Outcome)
    ensures r.EmptyPattern? <==> pattern == ""
    ensures pattern != "" ==> var head := Head(file); var n := Count(head, pattern);
      r == if n == 0 then Unchanged else Written(Replaced(head, pattern, replacement) + file[|head|..], n)
  {
    if pattern == "" {
      return EmptyPattern;
    }
    var head := Head(file);
    var n := CountOccurrences(head, pattern);
    if n == 0 {
      return Unchanged;
    }
    var growth := if |replacement| > |pattern| then |replacement| - |pattern| else 0;
    ReplacedLength(head, pattern, replacement);
    Grows(n, |replacement| - |pattern|, growth);
    var outsz := |file| + n * growth + 1;
    var dst := new char[outsz](_ => '\0');
    var d := CopyReplaced(dst, head, file[|head|..], pattern, replacement);
    assert dst[..d] == dst[..d + 1][..d];
    r := Written(dst[..d], n);
  }

  lemma Grows(n: nat, d: int, growth: nat)
    requires d <= growth
    ensures n * d <= n * growth && n * growth >= 0
  {
  }

  /** An occurrence that begins before the first NUL ends before it, so searching the text before it
      misses none of them. */
  lemma NoOccurrenceStraddles(file: string, pat: string, i: nat)
    requires '\0' !in pat && i <= |Head(file)| && pat != ""
    ensures i <= |file| && (StartsWith(file[i..], pat) <==> StartsWith(Head(file)[i..], pat))
  {
    var head := Head(file);
    assert head == file[..|head|] && (|head| < |file| ==> file[|head|] == '\0');
    hide *;
    if i + |pat| <= |head| {
      assert head[i..][..|pat|] == file[i..][..|pat|];
    }
    StartsAt(file, pat, i);
    StartsAt(head, pat, i);
    if i + |pat| > |head| && |head| < |file| {
      assert '\0' !in pat ==> pat[|head| - i] != '\0';
    }
  }

  lemma StartsAt(s: string, pat: string, i: nat)
    requires i <= |s|
    ensures StartsWith(s[i..], pat) <==> i + |pat| <= |s| && s[i..][..|pat|] == pat
    ensures StartsWith(s[i..], pat) ==> forall k | 0 <= k < |pat| :: s[i + k] == pat[k]
  {
    if StartsWith(s[i..], pat) {
      assert forall k | 0 <= k < |pat| :: s[i..][..|pat|][k] == s[i + k];
    }
  }
}
