/** split_items of xargs: the input buffer is cut in place into NUL-terminated items. */
module XargsSplit {
  import opened CStrings

  // What separates items: white space, one delimiter, or NUL.
  datatype Mode = Blank | Delimiter(c: char) | Null

  predicate Separates(mode: Mode, c: char) {
    match mode
    case Blank => IsSpace(c)
    case Delimiter(d) => c == d
    case Null => c == '\0'
  }

  // ----- Maximal runs without separators -----

  predicate Starts(s: string, mode: Mode, a: nat) {
    a < |s| && !Separates(mode, s[a]) && (a == 0 || Separates(mode, s[a - 1]))
  }

  // Where the run at a ends.
  function RunEnd(s: string, mode: Mode, a: nat): (e: nat)
    requires a <= |s|
    ensures a <= e <= |s|
    ensures forall i | a <= i < e :: !Separates(mode, s[i])
    ensures e < |s| ==> Separates(mode, s[e])
    decreases |s| - a
  {
    if a == |s| || Separates(mode, s[a]) then a else RunEnd(s, mode, a + 1)
  }

  /** The items in order: the first runs up to the cap, or all of them. */
  ghost predicate Splits(s: string, mode: Mode, items: seq<nat>, cap: nat) {
    && |items| <= cap
    && (forall k | 0 <= k < |items| :: Starts(s, mode, items[k]))
    && (forall k, l | 0 <= k < l < |items| :: items[k] < items[l])
    && (forall a: nat | Starts(s, mode, a) && (|items| < cap || (items != [] && a <= items[|items| - 1])) :: a in items)
  }

  /** Only one list of items splits a text: the order and the cap leave no choice. */
  lemma SplitsIsUnique(s: string, mode: Mode, items: seq<nat>, others: seq<nat>, cap: nat)
    requires Splits(s, mode, items, cap) && Splits(s, mode, others, cap)
    ensures items == others
  {
    var n := if |items| < |others| then |items| else |others|;
    SamePrefix(s, mode, items, others, cap, n);
    if |items| < |others| {
      Present(s, mode, items, others, cap, n);
    } else if |others| < |items| {
      Present(s, mode, others, items, cap, n);
    }
  }

  lemma {:induction false} SamePrefix(s: string, mode: Mode, items: seq<nat>, others: seq<nat>, cap: nat, n: nat)
    requires Splits(s, mode, items, cap) && Splits(s, mode, others, cap)
    requires n <= |items| && n <= |others|
    ensures forall i | 0 <= i < n :: items[i] == others[i]
    decreases n
  {
    hide Splits;
    if n > 0 {
      SamePrefix(s, mode, items, others, cap, n - 1);
      if others[n - 1] <= items[n - 1] {
        Present(s, mode, items, others, cap, n - 1);
      }
      if items[n - 1] <= others[n - 1] {
        Present(s, mode, others, items, cap, n - 1);
      }
    }
  }

  // After the same k items, the next one of one list is found in the other.
  lemma Present(s: string, mode: Mode, items: seq<nat>, others: seq<nat>, cap: nat, k: nat)
    requires Splits(s, mode, items, cap) && Splits(s, mode, others, cap)
    requires k <= |items| && k < |others| && forall i | 0 <= i < k :: items[i] == others[i]
    requires |items| < cap || (k < |items| && others[k] <= items[k])
    ensures k < |items| && items[k] <= others[k]
  {
    assert k < |items| ==> items[k] <= items[|items| - 1];
    assert Starts(s, mode, others[k]);
    var i :| 0 <= i < |items| && items[i] == others[k];
    assert forall j | 0 <= j < k :: items[j] == others[j] && others[j] < others[k];
  }

  // ----- The loops -----

  // The items found so far are all the runs that start before p.
  ghost predicate SoFar(s: string, mode: Mode, items: seq<nat>, cap: nat, p: nat) {
    && |items| <= cap
    && (forall k | 0 <= k < |items| :: Starts(s, mode, items[k]) && items[k] < p)
    && (forall k, l | 0 <= k < l < |items| :: items[k] < items[l])
    && (forall a: nat | Starts(s, mode, a) && a < p :: a in items)
  }

  // Each item found stands in the buffer as its run with a NUL behind it, all before p.
  ghost predicate Standing(buf: string, s: string, mode: Mode, items: seq<nat>, p: nat) {
    && |buf| == |s| + 1 && p <= |s| && buf[|s|] == '\0' && (forall i | p <= i < |s| :: buf[i] == s[i])
    && forall k | 0 <= k < |items| :: items[k] <= |s| && RunEnd(s, mode, items[k]) <= p
        && RunStands(buf, s, mode, items[k])
  }

  ghost predicate RunStands(buf: string, s: string, mode: Mode, a: nat)
    requires |buf| == |s| + 1 && a <= |s|
  {
    var e := RunEnd(s, mode, a);
    buf[a..e] == s[a..e] && buf[e] == '\0'
  }

  lemma RunEndIs(s: string, mode: Mode, a: nat, e: nat)
    requires a <= e <= |s| && (forall i | a <= i < e :: !Separates(mode, s[i])) && (e < |s| ==> Separates(mode, s[e]))
    ensures RunEnd(s, mode, a) == e
  {
    var r := RunEnd(s, mode, a);
    assert forall i | a <= i < r :: !Separates(mode, s[i]);
  }

  lemma SkipSeparator(s: string, mode: Mode, items: seq<nat>, cap: nat, p: nat)
    requires SoFar(s, mode, items, cap, p) && p < |s| && Separates(mode, s[p])
    ensures SoFar(s, mode, items, cap, p + 1)
  {
  }

  // A run that starts at p, after its end.
  lemma TakeRun(s: string, mode: Mode, items: seq<nat>, cap: nat, p: nat)
    requires SoFar(s, mode, items, cap, p) && |items| < cap && Starts(s, mode, p)
    ensures var e := RunEnd(s, mode, p);
            p < e && SoFar(s, mode, items + [p], cap, e) && SoFar(s, mode, items + [p], cap, e + 1)
  {
    NoStartInside(s, mode, p);
    hide *;
    OneStartMore(s, mode, items, cap, p, RunEnd(s, mode, p));
    OneStartMore(s, mode, items, cap, p, RunEnd(s, mode, p) + 1);
  }

  ghost predicate NoneStarts(s: string, mode: Mode, p: nat, q: nat) {
    forall a: nat | p < a < q :: !Starts(s, mode, a)
  }

  lemma NoStartInside(s: string, mode: Mode, p: nat)
    requires Starts(s, mode, p)
    ensures p < RunEnd(s, mode, p)
    ensures NoneStarts(s, mode, p, RunEnd(s, mode, p)) && NoneStarts(s, mode, p, RunEnd(s, mode, p) + 1)
  {
    forall a: nat | p < a <= RunEnd(s, mode, p) ensures !Starts(s, mode, a) {
      assert !Separates(mode, s[a - 1]);
    }
  }

  lemma OneStartMore(s: string, mode: Mode, items: seq<nat>, cap: nat, p: nat, q: nat)
    requires SoFar(s, mode, items, cap, p) && |items| < cap && Starts(s, mode, p) && p < q
    requires NoneStarts(s, mode, p, q)
    ensures SoFar(s, mode, items + [p], cap, q)
  {
    hide Starts;
    var more := items + [p];
    assert more[|items|] == p;
    forall a: nat | Starts(s, mode, a) && a < q ensures a in more {
      if a != p { assert a in items; }
    }
  }

  lemma AllFound(s: string, mode: Mode, items: seq<nat>, cap: nat, p: nat)
    requires SoFar(s, mode, items, cap, p) && (|items| == cap || p == |s|)
    ensures Splits(s, mode, items, cap)
  {
  }

  // Nothing is written while the loop moves on, or a NUL behind the run that it has just found.
  lemma StandsStill(buf: string, s: string, mode: Mode, items: seq<nat>, p: nat, p': nat)
    requires Standing(buf, s, mode, items, p) && p <= p' <= |s|
    ensures Standing(buf, s, mode, items, p')
  {
  }

  lemma StandsOneMore(buf: string, s: string, mode: Mode, items: seq<nat>, p: nat)
    requires Standing(buf, s, mode, items, p) && Starts(s, mode, p)
    ensures var e := RunEnd(s, mode, p);
            if e < |s| then Standing(buf[e := '\0'], s, mode, items + [p], e + 1)
                else Standing(buf, s, mode, items + [p], e)
  {
    var e := RunEnd(s, mode, p);
    NewRunStands(buf, s, mode, items, p);
    if e < |s| {
      WriteStands(buf, s, mode, items, p, e);
      OneItemMore(buf[e := '\0'], s, mode, items, p, e + 1);
    } else {
      StandsStill(buf, s, mode, items, p, e);
      OneItemMore(buf, s, mode, items, p, e);
    }
  }

  lemma WriteStands(buf: string, s: string, mode: Mode, items: seq<nat>, p: nat, q: nat)
    requires Standing(buf, s, mode, items, p) && p < q < |s|
    ensures Standing(buf[q := '\0'], s, mode, items, q + 1)
  {
    forall k | 0 <= k < |items| ensures RunStands(buf[q := '\0'], s, mode, items[k]) {
      WriteBehind(buf, s, mode, items[k], q);
    }
    hide RunStands, RunEnd;
  }

  lemma OneItemMore(buf: string, s: string, mode: Mode, items: seq<nat>, p: nat, q: nat)
    requires Standing(buf, s, mode, items, q) && p <= |s| && RunEnd(s, mode, p) <= q && RunStands(buf, s, mode, p)
    ensures Standing(buf, s, mode, items + [p], q)
  {
    hide RunStands, RunEnd;
  }

  lemma NewRunStands(buf: string, s: string, mode: Mode, items: seq<nat>, p: nat)
    requires Standing(buf, s, mode, items, p) && Starts(s, mode, p)
    ensures |buf| == |s| + 1 && p < RunEnd(s, mode, p) && RunStands(buf[RunEnd(s, mode, p) := '\0'], s, mode, p)
    ensures RunEnd(s, mode, p) == |s| ==> buf[RunEnd(s, mode, p) := '\0'] == buf
  {
    var e := RunEnd(s, mode, p);
    assert buf[e := '\0'][p..e] == s[p..e];
  }

  lemma WriteBehind(buf: string, s: string, mode: Mode, a: nat, q: nat)
    requires |buf| == |s| + 1 && a <= |s| && RunStands(buf, s, mode, a) && RunEnd(s, mode, a) < q < |buf|
    ensures RunStands(buf[q := '\0'], s, mode, a)
  {
    var e := RunEnd(s, mode, a);
    assert buf[q := '\0'][a..e] == buf[a..e];
  }

  // What stands in the buffer is read back as a C string.
  lemma StandingString(buf: string, s: string, mode: Mode, items: seq<nat>, p: nat, k: nat)
    requires Standing(buf, s, mode, items, p) && k < |items|
    ensures Head(buf[items[k]..]) == Head(s[items[k]..RunEnd(s, mode, items[k])])
  {
    var a, e := items[k], RunEnd(s, mode, items[k]);
    var h := Head(s[a..e]);
    assert h == buf[a..e][..|h|] == buf[a..][..|h|];
    assert |h| < e - a ==> buf[a..e][|h|] == '\0';
    HeadIs(buf[a..], h);
  }

  // The strings that the items are, given the buffer's text before the split.
  function Texts(s: string, mode: Mode, items: seq<nat>): seq<string> {
    seq(|items|, k requires 0 <= k < |items| =>
      if items[k] <= |s| then Head(s[items[k]..RunEnd(s, mode, items[k])]) else "")
  }

  // The strings that an argument vector of these pointers passes on.
  function Read(buf: string, items: seq<nat>): seq<string> {
    seq(|items|, k requires 0 <= k < |items| => if items[k] <= |buf| then Head(buf[items[k]..]) else "")
  }

  lemma AllStand(buf: string, s: string, mode: Mode, items: seq<nat>, p: nat)
    requires Standing(buf, s, mode, items, p)
    ensures Read(buf, items) == Texts(s, mode, items)
  {
    forall k | 0 <= k < |items| ensures Read(buf, items)[k] == Texts(s, mode, items)[k] {
      StandingString(buf, s, mode, items, p, k);
    }
  }

  /** Default mode: white space separates, and the separator behind each item becomes NUL. The items
      are the maximal runs without white space, each read back up to a NUL of its own. */
  method SplitBlanks(buf: array<char>, buflen: nat, max_items: nat) returns (items: seq<nat>)
    requires buf.Length == buflen + 1 && buf[buflen] == '\0'
    modifies buf
    ensures var s := old(buf[..buflen]);
            Splits(s, Blank, items, max_items) && Read(buf[..], items) == Texts(s, Blank, items)
  {
    hide SoFar, Standing, Splits, Read, Texts, IsSpace;
    ghost var s := buf[..buflen];
    Begin(buf[..], s, Blank, max_items);
    items := [];
    var p := 0;
    while p < buflen && |items| < max_items
      invariant p <= buflen && SoFar(s, Blank, items, max_items, p) && Standing(buf[..], s, Blank, items, p)
      invariant p == 0 || p == buflen || Separates(Blank, s[p - 1])
      invariant |items| <= max_items
      decreases buflen - p
    {
      while p < buflen && IsSpace(buf[p])
        invariant p <= buflen && SoFar(s, Blank, items, max_items, p) && Standing(buf[..], s, Blank, items, p)
        invariant p == 0 || p == buflen || Separates(Blank, s[p - 1])
      {
        Unread(buf[..], s, Blank, items, p, p);
        SkipSeparator(s, Blank, items, max_items, p);
        StandsStill(buf[..], s, Blank, items, p, p + 1);
        p := p + 1;
      }
      if p >= buflen {
        break;
      }
      var start := p;
      Unread(buf[..], s, Blank, items, start, p);
      while p < buflen && !IsSpace(buf[p])
        invariant Standing(buf[..], s, Blank, items, start)
        invariant start <= p <= buflen && forall i | start <= i < p :: !Separates(Blank, s[i])
      {
        Unread(buf[..], s, Blank, items, start, p);
        p := p + 1;
      }
      if p < buflen {
        Unread(buf[..], s, Blank, items, start, p);
      }
      RunEndIs(s, Blank, start, p);
      TakeRun(s, Blank, items, max_items, start);
      StandsOneMore(buf[..], s, Blank, items, start);
      ghost var was := buf[..];
      if p < buflen {
        buf[p] := '\0';
        assert buf[..] == was[p := '\0'];
        p := p + 1;
      }
      items := items + [start];
    }
    AllFound(s, Blank, items, max_items, p);
    AllStand(buf[..], s, Blank, items, p);
  }

  /** NUL mode: the separators end the items already, so nothing is written. */
  method SplitNulls(buf: array<char>, buflen: nat, max_items: nat) returns (items: seq<nat>)
    requires buf.Length == buflen + 1 && buf[buflen] == '\0'
    ensures Splits(buf[..buflen], Null, items, max_items) && Read(buf[..], items) == Texts(buf[..buflen], Null, items)
  {
    hide SoFar, Standing, Splits, Read, Texts;
    ghost var s := buf[..buflen];
    Begin(buf[..], s, Null, max_items);
    items := [];
    var p := 0;
    while p < buflen && |items| < max_items
      invariant p <= buflen && SoFar(s, Null, items, max_items, p) && Standing(buf[..], s, Null, items, p)
      invariant p == 0 || p == buflen || Separates(Null, s[p - 1])
      invariant |items| <= max_items
      decreases buflen - p
    {
      var start := p;
      while p < buflen && buf[p] != '\0'
        invariant start <= p <= buflen && forall i | start <= i < p :: !Separates(Null, s[i])
      {
        p := p + 1;
      }
      RunEndIs(s, Null, start, p);
      if p > start {
        TakeRun(s, Null, items, max_items, start);
        StandsOneMore(buf[..], s, Null, items, start);
        assert p < buflen ==> buf[..][p := '\0'] == buf[..];
        items := items + [start];
      } else if p < buflen {
        SkipSeparator(s, Null, items, max_items, p);
        StandsStill(buf[..], s, Null, items, p, p + 1);
      }
      if p < buflen {
        p := p + 1;
      }
    }
    AllFound(s, Null, items, max_items, p);
    AllStand(buf[..], s, Null, items, p);
  }

  // A last run that no delimiter follows and that begins with NUL is none of the items of this mode.
  function Kept(s: string, mode: Mode, all: seq<nat>): seq<nat> {
    if all != [] && DropsLast(s, mode, all[|all| - 1]) then all[..|all| - 1] else all
  }

  predicate DropsLast(s: string, mode: Mode, a: nat) {
    a < |s| && s[a] == '\0' && RunEnd(s, mode, a) == |s|
  }

  /** Delimiter mode: of the runs between delimiters up to the cap, all but a last one that no delimiter
      follows and that begins with NUL. */
  method SplitDelimited(buf: array<char>, buflen: nat, delim: char, max_items: nat) returns (items: seq<nat>)
    requires buf.Length == buflen + 1 && buf[buflen] == '\0'
    modifies buf
    ensures var s := old(buf[..buflen]); var mode := Delimiter(delim);
            && Read(buf[..], items) == Texts(s, mode, items)
            && exists all :: Splits(s, mode, all, max_items) && items == Kept(s, mode, all)
  {
    hide SoFar, Standing, Splits, Read, Texts, Kept;
    ghost var s, mode := buf[..buflen], Delimiter(delim);
    Begin(buf[..], s, mode, max_items);
    items := [];
    var p, start := 0, 0;
    while p < buflen && |items| < max_items
      invariant start <= p <= buflen && SoFar(s, mode, items, max_items, start)
          && Standing(buf[..], s, mode, items, start)
      invariant start == 0 || Separates(mode, s[start - 1])
      invariant forall i | start <= i < p :: !Separates(mode, s[i])
      invariant |items| <= max_items
      decreases buflen - p
    {
      Unread(buf[..], s, mode, items, start, p);
      if buf[p] == delim {
        RunEndIs(s, mode, start, p);
        ghost var was := buf[..];
        if start < p {
          TakeRun(s, mode, items, max_items, start);
          StandsOneMore(was, s, mode, items, start);
        } else {
          SkipSeparator(s, mode, items, max_items, p);
          WriteHere(was, s, mode, items, p);
        }
        buf[p] := '\0';
        assert buf[..] == was[p := '\0'];
        if start < p {
          items := items + [start];
        }
        start := p + 1;
      }
      p := p + 1;
    }
    if start < buflen && |items| < max_items {
      RunEndIs(s, mode, start, p);
      TakeRun(s, mode, items, max_items, start);
      AllFound(s, mode, items + [start], max_items, p);
      Dropped(s, mode, items, start);
      Unread(buf[..], s, mode, items, start, start);
      if buf[start] != '\0' {
        StandsOneMore(buf[..], s, mode, items, start);
        items := items + [start];
        AllStand(buf[..], s, mode, items, p);
      } else {
        AllStand(buf[..], s, mode, items, start);
      }
    } else {
      AllFound(s, mode, items, max_items, start);
      NoneDropped(s, mode, items, max_items, start);
      AllStand(buf[..], s, mode, items, start);
    }
  }

  /** The items split the text, then, exactly if there is no such run. */
  lemma KeptSplitsIff(s: string, mode: Mode, all: seq<nat>, cap: nat)
    requires Splits(s, mode, all, cap)
    ensures Splits(s, mode, Kept(s, mode, all), cap) <==> all == [] || !DropsLast(s, mode, all[|all| - 1])
  {
    if Splits(s, mode, Kept(s, mode, all), cap) {
      SplitsIsUnique(s, mode, Kept(s, mode, all), all, cap);
    }
  }

  lemma Dropped(s: string, mode: Mode, items: seq<nat>, start: nat)
    requires start < |s| && RunEnd(s, mode, start) == |s|
    ensures Kept(s, mode, items + [start]) == if s[start] == '\0' then items else items + [start]
  {
    assert (items + [start])[..|items|] == items;
  }

  // All items so far have a delimiter behind them.
  lemma NoneDropped(s: string, mode: Mode, items: seq<nat>, cap: nat, start: nat)
    requires SoFar(s, mode, items, cap, start) && start <= |s| && (start == 0 || Separates(mode, s[start - 1]))
    ensures Kept(s, mode, items) == items
  {
    if items != [] {
      var a := items[|items| - 1];
      var before := s[start - 1];
    }
  }

  lemma WriteHere(buf: string, s: string, mode: Mode, items: seq<nat>, p: nat)
    requires Standing(buf, s, mode, items, p) && p < |s|
    ensures Standing(buf[p := '\0'], s, mode, items, p + 1)
  {
    forall k | 0 <= k < |items| ensures RunStands(buf[p := '\0'], s, mode, items[k]) {
      var e := RunEnd(s, mode, items[k]);
      assert buf[p := '\0'][items[k]..e] == buf[items[k]..e];
    }
    hide RunStands, RunEnd;
  }

  /** Below the cap no character but separators is left out: each stands in the run of an item. */
  lemma {:induction false} NothingIsLost(s: string, mode: Mode, items: seq<nat>, cap: nat, i: nat) returns (k: nat)
    requires Splits(s, mode, items, cap) && |items| < cap && i < |s| && !Separates(mode, s[i])
    ensures k < |items| && items[k] <= i < RunEnd(s, mode, items[k])
    decreases i
  {
    if Starts(s, mode, i) {
      k :| 0 <= k < |items| && items[k] == i;
    } else {
      k := NothingIsLost(s, mode, items, cap, i - 1);
    }
  }

  lemma Begin(buf: string, s: string, mode: Mode, cap: nat)
    requires |buf| == |s| + 1 && buf[..|s|] == s && buf[|s|] == '\0'
    ensures SoFar(s, mode, [], cap, 0) && Standing(buf, s, mode, [], 0)
  {
  }

  // The buffer from p on is as it was.
  lemma Unread(buf: string, s: string, mode: Mode, items: seq<nat>, p: nat, i: nat)
    requires Standing(buf, s, mode, items, p) && p <= i < |s|
    ensures |buf| == |s| + 1 && buf[i] == s[i]
  {
  }
}
