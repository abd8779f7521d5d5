/** Line comparison in cmd_diff.c: two lines are the same when their keys are equal. */
module DiffLines {
  import opened CStrings

  type Line = string

  datatype Options = Options(ignoreCase: bool, ignoreSpace: bool)

  function Lower(c: char): char {
    if 'A' <= c <= 'Z' then (c as int + 32) as char else c
  }

  function Shown(c: char, o: Options): char {
    if o.ignoreCase then Lower(c) else c
  }

  // The characters of a line that take part in the comparison.
  function Key(s: Line, o: Options): string {
    if s == "" then ""
    else if o.ignoreSpace && IsSpace(s[0]) then Key(s[1..], o)
    else [Shown(s[0], o)] + Key(s[1..], o)
  }

  // An equivalence relation, since it is equality of keys.
  predicate Same(a: Line, b: Line, o: Options) {
    Key(a, o) == Key(b, o)
  }

  // The two-cursor loop of lines_eq; the other branch is strcmp or strcasecmp.
  method LinesEq(a: Line, b: Line, o: Options) returns (r: bool)
    ensures r <==> Same(a, b, o)
  {
    if !o.ignoreSpace {
      r := Key(a, o) == Key(b, o);
      return;
    }
    var p, q := 0, 0;
    while true
      invariant p <= |a| && q <= |b|
      invariant Same(a, b, o) <==> Key(a[p..], o) == Key(b[q..], o)
      decreases |a| - p
    {
      p := SkipSpace(a, p, o);
      q := SkipSpace(b, q, o);
      if p == |a| && q == |b| { return true; }
      if p == |a| || q == |b| { return false; }
      var cp := Shown(a[p], o);
      var cq := Shown(b[q], o);
      KeyAt(a, p, o);
      KeyAt(b, q, o);
      hide Key, Same, Shown;
      FirstOrRest(cp, cq, Key(a[p + 1..], o), Key(b[q + 1..], o));
      if cp != cq { return false; }
      p, q := p + 1, q + 1;
    }
  }

  // The loop over white space in one line.
  method SkipSpace(s: Line, from: nat, o: Options) returns (p: nat)
    requires from <= |s| && o.ignoreSpace
    ensures from <= p <= |s| && (p < |s| ==> !IsSpace(s[p])) && Key(s[p..], o) == Key(s[from..], o)
  {
    p := from;
    while p < |s| && IsSpace(s[p])
      invariant from <= p <= |s| && Key(s[p..], o) == Key(s[from..], o)
    {
      assert s[p..][1..] == s[p + 1..];
      p := p + 1;
    }
  }

  lemma KeyAt(s: Line, p: nat, o: Options)
    requires p < |s| && !IsSpace(s[p])
    ensures Key(s[p..], o) == [Shown(s[p], o)] + Key(s[p + 1..], o)
  {
    assert s[p..][1..] == s[p + 1..];
  }

  lemma FirstOrRest(c: char, d: char, s: string, t: string)
    ensures [c] + s == [d] + t <==> c == d && s == t
  {
    assert ([c] + s)[0] == c && ([c] + s)[1..] == s && ([d] + t)[0] == d && ([d] + t)[1..] == t;
  }

  lemma {:induction false} PlainKey(s: Line, o: Options)
    requires !o.ignoreCase && !o.ignoreSpace
    ensures Key(s, o) == s
    decreases |s|
  {
    if s != "" {
      PlainKey(s[1..], o);
    }
  }

  // Without an ignore flag only equal lines are the same.
  lemma PlainSame(a: Line, b: Line, o: Options)
    requires !o.ignoreCase && !o.ignoreSpace
    ensures Same(a, b, o) <==> a == b
  {
    PlainKey(a, o);
    PlainKey(b, o);
  }

  // What is left of a line when white space does not count.
  function Visible(s: Line, o: Options): Line {
    if s == "" then ""
    else if o.ignoreSpace && s[0] in " \t\n\r\U{0B}\U{0C}" then Visible(s[1..], o)
    else [s[0]] + Visible(s[1..], o)
  }

  const UPPER := "ABCDEFGHIJKLMNOPQRSTUVWXYZ"
  const LOWER := "abcdefghijklmnopqrstuvwxyz"

  // The same character, or a letter and the same letter in the other case where case does not count.
  ghost predicate SameChar(c: char, d: char, o: Options) {
    c == d || (o.ignoreCase && exists k | 0 <= k < 26 ::
                 (c == UPPER[k] && d == LOWER[k]) || (c == LOWER[k] && d == UPPER[k]))
  }

  lemma ShownAlike(c: char, d: char, o: Options)
    ensures Shown(c, o) == Shown(d, o) <==> SameChar(c, d, o)
  {
    hide *;
    AlikeIsSame(c, d, o);
    SameIsAlike(c, d, o);
  }

  lemma AlikeIsSame(c: char, d: char, o: Options)
    ensures Shown(c, o) == Shown(d, o) ==> SameChar(c, d, o)
  {
    if o.ignoreCase && 'A' <= c <= 'Z' { LetterIs(c as int - 65); }
    if o.ignoreCase && 'A' <= d <= 'Z' { LetterIs(d as int - 65); }
  }

  lemma SameIsAlike(c: char, d: char, o: Options)
    ensures SameChar(c, d, o) ==> Shown(c, o) == Shown(d, o)
  {
    forall k | 0 <= k < 26 ensures Lower(UPPER[k]) == Lower(LOWER[k]) == LOWER[k] {
      LetterIs(k);
    }
  }

  lemma LetterIs(k: nat)
    requires k < 26
    ensures |UPPER| == |LOWER| == 26 && UPPER[k] == (65 + k) as char && LOWER[k] == (97 + k) as char
  {
  }

  lemma {:induction false} KeyIsVisible(s: Line, o: Options)
    ensures |Key(s, o)| == |Visible(s, o)|
    ensures forall k | 0 <= k < |Key(s, o)| :: Key(s, o)[k] == Shown(Visible(s, o)[k], o)
    decreases |s|
  {
    if s != "" {
      KeyIsVisible(s[1..], o);
      hide Shown;
    }
  }

  /** Two lines are the same exactly if, without white space where that does not count, they have the same
      length and the same characters at every place, up to case where that does not count. */
  lemma SameIff(a: Line, b: Line, o: Options)
    ensures Same(a, b, o) <==>
            var s, t := Visible(a, o), Visible(b, o);
            |s| == |t| && forall k | 0 <= k < |s| :: SameChar(s[k], t[k], o)
  {
    hide Visible, Key, SameChar, Shown;
    KeyIsVisible(a, o);
    KeyIsVisible(b, o);
    var s, t := Visible(a, o), Visible(b, o);
    forall k | 0 <= k < |s| && k < |t| ensures Shown(s[k], o) == Shown(t[k], o) <==> SameChar(s[k], t[k], o) {
      ShownAlike(s[k], t[k], o);
    }
    if |s| == |t| && forall k | 0 <= k < |s| :: SameChar(s[k], t[k], o) {
      assert Key(a, o) == Key(b, o);
    }
  }

  lemma {:induction false} KeyOfJoin(s: Line, t: Line, o: Options)
    ensures Key(s + t, o) == Key(s, o) + Key(t, o)
    decreases |s|
  {
    if s == "" {
      assert s + t == t;
    } else {
      assert (s + t)[1..] == s[1..] + t;
      KeyOfJoin(s[1..], t, o);
    }
  }

  /** The space flag ignores white space altogether, not only changes in its amount as the option's
      help text says: white space may be inserted anywhere, between two letters for instance. */
  lemma SpaceIsIgnoredAnywhere(s: Line, white: Line, t: Line, o: Options)
    requires o.ignoreSpace && forall c | c in white :: IsSpace(c)
    ensures Same(s + t, s + white + t, o)
  {
    WhiteKey(white, o);
    KeyOfJoin(s, t, o);
    KeyOfJoin(s + white, t, o);
    KeyOfJoin(s, white, o);
  }

  lemma {:induction false} WhiteKey(white: Line, o: Options)
    requires o.ignoreSpace && forall c | c in white :: IsSpace(c)
    ensures Key(white, o) == ""
    decreases |white|
  {
    if white != "" {
      WhiteKey(white[1..], o);
    }
  }

  // ----- What the option's help text says -----

  /** "Ignore changes in whitespace amount": each run of white space counts as one blank. The flag
      says whether a run is under way. */
  function Squeezed(s: Line, inRun: bool, o: Options): string {
    if s == "" then ""
    else if IsSpace(s[0]) then (if inRun then "" else " ") + Squeezed(s[1..], true, o)
    else [Shown(s[0], o)] + Squeezed(s[1..], false, o)
  }

  predicate SameAsDocumented(a: Line, b: Line, o: Options) {
    Squeezed(a, false, o) == Squeezed(b, false, o)
  }

  // Where white space stands: after how many characters of the key, n of which came before.
  function Places(s: Line, n: nat): set<nat> {
    if s == "" then {} else if IsSpace(s[0]) then {n} + Places(s[1..], n) else Places(s[1..], n + 1)
  }

  // The squeezed line made of a key and the places of white space.
  function Spaced(key: string, places: set<nat>, inRun: bool, n: nat): string {
    (if n in places && !inRun then " " else "")
    + (if key == "" then "" else [key[0]] + Spaced(key[1..], places, false, n + 1))
  }

  lemma {:induction false} LaterPlaces(s: Line, n: nat)
    ensures forall k | k in Places(s, n) :: k >= n
    decreases |s|
  {
    if s != "" {
      LaterPlaces(s[1..], if IsSpace(s[0]) then n else n + 1);
    }
  }

  // Places before the first one looked at do not count.
  lemma {:induction false} SpacedBy(key: string, places: set<nat>, others: set<nat>, inRun: bool, n: nat)
    requires forall k: nat | k > n || (k == n && !inRun) :: k in places <==> k in others
    ensures Spaced(key, places, inRun, n) == Spaced(key, others, inRun, n)
    decreases |key|
  {
    if key != "" {
      SpacedBy(key[1..], places, others, false, n + 1);
    }
  }

  lemma {:induction false} SqueezedIsSpaced(s: Line, inRun: bool, n: nat, o: Options)
    requires o.ignoreSpace
    ensures Squeezed(s, inRun, o) == Spaced(Key(s, o), Places(s, n), inRun, n)
    decreases |s|
  {
    if s != "" {
      if IsSpace(s[0]) {
        SqueezedIsSpaced(s[1..], true, n, o);
        SpacedBy(Key(s[1..], o), Places(s, n), Places(s[1..], n), true, n);
        SpacedAfterRun(Key(s, o), Places(s, n), inRun, n);
      } else {
        SqueezedIsSpaced(s[1..], false, n + 1, o);
        LaterPlaces(s[1..], n + 1);
        assert Key(s, o)[1..] == Key(s[1..], o);
      }
    }
  }

  lemma SpacedAfterRun(key: string, places: set<nat>, inRun: bool, n: nat)
    requires n in places
    ensures Spaced(key, places, inRun, n) == (if inRun then "" else " ") + Spaced(key, places, true, n)
  {
  }

  lemma LowerAgain(c: char)
    ensures Lower(Lower(c)) == Lower(c) && (IsSpace(Lower(c)) <==> IsSpace(c))
  {
  }

  // Squeezing keeps the key and the places.
  lemma {:induction false} SqueezedKeeps(s: Line, inRun: bool, n: nat, o: Options)
    requires o.ignoreSpace
    ensures Key(Squeezed(s, inRun, o), o) == Key(s, o)
    ensures Places(Squeezed(s, inRun, o), n) + (if inRun then {n} else {}) == Places(s, n) + (if inRun then {n} else {})
    decreases |s|
  {
    if s != "" {
      LowerAgain(s[0]);
      var t := Squeezed(s, inRun, o);
      if IsSpace(s[0]) {
        SqueezedKeeps(s[1..], true, n, o);
        if inRun {
          assert t == Squeezed(s[1..], true, o);
        } else {
          assert t[0] == ' ' && t[1..] == Squeezed(s[1..], true, o);
        }
      } else {
        SqueezedKeeps(s[1..], false, n + 1, o);
        assert t[0] == Shown(s[0], o) && t[1..] == Squeezed(s[1..], false, o);
      }
    }
  }

  lemma DocumentedIs(a: Line, b: Line, o: Options)
    requires o.ignoreSpace
    ensures SameAsDocumented(a, b, o) <==> Same(a, b, o) && Places(a, 0) == Places(b, 0)
  {
    SqueezedIsSpaced(a, false, 0, o);
    SqueezedIsSpaced(b, false, 0, o);
    SqueezedKeeps(a, false, 0, o);
    SqueezedKeeps(b, false, 0, o);
  }

  /** The code compares as its help text says exactly on the lines that differ in their other
      characters or have white space in the same places; otherwise it takes for the same what differs
      in more than the amount of white space. */
  lemma DocumentedAgreesIff(a: Line, b: Line, o: Options)
    requires o.ignoreSpace
    ensures (Same(a, b, o) <==> SameAsDocumented(a, b, o)) <==> Key(a, o) != Key(b, o) || Places(a, 0) == Places(b, 0)
  {
    DocumentedIs(a, b, o);
  }

  // The smallest case: a blank between two letters.
  lemma BlankBetweenLetters(o: Options)
    requires o.ignoreSpace
    ensures Same("ab", "a b", o) && !SameAsDocumented("ab", "a b", o)
  {
    SpaceIsIgnoredAnywhere("a", " ", "b", o);
    assert "a" + "b" == "ab" && "a" + " " + "b" == "a b";
    PlacesOfTwo();
    DocumentedIs("ab", "a b", o);
  }

  lemma PlacesOfTwo()
    ensures Places("ab", 0) == {} && 1 in Places("a b", 0)
  {
    assert "ab"[1..] == "b" && "b"[1..] == "" && "a b"[1..] == " b";
    assert Places("b", 1) == Places("", 2);
    assert 1 in Places(" b", 1);
  }
}
