/** Whole sessions of the line editor, from the bytes that a terminal sends to the line that comes back. */
module EditorSessions {
  import opened Texts
  import opened Wrappers
  import opened History
  import opened LineEditor

  const UP := "\U{1B}[A"
  const DOWN := "\U{1B}[B"
  const RIGHT := "\U{1B}[C"
  const LEFT := "\U{1B}[D"
  const DELETE := "\U{1B}[3~"
  const CTRL_D := "\U{04}"
  const CTRL_U := "\U{15}"
  const CTRL_K := "\U{0B}"
  const TAB := "\t"

  // Each of these keys can be sent in several ways.
  const HOMES: set<string> := {"\U{01}", "\U{1B}[H", "\U{1B}OH"}
  const ENDS: set<string> := {"\U{05}", "\U{1B}[F", "\U{1B}OF"}
  const BACKSPACES: set<string> := {"\U{7F}", "\U{08}"}
  const ENTERS: set<string> := {"\r", "\n"}

  predicate Printable(t: string) {
    forall c | c in t :: c >= ' ' && c != '\U{7F}'
  }

  function Repeat(s: string, n: nat): string {
    if n == 0 then "" else s + Repeat(s, n - 1)
  }

  /** What a call returns when the terminal sends these bytes and Enter. */
  function Typed(h: seq<string>, complete: Completer, input: string): Option<string> {
    Session(h, complete, Line("", "", |h|, ""), input + "\r")
  }

  // ----- One key -----

  // Whatever follows, the bytes are read as the key.
  ghost predicate Sends(bytes: string, key: Key) {
    forall rest: string :: Decode(bytes + rest) == (key, |bytes|)
  }

  lemma EscapeSends(a: char, b: char, key: Key)
    requires (a == '[' && (b, key) in {('A', Up), ('B', Down), ('C', Right), ('D', Left), ('H', Home), ('F', End)})
          || (a == 'O' && (b, key) in {('H', Home), ('F', End)})
    ensures Sends("\U{1B}" + [a, b], key)
  {
    forall rest: string ensures Decode("\U{1B}" + [a, b] + rest) == (key, 3) {
      var input := "\U{1B}" + [a, b] + rest;
      assert input[0] == '\U{1B}' && input[1] == a && input[2] == b;
    }
  }

  lemma ByteSends(c: char, key: Key)
    requires Decode([c]) == (key, 1) && c != '\U{1B}'
    ensures Sends([c], key)
  {
    forall rest: string ensures Decode([c] + rest) == (key, 1) {
      assert ([c] + rest)[0] == c;
    }
  }

  lemma CharSends(c: char)
    requires Printable([c])
    ensures Sends([c], Type(c))
  {
    assert c in [c];
    ByteSends(c, Type(c));
  }

  lemma DeleteSends()
    ensures Sends(DELETE, Delete)
  {
    forall rest: string ensures Decode(DELETE + rest) == (Delete, 4) {
      var input := DELETE + rest;
      assert input[0] == '\U{1B}' && input[1] == '[' && input[2] == '3';
    }
  }

  lemma ArrowsSend()
    ensures Sends(UP, Up) && Sends(DOWN, Down) && Sends(LEFT, Left) && Sends(RIGHT, Right)
  {
    EscapeSends('[', 'A', Up);
    EscapeSends('[', 'B', Down);
    EscapeSends('[', 'D', Left);
    EscapeSends('[', 'C', Right);
  }

  lemma ControlsSend()
    ensures Sends(CTRL_U, KillStart) && Sends(CTRL_K, KillEnd) && Sends(CTRL_D, CtrlD) && Sends(TAB, Tab)
    ensures forall s | s in BACKSPACES :: Sends(s, Backspace)
  {
    ByteSends('\U{15}', KillStart);
    ByteSends('\U{0B}', KillEnd);
    ByteSends('\U{04}', CtrlD);
    ByteSends('\t', Tab);
    ByteSends('\U{7F}', Backspace);
    ByteSends('\U{08}', Backspace);
  }

  lemma EndKeysSend()
    ensures forall s | s in HOMES :: Sends(s, Home)
    ensures forall s | s in ENDS :: Sends(s, End)
  {
    ByteSends('\U{01}', Home);
    ByteSends('\U{05}', End);
    EscapeSends('[', 'H', Home);
    EscapeSends('O', 'H', Home);
    EscapeSends('[', 'F', End);
    EscapeSends('O', 'F', End);
  }

  // A key that goes on with the line.
  predicate GoesOn(l: Line, key: Key) {
    !key.EndOfInput? && !key.Enter? && !(key.CtrlD? && l.Text() == "")
  }

  lemma KeyThen(h: seq<string>, complete: Completer, l: Line, bytes: string, key: Key, rest: string)
    requires Sends(bytes, key) && GoesOn(l, key)
    ensures Session(h, complete, l, bytes + rest) == Session(h, complete, Press(h, complete, l, key), rest)
  {
    hide Decode, Press;
    assert Decode(bytes + rest) == (key, |bytes|);
    assert (bytes + rest)[|bytes|..] == rest;
  }

  lemma {:induction false} KeysThen(h: seq<string>, complete: Completer, l: Line, bytes: string, key: Key, n: nat,
                                    rest: string)
    requires Sends(bytes, key) && !key.EndOfInput? && !key.Enter? && !key.CtrlD?
    ensures Session(h, complete, l, Repeat(bytes, n) + rest)
         == Session(h, complete, PressAll(h, complete, l, Times(key, n)), rest)
    decreases n
  {
    hide Decode, Press, Session, Sends;
    if n == 0 {
      assert "" + rest == rest;
    } else {
      KeyThen(h, complete, l, bytes, key, Repeat(bytes, n - 1) + rest);
      assert Repeat(bytes, n) + rest == bytes + (Repeat(bytes, n - 1) + rest);
      KeysThen(h, complete, Press(h, complete, l, key), bytes, key, n - 1, rest);
      assert Times(key, n)[0] == key && Times(key, n)[1..] == Times(key, n - 1);
    }
  }

  lemma EnterEnds(h: seq<string>, complete: Completer, l: Line, s: string)
    requires s in ENTERS
    ensures Session(h, complete, l, s) == Some(l.left + l.right)
  {
  }

  // ----- Typing -----

  lemma {:induction false} TextThen(h: seq<string>, complete: Completer, l: Line, t: string, rest: string)
    requires Printable(t) && |l.left| + |l.right| + |t| < HIST_LINE
    ensures Session(h, complete, l, t + rest) == Session(h, complete, l.(left := l.left + t), rest)
    decreases |t|
  {
    hide *;
    if t == "" {
      assert t + rest == rest && l.left + t == l.left;
    } else {
      FirstChar(t);
      CharSends(t[0]);
      TypePresses(h, complete, l, t[0]);
      KeyThen(h, complete, l, [t[0]], Type(t[0]), t[1..] + rest);
      assert t + rest == [t[0]] + (t[1..] + rest);
      TextThen(h, complete, l.(left := l.left + [t[0]]), t[1..], rest);
      assert (l.left + [t[0]]) + t[1..] == l.left + t;
    }
  }

  lemma FirstChar(t: string)
    requires t != "" && Printable(t)
    ensures Printable([t[0]]) && Printable(t[1..])
  {
    assert t[0] in t && forall c | c in t[1..] :: c in t;
  }

  lemma TypePresses(h: seq<string>, complete: Completer, l: Line, c: char)
    requires |l.left| + |l.right| + 1 < HIST_LINE
    ensures Press(h, complete, l, Type(c)) == l.(left := l.left + [c]) && GoesOn(l, Type(c))
  {
  }

  /** Whatever line is being edited, typed text that fits goes in at the cursor. */
  lemma TypedTextIsReturned(h: seq<string>, complete: Completer, l: Line, t: string, enter: string)
    requires Printable(t) && |l.left| + |t| + |l.right| < HIST_LINE && enter in ENTERS
    ensures Session(h, complete, l, t + enter) == Some(l.left + t + l.right)
  {
    TextThen(h, complete, l, t, enter);
    EnterEnds(h, complete, l.(left := l.left + t), enter);
  }

  // ----- Moving -----

  lemma {:induction false} LeftTimes(h: seq<string>, complete: Completer, l: Line, n: nat)
    requires n <= |l.left|
    ensures var k := |l.left| - n;
            PressAll(h, complete, l, Times(Left, n)) == l.(left := l.left[..k], right := l.left[k..] + l.right)
    decreases n
  {
    hide Press;
    var k := |l.left| - n;
    if n == 0 {
      assert l.left[..k] == l.left && l.left[k..] + l.right == l.right;
    } else {
      LeftPresses(h, complete, l, k);
      assert Times(Left, n)[0] == Left && Times(Left, n)[1..] == Times(Left, n - 1);
      LeftTimes(h, complete, Press(h, complete, l, Left), n - 1);
    }
  }

  lemma LeftPresses(h: seq<string>, complete: Completer, l: Line, k: nat)
    requires k < |l.left|
    ensures var l' := Press(h, complete, l, Left);
            && l' == l.(left := l'.left, right := l'.right) && |l'.left| == |l.left| - 1
            && l'.left[..k] == l.left[..k] && l'.left[k..] + l'.right == l.left[k..] + l.right
  {
  }

  // The cursor between two texts.
  function Between(a: string, b: string): string {
    a + (b + Repeat(LEFT, |b|))
  }

  lemma BetweenThen(h: seq<string>, complete: Completer, a: string, b: string, rest: string)
    requires Printable(a + b) && |a| + |b| < HIST_LINE
    ensures Session(h, complete, Line("", "", |h|, ""), Between(a, b) + rest)
         == Session(h, complete, Line(a, b, |h|, ""), rest)
  {
    var l0 := Line("", "", |h|, "");
    assert Printable(a) && Printable(b) by {
      assert forall c | c in a || c in b :: c in a + b;
    }
    ArrowsSend();
    hide Session, Sends, Repeat, PressAll, Printable;
    var moves := Repeat(LEFT, |b|) + rest;
    assert Between(a, b) + rest == a + (b + moves);
    TextThen(h, complete, l0, a, b + moves);
    assert "" + a == a;
    TextThen(h, complete, Line(a, "", |h|, ""), b, moves);
    KeysThen(h, complete, Line(a + b, "", |h|, ""), LEFT, Left, |b|, rest);
    LeftTimes(h, complete, Line(a + b, "", |h|, ""), |b|);
    assert (a + b)[..|a|] == a && (a + b)[|a|..] + "" == b;
  }

  // ----- What each key does -----

  // A key, one character and Enter.
  lemma KeyThenType(h: seq<string>, complete: Completer, a: string, b: string, bytes: string, key: Key, c: char,
                    l: Line)
    requires Printable(a + b) && Printable([c]) && Sends(bytes, key) && GoesOn(Line(a, b, |h|, ""), key)
    requires Press(h, complete, Line(a, b, |h|, ""), key) == l
    requires |a| + |b| < HIST_LINE && |l.left| + |l.right| + 1 < HIST_LINE
    ensures Typed(h, complete, Between(a, b) + bytes + [c]) == Some(l.left + [c] + l.right)
  {
    hide Session, Sends, Repeat, PressAll, Printable, Between, Press;
    var l0, rest := Line(a, b, |h|, ""), [c] + "\r";
    assert (Between(a, b) + bytes + [c]) + "\r" == Between(a, b) + (bytes + rest);
    BetweenThen(h, complete, a, b, bytes + rest);
    KeyThen(h, complete, l0, bytes, key, rest);
    TypedTextIsReturned(h, complete, l, [c], "\r");
  }

  // What the keys do to a line with its cursor between a and b.
  lemma Presses(h: seq<string>, complete: Completer, a: string, b: string)
    ensures var l := Line(a, b, |h|, "");
            && Press(h, complete, l, Home) == Line("", a + b, |h|, "")
            && Press(h, complete, l, End) == Line(a + b, "", |h|, "")
            && (a != "" ==> Press(h, complete, l, Left) == Line(a[..|a| - 1], a[|a| - 1..] + b, |h|, "")
                            && Press(h, complete, l, Backspace) == Line(a[..|a| - 1], b, |h|, ""))
            && (b != "" ==> Press(h, complete, l, Right) == Line(a + b[..1], b[1..], |h|, "")
                            && Press(h, complete, l, Delete) == Line(a, b[1..], |h|, "")
                            && Press(h, complete, l, CtrlD) == Line(a, b[1..], |h|, "")
                            && GoesOn(l, CtrlD))
            && Press(h, complete, l, KillStart) == Line("", b, |h|, "")
            && Press(h, complete, l, KillEnd) == Line(a, "", |h|, "")
    ensures forall key: Key | key in {Home, End, Left, Right, Backspace, Delete, KillStart, KillEnd} ::
              GoesOn(Line(a, b, |h|, ""), key)
  {
  }

  /** With the cursor between any two printable texts a character goes in there, and after each of the
      moving keys it goes in where that key promises. */
  lemma MovingKeys(h: seq<string>, complete: Completer, a: string, b: string, c: char, s: string)
    requires Printable(a + b) && Printable([c]) && |a| + |b| + 1 < HIST_LINE
    ensures Typed(h, complete, Between(a, b) + [c]) == Some(a + [c] + b)
    ensures s in HOMES ==> Typed(h, complete, Between(a, b) + s + [c]) == Some([c] + (a + b))
    ensures s in ENDS ==> Typed(h, complete, Between(a, b) + s + [c]) == Some((a + b) + [c])
    ensures a != "" ==> Typed(h, complete, Between(a, b) + LEFT + [c]) == Some(a[..|a| - 1] + [c] + (a[|a| - 1..] + b))
    ensures b != "" ==> Typed(h, complete, Between(a, b) + RIGHT + [c]) == Some((a + b[..1]) + [c] + b[1..])
  {
    hide *;
    ArrowsSend();
    EndKeysSend();
    Presses(h, complete, a, b);
    NoKeyThenType(h, complete, a, b, c);
    if s in HOMES {
      KeyThenType(h, complete, a, b, s, Home, c, Line("", a + b, |h|, ""));
      assert "" + [c] + (a + b) == [c] + (a + b);
    }
    if s in ENDS {
      KeyThenType(h, complete, a, b, s, End, c, Line(a + b, "", |h|, ""));
      assert (a + b) + [c] + "" == (a + b) + [c];
    }
    if a != "" {
      KeyThenType(h, complete, a, b, LEFT, Left, c, Line(a[..|a| - 1], a[|a| - 1..] + b, |h|, ""));
    }
    if b != "" {
      KeyThenType(h, complete, a, b, RIGHT, Right, c, Line(a + b[..1], b[1..], |h|, ""));
    }
  }

  /** After each of the erasing keys it goes into what that key leaves. */
  lemma ErasingKeys(h: seq<string>, complete: Completer, a: string, b: string, c: char, s: string)
    requires Printable(a + b) && Printable([c]) && |a| + |b| + 1 < HIST_LINE
    ensures s in BACKSPACES && a != "" ==> Typed(h, complete, Between(a, b) + s + [c]) == Some(a[..|a| - 1] + [c] + b)
    ensures (s == DELETE || s == CTRL_D) && b != "" ==>
              Typed(h, complete, Between(a, b) + s + [c]) == Some(a + [c] + b[1..])
    ensures Typed(h, complete, Between(a, b) + CTRL_U + [c]) == Some([c] + b)
    ensures Typed(h, complete, Between(a, b) + CTRL_K + [c]) == Some(a + [c])
  {
    hide *;
    ControlsSend();
    DeleteSends();
    Presses(h, complete, a, b);
    if s in BACKSPACES && a != "" {
      KeyThenType(h, complete, a, b, s, Backspace, c, Line(a[..|a| - 1], b, |h|, ""));
    }
    if s == DELETE && b != "" {
      KeyThenType(h, complete, a, b, s, Delete, c, Line(a, b[1..], |h|, ""));
    }
    if s == CTRL_D && b != "" {
      KeyThenType(h, complete, a, b, s, CtrlD, c, Line(a, b[1..], |h|, ""));
    }
    KeyThenType(h, complete, a, b, CTRL_U, KillStart, c, Line("", b, |h|, ""));
    assert "" + [c] + b == [c] + b;
    KeyThenType(h, complete, a, b, CTRL_K, KillEnd, c, Line(a, "", |h|, ""));
    assert a + [c] + "" == a + [c];
  }

  lemma NoKeyThenType(h: seq<string>, complete: Completer, a: string, b: string, c: char)
    requires Printable(a + b) && Printable([c]) && |a| + |b| + 1 < HIST_LINE
    ensures Typed(h, complete, Between(a, b) + [c]) == Some(a + [c] + b)
  {
    hide Session, Between, Printable;
    assert (Between(a, b) + [c]) + "\r" == Between(a, b) + ([c] + "\r");
    BetweenThen(h, complete, a, b, [c] + "\r");
    TypedTextIsReturned(h, complete, Line(a, b, |h|, ""), [c], "\r");
  }

  /** At the end of a text where there is nothing to do, the keys do nothing; Ctrl-D on an empty line
      ends the input, and so does its end. */
  lemma KeysAtTheEnds(h: seq<string>, complete: Completer, t: string, c: char, s: string)
    requires Printable(t) && Printable([c]) && |t| + 1 < HIST_LINE
    ensures s in BACKSPACES || s == LEFT ==> Typed(h, complete, Between("", t) + s + [c]) == Some([c] + t)
    ensures s == RIGHT || s == DELETE ==> Typed(h, complete, Between(t, "") + s + [c]) == Some(t + [c])
    ensures s == CTRL_D && t != "" ==> Typed(h, complete, Between(t, "") + s + [c]) == Some(t + [c])
    ensures Typed(h, complete, CTRL_D) == None && Session(h, complete, Line("", "", |h|, ""), "") == None
    ensures t != "" ==> Session(h, complete, Line("", "", |h|, ""), t) == Some(t)
  {
    hide Between, Printable, Sends, Decode;
    ArrowsSend();
    ControlsSend();
    DeleteSends();
    EndsOfText(t, c);
    if s in BACKSPACES {
      KeyThenType(h, complete, "", t, s, Backspace, c, Line("", t, |h|, ""));
    } else if s == LEFT {
      KeyThenType(h, complete, "", t, s, Left, c, Line("", t, |h|, ""));
    } else if s == RIGHT {
      KeyThenType(h, complete, t, "", s, Right, c, Line(t, "", |h|, ""));
    } else if s == DELETE {
      KeyThenType(h, complete, t, "", s, Delete, c, Line(t, "", |h|, ""));
    } else if s == CTRL_D && t != "" {
      KeyThenType(h, complete, t, "", s, CtrlD, c, Line(t, "", |h|, ""));
    }
    CtrlDEnds(h, complete);
    TextThen(h, complete, Line("", "", |h|, ""), t, "");
    InputEnds(h, complete, t);
  }

  lemma EndsOfText(t: string, c: char)
    ensures "" + t == t && t + "" == t && "" + [c] + t == [c] + t && t + [c] + "" == t + [c]
  {
  }

  lemma CtrlDEnds(h: seq<string>, complete: Completer)
    ensures Typed(h, complete, CTRL_D) == None
  {
    assert (CTRL_D + "\r")[0] == '\U{04}';
  }

  lemma InputEnds(h: seq<string>, complete: Completer, t: string)
    ensures Session(h, complete, Line(t, "", |h|, ""), "") == if t == "" then None else Some(t)
  {
    assert t + "" == t;
  }

  // ----- The history -----

  /** After any text, k times Up and j times Down and Enter return the entry that many steps back, or the
      oldest one, or the text again once the walk is back at it. */
  lemma WalkingReturns(h: seq<string>, complete: Completer, t: string, k: nat, j: nat)
    requires Printable(t) && |t| < HIST_LINE
    ensures var up := if k < |h| then k else |h|;
            Typed(h, complete, t + (Repeat(UP, k) + Repeat(DOWN, j)))
            == Some(if j < up then h[|h| - up + j] else t)
  {
    hide Session, Sends, Repeat, PressAll, Printable, Press;
    var l0 := Line("", "", |h|, "");
    var walk := Repeat(UP, k) + (Repeat(DOWN, j) + "\r");
    assert (t + (Repeat(UP, k) + Repeat(DOWN, j))) + "\r" == t + walk;
    TextThen(h, complete, l0, t, walk);
    assert "" + t == t && t + "" == t;
    var l1 := Line(t, "", |h|, "");
    ArrowsSend();
    KeysThen(h, complete, l1, UP, Up, k, Repeat(DOWN, j) + "\r");
    UpTimes(h, complete, l1, k);
    var l2 := PressAll(h, complete, l1, Times(Up, k));
    KeysThen(h, complete, l2, DOWN, Down, j, "\r");
    DownTimes(h, complete, l2, j);
    var l3 := PressAll(h, complete, l2, Times(Down, j));
    EnterEnds(h, complete, l3, "\r");
    assert forall i | 0 <= i < |h| :: h[i] + "" == h[i];
  }

  /** Tab puts in what completion finds at the cursor, if it fits. */
  lemma TabCompletes(h: seq<string>, complete: Completer, a: string, b: string, piece: string, c: char)
    requires Printable(a + b) && Printable([c]) && complete(a, b) == [piece] && |a| + |piece| + |b| + 1 < HIST_LINE
    ensures Typed(h, complete, Between(a, b) + TAB + [c]) == Some((a + piece) + [c] + b)
  {
    hide Between, Printable, Sends, Decode, Typed;
    ControlsSend();
    OnePiece(Line(a, b, |h|, ""), piece);
    KeyThenType(h, complete, a, b, TAB, Tab, c, Line(a + piece, b, |h|, ""));
  }

  lemma OnePiece(l: Line, piece: string)
    requires |l.left| + |l.right| + |piece| < HIST_LINE
    ensures InsertAll(l, [piece]) == l.(left := l.left + piece)
  {
    var l' := Insert(l, piece);
    assert l' == l.(left := l.left + piece) by {
      if piece == "" { assert l.left + piece == l.left; }
    }
    assert [piece][1..] == [] && InsertAll(l', []) == l';
  }
}
