/** read_bnfc_line on a terminal: keys decoded from bytes, a line edited in a buffer of 1024 bytes,
    and a walk through the history. The buffer refines the pure Line below. */
module LineEditor {
  import opened Wrappers
  import opened History

  // A string that C can hold.
  predicate Plain(s: string) {
    '\0' !in s
  }

  /** The text left and right of the cursor, the place in the history (its length stands for the
      line being typed), and that line while older entries are shown. */
  datatype Line = Line(left: string, right: string, nav: nat, saved: string) {
    function Text(): string {
      left + right
    }
  }

  datatype Key =
    | Type(c: char) | Tab | Left | Right | Home | End | Backspace | Delete | CtrlD | KillStart | KillEnd
    | Up | Down | Enter | EndOfInput | Nothing

  // What tab completion finds for a line: the pieces to insert one after the other.
  type Completer = (string, string) -> seq<string>

  // ----- Keys -----

  /** The next key and how many bytes it takes. */
  function Decode(input: string): (r: (Key, nat))
    ensures r.1 <= |input| && (r.1 == 0 <==> input == "") && (r.0.EndOfInput? <==> input == "")
  {
    if input == "" then (EndOfInput, 0)
    else
      var c := input[0] as int;
      if c == 0x0d || c == 0x0a then (Enter, 1)
      else if c == 0x1b then DecodeEscape(input)
      else if c == 0x7f || c == 0x08 then (Backspace, 1)
      else if c == 0x04 then (CtrlD, 1)
      else if c == 0x01 then (Home, 1)
      else if c == 0x05 then (End, 1)
      else if c == 0x15 then (KillStart, 1)
      else if c == 0x0b then (KillEnd, 1)
      else if c == 0x09 then (Tab, 1)
      else if c >= 0x20 then (Type(input[0]), 1)
      else (Nothing, 1)
  }

  function DecodeEscape(input: string): (r: (Key, nat))
    requires input != ""
    ensures 0 < r.1 <= |input| && !r.0.EndOfInput? && (r.0.Type? ==> false)
  {
    if |input| < 2 then (Nothing, 1)
    else if |input| < 3 || (input[1] != '[' && input[1] != 'O') then (Nothing, 2)
    else if input[1] == 'O' then (if input[2] == 'H' then Home else if input[2] == 'F' then End else Nothing, 3)
    else match input[2]
      case 'A' => (Up, 3)
      case 'B' => (Down, 3)
      case 'C' => (Right, 3)
      case 'D' => (Left, 3)
      case 'H' => (Home, 3)
      case 'F' => (End, 3)
      case '3' => (Delete, if |input| > 3 then 4 else 3)
      case _ => (Nothing, 3)
  }

  // ----- The line as a value -----

  function Insert(l: Line, piece: string): Line {
    if piece == "" || |l.Text()| + |piece| >= HIST_LINE then l else l.(left := l.left + piece)
  }

  function InsertAll(l: Line, pieces: seq<string>): Line
    decreases |pieces|
  {
    if pieces == [] then l else InsertAll(Insert(l, pieces[0]), pieces[1..])
  }

  function Older(h: seq<string>, l: Line): Line {
    if 0 < l.nav <= |h| then Line(h[l.nav - 1], "", l.nav - 1, if l.nav == |h| then l.Text() else l.saved) else l
  }

  function Newer(h: seq<string>, l: Line): Line {
    if l.nav < |h| then l.(left := if l.nav + 1 == |h| then l.saved else h[l.nav + 1], right := "", nav := l.nav + 1)
    else l
  }

  function WithoutLast(s: string): string {
    if s == "" then s else s[..|s| - 1]
  }

  function WithoutFirst(s: string): string {
    if s == "" then s else s[1..]
  }

  function Press(h: seq<string>, complete: Completer, l: Line, key: Key): Line {
    match key
    case Type(c) => if |l.Text()| < HIST_LINE - 1 then l.(left := l.left + [c]) else l
    case Tab => InsertAll(l, complete(l.left, l.right))
    case Left => if l.left == "" then l else l.(left := WithoutLast(l.left), right := [l.left[|l.left| - 1]] + l.right)
    case Right => if l.right == "" then l else l.(left := l.left + [l.right[0]], right := l.right[1..])
    case Home => l.(left := "", right := l.Text())
    case End => l.(left := l.Text(), right := "")
    case Backspace => l.(left := WithoutLast(l.left))
    case Delete => l.(right := WithoutFirst(l.right))
    case CtrlD => l.(right := WithoutFirst(l.right))
    case KillStart => l.(left := "")
    case KillEnd => l.(right := "")
    case Up => Older(h, l)
    case Down => Newer(h, l)
    case Enter => l
    case EndOfInput => l
    case Nothing => l
  }

  // The whole call: None where it returns NULL.
  function Session(h: seq<string>, complete: Completer, l: Line, input: string): Option<string>
    decreases |input|
  {
    var (key, n) := Decode(input);
    if key.EndOfInput? || (key.CtrlD? && l.Text() == "") then (if l.Text() == "" then None else Some(l.Text()))
    else if key.Enter? then Some(l.Text())
    else Session(h, complete, Press(h, complete, l, key), input[n..])
  }

  ghost predicate Rows(h: seq<string>) {
    forall i | 0 <= i < |h| :: |h[i]| < HIST_LINE && Plain(h[i])
  }

  ghost predicate PlainPieces(complete: Completer) {
    forall s, t, i | 0 <= i < |complete(s, t)| :: Plain(complete(s, t)[i])
  }

  ghost predicate LineOk(h: seq<string>, l: Line) {
    && |l.Text()| < HIST_LINE && Plain(l.Text()) && l.nav <= |h|
    && |l.saved| < HIST_LINE && Plain(l.saved)
  }

  // ----- The buffer -----

  // memmove.
  method Move(a: array<char>, to: nat, from: nat, n: nat)
    requires to + n <= a.Length && from + n <= a.Length
    modifies a
    ensures forall i | 0 <= i < a.Length :: a[i] == if to <= i < to + n then old(a[i - to + from]) else old(a[i])
  {
    forall i | to <= i < to + n {
      a[i] := a[i - to + from];
    }
  }

  // strncpy(a, s, n): the string, and zeros up to n.
  method CopyString(a: array<char>, s: string, n: nat)
    requires |s| <= n <= a.Length
    modifies a
    ensures forall i | 0 <= i < a.Length :: a[i] == if i < |s| then s[i] else if i < n then '\0' else old(a[i])
  {
    forall i | 0 <= i < n {
      a[i] := if i < |s| then s[i] else '\0';
    }
  }

  method StringLength(a: array<char>) returns (n: nat)
    requires a.Length > 0 && a[a.Length - 1] == '\0'
    ensures n < a.Length && a[n] == '\0' && Plain(a[..n])
  {
    n := 0;
    while a[n] != '\0'
      invariant n < a.Length && Plain(a[..n])
      decreases a.Length - n
    {
      n := n + 1;
    }
  }

  // Text put into the first n bytes of a buffer.
  method Splice(a: array<char>, n: nat, at: nat, piece: string)
    requires at <= n && n + |piece| <= a.Length
    modifies a
    ensures a[..n + |piece|] == old(a[..at]) + piece + old(a[at..n])
    ensures forall i | n + |piece| <= i < a.Length :: a[i] == old(a[i])
  {
    ghost var left, right := a[..at], a[at..n];
    Move(a, at + |piece|, at, n - at);
    assert a[at + |piece|..n + |piece|] == right && a[..at] == left;
    forall i | at <= i < at + |piece| {
      a[i] := piece[i - at];
    }
  }

  // k of the first n bytes taken out.
  method Squeeze(a: array<char>, n: nat, at: nat, k: nat)
    requires at + k <= n <= a.Length
    modifies a
    ensures a[..n - k] == old(a[..at]) + old(a[at + k..n])
    ensures forall i | n <= i < a.Length :: a[i] == old(a[i])
  {
    Move(a, at, at + k, n - at - k);
  }

  lemma PlainParts(s: string, at: nat, k: nat, piece: string)
    requires Plain(s) && at + k <= |s| && Plain(piece)
    ensures Plain(s[..at] + s[at + k..]) && Plain(s[..at] + piece + s[at..])
  {
  }

  // The first NUL ends the string.
  lemma FirstNul(s: string, entry: string, n: nat)
    requires |entry| < |s| && s[..|entry|] == entry && s[|entry|] == '\0' && Plain(entry)
    requires n < |s| && s[n] == '\0' && Plain(s[..n])
    ensures n == |entry|
  {
    assert forall i | 0 <= i < |entry| :: s[..|entry|][i] == s[i] && s[i] != '\0';
    assert forall i | 0 <= i < n :: s[..n][i] == s[i] && s[i] != '\0';
  }

  class Editor {
    const history: seq<string>
    const buf: array<char>
    var blen: nat
    var cursor: nat
    var nav: nat
    var saved: string

    ghost predicate Valid()
      reads this, buf
    {
      && buf.Length == HIST_LINE && cursor <= blen < HIST_LINE && Plain(buf[..blen]) && buf[HIST_LINE - 1] == '\0'
      && nav <= |history| && Rows(history) && |saved| < HIST_LINE && Plain(saved)
    }

    function View(): Line
      reads this, buf
      requires cursor <= blen <= buf.Length
    {
      Line(buf[..cursor], buf[cursor..blen], nav, saved)
    }

    constructor (history: seq<string>)
      requires Rows(history)
      ensures Valid() && fresh(buf) && this.history == history && View() == Line("", "", |history|, "")
    {
      this.history := history;
      buf := new char[HIST_LINE](_ => '\0');
      blen, cursor, nav, saved := 0, 0, |history|, "";
    }

    // tab_insert, and a typed character as a piece of one.
    method InsertPiece(piece: string)
      requires Valid() && Plain(piece)
      modifies this`blen, this`cursor, buf
      ensures Valid() && View() == Insert(old(View()), piece)
    {
      if piece == "" || blen + |piece| >= HIST_LINE {
        return;
      }
      ghost var text := buf[..blen];
      PlainParts(text, cursor, 0, piece);
      assert text[..cursor] == buf[..cursor] && text[cursor..] == buf[cursor..blen];
      Splice(buf, blen, cursor, piece);
      hide Plain;
      cursor := cursor + |piece|;
      blen := blen + |piece|;
      ghost var text' := buf[..blen];
      buf[blen] := '\0';
      assert buf[..blen] == text';
      assert buf[..cursor] == text'[..cursor] && buf[cursor..blen] == text'[cursor..];
    }

    method InsertPieces(pieces: seq<string>)
      requires Valid() && forall i | 0 <= i < |pieces| :: Plain(pieces[i])
      modifies this`blen, this`cursor, buf
      ensures Valid() && View() == InsertAll(old(View()), pieces)
    {
      hide Insert;
      var i := 0;
      while i < |pieces|
        invariant i <= |pieces| && Valid()
        invariant InsertAll(View(), pieces[i..]) == InsertAll(old(View()), pieces)
      {
        InsertPiece(pieces[i]);
        i := i + 1;
      }
    }

    // The bytes from the cursor on become those from another place, k bytes further on.
    method Erase(at: nat, k: nat)
      requires Valid() && at + k <= blen
      modifies this`blen, buf
      ensures blen == old(blen) - k && buf[..blen] == old(buf[..at]) + old(buf[at + k..blen])
      ensures buf[HIST_LINE - 1] == '\0' && Plain(buf[..blen])
    {
      ghost var text := buf[..blen];
      PlainParts(text, at, k, "");
      assert text[..at] == buf[..at] && text[at + k..] == buf[at + k..blen];
      Squeeze(buf, blen, at, k);
      hide Plain;
      blen := blen - k;
      ghost var text' := buf[..blen];
      buf[blen] := '\0';
      assert buf[..blen] == text';
    }

    method Backspace()
      requires Valid()
      modifies this`blen, this`cursor, buf
      ensures Valid() && View() == old(View()).(left := WithoutLast(old(View()).left))
    {
      if cursor > 0 {
        Erase(cursor - 1, 1);
        cursor := cursor - 1;
      }
    }

    method Delete()
      requires Valid()
      modifies this`blen, buf
      ensures Valid() && View() == old(View()).(right := WithoutFirst(old(View()).right))
    {
      if cursor < blen {
        Erase(cursor, 1);
      }
    }

    method KillToStart()
      requires Valid()
      modifies this`blen, this`cursor, buf
      ensures Valid() && View() == old(View()).(left := "")
    {
      Erase(0, cursor);
      cursor := 0;
    }

    // strncpy of an entry over the line, and strlen to find its length again.
    method Show(entry: string)
      requires Valid() && |entry| < HIST_LINE && Plain(entry)
      modifies this`blen, this`cursor, buf
      ensures Valid() && View() == old(View()).(left := entry, right := "")
    {
      CopyString(buf, entry, HIST_LINE - 1);
      blen := StringLength(buf);
      FirstNul(buf[..], entry, blen);
      assert buf[..blen] == entry;
      cursor := blen;
    }

    method OlderEntry()
      requires Valid()
      modifies this, buf
      ensures Valid() && View() == Older(history, old(View()))
    {
      if nav > 0 {
        if nav == |history| {
          saved := buf[..blen];
          assert saved == buf[..cursor] + buf[cursor..blen];
        }
        nav := nav - 1;
        Show(history[nav]);
      }
    }

    method NewerEntry()
      requires Valid()
      modifies this, buf
      ensures Valid() && View() == Newer(history, old(View()))
    {
      if nav < |history| {
        nav := nav + 1;
        Show(if nav == |history| then saved else history[nav]);
      }
    }

    method MoveCursor(key: Key, complete: Completer)
      requires Valid() && (key.Left? || key.Right? || key.Home? || key.End?)
      modifies this`cursor
      ensures Valid() && View() == Press(history, complete, old(View()), key)
    {
      hide Plain, InsertAll;
      assert buf[..blen] == buf[..cursor] + buf[cursor..blen];
      match key
      case Left => if cursor > 0 { cursor := cursor - 1; }
      case Right => if cursor < blen { cursor := cursor + 1; }
      case Home => cursor := 0;
      case End => cursor := blen;
    }

    method KillToEnd()
      requires Valid()
      modifies this`blen, buf
      ensures Valid() && View() == old(View()).(right := "")
    {
      assert buf[..blen] == buf[..cursor] + buf[cursor..blen];
      ghost var left := buf[..cursor];
      blen := cursor;
      buf[blen] := '\0';
      assert buf[..blen] == left;
    }

    method OneKey(key: Key, complete: Completer)
      requires Valid() && PlainPieces(complete) && (key.Type? ==> key.c != '\0')
      modifies this, buf
      ensures Valid() && View() == Press(history, complete, old(View()), key)
    {
      hide InsertAll, Older, Newer, WithoutFirst, WithoutLast;
      ghost var v := View();
      assert blen == |v.Text()|;
      match key
      case Type(c) => if blen < HIST_LINE - 1 { InsertPiece([c]); }
      case Tab => InsertPieces(complete(buf[..cursor], buf[cursor..blen]));
      case Backspace => Backspace();
      case Delete => Delete();
      case CtrlD => Delete();
      case KillStart => KillToStart();
      case KillEnd => KillToEnd();
      case Up => OlderEntry();
      case Down => NewerEntry();
      case Enter =>
      case EndOfInput =>
      case Nothing =>
      case _ => MoveCursor(key, complete);
    }

    /** The key loop: the line that the call returns is the one the pure editor ends with. */
    method ReadLine(complete: Completer, input: string) returns (line: Option<string>)
      requires Valid() && PlainPieces(complete)
      modifies this, buf
      ensures line == Session(history, complete, old(View()), input)
    {
      hide Decode, Press;
      var at := 0;
      while true
        invariant at <= |input| && Valid()
        invariant Session(history, complete, View(), input[at..]) == Session(history, complete, old(View()), input)
        decreases |input| - at
      {
        var (key, n) := Decode(input[at..]);
        KeyIsPlain(input[at..]);
        ghost var v := View();
        assert buf[..blen] == v.Text();
        if key.EndOfInput? || (key.CtrlD? && blen == 0) {
          return if blen == 0 then None else Some(buf[..blen]);
        }
        if key.Enter? {
          return Some(buf[..blen]);
        }
        OneKey(key, complete);
        assert input[at..][n..] == input[at + n..];
        at := at + n;
      }
    }
  }

  lemma KeyIsPlain(input: string)
    ensures Decode(input).0.Type? ==> Decode(input).0.c != '\0'
  {
  }

  // ----- What the editor does over several keys -----

  function PressAll(h: seq<string>, complete: Completer, l: Line, keys: seq<Key>): Line
    decreases |keys|
  {
    if keys == [] then l else PressAll(h, complete, Press(h, complete, l, keys[0]), keys[1..])
  }

  function Times(key: Key, k: nat): (r: seq<Key>)
    ensures |r| == k && forall i | 0 <= i < k :: r[i] == key
  {
    seq(k, _ => key)
  }

  lemma {:induction false} PressJoin(h: seq<string>, complete: Completer, l: Line, keys: seq<Key>, more: seq<Key>)
    ensures PressAll(h, complete, l, keys + more) == PressAll(h, complete, PressAll(h, complete, l, keys), more)
    decreases |keys|
  {
    hide Press;
    if keys == [] {
      assert keys + more == more;
    } else {
      assert (keys + more)[0] == keys[0] && (keys + more)[1..] == keys[1..] + more;
      PressJoin(h, complete, Press(h, complete, l, keys[0]), keys[1..], more);
    }
  }

  // Going up k times; only the first step saves the line.
  lemma {:induction false} UpTimes(h: seq<string>, complete: Completer, l: Line, k: nat)
    requires l.nav <= |h|
    ensures PressAll(h, complete, l, Times(Up, k)) ==
            if k == 0 || l.nav == 0 then l
            else Line(h[if k < l.nav then l.nav - k else 0], "", if k < l.nav then l.nav - k else 0,
                      if l.nav == |h| then l.Text() else l.saved)
    decreases k
  {
    if k > 0 {
      assert Times(Up, k)[1..] == Times(Up, k - 1);
      UpTimes(h, complete, Older(h, l), k - 1);
    }
  }

  lemma {:induction false} DownTimes(h: seq<string>, complete: Completer, l: Line, k: nat)
    requires l.nav <= |h|
    ensures PressAll(h, complete, l, Times(Down, k)) ==
            if k == 0 || l.nav == |h| then l
            else if l.nav + k < |h| then Line(h[l.nav + k], "", l.nav + k, l.saved)
            else Line(l.saved, "", |h|, l.saved)
    decreases k
  {
    if k > 0 {
      assert Times(Down, k)[1..] == Times(Down, k - 1);
      DownTimes(h, complete, Newer(h, l), k - 1);
    }
  }

  /** From the line being typed, any number of steps up and as many down bring its text back; the
      cursor is then at its end, unless there was no step to take. */
  lemma UpThenDown(h: seq<string>, complete: Completer, l: Line, k: nat)
    requires l.nav == |h|
    ensures var back := PressAll(h, complete, l, Times(Up, k) + Times(Down, k));
            && back.Text() == l.Text() && back.nav == |h|
            && (k > 0 && h != [] ==> back.left == l.Text() && back.right == "" && back.saved == l.Text())
            && (k == 0 || h == [] ==> back == l)
  {
    PressJoin(h, complete, l, Times(Up, k), Times(Down, k));
    UpTimes(h, complete, l, k);
    DownTimes(h, complete, PressAll(h, complete, l, Times(Up, k)), k);
  }

  /** From inside the history, where entry nav is shown, k steps up and k down show the entry as many
      steps further as the walk up was cut short at the oldest one, or the saved line once that is the
      line being typed. Entry nav itself comes back exactly if the walk was not cut short, and the text
      as it was before if it had not been edited. */
  lemma UpThenDownReturns(h: seq<string>, complete: Completer, l: Line, k: nat)
    requires l.nav < |h| && k > 0
    ensures var back := PressAll(h, complete, l, Times(Up, k) + Times(Down, k));
            var nav := if k <= l.nav then l.nav else k;
            && back == Line(if nav < |h| then h[nav] else l.saved, "", if nav < |h| then nav else |h|, l.saved)
            && (back.nav == l.nav <==> k <= l.nav)
            && (k <= l.nav ==> (back.Text() == l.Text() <==> l.Text() == h[l.nav]))
  {
    PressJoin(h, complete, l, Times(Up, k), Times(Down, k));
    UpTimes(h, complete, l, k);
    DownTimes(h, complete, PressAll(h, complete, l, Times(Up, k)), k);
  }

  /** Under any keys the text stays below the size of the buffer and free of NUL, and the place in
      the history within it. */
  lemma {:induction false} KeysKeep(h: seq<string>, complete: Completer, l: Line, keys: seq<Key>)
    requires Rows(h) && PlainPieces(complete) && LineOk(h, l)
    requires forall i | 0 <= i < |keys| :: keys[i].Type? ==> keys[i].c != '\0'
    ensures LineOk(h, PressAll(h, complete, l, keys))
    decreases |keys|
  {
    if keys != [] {
      KeyKeeps(h, complete, l, keys[0]);
      hide Press, LineOk;
      KeysKeep(h, complete, Press(h, complete, l, keys[0]), keys[1..]);
    }
  }

  lemma KeyKeeps(h: seq<string>, complete: Completer, l: Line, key: Key)
    requires Rows(h) && PlainPieces(complete) && LineOk(h, l) && (key.Type? ==> key.c != '\0')
    ensures LineOk(h, Press(h, complete, l, key))
  {
    if key.Tab? {
      PiecesKeep(h, l, complete(l.left, l.right));
    }
  }

  lemma {:induction false} PiecesKeep(h: seq<string>, l: Line, pieces: seq<string>)
    requires LineOk(h, l) && forall i | 0 <= i < |pieces| :: Plain(pieces[i])
    ensures LineOk(h, InsertAll(l, pieces))
    decreases |pieces|
  {
    if pieces != [] {
      PiecesKeep(h, Insert(l, pieces[0]), pieces[1..]);
    }
  }

  /** A typed character that finds room is taken back by Backspace; a full line ignores it. */
  lemma TypeThenBackspace(h: seq<string>, complete: Completer, l: Line, c: char)
    ensures Press(h, complete, Press(h, complete, l, Type(c)), Backspace)
            == if |l.Text()| < HIST_LINE - 1 then l else Press(h, complete, l, Backspace)
  {
  }

  /** Moving the cursor changes no text, and Home, End, Left and Right undo each other where they can. */
  lemma MovesKeepText(h: seq<string>, complete: Completer, l: Line, key: Key)
    requires key.Left? || key.Right? || key.Home? || key.End?
    ensures Press(h, complete, l, key).Text() == l.Text()
    ensures key.Left? && l.left != "" ==> Press(h, complete, Press(h, complete, l, Left), Right) == l
    ensures key.Right? && l.right != "" ==> Press(h, complete, Press(h, complete, l, Right), Left) == l
  {
    if key.Left? && l.left != "" {
      assert l.left == WithoutLast(l.left) + [l.left[|l.left| - 1]];
    } else if key.Right? && l.right != "" {
      assert l.right == [l.right[0]] + l.right[1..];
    }
  }
}
