/** Every way to write a JSON string down, by the standard and beyond it as far as the parser goes along:
    what it accepts as a string, exactly. */
module JsonPieces {
  import opened Texts
  import opened Wrappers
  import opened JsonBytes
  import opened JsonString
  import opened JsonQuote

  type CodePoint = cp: int | Scalar(cp)

  // A byte that stands for itself, a backslash and a letter, one or two \u escapes, or a \u with four
  // bytes of which some are no hexadecimal digits.
  datatype Piece =
    | Itself(b: Byte)
    | Letter(b: Byte)
    | Unicode(cp: CodePoint, first: Bytes, second: Bytes)
    | BadDigits(four: Bytes)

  // What section 7 of RFC 8259 allows, and control characters as well.
  ghost predicate ValidPiece(x: Piece) {
    match x
    case Itself(b) => b != QUOTE && b != BACKSLASH
    case Letter(b) => Simple(b).Some?
    case Unicode(cp, first, second) =>
      Spells(first, Utf16(cp)[0]) && (if cp < 0x10000 then second == [] else Spells(second, Utf16(cp)[1]))
    case BadDigits(_) => false
  }

  // What the second pass goes along with.
  ghost predicate Readable(x: Piece) {
    match x
    case Itself(b) => b != BACKSLASH
    case BadDigits(four) => |four| == 4 && exists b | b in four :: !IsHex(b)
    case _ => ValidPiece(x)
  }

  function PieceText(x: Piece): Bytes {
    match x
    case Itself(b) => [b]
    case Letter(b) => [BACKSLASH, b]
    case Unicode(cp, first, second) =>
      [BACKSLASH, LETTER_U] + first + (if cp < 0x10000 then [] else [BACKSLASH, LETTER_U] + second)
    case BadDigits(four) => [BACKSLASH, LETTER_U] + four
  }

  function Meaning(x: Piece): Bytes {
    match x
    case Itself(b) => [b]
    case Letter(b) => if Simple(b).Some? then [Simple(b).value] else []
    case Unicode(cp, _, _) => Utf8(cp)
    case BadDigits(_) => [0]
  }

  ghost predicate ValidPieces(xs: seq<Piece>) {
    forall x | x in xs :: ValidPiece(x)
  }

  ghost predicate AllReadable(xs: seq<Piece>) {
    forall x | x in xs :: Readable(x)
  }

  function PiecesText(xs: seq<Piece>): Bytes {
    if xs == [] then [] else PieceText(xs[0]) + PiecesText(xs[1..])
  }

  function Meanings(xs: seq<Piece>): Bytes {
    if xs == [] then [] else Meaning(xs[0]) + Meanings(xs[1..])
  }

  // Every backslash takes the next byte along, and no quote stands alone.
  ghost predicate InStep(content: Bytes) {
    if content == [] then true
    else if content[0] == BACKSLASH then |content| > 1 && InStep(content[2..])
    else content[0] != QUOTE && InStep(content[1..])
  }

  // Four bytes that are no digits may bring the two passes out of step: the second one then may read the
  // last backslash and the closing quote as an escaped quote.
  ghost predicate TakesQuote(content: Bytes, xs: seq<Piece>) {
    xs != [] && xs[|xs| - 1] == Letter(QUOTE) && PiecesText(xs) == content + [QUOTE]
  }

  /** What stands between two quotes, and how the parser reads it. */
  ghost predicate Reads(content: Bytes, xs: seq<Piece>) {
    InStep(content) && AllReadable(xs) && (PiecesText(xs) == content || TakesQuote(content, xs))
  }

  function Quoted(content: Bytes): Bytes {
    [QUOTE] + (content + [QUOTE])
  }

  // ----- The second pass over one piece -----

  lemma OverUnicode(c: Bytes, p: nat, x: Piece, end: nat)
    requires x.Unicode? && ValidPiece(x) && Has(c, p, PieceText(x)) && p + |PieceText(x)| <= end < |c|
    ensures Unescape(c, p, end) == Before(Meaning(x), Unescape(c, p + |PieceText(x)|, end))
  {
    hide Utf16Escape, Has, Utf8, Utf16, Spells, PieceText;
    UnicodeStands(c, p, x);
    EscapedCharacterBecomesUtf8(c, p, end, x.cp, x.first, x.second);
  }

  lemma UnicodeStands(c: Bytes, p: nat, x: Piece)
    requires x.Unicode? && ValidPiece(x) && Has(c, p, PieceText(x))
    ensures p + 2 <= |c| && c[p] == BACKSLASH && c[p + 1] == LETTER_U
    ensures |PieceText(x)| == if x.cp < 0x10000 then 6 else 12
    ensures PieceText(x) == [BACKSLASH, LETTER_U] + x.first
                            + (if x.cp < 0x10000 then [] else [BACKSLASH, LETTER_U] + x.second)
  {
    var mark: Bytes := [BACKSLASH, LETTER_U];
    HasJoin(c, p, mark + x.first, if x.cp < 0x10000 then [] else mark + x.second);
    HasJoin(c, p, mark, x.first);
    assert c[p] == mark[0] && c[p + 1] == mark[1];
  }

  lemma OverBadDigits(c: Bytes, p: nat, x: Piece, end: nat)
    requires x.BadDigits? && Readable(x) && Has(c, p, PieceText(x)) && p + 6 <= end < |c|
    ensures Unescape(c, p, end) == Before([0], Unescape(c, p + 6, end))
  {
    var mark: Bytes := [BACKSLASH, LETTER_U];
    HasJoin(c, p, mark, x.four);
    assert c[p] == mark[0] && c[p + 1] == mark[1];
    assert c[p + 2..p + 6] == x.four;
    hide Utf16Escape, Has;
    EscapeIsStrictIff(c, p, end);
  }

  lemma OverPiece(c: Bytes, p: nat, x: Piece, end: nat)
    requires Readable(x) && Has(c, p, PieceText(x)) && p < end < |c|
    requires p + |PieceText(x)| <= end || (x == Letter(QUOTE) && p + 2 == end + 1)
    ensures Unescape(c, p, end) == Before(Meaning(x), Unescape(c, p + |PieceText(x)|, end))
  {
    match x {
      case Itself(b) =>
        assert c[p] == [b][0];
      case Letter(b) =>
        assert c[p] == [BACKSLASH, b][0] && c[p + 1] == [BACKSLASH, b][1];
      case Unicode(_, _, _) => OverUnicode(c, p, x, end);
      case BadDigits(_) => OverBadDigits(c, p, x, end);
    }
  }

  // ----- Whole strings -----

  lemma FirstPiece(c: Bytes, p: nat, xs: seq<Piece>)
    requires xs != [] && Has(c, p, PiecesText(xs))
    ensures Has(c, p, PieceText(xs[0])) && Has(c, p + |PieceText(xs[0])|, PiecesText(xs[1..]))
    ensures |PiecesText(xs)| == |PieceText(xs[0])| + |PiecesText(xs[1..])| && p + |PiecesText(xs)| <= |c|
    ensures Meanings(xs) == Meaning(xs[0]) + Meanings(xs[1..])
    ensures AllReadable(xs) ==> Readable(xs[0]) && AllReadable(xs[1..])
  {
    hide PieceText, Meaning, Readable;
    assert xs[0] in xs && forall x | x in xs[1..] :: x in xs;
    HasJoin(c, p, PieceText(xs[0]), PiecesText(xs[1..]));
  }

  lemma AtTheEnd(c: Bytes, p: nat, end: nat)
    requires end <= p && end < |c|
    ensures Unescape(c, p, end) == Some(Meanings([]))
  {
  }

  lemma NoPieces()
    ensures PiecesText([]) == []
  {
  }

  lemma {:induction false} OverPieces(c: Bytes, p: nat, xs: seq<Piece>, end: nat)
    requires AllReadable(xs) && Has(c, p, PiecesText(xs)) && end < |c|
    requires p + |PiecesText(xs)| == end
          || (p + |PiecesText(xs)| == end + 1 && xs != [] && xs[|xs| - 1] == Letter(QUOTE))
    ensures Unescape(c, p, end) == Some(Meanings(xs))
    decreases |xs|
  {
    hide *;
    NoPieces();
    if xs == [] {
      AtTheEnd(c, p, end);
    } else {
      FirstPiece(c, p, xs);
      LettersAreTwo();
      PieceIsSome(xs[0]);
      if |xs| == 1 {
        AtTheEnd(c, p + |PieceText(xs[0])|, end);
        OverPiece(c, p, xs[0], end);
        assert xs[1..] == [];
      } else {
        RestIsSome(xs);
        OverPiece(c, p, xs[0], end);
        OverPieces(c, p + |PieceText(xs[0])|, xs[1..], end);
      }
      BeforeSome(Meaning(xs[0]), Meanings(xs[1..]));
    }
  }

  lemma LettersAreTwo()
    ensures |PieceText(Letter(QUOTE))| == 2
  {
  }

  lemma PieceIsSome(x: Piece)
    ensures PieceText(x) != []
  {
  }

  lemma RestIsSome(xs: seq<Piece>)
    requires |xs| > 1
    ensures |PiecesText(xs[1..])| >= |PieceText(xs[|xs| - 1])| && xs[1..][|xs[1..]| - 1] == xs[|xs| - 1]
  {
    LastPiece(xs[1..]);
  }

  lemma {:induction false} LastPiece(xs: seq<Piece>)
    requires xs != []
    ensures |PiecesText(xs)| >= |PieceText(xs[|xs| - 1])|
    decreases |xs|
  {
    hide PieceText;
    if |xs| > 1 {
      LastPiece(xs[1..]);
    }
  }

  lemma BeforeSome(s: Bytes, t: Bytes)
    ensures Before(s, Some(t)) == Some(s + t)
  {
  }

  // The first pass finds the closing quote.
  lemma {:induction false} StepsToQuote(c: Bytes, p: nat, content: Bytes)
    requires InStep(content) && Has(c, p, content) && p + |content| < |c| && c[p + |content|] == QUOTE
    ensures StringEnd(c, p) == Some(p + |content|)
    decreases |content|
  {
    if content != [] {
      assert c[p] == content[0];
      var n := if content[0] == BACKSLASH then 2 else 1;
      assert content == content[..n] + content[n..];
      HasJoin(c, p, content[..n], content[n..]);
      hide Has;
      StepsToQuote(c, p + n, content[n..]);
    }
  }

  lemma QuotesStand(c: Bytes, p: nat, t: Bytes)
    requires Has(c, p, [QUOTE] + (t + [QUOTE]))
    ensures p + 1 + |t| < |c| && c[p] == c[p + 1 + |t|] == QUOTE && Has(c, p + 1, t) && Has(c, p + 1, t + [QUOTE])
  {
    HasJoin(c, p, [QUOTE], t + [QUOTE]);
    HasJoin(c, p + 1, t, [QUOTE]);
    assert c[p] == [QUOTE][0] && c[p + 1 + |t|] == [QUOTE][0];
  }

  /** Wherever such a string stands, parsing gives what its pieces mean and stops just past it. */
  lemma ReadQuoted(c: Bytes, p: nat, content: Bytes, xs: seq<Piece>)
    requires Reads(content, xs) && Has(c, p, Quoted(content))
    ensures p < |c| && c[p] == QUOTE && ParseStringAt(c, p) == Some((Meanings(xs), p + |Quoted(content)|))
  {
    hide *;
    PiecesStand(c, p, content, xs);
    StepsToQuote(c, p + 1, content);
    OverPieces(c, p + 1, xs, p + 1 + |content|);
    BothPasses(c, p);
  }

  lemma PiecesStand(c: Bytes, p: nat, content: Bytes, xs: seq<Piece>)
    requires Reads(content, xs) && Has(c, p, Quoted(content))
    ensures p + 1 + |content| < |c| && c[p] == c[p + 1 + |content|] == QUOTE && |Quoted(content)| == |content| + 2
    ensures InStep(content) && Has(c, p + 1, content) && AllReadable(xs) && Has(c, p + 1, PiecesText(xs))
    ensures |PiecesText(xs)| == |content|
         || (|PiecesText(xs)| == |content| + 1 && xs != [] && xs[|xs| - 1] == Letter(QUOTE))
  {
    hide Has, PiecesText, AllReadable, InStep;
    QuotesStand(c, p, content);
  }

  lemma BothPasses(c: Bytes, p: nat)
    requires p < |c| && c[p] == QUOTE && StringEnd(c, p + 1).Some?
    ensures var end := StringEnd(c, p + 1).value; var s := Unescape(c, p + 1, end);
            ParseStringAt(c, p) == if s.Some? then Some((s.value, end + 1)) else None
  {
    hide StringEnd, Unescape;
  }

  // ----- Nothing else is read -----

  lemma {:induction false} StepsFromQuote(c: Bytes, p: nat)
    requires StringEnd(c, p).Some?
    ensures p <= StringEnd(c, p).value && InStep(c[p..StringEnd(c, p).value])
    decreases |c| - p
  {
    var end := StringEnd(c, p).value;
    if c[p] != QUOTE {
      var n := if c[p] == BACKSLASH then 2 else 1;
      StepsFromQuote(c, p + n);
      assert c[p..end][n..] == c[p + n..end];
    }
  }

  // The characters behind a pair of surrogates are exactly those above 0xFFFF.
  lemma PairIsUnique(w1: int, w2: int)
    requires High(w1) && Low(w2)
    ensures Scalar(Combine(w1, w2)) && Utf16(Combine(w1, w2)) == [w1, w2]
  {
    var u := w1 % 0x400 * 0x400 + w2 % 0x400;
    assert u / 0x400 == w1 % 0x400 && u % 0x400 == w2 % 0x400;
    assert w1 == 0xD800 + w1 % 0x400 && w2 == 0xDC00 + w2 % 0x400;
  }

  // Six bytes of an escape, as its mark and its four digits.
  lemma SixStand(c: Bytes, p: nat)
    requires p + 6 <= |c| && c[p] == BACKSLASH && c[p + 1] == LETTER_U
    ensures Has(c, p, [BACKSLASH, LETTER_U] + c[p + 2..p + 6])
  {
  }

  // A \u escape that is accepted is one of the pieces.
  lemma EscapeIsPiece(c: Bytes, p: nat, end: nat) returns (x: Piece)
    requires p + 1 < end <= |c| && c[p] == BACKSLASH && c[p + 1] == LETTER_U && Utf16Escape(c, p, end).Some?
    ensures Readable(x) && Has(c, p, PieceText(x))
    ensures Utf16Escape(c, p, end) == Some((Meaning(x), |PieceText(x)|))
  {
    hide Has, Utf8, Utf16;
    var h := c[p + 2..p + 6];
    SixStand(c, p);
    HexOrNot(h);
    if High(Hex4(h)) {
      x := PairPiece(c, p, end);
    } else if forall k | 0 <= k < 4 :: IsHex(h[k]) {
      x := Unicode(Hex4(h), h, []);
      OneUnit(Hex4(h));
      assert PieceText(x) == [BACKSLASH, LETTER_U] + h;
    } else {
      x := BadDigits(h);
      ZeroIsNul();
    }
  }

  lemma OneUnit(w: int)
    requires 0 <= w < 0x10000 && Scalar(w)
    ensures Utf16(w)[0] == w
  {
  }

  lemma ZeroIsNul()
    ensures Utf8(0) == [0]
  {
  }

  lemma PairPiece(c: Bytes, p: nat, end: nat) returns (x: Piece)
    requires p + 6 <= end <= |c| && c[p] == BACKSLASH && c[p + 1] == LETTER_U && Utf16Escape(c, p, end).Some?
    requires High(Hex4(c[p + 2..p + 6]))
    ensures Readable(x) && Has(c, p, PieceText(x))
    ensures Utf16Escape(c, p, end) == Some((Meaning(x), |PieceText(x)|))
  {
    hide Has, Utf8, Utf16, Combine;
    var h, h2 := c[p + 2..p + 6], c[p + 8..p + 12];
    SixStand(c, p);
    SixStand(c, p + 6);
    HexOrNot(h);
    HexOrNot(h2);
    PairIsUnique(Hex4(h), Hex4(h2));
    x := Unicode(Combine(Hex4(h), Hex4(h2)), h, h2);
    HasBoth(c, p, [BACKSLASH, LETTER_U] + h, [BACKSLASH, LETTER_U] + h2);
  }

  lemma OneMore(c: Bytes, p: nat, x: Piece, rest: seq<Piece>)
    requires Has(c, p, PieceText(x)) && Has(c, p + |PieceText(x)|, PiecesText(rest))
    ensures Has(c, p, PiecesText([x] + rest)) && PiecesText([x] + rest) == PieceText(x) + PiecesText(rest)
    ensures Meanings([x] + rest) == Meaning(x) + Meanings(rest)
    ensures Readable(x) && AllReadable(rest) ==> AllReadable([x] + rest)
  {
    hide PieceText, Meaning, Readable;
    assert ([x] + rest)[1..] == rest;
    HasBoth(c, p, PieceText(x), PiecesText(rest));
  }

  // The first piece of what the second pass accepts.
  lemma PieceAt(c: Bytes, p: nat, end: nat) returns (x: Piece)
    requires p < end < |c| && c[end] == QUOTE && Unescape(c, p, end).Some?
    ensures Readable(x) && Has(c, p, PieceText(x)) && p < p + |PieceText(x)| <= end + 1
    ensures p + |PieceText(x)| == end + 1 ==> x == Letter(QUOTE)
    ensures Unescape(c, p, end) == Before(Meaning(x), Unescape(c, p + |PieceText(x)|, end))
  {
    hide Has, Utf16Escape, Unescape, Utf8, Utf16, Simple;
    if c[p] != BACKSLASH {
      x := Itself(c[p]);
      OneByteStands(c, p);
      PlainByte(c, p, end);
    } else if c[p + 1] == LETTER_U {
      EscapedByte(c, p, end);
      x := EscapeIsPiece(c, p, end);
    } else {
      x := Letter(c[p + 1]);
      TwoBytesStand(c, p);
      EscapedByte(c, p, end);
    }
  }

  lemma OneByteStands(c: Bytes, p: nat)
    requires p < |c|
    ensures Has(c, p, [c[p]])
  {
  }

  lemma TwoBytesStand(c: Bytes, p: nat)
    requires p + 1 < |c| && c[p] == BACKSLASH
    ensures Has(c, p, [BACKSLASH, c[p + 1]])
  {
  }

  // One level of the second pass.
  lemma PlainByte(c: Bytes, p: nat, end: nat)
    requires p < end < |c| && c[p] != BACKSLASH
    ensures Unescape(c, p, end) == Before([c[p]], Unescape(c, p + 1, end))
  {
  }

  lemma EscapedByte(c: Bytes, p: nat, end: nat)
    requires p < end < |c| && c[end] == QUOTE && c[p] == BACKSLASH && Unescape(c, p, end).Some?
    ensures c[p + 1] == LETTER_U ==> p + 1 < end && Utf16Escape(c, p, end).Some?
    ensures c[p + 1] == LETTER_U ==>
              var (u, n) := Utf16Escape(c, p, end).value;
              Unescape(c, p, end) == Before(u, Unescape(c, p + n, end))
    ensures c[p + 1] != LETTER_U ==>
              && Simple(c[p + 1]).Some?
              && Unescape(c, p, end) == Before([Simple(c[p + 1]).value], Unescape(c, p + 2, end))
  {
    hide Simple, Utf16Escape;
  }

  lemma {:induction false} PiecesFrom(c: Bytes, p: nat, end: nat) returns (xs: seq<Piece>)
    requires p <= end < |c| && c[end] == QUOTE && Unescape(c, p, end).Some?
    ensures AllReadable(xs) && Has(c, p, PiecesText(xs))
    ensures p + |PiecesText(xs)| == end
         || (p + |PiecesText(xs)| == end + 1 && xs != [] && xs[|xs| - 1] == Letter(QUOTE))
    decreases end - p
  {
    hide Unescape, Readable, PieceText, Meaning;
    if p == end {
      xs := [];
    } else {
      var x := PieceAt(c, p, end);
      var q := p + |PieceText(x)|;
      var rest := [];
      if q <= end {
        rest := PiecesFrom(c, q, end);
      }
      OneMore(c, p, x, rest);
      xs := [x] + rest;
      assert rest == [] ==> PiecesText(rest) == [];
    }
  }

  // The content of an accepted string, and its pieces.
  lemma ContentIs(c: Bytes, p: nat) returns (content: Bytes, xs: seq<Piece>)
    requires p < |c| && ParseStringAt(c, p).Some?
    ensures Reads(content, xs) && Has(c, p, Quoted(content))
  {
    hide Unescape, StringEnd, AllReadable, InStep, Has, Quoted, PiecesText;
    var end := StringEnd(c, p + 1).value;
    StepsFromQuote(c, p + 1);
    xs := PiecesFrom(c, p + 1, end);
    content := c[p + 1..end];
    PiecesFill(c, p + 1, xs, end);
    QuotedStands(c, p, end);
  }

  lemma QuotedStands(c: Bytes, p: nat, end: nat)
    requires p < end < |c| && c[p] == c[end] == QUOTE
    ensures Has(c, p, Quoted(c[p + 1..end]))
  {
    assert c[p..end + 1] == Quoted(c[p + 1..end]);
  }

  lemma PiecesFill(c: Bytes, p: nat, xs: seq<Piece>, end: nat)
    requires p <= end < |c| && c[end] == QUOTE && Has(c, p, PiecesText(xs))
    ensures p + |PiecesText(xs)| == end ==> PiecesText(xs) == c[p..end]
    ensures p + |PiecesText(xs)| == end + 1 ==> PiecesText(xs) == c[p..end] + [QUOTE]
  {
    hide PiecesText;
  }

  /** The parser accepts a string at a place exactly if such a string stands there, and gives exactly what
      its pieces mean. */
  lemma StringIsReadIff(c: Bytes, p: nat, s: Bytes, e: nat)
    requires p < |c|
    ensures ParseStringAt(c, p) == Some((s, e)) <==>
            exists content, xs ::
              Reads(content, xs) && Has(c, p, Quoted(content)) && s == Meanings(xs) && e == p + |content| + 2
  {
    hide ParseStringAt, Reads, Has, Meanings;
    if ParseStringAt(c, p) == Some((s, e)) {
      var content, xs := ContentIs(c, p);
      ReadQuoted(c, p, content, xs);
    }
    forall content, xs | Reads(content, xs) && Has(c, p, Quoted(content)) && s == Meanings(xs) && e == p + |content| + 2
      ensures ParseStringAt(c, p) == Some((s, e))
    {
      ReadQuoted(c, p, content, xs);
    }
  }

  // "\uxyz\\" is read as a NUL and a quote: the first pass takes the two last backslashes for one, the second
  // one takes the first of them for a digit and the other, with the closing quote, for an escaped quote.
  lemma OutOfStep()
    ensures var content := [BACKSLASH, LETTER_U, 120, 121, 122, BACKSLASH, BACKSLASH];
            ParseStringAt(Quoted(content), 0) == Some(([0, QUOTE], 9))
  {
    hide *;
    var content: Bytes := [BACKSLASH, LETTER_U, 120, 121, 122, BACKSLASH, BACKSLASH];
    var xs := [BadDigits([120, 121, 122, BACKSLASH]), Letter(QUOTE)];
    OutOfStepPieces(content, xs);
    OutOfStepContent(content);
    ReadsBeyond(content, xs);
    ReadQuoted(Quoted(content), 0, content, xs);
  }

  lemma ReadsBeyond(content: Bytes, xs: seq<Piece>)
    requires InStep(content) && AllReadable(xs) && TakesQuote(content, xs)
    ensures Reads(content, xs) && Has(Quoted(content), 0, Quoted(content)) && |Quoted(content)| == |content| + 2
  {
  }

  lemma OutOfStepPieces(content: Bytes, xs: seq<Piece>)
    requires content == [BACKSLASH, LETTER_U, 120, 121, 122, BACKSLASH, BACKSLASH]
    requires xs == [BadDigits([120, 121, 122, BACKSLASH]), Letter(QUOTE)]
    ensures AllReadable(xs) && TakesQuote(content, xs) && Meanings(xs) == [0, QUOTE]
  {
    hide PiecesText, Meanings, AllReadable;
    var x, y := xs[0], xs[1];
    TwoPieces(x, y);
    assert x.four[0] == 120 && !IsHex(120);
    assert PieceText(x) + PieceText(y) == content + [QUOTE] && Meaning(x) + Meaning(y) == [0, QUOTE];
  }

  lemma OutOfStepContent(content: Bytes)
    requires content == [BACKSLASH, LETTER_U, 120, 121, 122, BACKSLASH, BACKSLASH]
    ensures InStep(content)
  {
    hide InStep;
    NothingInStep();
    LetterInStep(BACKSLASH, []);
    ItselfInStep(122, [BACKSLASH, BACKSLASH] + []);
    ItselfInStep(121, [122] + ([BACKSLASH, BACKSLASH] + []));
    ItselfInStep(120, [121] + ([122] + ([BACKSLASH, BACKSLASH] + [])));
    LetterInStep(LETTER_U, [120] + ([121] + ([122] + ([BACKSLASH, BACKSLASH] + []))));
    assert content == [BACKSLASH, LETTER_U] + ([120] + ([121] + ([122] + ([BACKSLASH, BACKSLASH] + []))));
  }

  lemma NothingInStep()
    ensures InStep([])
  {
  }

  lemma TwoPieces(x: Piece, y: Piece)
    ensures PiecesText([x, y]) == PieceText(x) + PieceText(y) && Meanings([x, y]) == Meaning(x) + Meaning(y)
    ensures Readable(x) && Readable(y) ==> AllReadable([x, y])
  {
    hide PieceText, Meaning, Readable;
    OnePiece(y);
    assert [x, y][1..] == [y];
  }

  lemma OnePiece(x: Piece)
    ensures PiecesText([x]) == PieceText(x) && Meanings([x]) == Meaning(x)
  {
    hide PieceText, Meaning;
    assert [x][1..] == [];
  }

  // ----- Strings of the standard -----

  lemma HexInStep(h: Bytes, rest: Bytes)
    requires |h| == 4 && forall k | 0 <= k < 4 :: IsHex(h[k])
    ensures InStep([BACKSLASH, LETTER_U] + h + rest) == InStep(rest)
  {
    var t := [BACKSLASH, LETTER_U] + h + rest;
    assert t[2] == h[0] && t[3] == h[1] && t[4] == h[2] && t[5] == h[3];
    assert t[2..][1..] == t[3..] && t[3..][1..] == t[4..] && t[4..][1..] == t[5..] && t[5..][1..] == t[6..];
    assert t[6..] == rest;
    assert InStep(t) == InStep(t[2..]);
    assert InStep(t[2..]) == InStep(t[3..]);
    assert InStep(t[3..]) == InStep(t[4..]);
    assert InStep(t[4..]) == InStep(t[5..]);
    assert InStep(t[5..]) == InStep(t[6..]);
  }

  lemma PieceInStep(x: Piece, rest: Bytes)
    requires ValidPiece(x)
    ensures InStep(PieceText(x) + rest) == InStep(rest)
  {
    match x {
      case Itself(b) => ItselfInStep(b, rest);
      case Letter(b) => LetterInStep(b, rest);
      case Unicode(cp, first, second) => UnicodeInStep(x, rest);
    }
  }

  lemma ItselfInStep(b: Byte, rest: Bytes)
    requires b != QUOTE && b != BACKSLASH
    ensures InStep([b] + rest) == InStep(rest)
  {
    assert ([b] + rest)[1..] == rest;
  }

  lemma LetterInStep(b: Byte, rest: Bytes)
    ensures InStep([BACKSLASH, b] + rest) == InStep(rest)
  {
    assert ([BACKSLASH, b] + rest)[2..] == rest;
  }

  lemma UnicodeInStep(x: Piece, rest: Bytes)
    requires x.Unicode? && ValidPiece(x)
    ensures InStep(PieceText(x) + rest) == InStep(rest)
  {
    hide InStep, Utf16;
    var mark: Bytes := [BACKSLASH, LETTER_U];
    if x.cp < 0x10000 {
      HexInStep(x.first, rest);
      assert PieceText(x) + rest == mark + x.first + rest;
    } else {
      HexInStep(x.first, mark + x.second + rest);
      HexInStep(x.second, rest);
      assert PieceText(x) + rest == mark + x.first + (mark + x.second + rest);
    }
  }

  /** Every string of section 7 of RFC 8259 is among them. */
  lemma {:induction false} ValidIsRead(xs: seq<Piece>)
    requires ValidPieces(xs)
    ensures Reads(PiecesText(xs), xs)
    decreases |xs|
  {
    hide PieceText, ValidPiece;
    if xs != [] {
      assert xs[0] in xs && forall x | x in xs[1..] :: x in xs;
      ValidIsRead(xs[1..]);
      PieceInStep(xs[0], PiecesText(xs[1..]));
    }
    ValidIsReadable(xs);
  }

  lemma ValidIsReadable(xs: seq<Piece>)
    requires ValidPieces(xs)
    ensures AllReadable(xs)
  {
  }

  // ----- The letters and digits of the standards -----

  const LETTERS: map<char, int> :=
    map['"' := 0x22, '\\' := 0x5C, '/' := 0x2F, 'b' := 0x08, 'f' := 0x0C, 'n' := 0x0A, 'r' := 0x0D, 't' := 0x09]

  /** The escapes of one letter are those of section 7 of RFC 8259. */
  lemma LettersAre(b: Byte)
    ensures Simple(b).Some? <==> b as char in LETTERS
    ensures Simple(b).Some? ==> Simple(b).value == LETTERS[b as char]
  {
  }

  const LOWER_HEX := "0123456789abcdef"
  const UPPER_HEX := "0123456789ABCDEF"

  /** A hexadecimal digit of either case has its place's value, and four of them count by powers of 16. */
  lemma HexDigitsAre(b: Byte, k: nat)
    requires k < 16
    ensures IsHex(b) && HexValue(b) == k <==> b as char == LOWER_HEX[k] || b as char == UPPER_HEX[k]
    ensures !IsHex(b) ==> b as char !in LOWER_HEX && b as char !in UPPER_HEX
  {
    assert |LOWER_HEX| == 16 && |UPPER_HEX| == 16;
    HexCharacters(k);
  }

  lemma HexCharacters(k: nat)
    requires k < 16
    ensures LOWER_HEX[k] as int == (if k < 10 then 48 + k else 87 + k)
    ensures UPPER_HEX[k] as int == (if k < 10 then 48 + k else 55 + k)
    ensures forall c | c in LOWER_HEX || c in UPPER_HEX ::
              48 <= c as int <= 57 || 65 <= c as int <= 70 || 97 <= c as int <= 102
  {
  }

  // ----- Printed strings -----

  // How print_string_ptr writes one byte.
  function PieceOf(b: Byte): Piece {
    if Short(b).Some? then Letter(Short(b).value)
    else if b < 32 then
      var high, low := b / 16, b % 16;
      Unicode(b, [48, 48, HexDigit(high), HexDigit(low)], [])
    else Itself(b)
  }

  lemma PieceOfIs(b: Byte)
    requires b != 0
    ensures ValidPiece(PieceOf(b)) && PieceText(PieceOf(b)) == Escape(b) && Meaning(PieceOf(b)) == [b]
  {
    if Short(b).None? && b < 32 {
      var high, low := b / 16, b % 16;
      var h: Bytes := [48, 48, HexDigit(high), HexDigit(low)];
      assert Hex4(h) == high * 16 + low == b;
      assert Spells(h, b);
    }
  }

  function PiecesOf(s: Bytes): seq<Piece> {
    if s == [] then [] else [PieceOf(s[0])] + PiecesOf(s[1..])
  }

  lemma {:induction false} PiecesOfAre(s: Bytes)
    requires 0 !in s
    ensures ValidPieces(PiecesOf(s)) && PiecesText(PiecesOf(s)) == Escapes(s) && Meanings(PiecesOf(s)) == s
    ensures Quoted(Escapes(s)) == Quote(s)
    decreases |s|
  {
    if s != [] {
      PieceOfIs(s[0]);
      PiecesOfAre(s[1..]);
      hide PieceOf, PieceText, Meaning, Escape, ValidPiece;
      var xs := PiecesOf(s);
      assert xs[0] == PieceOf(s[0]) && xs[1..] == PiecesOf(s[1..]);
      assert s == [s[0]] + s[1..];
    }
  }

  /** In particular, wherever a printed string stands, parsing gives it back. */
  lemma ParseUndoesQuote(c: Bytes, p: nat, s: CBytes)
    requires Has(c, p, Quote(s))
    ensures ParseStringAt(c, p) == Some((s, p + |Quote(s)|))
  {
    hide *;
    PiecesOfAre(s);
    ValidIsRead(PiecesOf(s));
    ReadQuoted(c, p, Escapes(s), PiecesOf(s));
  }
}
