/** Every way to write a JSON value down, with any white space and any spelling of strings, and the proof
    that the parser reads such a text, exactly if it is nested at most 1000 deep. */
module JsonTexts {
  import opened Texts
  import opened Wrappers
  import opened JsonBytes
  import opened JsonQuote
  import opened JsonPieces
  import opened JsonTree

  datatype Writing =
    | Word(v: Json)
    | Digits(text: Bytes, beyond: Bytes, d: real)    // what strtod takes, and what it leaves
    | Chars(content: Bytes, xs: seq<Piece>)
    | List(inside: Bytes, items: seq<Item>)          // the white space is of the empty list
    | Record(inside: Bytes, entries: seq<Entry>)

  datatype Item = Item(before: Bytes, w: Writing, after: Bytes)

  // White space stands around the name and around the value.
  datatype Entry = Entry(before: Bytes, name: Bytes, xs: seq<Piece>, left: Bytes, right: Bytes, w: Writing,
                         after: Bytes)

  // The parser takes every byte up to the blank for white space.
  ghost predicate White(ws: Bytes) {
    forall k | 0 <= k < |ws| :: ws[k] <= 32
  }

  // Number bytes that begin as a number, of which strtod takes the first part for d.
  ghost predicate WritesNumber(lib: Libc, t: Bytes, beyond: Bytes, d: real) {
    && t != [] && (t[0] == 45 || 48 <= t[0] <= 57)
    && (forall k | 0 <= k < |t + beyond| :: IsNumberByte((t + beyond)[k]))
    && lib.strtod(t + beyond).1 == d
    && (lib.strtod(t + beyond).0 == |t| || (beyond == [] && lib.strtod(t).0 > |t|))
  }

  // A number that nothing more of its kind stands behind.
  predicate Whole(w: Writing) {
    w.Digits? ==> w.beyond == []
  }

  ghost predicate Valid(lib: Libc, w: Writing)
    decreases w
  {
    match w
    case Word(v) => v.Null? || v.False? || v.True?
    case Digits(t, beyond, d) => WritesNumber(lib, t, beyond, d)
    case Chars(content, xs) => Reads(content, xs)
    case List(ws, items) => White(ws) && ValidItems(lib, items)
    case Record(ws, es) => White(ws) && ValidEntries(lib, es)
  }

  ghost predicate ValidItems(lib: Libc, items: seq<Item>)
    decreases items
  {
    items == [] || (White(items[0].before) && Valid(lib, items[0].w) && Whole(items[0].w) && White(items[0].after)
                    && ValidItems(lib, items[1..]))
  }

  ghost predicate ValidEntries(lib: Libc, es: seq<Entry>)
    decreases es
  {
    es == [] || (ValidName(es[0]) && Valid(lib, es[0].w) && Whole(es[0].w) && White(es[0].after)
                 && ValidEntries(lib, es[1..]))
  }

  ghost predicate ValidName(e: Entry) {
    White(e.before) && Reads(e.name, e.xs) && White(e.left) && White(e.right)
  }

  function WordText(v: Json): Bytes {
    if v.Null? then NULL_TEXT else if v.False? then FALSE_TEXT else TRUE_TEXT
  }

  function Text(w: Writing): Bytes
    decreases w
  {
    match w
    case Word(v) => WordText(v)
    case Digits(t, _, _) => t
    case Chars(content, _) => Quoted(content)
    case List(ws, items) => [91] + ((if items == [] then ws else ItemsText(items)) + [93])
    case Record(ws, es) => [123] + ((if es == [] then ws else EntriesText(es)) + [125])
  }

  function ItemsText(items: seq<Item>): Bytes
    decreases items
  {
    if items == [] then [] else
    items[0].before + (Text(items[0].w) + (items[0].after + (Comma(|items| > 1) + ItemsText(items[1..]))))
  }

  function EntriesText(es: seq<Entry>): Bytes
    decreases es
  {
    if es == [] then [] else
    NameText(es[0]) + (Text(es[0].w) + (es[0].after + (Comma(|es| > 1) + EntriesText(es[1..]))))
  }

  function NameText(e: Entry): Bytes {
    e.before + (Quoted(e.name) + (e.left + ([58] + e.right)))
  }

  // What is written.
  function Tree(w: Writing): Json
    decreases w
  {
    match w
    case Word(v) => v
    case Digits(_, _, d) => Number(d)
    case Chars(_, xs) => Str(Meanings(xs))
    case List(_, items) => Array(Trees(items))
    case Record(_, es) => Object(Members(es))
  }

  function Trees(items: seq<Item>): (r: seq<Json>)
    ensures |r| == |items|
    decreases items
  {
    if items == [] then [] else [Tree(items[0].w)] + Trees(items[1..])
  }

  function Members(es: seq<Entry>): (r: seq<Member>)
    ensures |r| == |es|
    decreases es
  {
    if es == [] then [] else [Member(Meanings(es[0].xs), Tree(es[0].w))] + Members(es[1..])
  }

  function Ascii(s: string): seq<int> {
    seq(|s|, k requires 0 <= k < |s| => s[k] as int)
  }

  /** The words, and the marks of arrays and objects, are those of section 2 of RFC 8259. */
  lemma WordsAre(w: Writing)
    ensures NULL_TEXT == Ascii("null") && FALSE_TEXT == Ascii("false") && TRUE_TEXT == Ascii("true")
    ensures w.List? ==> Text(w) != [] && Text(w)[0] == '[' as int && Text(w)[|Text(w)| - 1] == ']' as int
    ensures w.Record? ==> Text(w) != [] && Text(w)[0] == '{' as int && Text(w)[|Text(w)| - 1] == '}' as int
    ensures w.Chars? ==> Text(w) != [] && Text(w)[0] == '"' as int && Text(w)[|Text(w)| - 1] == '"' as int
    ensures Comma(true) == Ascii(",")
  {
    hide ItemsText, EntriesText;
  }

  // ----- Nesting -----

  function Max(a: nat, b: nat): nat {
    if a < b then b else a
  }

  // How deeply arrays and objects are nested.
  function Height(v: Json): nat
    decreases v
  {
    match v
    case Array(items) => 1 + ItemsHeight(items)
    case Object(ms) => 1 + MembersHeight(ms)
    case _ => 0
  }

  function ItemsHeight(items: seq<Json>): nat
    decreases items
  {
    if items == [] then 0 else Max(Height(items[0]), ItemsHeight(items[1..]))
  }

  function MembersHeight(ms: seq<Member>): nat
    decreases ms
  {
    if ms == [] then 0 else Max(Height(ms[0].value), MembersHeight(ms[1..]))
  }

  predicate Fits(depth: nat, height: nat) {
    depth + height <= 1000
  }

  // ----- White space -----

  lemma {:induction false} SkipRun(c: Bytes, off: nat, ws: Bytes)
    requires Has(c, off, ws) && off + |ws| < |c| && White(ws)
    ensures SkipWhite(c, off) == SkipWhite(c, off + |ws|)
    ensures c[off + |ws|] > 32 ==> SkipWhite(c, off) == off + |ws|
    decreases |ws|
  {
    if ws != [] {
      assert c[off] == ws[0];
      forall k | 0 <= k < |ws[1..]| ensures c[off + 1 + k] == ws[1..][k] {
        assert c[off + (k + 1)] == ws[k + 1];
      }
      SkipRun(c, off + 1, ws[1..]);
    }
  }

  lemma SkipAt(c: Bytes, p: nat)
    requires p < |c| && c[p] > 32
    ensures SkipWhite(c, p) == p
  {
  }

  lemma HasFirst(c: Bytes, p: nat, t: Bytes)
    requires Has(c, p, t) && t != []
    ensures p < |c| && c[p] == t[0]
  {
    assert c[p + 0] == t[0];
  }

  // ----- Words, numbers and strings -----

  lemma ReadWord(lib: Libc, c: Bytes, off: nat, v: Json, depth: nat)
    requires (v.Null? || v.False? || v.True?) && Has(c, off, WordText(v))
    ensures ParseValue(lib, c, off, depth) == Some((v, off + |WordText(v)|))
  {
    var t := WordText(v);
    assert c[off..off + |t|] == t;
    assert c[off] == t[0];
    if !v.Null? { assert c[off..off + 4] != NULL_TEXT by { assert c[off..off + 4][0] == t[0]; } }
    if v.True? && off + 5 <= |c| { assert c[off..off + 5][0] == t[0]; }
  }

  // No value but a word starts with a letter.
  lemma NoWord(c: Bytes, off: nat)
    requires off < |c| && c[off] != 110 && c[off] != 102 && c[off] != 116
    ensures !Starts(c, off, NULL_TEXT) && !Starts(c, off, FALSE_TEXT) && !Starts(c, off, TRUE_TEXT)
  {
    if off + 4 <= |c| { assert c[off..off + 4][0] == c[off]; }
    if off + 5 <= |c| { assert c[off..off + 5][0] == c[off]; }
  }

  // The text stands there, and behind a number what strtod leaves of it, up to where number bytes end.
  ghost predicate Stands(c: Bytes, off: nat, w: Writing) {
    && Has(c, off, Text(w))
    && (w.Digits? ==> Has(c, off, w.text + w.beyond) && NumberStops(c, off + |w.text + w.beyond|))
  }

  predicate NumberStops(c: Bytes, p: nat) {
    p < |c| ==> !IsNumberByte(c[p])
  }

  lemma {:induction false} NumberSpan(c: Bytes, off: nat, t: Bytes)
    requires Has(c, off, t) && NumberStops(c, off + |t|)
    requires forall k | 0 <= k < |t| :: IsNumberByte(t[k])
    ensures NumberEnd(c, off) == off + |t|
    decreases |t|
  {
    if t != [] {
      assert c[off] == t[0];
      forall k | 0 <= k < |t[1..]| ensures c[off + 1 + k] == t[1..][k] {
        assert c[off + (k + 1)] == t[k + 1];
      }
      NumberSpan(c, off + 1, t[1..]);
    }
  }

  lemma ReadDigits(lib: Libc, c: Bytes, off: nat, w: Writing, depth: nat)
    requires w.Digits? && WritesNumber(lib, w.text, w.beyond, w.d) && Stands(c, off, w)
    ensures ParseValue(lib, c, off, depth) == Some((Number(w.d), off + |w.text|))
  {
    hide ParseArray, ParseObject;
    var t := w.text + w.beyond;
    NumberSpan(c, off, t);
    assert c[off..off + |t|] == t;
    assert c[off] == t[0] == w.text[0];
    assert w.beyond == [] ==> t == w.text;
    assert ParseNumberAt(lib, c, off) == Some((Number(w.d), off + |w.text|));
    NoWord(c, off);
  }

  lemma ReadChars(lib: Libc, c: Bytes, off: nat, content: Bytes, xs: seq<Piece>, depth: nat)
    requires Reads(content, xs) && Has(c, off, Quoted(content))
    ensures ParseValue(lib, c, off, depth) == Some((Str(Meanings(xs)), off + |Quoted(content)|))
  {
    hide ParseArray, ParseObject, ParseNumberAt, Starts, Has, Quoted, Meanings, Reads;
    ReadQuoted(c, off, content, xs);
    NoWord(c, off);
  }

  lemma Bracket(lib: Libc, c: Bytes, off: nat, depth: nat)
    requires off < |c| && (c[off] == 91 || c[off] == 123)
    ensures ParseValue(lib, c, off, depth)
         == if c[off] == 91 then ParseArray(lib, c, off, depth) else ParseObject(lib, c, off, depth)
  {
    hide ParseArray, ParseObject, ParseNumberAt, Starts;
    NoWord(c, off);
  }

  // ----- The first byte of a value -----

  predicate StartsValue(b: Byte) {
    b == 110 || b == 102 || b == 116 || b == 45 || 48 <= b <= 57 || b == QUOTE || b == 91 || b == 123
  }

  lemma FirstByte(lib: Libc, w: Writing)
    requires Valid(lib, w)
    ensures Text(w) != [] && StartsValue(Text(w)[0]) && Text(w)[0] > 32
  {
    hide ItemsText, EntriesText;
  }

  // ----- Values at a position -----

  /** Wherever a value is written, it is parsed exactly if its nesting fits, and parsing stops just past
      it. */
  lemma {:induction false} ReadWriting(lib: Libc, c: Bytes, off: nat, w: Writing, depth: nat)
    requires Valid(lib, w) && depth <= NESTING_LIMIT && Stands(c, off, w)
    ensures ParseValue(lib, c, off, depth)
         == if Fits(depth, Height(Tree(w))) then Some((Tree(w), off + |Text(w)|)) else None
    decreases w
  {
    hide ParseValue, Has, WritesNumber, ItemsText, EntriesText, Quoted, ValidItems, ValidEntries, White, Reads;
    hide NumberStops, Meanings, Trees, Members, ItemsHeight, MembersHeight, WordText;
    match w {
      case Word(v) => ReadWord(lib, c, off, v, depth);
      case Digits(_, _, _) => ReadDigits(lib, c, off, w, depth);
      case Chars(content, xs) => ReadChars(lib, c, off, content, xs, depth);
      case List(ws, items) => ReadList(lib, c, off, ws, items, depth);
      case Record(ws, es) => ReadRecord(lib, c, off, ws, es, depth);
    }
  }

  // Around the inside of an array or object.
  lemma BracketParts(c: Bytes, off: nat, open: Byte, inside: Bytes, close: Byte)
    requires Has(c, off, [open] + (inside + [close]))
    ensures var end := off + 1 + |inside|;
            end < |c| && c[off] == open && c[end] == close && Has(c, off + 1, inside)
  {
    HasJoin(c, off, [open], inside + [close]);
    HasJoin(c, off + 1, inside, [close]);
    HasFirst(c, off, [open]);
    HasFirst(c, off + 1 + |inside|, [close]);
  }

  lemma {:induction false} ReadList(lib: Libc, c: Bytes, off: nat, ws: Bytes, items: seq<Item>, depth: nat)
    requires White(ws) && ValidItems(lib, items) && depth <= NESTING_LIMIT
    requires Has(c, off, Text(List(ws, items)))
    ensures ParseValue(lib, c, off, depth)
         == if Fits(depth, 1 + ItemsHeight(Trees(items)))
            then Some((Array(Trees(items)), off + |Text(List(ws, items))|)) else None
    decreases items, 1
  {
    hide ParseItems, ItemsText, Has, SkipWhite, White, ValidItems, ItemsHeight, ParseValue, ParseObject;
    var inside := if items == [] then ws else ItemsText(items);
    BracketParts(c, off, 91, inside, 93);
    Bracket(lib, c, off, depth);
    if items == [] {
      SkipRun(c, off + 1, ws);
      NothingInside();
    } else if depth < NESTING_LIMIT {
      var start := ItemStarts(lib, c, off + 1, items);
      SkipAt(c, start);
      ReadItems(lib, c, start - 1, off + 1, items, depth + 1, []);
      assert [] + Trees(items) == Trees(items);
    }
  }

  lemma NothingInside()
    ensures ItemsHeight([]) == 0 && MembersHeight([]) == 0
  {
  }

  // The pieces of the first item.
  lemma ItemParts(c: Bytes, q: nat, items: seq<Item>)
    requires items != [] && Has(c, q, ItemsText(items))
    ensures var i, more := items[0], |items| > 1;
            var start := q + |i.before|; var e := start + |Text(i.w)|; var end := e + |i.after|;
            && Has(c, q, i.before) && Has(c, start, Text(i.w)) && Has(c, e, i.after) && Has(c, end, Comma(more))
            && Has(c, end + |Comma(more)|, ItemsText(items[1..]))
            && end + |Comma(more)| + |ItemsText(items[1..])| == q + |ItemsText(items)|
  {
    hide Has, Text, Comma;
    var i, rest := items[0], ItemsText(items[1..]);
    var comma := Comma(|items| > 1);
    HasJoin(c, q, i.before, Text(i.w) + (i.after + (comma + rest)));
    HasJoin(c, q + |i.before|, Text(i.w), i.after + (comma + rest));
    HasJoin(c, q + |i.before| + |Text(i.w)|, i.after, comma + rest);
    HasJoin(c, q + |i.before| + |Text(i.w)| + |i.after|, comma, rest);
  }

  // Where the first value stands, behind its white space.
  lemma ItemStarts(lib: Libc, c: Bytes, q: nat, items: seq<Item>) returns (start: nat)
    requires items != [] && ValidItems(lib, items) && Has(c, q, ItemsText(items))
    ensures q <= start < |c| && start == q + |items[0].before| && SkipWhite(c, q) == start && StartsValue(c[start])
  {
    hide ItemsText, Text, SkipWhite, Has, White;
    ItemParts(c, q, items);
    start := q + |items[0].before|;
    FirstByte(lib, items[0].w);
    HasFirst(c, start, Text(items[0].w));
    SkipRun(c, q, items[0].before);
  }

  // What follows a value: its white space, and then a comma or the closing bracket.
  lemma WhiteBehind(c: Bytes, e: nat, after: Bytes, mark: Byte)
    requires Has(c, e, after) && White(after) && e + |after| < |c| && c[e + |after|] == mark
    requires mark == 44 || mark == 93 || mark == 125
    ensures e < |c| && !IsNumberByte(c[e]) && SkipWhite(c, e) == e + |after|
  {
    SkipRun(c, e, after);
    if after != [] { HasFirst(c, e, after); }
  }

  lemma {:induction false} ReadItems(lib: Libc, c: Bytes, p: nat, q: nat, items: seq<Item>, depth: nat, acc: seq<Json>)
    requires items != [] && ValidItems(lib, items) && depth <= NESTING_LIMIT
    requires Has(c, q, ItemsText(items)) && q + |ItemsText(items)| < |c| && c[q + |ItemsText(items)|] == 93
    requires p < |c| && SkipWhite(c, p + 1) == q + |items[0].before|
    ensures ParseItems(lib, c, p, depth, acc)
         == if Fits(depth, ItemsHeight(Trees(items)))
            then Some((acc + Trees(items), q + |ItemsText(items)|)) else None
    decreases items, 0
  {
    hide ParseValue, Text, ItemsText, Has, SkipWhite, White, Height, Tree;
    var i, more := items[0], |items| > 1;
    ItemParts(c, q, items);
    var start := q + |i.before|;
    var end := start + |Text(i.w)| + |i.after|;
    ItemEnds(c, start + |Text(i.w)|, i.after, end, items);
    WholeStands(c, start, i.w);
    ReadWriting(lib, c, start, i.w, depth);
    if more {
      var next := ItemStarts(lib, c, end + 1, items[1..]);
      ReadItems(lib, c, end, end + 1, items[1..], depth, acc + [Tree(i.w)]);
      assert acc + [Tree(i.w)] + Trees(items[1..]) == acc + Trees(items);
    }
  }

  lemma WholeStands(c: Bytes, off: nat, w: Writing)
    requires Whole(w) && Has(c, off, Text(w)) && NumberStops(c, off + |Text(w)|)
    ensures Stands(c, off, w)
  {
    if w.Digits? {
      assert w.text + w.beyond == w.text;
    }
  }

  // Behind a value, its white space leads to a comma or to the closing bracket.
  lemma ItemEnds(c: Bytes, e: nat, after: Bytes, end: nat, items: seq<Item>)
    requires items != [] && Has(c, e, after) && White(after) && end == e + |after|
    requires Has(c, end, Comma(|items| > 1)) && end + |Comma(|items| > 1)| + |ItemsText(items[1..])| < |c|
    requires c[end + |Comma(|items| > 1)| + |ItemsText(items[1..])|] == 93
    ensures |Comma(|items| > 1)| == if |items| > 1 then 1 else 0
    ensures end < |c| && c[end] == if |items| > 1 then 44 else 93
    ensures e < |c| && !IsNumberByte(c[e]) && SkipWhite(c, e) == end
    ensures |items| == 1 ==> ItemsText(items[1..]) == [] && Trees(items) == [Tree(items[0].w)]
  {
    hide Has, SkipWhite, White, Text, Tree;
    if |items| > 1 { HasFirst(c, end, Comma(true)); }
    WhiteBehind(c, e, after, if |items| > 1 then 44 else 93);
  }

  // ----- Objects -----

  lemma {:induction false} ReadRecord(lib: Libc, c: Bytes, off: nat, ws: Bytes, es: seq<Entry>, depth: nat)
    requires White(ws) && ValidEntries(lib, es) && depth <= NESTING_LIMIT
    requires Has(c, off, Text(Record(ws, es)))
    ensures ParseValue(lib, c, off, depth)
         == if Fits(depth, 1 + MembersHeight(Members(es)))
            then Some((Object(Members(es)), off + |Text(Record(ws, es))|)) else None
    decreases es, 1
  {
    hide ParseMembers, EntriesText, Has, SkipWhite, White, ValidEntries, MembersHeight, ParseValue, ParseArray;
    var inside := if es == [] then ws else EntriesText(es);
    BracketParts(c, off, 123, inside, 125);
    Bracket(lib, c, off, depth);
    if es == [] {
      SkipRun(c, off + 1, ws);
      NothingInside();
    } else if depth < NESTING_LIMIT {
      var start := EntryStarts(lib, c, off + 1, es);
      SkipAt(c, start);
      ReadEntries(lib, c, start - 1, off + 1, es, depth + 1, []);
      assert [] + Members(es) == Members(es);
    }
  }

  // The pieces of the first entry.
  lemma EntryParts(c: Bytes, q: nat, es: seq<Entry>)
    requires es != [] && Has(c, q, EntriesText(es))
    ensures var x, more := es[0], |es| > 1;
            var start := q + |NameText(x)|; var e := start + |Text(x.w)|; var end := e + |x.after|;
            && Has(c, q, NameText(x)) && Has(c, start, Text(x.w)) && Has(c, e, x.after) && Has(c, end, Comma(more))
            && Has(c, end + |Comma(more)|, EntriesText(es[1..]))
            && end + |Comma(more)| + |EntriesText(es[1..])| == q + |EntriesText(es)|
  {
    hide Has, Text, Comma, NameText;
    var x, rest := es[0], EntriesText(es[1..]);
    var comma := Comma(|es| > 1);
    var start := q + |NameText(x)|;
    HasJoin(c, q, NameText(x), Text(x.w) + (x.after + (comma + rest)));
    HasJoin(c, start, Text(x.w), x.after + (comma + rest));
    HasJoin(c, start + |Text(x.w)|, x.after, comma + rest);
    HasJoin(c, start + |Text(x.w)| + |x.after|, comma, rest);
  }

  // Around a name: its quote, its colon and the white space next to them.
  lemma NameParts(c: Bytes, q: nat, x: Entry)
    requires Has(c, q, NameText(x)) && ValidName(x)
    ensures var k := q + |x.before| + |Quoted(x.name)|; var colon := k + |x.left|;
            && Has(c, q + |x.before|, Quoted(x.name)) && q + |x.before| < |c| && c[q + |x.before|] == QUOTE
            && SkipWhite(c, q) == q + |x.before|
            && colon < |c| && c[colon] == 58 && SkipWhite(c, k) == colon
            && Has(c, colon + 1, x.right) && colon + 1 + |x.right| == q + |NameText(x)|
  {
    hide Has, Quoted, SkipWhite, White, NameText, Reads;
    var k := q + |x.before| + |Quoted(x.name)|;
    NameJoins(c, q, x);
    ReadQuoted(c, q + |x.before|, x.name, x.xs);
    SkipRun(c, q, x.before);
    SkipRun(c, k, x.left);
  }

  lemma NameJoins(c: Bytes, q: nat, x: Entry)
    requires Has(c, q, NameText(x))
    ensures var at := q + |x.before|; var k := at + |Quoted(x.name)|; var colon := k + |x.left|;
            && Has(c, q, x.before) && Has(c, at, Quoted(x.name)) && Has(c, k, x.left) && colon < |c| && c[colon] == 58
            && Has(c, colon + 1, x.right) && colon + 1 + |x.right| == q + |NameText(x)|
  {
    hide Has, Quoted;
    var k := q + |x.before| + |Quoted(x.name)|;
    HasJoin(c, q, x.before, Quoted(x.name) + (x.left + ([58] + x.right)));
    HasJoin(c, q + |x.before|, Quoted(x.name), x.left + ([58] + x.right));
    HasJoin(c, k, x.left, [58] + x.right);
    HasJoin(c, k + |x.left|, [58], x.right);
    HasFirst(c, k + |x.left|, [58]);
  }

  lemma EntryStarts(lib: Libc, c: Bytes, q: nat, es: seq<Entry>) returns (start: nat)
    requires es != [] && ValidEntries(lib, es) && Has(c, q, EntriesText(es))
    ensures q <= start < |c| && start == q + |es[0].before| && SkipWhite(c, q) == start && c[start] == QUOTE
  {
    hide EntriesText, NameText, ValidName, SkipWhite, Has;
    EntryParts(c, q, es);
    NameParts(c, q, es[0]);
    start := q + |es[0].before|;
  }

  // A name is read, up to its value.
  lemma ReadName(c: Bytes, p: nat, q: nat, x: Entry)
    requires Has(c, q, NameText(x)) && ValidName(x) && p + 1 < |c| && SkipWhite(c, p + 1) == q + |x.before|
    requires q + |NameText(x)| < |c| && c[q + |NameText(x)|] > 32
    ensures ParseName(c, p) == Some((Meanings(x.xs), q + |NameText(x)|))
  {
    hide Has, Quoted, SkipWhite, White, Meanings, NameText;
    NameParts(c, q, x);
    ReadQuoted(c, q + |x.before|, x.name, x.xs);
    SkipRun(c, q + |x.before| + |Quoted(x.name)| + |x.left| + 1, x.right);
  }

  lemma {:induction false} ReadEntries(lib: Libc, c: Bytes, p: nat, q: nat, es: seq<Entry>, depth: nat,
                                       acc: seq<Member>)
    requires es != [] && ValidEntries(lib, es) && depth <= NESTING_LIMIT
    requires Has(c, q, EntriesText(es)) && q + |EntriesText(es)| < |c| && c[q + |EntriesText(es)|] == 125
    requires p + 1 < |c| && SkipWhite(c, p + 1) == q + |es[0].before|
    ensures ParseMembers(lib, c, p, depth, acc)
         == if Fits(depth, MembersHeight(Members(es)))
            then Some((acc + Members(es), q + |EntriesText(es)|)) else None
    decreases es, 0
  {
    hide ParseValue, ParseName, Text, NameText, EntriesText, Has, SkipWhite, White, Height, Tree, Meanings, ValidName;
    var x, more := es[0], |es| > 1;
    EntryParts(c, q, es);
    var start := q + |NameText(x)|;
    var end := start + |Text(x.w)| + |x.after|;
    EntryEnds(c, start + |Text(x.w)|, x.after, end, es);
    FirstByte(lib, x.w);
    HasFirst(c, start, Text(x.w));
    ReadName(c, p, q, x);
    WholeStands(c, start, x.w);
    ReadWriting(lib, c, start, x.w, depth);
    if more {
      var next := EntryStarts(lib, c, end + 1, es[1..]);
      var m := Member(Meanings(x.xs), Tree(x.w));
      ReadEntries(lib, c, end, end + 1, es[1..], depth, acc + [m]);
      assert acc + [m] + Members(es[1..]) == acc + Members(es);
    }
  }

  // Behind a value, its white space leads to a comma or to the closing brace.
  lemma EntryEnds(c: Bytes, e: nat, after: Bytes, end: nat, es: seq<Entry>)
    requires es != [] && Has(c, e, after) && White(after) && end == e + |after|
    requires Has(c, end, Comma(|es| > 1)) && end + |Comma(|es| > 1)| + |EntriesText(es[1..])| < |c|
    requires c[end + |Comma(|es| > 1)| + |EntriesText(es[1..])|] == 125
    ensures |Comma(|es| > 1)| == if |es| > 1 then 1 else 0
    ensures end < |c| && c[end] == if |es| > 1 then 44 else 125
    ensures e < |c| && !IsNumberByte(c[e]) && SkipWhite(c, e) == end
    ensures |es| == 1 ==>
              EntriesText(es[1..]) == [] && Members(es) == [Member(Meanings(es[0].xs), Tree(es[0].w))]
  {
    hide Has, SkipWhite, White, Text, NameText, Meanings, Tree;
    if |es| > 1 { HasFirst(c, end, Comma(true)); }
    WhiteBehind(c, e, after, if |es| > 1 then 44 else 125);
  }

  // ----- Whole texts -----

  // Behind a number stands what strtod leaves of it.
  ghost predicate GoesOn(w: Writing, rest: Bytes) {
    w.Digits? ==> w.beyond <= rest && NumberStops(rest, |w.beyond|)
  }

  /** The text is, perhaps behind a byte order mark and white space, what is written, and then some rest. */
  ghost predicate Written(lib: Libc, text: Bytes, mark: bool, before: Bytes, w: Writing, rest: Bytes) {
    && text == (if mark then BOM else []) + (before + (Text(w) + rest))
    && White(before) && Valid(lib, w) && GoesOn(w, rest)
  }

  /** What is written at the beginning of a text is parsed, exactly if it is nested at most 1000 deep and
      only white space follows it or anything may. */
  lemma ParsesTextIff(lib: Libc, text: CBytes, mark: bool, before: Bytes, w: Writing, rest: Bytes, requireEnd: bool)
    requires Written(lib, text, mark, before, w, rest)
    ensures Parse(lib, text, requireEnd)
         == if Height(Tree(w)) <= 1000 && (requireEnd ==> White(rest)) then Some(Tree(w)) else None
  {
    hide *;
    var bom := if mark then BOM else [];
    var start := |bom| + |before|;
    WrittenStands(lib, text, mark, before, w, rest);
    FitsFromNothing(Height(Tree(w)));
    ReadWriting(lib, text + [0], start, w, 0);
    ParseFrom(lib, text, |bom|, start, start + |Text(w)|, requireEnd);
    OnlyWhiteIff(text, start + |Text(w)|);
  }

  lemma WrittenStands(lib: Libc, text: CBytes, mark: bool, before: Bytes, w: Writing, rest: Bytes)
    requires Written(lib, text, mark, before, w, rest)
    ensures var c, first := text + [0], |if mark then BOM else []|; var start := first + |before|;
            && (if |c| > 4 && Starts(c, 0, BOM) then 3 else 0) == first <= |c| && Valid(lib, w)
            && Stands(c, start, w) && SkipWhite(c, first) == start && start + |Text(w)| <= |text|
            && text[start + |Text(w)|..] == rest
  {
    hide *;
    WrittenIsA(lib, text, mark, before, w, rest);
    FirstByte(lib, w);
    var bom := if mark then BOM else [];
    WholeParts(text + [0], bom, before, Text(w), rest);
    MarkIs(text + [0], mark, before, Text(w), rest);
    RestIs(text, bom, before, Text(w), rest);
    TextAndRestStand(text + [0], |bom| + |before|, w, rest);
  }

  lemma WrittenIsA(lib: Libc, text: Bytes, mark: bool, before: Bytes, w: Writing, rest: Bytes)
    requires Written(lib, text, mark, before, w, rest)
    ensures text == (if mark then BOM else []) + (before + (Text(w) + rest))
    ensures White(before) && Valid(lib, w) && GoesOn(w, rest)
  {
  }

  lemma RestIs(text: Bytes, bom: Bytes, before: Bytes, t: Bytes, rest: Bytes)
    requires text == bom + (before + (t + rest))
    ensures |bom| + |before| + |t| <= |text| && text[|bom| + |before| + |t|..] == rest
  {
  }

  lemma TextAndRestStand(c: Bytes, start: nat, w: Writing, rest: Bytes)
    requires GoesOn(w, rest) && Has(c, start, Text(w) + (rest + [0])) && Has(c, start, Text(w))
    requires |c| == start + |Text(w)| + |rest| + 1
    ensures Stands(c, start, w)
  {
    hide Has, Text, NumberStops;
    if w.Digits? {
      DigitsText(w);
      NumberStands(c, start, w, rest);
    }
  }

  lemma DigitsText(w: Writing)
    requires w.Digits?
    ensures Text(w) == w.text
  {
  }

  lemma NumberStands(c: Bytes, start: nat, w: Writing, rest: Bytes)
    requires w.Digits? && GoesOn(w, rest)
    requires Has(c, start, w.text + (rest + [0])) && |c| == start + |w.text| + |rest| + 1
    ensures Has(c, start, w.text + w.beyond) && NumberStops(c, start + |w.text + w.beyond|)
  {
    var behind := rest[|w.beyond|..] + [0];
    assert w.text + (rest + [0]) == (w.text + w.beyond) + behind;
    HasJoin(c, start, w.text + w.beyond, behind);
    HasFirst(c, start + |w.text + w.beyond|, behind);
  }

  lemma FitsFromNothing(height: nat)
    ensures 0 <= NESTING_LIMIT && (Fits(0, height) <==> height <= 1000)
  {
  }

  // The parser behind the mark.
  lemma ParseFrom(lib: Libc, text: CBytes, first: nat, start: nat, e: nat, requireEnd: bool)
    requires var c := text + [0];
             && first == (if |c| > 4 && Starts(c, 0, BOM) then 3 else 0)
             && first <= |c| && SkipWhite(c, first) == start <= |c| && e <= |text|
             && (ParseValue(lib, c, start, 0).Some? ==> ParseValue(lib, c, start, 0).value.1 == e)
    ensures var c := text + [0]; var r := ParseValue(lib, c, start, 0);
            Parse(lib, text, requireEnd)
            == if r.Some? && (requireEnd ==> c[SkipWhite(c, e)] == 0) then Some(r.value.0) else None
  {
    hide ParseValue, Starts;
  }

  // The end is reached exactly if all that is left is white space.
  lemma OnlyWhiteIff(text: CBytes, e: nat)
    requires e <= |text|
    ensures var c := text + [0]; c[SkipWhite(c, e)] == 0 <==> White(text[e..])
  {
    hide White;
    var c := text + [0];
    WhiteIsAll(text, e);
    EndIff(c, e);
    assert forall k | 0 <= k < |text| :: c[k] == text[k];
  }

  lemma WhiteIsAll(c: Bytes, e: nat)
    requires e <= |c|
    ensures White(c[e..]) <==> forall k | e <= k < |c| :: c[k] <= 32
  {
    if White(c[e..]) {
      forall k | e <= k < |c| ensures c[k] <= 32 {
        assert c[e..][k - e] == c[k];
      }
    }
  }

  lemma {:induction false} EndIff(c: Bytes, e: nat)
    requires e <= |c|
    ensures WhiteEnd(c, e) == |c| <==> forall k | e <= k < |c| :: c[k] <= 32
    decreases |c| - e
  {
    if e < |c| && c[e] <= 32 {
      EndIff(c, e + 1);
    }
  }

  // What is skipped is white space, and what comes next is not, unless that is the last byte.
  lemma {:induction false} WhiteRun(c: Bytes, off: nat)
    requires off <= |c|
    ensures White(c[off..SkipWhite(c, off)])
    ensures off < |c| ==> c[SkipWhite(c, off)] > 32 || SkipWhite(c, off) == |c| - 1
  {
    WhiteToEnd(c, off);
    assert forall k | off <= k < SkipWhite(c, off) :: c[k] <= 32;
  }

  lemma {:induction false} WhiteToEnd(c: Bytes, off: nat)
    requires off <= |c|
    ensures forall k | off <= k < WhiteEnd(c, off) :: c[k] <= 32
    decreases |c| - off
  {
    if off < |c| && c[off] <= 32 {
      WhiteToEnd(c, off + 1);
    }
  }

  // The pieces of a text and its NUL.
  lemma WholeParts(c: Bytes, bom: Bytes, before: Bytes, t: Bytes, rest: Bytes)
    requires White(before) && t != [] && t[0] > 32
    requires c == (bom + (before + (t + rest))) + [0]
    ensures var start := |bom| + |before|;
            && |c| == start + |t| + |rest| + 1 && Has(c, start, t + (rest + [0])) && Has(c, start, t)
            && SkipWhite(c, |bom|) == start
  {
    hide Has, White, SkipWhite;
    var start := |bom| + |before|;
    HasWhole(c, bom, before, t, rest);
    HasJoin(c, 0, bom, before + (t + (rest + [0])));
    HasJoin(c, |bom|, before, t + (rest + [0]));
    HasJoin(c, start, t, rest + [0]);
    HasFirst(c, start, t);
    SkipRun(c, |bom|, before);
  }

  lemma HasWhole(c: Bytes, bom: Bytes, before: Bytes, t: Bytes, rest: Bytes)
    requires c == (bom + (before + (t + rest))) + [0]
    ensures Has(c, 0, bom + (before + (t + (rest + [0])))) && |c| == |bom| + |before| + |t| + |rest| + 1
  {
    assert c == bom + (before + (t + (rest + [0])));
  }

  lemma MarkIs(c: Bytes, mark: bool, before: Bytes, t: Bytes, rest: Bytes)
    requires White(before) && t != [] && StartsValue(t[0])
    requires c == ((if mark then BOM else []) + (before + (t + rest))) + [0]
    ensures (if |c| > 4 && Starts(c, 0, BOM) then 3 else 0) == |if mark then BOM else []|
  {
    if mark {
      assert c[0..3] == BOM;
    } else {
      assert c[0] == if before == [] then t[0] else before[0];
      if |c| >= 3 { assert c[0..3][0] == c[0]; }
    }
  }
}
