/** The parser accepts nothing but JSON texts, up to the liberties that JsonPieces and JsonTexts name: what
    it reads was written there. */
module JsonAccepted {
  import opened Texts
  import opened Wrappers
  import opened JsonBytes
  import opened JsonString
  import opened JsonQuote
  import opened JsonPieces
  import opened JsonTree
  import opened JsonTexts

  // ----- Where a value begins -----

  lemma ValueBegins(lib: Libc, c: Bytes, off: nat, depth: nat)
    requires off <= |c| && ParseValue(lib, c, off, depth).Some?
    ensures off < |c| && StartsValue(c[off]) && c[off] > 32
  {
    hide ParseArray, ParseObject, ParseNumberAt;
    if Starts(c, off, NULL_TEXT) { assert c[off] == c[off..off + 4][0]; }
    if Starts(c, off, FALSE_TEXT) { assert c[off] == c[off..off + 5][0]; }
    if Starts(c, off, TRUE_TEXT) { assert c[off] == c[off..off + 4][0]; }
  }

  lemma SliceStands(c: Bytes, p: nat, e: nat)
    requires p <= e <= |c|
    ensures Has(c, p, c[p..e])
  {
  }

  // ----- Words, numbers and strings -----

  lemma WordIsWritten(c: Bytes, off: nat, v: Json)
    requires (v.Null? || v.False? || v.True?) && Starts(c, off, WordText(v))
    ensures Stands(c, off, Word(v))
  {
    SliceStands(c, off, off + |WordText(v)|);
  }

  lemma {:induction false} NumberBytes(c: Bytes, off: nat)
    requires off <= |c|
    ensures NumberStops(c, NumberEnd(c, off)) && forall k | off <= k < NumberEnd(c, off) :: IsNumberByte(c[k])
    decreases |c| - off
  {
    if off < |c| && IsNumberByte(c[off]) {
      NumberBytes(c, off + 1);
    }
  }

  lemma NumberIsWritten(lib: Libc, c: Bytes, off: nat) returns (w: Writing)
    requires off < |c| && (c[off] == 45 || 48 <= c[off] <= 57) && ParseNumberAt(lib, c, off).Some?
    ensures Valid(lib, w) && Stands(c, off, w)
  {
    NumberBytes(c, off);
    var end := NumberEnd(c, off);
    var all := c[off..end];
    var (n, d) := lib.strtod(all);
    var k := if n <= |all| then n else |all|;
    w := Digits(all[..k], all[k..], d);
    assert all[..k] + all[k..] == all;
    assert k == |all| ==> all[..k] == all;
    SliceStands(c, off, end);
    SliceStands(c, off, off + k);
    assert c[off..off + k] == all[..k];
  }

  lemma StringIsWritten(lib: Libc, c: Bytes, off: nat) returns (w: Writing)
    requires off < |c| && ParseStringAt(c, off).Some?
    ensures Valid(lib, w) && Stands(c, off, w)
  {
    hide Has, Reads, Quoted;
    var content, xs := ContentIs(c, off);
    w := Chars(content, xs);
  }

  // ----- Values -----

  /** Whatever is accepted as a value is written there. */
  lemma {:induction false} SoundValue(lib: Libc, c: Bytes, off: nat, depth: nat) returns (w: Writing)
    requires off <= |c| && depth <= NESTING_LIMIT && ParseValue(lib, c, off, depth).Some?
    ensures Valid(lib, w) && Stands(c, off, w)
    decreases |c| - off, 3
  {
    hide ParseArray, ParseObject, ParseNumberAt, Valid, Stands;
    ValueBegins(lib, c, off, depth);
    WordsAreValid(lib);
    if Starts(c, off, NULL_TEXT) {
      w := Word(Null);
      WordIsWritten(c, off, Null);
    } else if Starts(c, off, FALSE_TEXT) {
      w := Word(False);
      WordIsWritten(c, off, False);
    } else if Starts(c, off, TRUE_TEXT) {
      w := Word(True);
      WordIsWritten(c, off, True);
    } else if c[off] == QUOTE {
      w := StringIsWritten(lib, c, off);
    } else if c[off] == 91 {
      w := SoundArray(lib, c, off, depth);
    } else if c[off] == 123 {
      w := SoundObject(lib, c, off, depth);
    } else {
      w := NumberIsWritten(lib, c, off);
    }
  }

  lemma WordsAreValid(lib: Libc)
    ensures Valid(lib, Word(Null)) && Valid(lib, Word(False)) && Valid(lib, Word(True))
  {
  }

  // Something inside brackets.
  lemma InsideStands(c: Bytes, off: nat, open: Byte, inside: Bytes, close: Byte)
    requires off < |c| && c[off] == open && Has(c, off + 1, inside)
    requires off + 1 + |inside| < |c| && c[off + 1 + |inside|] == close
    ensures Has(c, off, [open] + (inside + [close]))
  {
    HasBoth(c, off + 1, inside, [close]);
    HasBoth(c, off, [open], inside + [close]);
  }

  lemma {:induction false} SoundArray(lib: Libc, c: Bytes, off: nat, depth: nat) returns (w: Writing)
    requires off < |c| && depth <= NESTING_LIMIT && c[off] == 91 && ParseArray(lib, c, off, depth).Some?
    ensures Valid(lib, w) && Stands(c, off, w)
    decreases |c| - off, 2
  {
    hide ParseItems, Has, SkipWhite, White, ItemsText, ValidItems, Text, Valid;
    var p := SkipWhite(c, off + 1);
    WhiteRun(c, off + 1);
    SliceStands(c, off + 1, p);
    if c[p] == 93 {
      w := List(c[off + 1..p], []);
      InsideStands(c, off, 91, c[off + 1..p], 93);
    } else {
      var items := SoundItems(lib, c, p - 1, depth + 1, []);
      var more := MoreWhite(lib, c, off + 1, c[off + 1..p], items);
      w := List([], more);
      InsideStands(c, off, 91, ItemsText(w.items), 93);
    }
    ListIs(lib, w);
  }

  lemma ListIs(lib: Libc, w: Writing)
    requires w.List?
    ensures Text(w) == [91] + ((if w.items == [] then w.inside else ItemsText(w.items)) + [93])
    ensures White(w.inside) && ValidItems(lib, w.items) ==> Valid(lib, w)
    ensures White([]) && ValidItems(lib, [])
  {
    hide ItemsText;
  }

  // White space before the first item is part of that item.
  lemma MoreWhite(lib: Libc, c: Bytes, p: nat, ws: Bytes, items: seq<Item>) returns (more: seq<Item>)
    requires items != [] && ValidItems(lib, items) && White(ws)
    requires Has(c, p, ws) && Has(c, p + |ws|, ItemsText(items))
    ensures more != [] && ValidItems(lib, more) && Has(c, p, ItemsText(more))
    ensures |ItemsText(more)| == |ws| + |ItemsText(items)|
  {
    hide Has, Text, Comma, Valid;
    var i := items[0];
    var behind := Text(i.w) + (i.after + (Comma(|items| > 1) + ItemsText(items[1..])));
    more := [Item(ws + i.before, i.w, i.after)] + items[1..];
    assert more[1..] == items[1..];
    assert (ws + i.before) + behind == ws + (i.before + behind);
    HasBoth(c, p, ws, ItemsText(items));
  }

  // One item and its white space, and what follows its comma.
  lemma ItemStands(c: Bytes, p: nat, i: Item, rest: seq<Item>)
    requires Has(c, p, i.before) && Has(c, p + |i.before|, Text(i.w))
    requires Has(c, p + |i.before| + |Text(i.w)|, i.after)
    requires var e := p + |i.before| + |Text(i.w)| + |i.after|;
             rest != [] ==> e < |c| && c[e] == 44 && Has(c, e + 1, ItemsText(rest))
    ensures Has(c, p, ItemsText([i] + rest))
    ensures |ItemsText([i] + rest)| == |i.before| + |Text(i.w)| + |i.after|
                                       + (if rest == [] then 0 else 1 + |ItemsText(rest)|)
  {
    hide Has, Text;
    var t, e := Text(i.w), p + |i.before| + |Text(i.w)|;
    var tail := Comma(rest != []) + ItemsText(rest);
    assert ([i] + rest)[1..] == rest;
    assert ItemsText([i] + rest) == i.before + (t + (i.after + tail));
    hide ItemsText;
    NoItemText();
    AfterStands(c, e, i.after, rest != [], ItemsText(rest));
    HasBoth(c, p + |i.before|, t, i.after + tail);
    HasBoth(c, p, i.before, t + (i.after + tail));
  }

  lemma NoItemText()
    ensures ItemsText([]) == [] && EntriesText([]) == []
  {
  }

  // White space, and a comma and more or nothing.
  lemma AfterStands(c: Bytes, p: nat, after: Bytes, more: bool, rest: Bytes)
    requires Has(c, p, after) && (!more ==> rest == [])
    requires var e := p + |after|; more ==> e < |c| && c[e] == 44 && Has(c, e + 1, rest)
    ensures Has(c, p, after + (Comma(more) + rest))
    ensures |after + (Comma(more) + rest)| == |after| + if more then 1 + |rest| else 0
  {
    hide Has;
    if more {
      ByteStands(c, p + |after|, 44);
      HasBoth(c, p + |after|, [44], rest);
      HasBoth(c, p, after, [44] + rest);
    } else {
      assert after + (Comma(more) + rest) == after;
    }
  }

  lemma ByteStands(c: Bytes, p: nat, b: Byte)
    requires p < |c| && c[p] == b
    ensures Has(c, p, [b])
  {
  }

  // A number in front of white space, a comma or a bracket has nothing more of its kind behind it.
  lemma NothingBeyond(lib: Libc, c: Bytes, off: nat, w: Writing)
    requires Valid(lib, w) && Stands(c, off, w)
    requires off + |Text(w)| < |c| && !IsNumberByte(c[off + |Text(w)|])
    ensures Whole(w)
  {
    if w.Digits? {
      BeyondStands(lib, c, off, w);
    }
  }

  lemma BeyondStands(lib: Libc, c: Bytes, off: nat, w: Writing)
    requires w.Digits? && Valid(lib, w) && Stands(c, off, w)
    ensures w.beyond != [] ==> off + |w.text| < |c| && IsNumberByte(c[off + |w.text|])
  {
    if w.beyond != [] {
      assert c[off + |w.text|] == (w.text + w.beyond)[|w.text|];
    }
  }

  // The value at p + 1, behind its white space, and the white space behind it, before a comma or bracket.
  lemma {:induction false} SoundItem(lib: Libc, c: Bytes, p: nat, depth: nat) returns (i: Item)
    requires p < |c| && depth <= NESTING_LIMIT && ParseValue(lib, c, SkipWhite(c, p + 1), depth).Some?
    requires var e := SkipWhite(c, ParseValue(lib, c, SkipWhite(c, p + 1), depth).value.1);
             e < |c| && (c[e] == 44 || c[e] == 93)
    ensures ItemFrom(lib, c, p + 1, i, SkipWhite(c, ParseValue(lib, c, SkipWhite(c, p + 1), depth).value.1))
    decreases |c| - p - 1, 4
  {
    hide ParseValue, Has, SkipWhite, White, Text, Valid, Stands;
    var start := SkipWhite(c, p + 1);
    ValueBegins(lib, c, start, depth);
    var w := SoundValue(lib, c, start, depth);
    ReadWriting(lib, c, start, w, depth);
    var e := start + |Text(w)|;
    var next := SkipWhite(c, e);
    WhiteRun(c, p + 1);
    WhiteRun(c, e);
    BeforeMark(c, e, next);
    NothingBeyond(lib, c, start, w);
    SliceStands(c, p + 1, start);
    SliceStands(c, e, next);
    TextStands(c, start, w);
    i := Item(c[p + 1..start], w, c[e..next]);
  }

  lemma TextStands(c: Bytes, off: nat, w: Writing)
    requires Stands(c, off, w)
    ensures Has(c, off, Text(w))
  {
  }

  lemma BeforeMark(c: Bytes, e: nat, next: nat)
    requires e <= next < |c| && White(c[e..next]) && (c[next] == 44 || c[next] == 93 || c[next] == 125)
    ensures !IsNumberByte(c[e])
  {
    if e < next { assert c[e] == c[e..next][0]; }
  }

  ghost predicate ItemFrom(lib: Libc, c: Bytes, p: nat, i: Item, e: nat) {
    && White(i.before) && Valid(lib, i.w) && Whole(i.w) && White(i.after)
    && Has(c, p, i.before) && Has(c, p + |i.before|, Text(i.w)) && Has(c, p + |i.before| + |Text(i.w)|, i.after)
    && p + |i.before| + |Text(i.w)| + |i.after| == e
  }

  lemma {:induction false} SoundItems(lib: Libc, c: Bytes, p: nat, depth: nat, acc: seq<Json>)
    returns (items: seq<Item>)
    requires p < |c| && depth <= NESTING_LIMIT && ParseItems(lib, c, p, depth, acc).Some?
    requires var e := ParseItems(lib, c, p, depth, acc).value.1; e < |c| && c[e] == 93
    ensures items != [] && ValidItems(lib, items) && Has(c, p + 1, ItemsText(items))
    ensures p + 1 + |ItemsText(items)| == ParseItems(lib, c, p, depth, acc).value.1
    decreases |c| - p - 1, 5
  {
    hide ParseValue, Has, SkipWhite, White, Text, Valid, ItemsText;
    var i := SoundItem(lib, c, p, depth);
    var (v, e) := ParseValue(lib, c, SkipWhite(c, p + 1), depth).value;
    var next := SkipWhite(c, e);
    var rest := [];
    if c[next] == 44 {
      rest := SoundItems(lib, c, next, depth, acc + [v]);
    }
    items := [i] + rest;
    ItemStands(c, p + 1, i, rest);
    FirstIsValid(lib, i, rest);
  }

  lemma FirstIsValid(lib: Libc, i: Item, rest: seq<Item>)
    requires White(i.before) && Valid(lib, i.w) && Whole(i.w) && White(i.after)
    requires rest == [] || ValidItems(lib, rest)
    ensures ValidItems(lib, [i] + rest)
  {
    hide Valid, White;
    assert ([i] + rest)[1..] == rest;
  }

  // ----- Objects -----

  lemma {:induction false} SoundObject(lib: Libc, c: Bytes, off: nat, depth: nat) returns (w: Writing)
    requires off < |c| && depth <= NESTING_LIMIT && c[off] == 123 && ParseObject(lib, c, off, depth).Some?
    ensures Valid(lib, w) && Stands(c, off, w)
    decreases |c| - off, 2
  {
    hide ParseMembers, Has, SkipWhite, White, EntriesText, ValidEntries, Text, Valid;
    var p := SkipWhite(c, off + 1);
    WhiteRun(c, off + 1);
    SliceStands(c, off + 1, p);
    if c[p] == 125 {
      w := Record(c[off + 1..p], []);
      InsideStands(c, off, 123, c[off + 1..p], 125);
    } else {
      var es := SoundEntries(lib, c, p - 1, depth + 1, []);
      var more := MoreSpace(lib, c, off + 1, c[off + 1..p], es);
      w := Record([], more);
      InsideStands(c, off, 123, EntriesText(w.entries), 125);
    }
    RecordIs(lib, w);
  }

  lemma RecordIs(lib: Libc, w: Writing)
    requires w.Record?
    ensures Text(w) == [123] + ((if w.entries == [] then w.inside else EntriesText(w.entries)) + [125])
    ensures White(w.inside) && ValidEntries(lib, w.entries) ==> Valid(lib, w)
    ensures White([]) && ValidEntries(lib, [])
  {
    hide EntriesText;
  }

  lemma MoreSpace(lib: Libc, c: Bytes, p: nat, ws: Bytes, es: seq<Entry>) returns (more: seq<Entry>)
    requires es != [] && ValidEntries(lib, es) && White(ws)
    requires Has(c, p, ws) && Has(c, p + |ws|, EntriesText(es))
    ensures more != [] && ValidEntries(lib, more) && Has(c, p, EntriesText(more))
    ensures |EntriesText(more)| == |ws| + |EntriesText(es)|
  {
    hide Has, Text, Comma, Valid, Quoted, Reads;
    var x := es[0];
    var y := x.(before := ws + x.before);
    var behind := Text(x.w) + (x.after + (Comma(|es| > 1) + EntriesText(es[1..])));
    more := [y] + es[1..];
    assert more[1..] == es[1..];
    assert NameText(y) == ws + NameText(x);
    assert (ws + NameText(x)) + behind == ws + (NameText(x) + behind);
    HasBoth(c, p, ws, EntriesText(es));
  }

  // The name and colon at p + 1.
  lemma NameIsWritten(c: Bytes, p: nat) returns (x: Entry)
    requires p < |c| && ParseName(c, p).Some?
    ensures ParseName(c, p).value.1 < |c| && c[ParseName(c, p).value.1] > 32 ==>
              ValidName(x) && Has(c, p + 1, NameText(x)) && p + 1 + |NameText(x)| == ParseName(c, p).value.1
  {
    hide ParseStringAt, Has, SkipWhite, White, Reads, Quoted;
    var at := SkipWhite(c, p + 1);
    var content, xs := ContentIs(c, at);
    ReadQuoted(c, at, content, xs);
    var k := at + |Quoted(content)|;
    var colon := SkipWhite(c, k);
    var start := SkipWhite(c, colon + 1);
    WhiteRun(c, p + 1);
    WhiteRun(c, k);
    WhiteRun(c, colon + 1);
    x := Entry(c[p + 1..at], content, xs, c[k..colon], c[colon + 1..start], Word(Null), []);
    SliceStands(c, p + 1, at);
    SliceStands(c, k, colon);
    SliceStands(c, colon + 1, start);
    NameStands(c, p + 1, x);
  }

  lemma NameStands(c: Bytes, p: nat, x: Entry)
    requires var at := p + |x.before|; var k := at + |Quoted(x.name)|; var colon := k + |x.left|;
             && Has(c, p, x.before) && Has(c, at, Quoted(x.name)) && Has(c, k, x.left)
             && colon < |c| && c[colon] == 58 && Has(c, colon + 1, x.right)
    ensures Has(c, p, NameText(x))
    ensures |NameText(x)| == |x.before| + |Quoted(x.name)| + |x.left| + 1 + |x.right|
  {
    hide Has, Quoted;
    var at := p + |x.before|;
    var k := at + |Quoted(x.name)|;
    ByteStands(c, k + |x.left|, 58);
    HasBoth(c, k + |x.left|, [58], x.right);
    HasBoth(c, k, x.left, [58] + x.right);
    HasBoth(c, at, Quoted(x.name), x.left + ([58] + x.right));
    HasBoth(c, p, x.before, Quoted(x.name) + (x.left + ([58] + x.right)));
  }

  ghost predicate EntryFrom(lib: Libc, c: Bytes, p: nat, x: Entry, e: nat) {
    && ValidName(x) && Valid(lib, x.w) && Whole(x.w) && White(x.after)
    && Has(c, p, NameText(x)) && Has(c, p + |NameText(x)|, Text(x.w))
    && Has(c, p + |NameText(x)| + |Text(x.w)|, x.after)
    && p + |NameText(x)| + |Text(x.w)| + |x.after| == e
  }

  lemma {:induction false} SoundEntry(lib: Libc, c: Bytes, p: nat, depth: nat) returns (x: Entry)
    requires p < |c| && depth <= NESTING_LIMIT && ParseName(c, p).Some?
    requires ParseValue(lib, c, ParseName(c, p).value.1, depth).Some?
    requires var e := SkipWhite(c, ParseValue(lib, c, ParseName(c, p).value.1, depth).value.1);
             e < |c| && (c[e] == 44 || c[e] == 125)
    ensures EntryFrom(lib, c, p + 1, x, SkipWhite(c, ParseValue(lib, c, ParseName(c, p).value.1, depth).value.1))
    decreases |c| - p - 1, 4
  {
    hide ParseValue, ParseName, Has, SkipWhite, White, Text, Valid, Stands, ValidName;
    var start := ParseName(c, p).value.1;
    ValueBegins(lib, c, start, depth);
    var name := NameIsWritten(c, p);
    var w := SoundValue(lib, c, start, depth);
    ReadWriting(lib, c, start, w, depth);
    var e := start + |Text(w)|;
    var next := SkipWhite(c, e);
    WhiteRun(c, e);
    BeforeMark(c, e, next);
    NothingBeyond(lib, c, start, w);
    SliceStands(c, e, next);
    TextStands(c, start, w);
    x := name.(w := w, after := c[e..next]);
    SameName(name, x);
  }

  lemma SameName(x: Entry, y: Entry)
    requires y == x.(w := y.w, after := y.after)
    ensures NameText(x) == NameText(y) && (ValidName(x) <==> ValidName(y))
  {
  }

  lemma EntryStands(c: Bytes, p: nat, x: Entry, rest: seq<Entry>)
    requires Has(c, p, NameText(x)) && Has(c, p + |NameText(x)|, Text(x.w))
    requires Has(c, p + |NameText(x)| + |Text(x.w)|, x.after)
    requires var e := p + |NameText(x)| + |Text(x.w)| + |x.after|;
             rest != [] ==> e < |c| && c[e] == 44 && Has(c, e + 1, EntriesText(rest))
    ensures Has(c, p, EntriesText([x] + rest))
    ensures |EntriesText([x] + rest)| == |NameText(x)| + |Text(x.w)| + |x.after|
                                         + (if rest == [] then 0 else 1 + |EntriesText(rest)|)
  {
    hide Has, Text, NameText;
    var t, e := Text(x.w), p + |NameText(x)| + |Text(x.w)|;
    var tail := Comma(rest != []) + EntriesText(rest);
    assert ([x] + rest)[1..] == rest;
    assert EntriesText([x] + rest) == NameText(x) + (t + (x.after + tail));
    hide EntriesText;
    NoItemText();
    AfterStands(c, e, x.after, rest != [], EntriesText(rest));
    HasBoth(c, p + |NameText(x)|, t, x.after + tail);
    HasBoth(c, p, NameText(x), t + (x.after + tail));
  }

  lemma {:induction false} SoundEntries(lib: Libc, c: Bytes, p: nat, depth: nat, acc: seq<Member>)
    returns (es: seq<Entry>)
    requires p < |c| && depth <= NESTING_LIMIT && ParseMembers(lib, c, p, depth, acc).Some?
    requires var e := ParseMembers(lib, c, p, depth, acc).value.1; e < |c| && c[e] == 125
    ensures es != [] && ValidEntries(lib, es) && Has(c, p + 1, EntriesText(es))
    ensures p + 1 + |EntriesText(es)| == ParseMembers(lib, c, p, depth, acc).value.1
    decreases |c| - p - 1, 5
  {
    hide ParseValue, ParseName, Has, SkipWhite, White, Text, NameText, Valid, ValidName, EntriesText;
    var x := SoundEntry(lib, c, p, depth);
    var (key, start) := ParseName(c, p).value;
    var (v, e) := ParseValue(lib, c, start, depth).value;
    var next := SkipWhite(c, e);
    var rest := [];
    if c[next] == 44 {
      rest := SoundEntries(lib, c, next, depth, acc + [Member(key, v)]);
    }
    es := [x] + rest;
    EntryStands(c, p + 1, x, rest);
    FirstEntryIsValid(lib, x, rest);
  }

  lemma FirstEntryIsValid(lib: Libc, x: Entry, rest: seq<Entry>)
    requires ValidName(x) && Valid(lib, x.w) && Whole(x.w) && White(x.after)
    requires rest == [] || ValidEntries(lib, rest)
    ensures ValidEntries(lib, [x] + rest)
  {
    hide Valid, White, ValidName;
    assert ([x] + rest)[1..] == rest;
  }

  // ----- What is accepted, exactly -----

  /** A value is read at a place exactly if it is written there and its nesting fits, and exactly what is
      written is read, up to where it ends. */
  lemma ValueIsReadIff(lib: Libc, c: Bytes, off: nat, depth: nat, v: Json, e: nat)
    requires off <= |c| && depth <= NESTING_LIMIT
    ensures ParseValue(lib, c, off, depth) == Some((v, e)) <==>
            exists w :: Valid(lib, w) && Stands(c, off, w) && Fits(depth, Height(v))
                        && v == Tree(w) && e == off + |Text(w)|
  {
    hide *;
    if ParseValue(lib, c, off, depth) == Some((v, e)) {
      var w := SoundValue(lib, c, off, depth);
      ReadWriting(lib, c, off, w, depth);
    }
    forall w | Valid(lib, w) && Stands(c, off, w) && Fits(depth, Height(v)) && v == Tree(w) && e == off + |Text(w)|
      ensures ParseValue(lib, c, off, depth) == Some((v, e))
    {
      ReadWriting(lib, c, off, w, depth);
    }
  }

  // No value ends with a NUL.
  lemma LastByte(lib: Libc, w: Writing)
    requires Valid(lib, w)
    ensures Text(w) != [] && Text(w)[|Text(w)| - 1] != 0
  {
    hide ItemsText, EntriesText;
    match w {
      case Digits(t, beyond, _) => assert (t + beyond)[|t| - 1] == t[|t| - 1];
      case _ =>
    }
  }

  // What stands in the text and its NUL ends before that.
  lemma EndsBefore(lib: Libc, text: CBytes, start: nat, w: Writing)
    requires Valid(lib, w) && Stands(text + [0], start, w)
    ensures start + |Text(w)| <= |text| && text[start..start + |Text(w)|] == Text(w)
    ensures GoesOn(w, text[start + |Text(w)|..])
  {
    var c, n := text + [0], |Text(w)|;
    LastByte(lib, w);
    hide Text;
    assert c[start + (n - 1)] == Text(w)[n - 1];
    if w.Digits? {
      DigitsText(w);
      NumberEndsBefore(lib, text, start, w);
    }
  }

  lemma NumberEndsBefore(lib: Libc, text: CBytes, start: nat, w: Writing)
    requires w.Digits? && Valid(lib, w) && Stands(text + [0], start, w) && start + |w.text| <= |text|
    ensures GoesOn(w, text[start + |w.text|..])
  {
    var c, all := text + [0], w.text + w.beyond;
    var rest := text[start + |w.text|..];
    assert c[start + (|all| - 1)] == all[|all| - 1];
    assert start + |all| <= |text|;
    assert w.beyond == rest[..|w.beyond|] by {
      forall k | 0 <= k < |w.beyond| ensures w.beyond[k] == rest[k] {
        assert c[start + (|w.text| + k)] == all[|w.text| + k];
      }
    }
  }

  // What an accepted text consists of.
  lemma AcceptedIsWritten(lib: Libc, text: CBytes) returns (mark: bool, before: Bytes, w: Writing, rest: Bytes)
    requires Parse(lib, text, false).Some?
    ensures Written(lib, text, mark, before, w, rest)
  {
    hide *;
    var c := text + [0];
    mark := ParseBegins(lib, text);
    var first := if mark then 3 else 0;
    var start := SkipWhite(c, first);
    ValueBegins(lib, c, start, 0);
    NestingStarts();
    w := SoundValue(lib, c, start, 0);
    EndsBefore(lib, text, start, w);
    WhiteRun(c, first);
    var e := start + |Text(w)|;
    before := text[first..start];
    rest := text[e..];
    SameSlice(text, first, start);
    Assembled(text, first, start, e);
    WrittenIs(lib, text, mark, before, w, rest);
  }

  // Behind the mark, if there is one, begins a value.
  lemma ParseBegins(lib: Libc, text: CBytes) returns (mark: bool)
    requires Parse(lib, text, false).Some?
    ensures var c, first := text + [0], if mark then 3 else 0;
            && first <= |text| && text[..first] == (if mark then BOM else [])
            && ParseValue(lib, c, SkipWhite(c, first), 0).Some?
  {
    hide ParseValue, SkipWhite;
    mark := |text + [0]| > 4 && Starts(text + [0], 0, BOM);
    MarkStands(text, mark);
  }

  lemma NestingStarts()
    ensures 0 <= NESTING_LIMIT
  {
  }

  lemma SameSlice(text: Bytes, from: nat, to: nat)
    requires from <= to <= |text|
    ensures (text + [0])[from..to] == text[from..to]
  {
  }

  lemma WrittenIs(lib: Libc, text: Bytes, mark: bool, before: Bytes, w: Writing, rest: Bytes)
    requires text == (if mark then BOM else []) + (before + (Text(w) + rest))
    requires White(before) && Valid(lib, w) && GoesOn(w, rest)
    ensures Written(lib, text, mark, before, w, rest)
  {
  }

  lemma MarkStands(text: CBytes, mark: bool)
    requires mark ==> |text + [0]| > 4 && Starts(text + [0], 0, BOM)
    ensures mark ==> |text| > 3 && text[..3] == BOM
  {
    if mark { assert (text + [0])[..3] == text[..3]; }
  }

  lemma Assembled(text: Bytes, first: nat, start: nat, e: nat)
    requires first <= start <= e <= |text|
    ensures text == text[..first] + (text[first..start] + (text[start..e] + text[e..]))
  {
  }

  // A text that is accepted with the demand for its end is accepted without.
  lemma EndIsExtra(lib: Libc, text: CBytes)
    ensures Parse(lib, text, true).Some? ==> Parse(lib, text, false) == Parse(lib, text, true)
  {
    hide ParseValue, SkipWhite, Starts;
  }

  /** The parser accepts a text, and gives a tree, exactly if that tree is written at its beginning, behind
      white space and perhaps a byte order mark, is nested at most 1000 deep, and only white space follows
      or anything may. */
  lemma AcceptedIff(lib: Libc, text: CBytes, requireEnd: bool, v: Json)
    ensures Parse(lib, text, requireEnd) == Some(v) <==>
            exists mark, before, w, rest ::
              && Written(lib, text, mark, before, w, rest) && Tree(w) == v && Height(v) <= 1000
              && (requireEnd ==> White(rest))
  {
    hide *;
    if Parse(lib, text, requireEnd) == Some(v) {
      EndIsExtra(lib, text);
      var mark, before, w, rest := AcceptedIsWritten(lib, text);
      ParsesTextIff(lib, text, mark, before, w, rest, requireEnd);
    }
    forall mark, before, w, rest | && Written(lib, text, mark, before, w, rest) && Tree(w) == v
                                   && Height(v) <= 1000 && (requireEnd ==> White(rest))
      ensures Parse(lib, text, requireEnd) == Some(v)
    {
      ParsesTextIff(lib, text, mark, before, w, rest, requireEnd);
    }
  }

  /** What begins with a bracket or brace ends with its counterpart. */
  lemma AcceptedIsClosed(lib: Libc, c: Bytes, off: nat, depth: nat)
    requires off < |c| && depth <= NESTING_LIMIT && ParseValue(lib, c, off, depth).Some?
    ensures var e := ParseValue(lib, c, off, depth).value.1;
            (c[off] == 91 ==> c[e - 1] == 93) && (c[off] == 123 ==> c[e - 1] == 125)
  {
    var w := SoundValue(lib, c, off, depth);
    ReadWriting(lib, c, off, w, depth);
    hide ParseValue, Valid, ItemsText, EntriesText;
    EndsOf(lib, w);
    assert c[off + 0] == Text(w)[0] && c[off + (|Text(w)| - 1)] == Text(w)[|Text(w)| - 1];
  }

  lemma EndsOf(lib: Libc, w: Writing)
    requires Valid(lib, w)
    ensures Text(w) != []
    ensures Text(w)[0] == 91 ==> Text(w)[|Text(w)| - 1] == 93
    ensures Text(w)[0] == 123 ==> Text(w)[|Text(w)| - 1] == 125
  {
    hide ItemsText, EntriesText;
    match w {
      case Digits(t, beyond, _) => assert t[0] == 45 || 48 <= t[0] <= 57;
      case _ =>
    }
  }
}
