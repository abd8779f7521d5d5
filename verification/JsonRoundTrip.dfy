/** Parsing undoes printing, formatted or not, on every tree of nesting depth at most 1000 whose
    numbers are ints and whose strings have no NUL: what is printed is one way to write the tree down. */
module JsonRoundTrip {
  import opened Texts
  import opened Wrappers
  import opened JsonBytes
  import opened JsonQuote
  import opened JsonPieces
  import opened JsonTree
  import opened JsonTexts

  // strtod is right about the texts of ints.
  ghost predicate ReadsInts(lib: Libc) {
    forall n: int | INT_MIN <= n <= INT_MAX :: lib.strtod(IntText(n)) == (|IntText(n)|, n as real)
  }

  ghost predicate Plain(v: Json)
    decreases v
  {
    match v
    case Number(d) => d == ValueInt(d) as real
    case Str(s) => 0 !in s
    case Array(items) => forall k | 0 <= k < |items| :: Plain(items[k])
    case Object(ms) => forall k | 0 <= k < |ms| :: 0 !in ms[k].key && Plain(ms[k].value)
    case _ => true
  }

  lemma IntTextShape(n: int)
    ensures var t := IntText(n);
            t != [] && (t[0] == 45 || 48 <= t[0] <= 57) && forall k | 0 <= k < |t| :: IsNumberByte(t[k])
  {
    var d := Decimal(if n < 0 then -n else n);
    assert d[0] in d;
    forall k | 0 <= k < |IntText(n)| ensures IsNumberByte(IntText(n)[k]) {
      if n < 0 && k > 0 { assert IntText(n)[k] == d[k - 1] && d[k - 1] in d; }
      if n >= 0 { assert IntText(n)[k] == d[k] && d[k] in d; }
    }
  }

  // What a decimal text says, digit by digit.
  function FromDecimal(t: Bytes): int {
    if t == [] then 0 else 10 * FromDecimal(t[..|t| - 1]) + (t[|t| - 1] - '0' as int)
  }

  lemma {:induction false} DecimalSays(n: nat)
    ensures FromDecimal(Decimal(n)) == n && (n > 0 ==> Decimal(n)[0] != '0' as int)
    decreases n
  {
    if n < 10 {
      assert Decimal(n)[..0] == [];
    } else {
      DecimalSays(n / 10);
      assert Decimal(n)[..|Decimal(n)| - 1] == Decimal(n / 10);
    }
  }

  /** An int is printed as its decimal digits without leading zeros, behind a minus if it is negative. */
  lemma IntTextIs(n: int)
    ensures n >= 0 ==> FromDecimal(IntText(n)) == n && (n > 0 ==> IntText(n)[0] != '0' as int)
    ensures n < 0 ==> IntText(n)[0] == '-' as int && FromDecimal(IntText(n)[1..]) == -n && IntText(n)[1] != '0' as int
  {
    DecimalSays(if n < 0 then -n else n);
    if n < 0 { assert IntText(n)[1..] == Decimal(-n); }
  }

  /** The int of a double is the double without its fraction, held between the least and the greatest int. */
  lemma ValueIntIs(d: real)
    ensures d >= 2147483647.0 ==> ValueInt(d) == 2147483647
    ensures d <= -2147483648.0 ==> ValueInt(d) == -2147483648
    ensures 0.0 <= d < 2147483647.0 ==> 0.0 <= d - ValueInt(d) as real < 1.0
    ensures -2147483648.0 < d < 0.0 ==> -1.0 < d - ValueInt(d) as real <= 0.0
  {
  }

  // The numbers that print as ints are exactly the ints.
  lemma IntsArePlain(n: int)
    requires INT_MIN <= n <= INT_MAX
    ensures Plain(Number(n as real)) && ValueInt(n as real) == n
  {
    assert (n as real).Floor == n && (-(n as real)).Floor == -n;
  }

  lemma StrtodOf(lib: Libc, n: int)
    requires ReadsInts(lib) && INT_MIN <= n <= INT_MAX
    ensures lib.strtod(IntText(n)) == (|IntText(n)|, n as real)
  {
  }

  // ----- Printed values as texts -----

  // The white space that stands between items and around members.
  function Gap(fmt: bool): Bytes {
    if fmt then [32] else []
  }

  function Tab(fmt: bool): Bytes {
    if fmt then [9] else []
  }

  function Indent(fmt: bool, depth: nat): Bytes {
    Newline(fmt) + Tabs(fmt, depth)
  }

  function WritingOf(lib: Libc, v: Json, fmt: bool, depth: nat): Writing
    decreases v
  {
    match v
    case Number(d) => Digits(NumberText(lib, d), [], d)
    case Str(s) => Chars(Escapes(s), PiecesOf(s))
    case Array(items) => List([], ItemsOf(lib, items, fmt, depth + 1, []))
    case Object(ms) => Record(Indent(fmt, depth), EntriesOf(lib, ms, fmt, depth + 1, Indent(fmt, depth)))
    case _ => Word(v)
  }

  function ItemsOf(lib: Libc, items: seq<Json>, fmt: bool, depth: nat, before: Bytes): (r: seq<Item>)
    ensures |r| == |items|
    decreases items
  {
    if items == [] then [] else
    [Item(before, WritingOf(lib, items[0], fmt, depth), [])] + ItemsOf(lib, items[1..], fmt, depth, Gap(fmt))
  }

  function EntriesOf(lib: Libc, ms: seq<Member>, fmt: bool, depth: nat, close: Bytes): (r: seq<Entry>)
    ensures |r| == |ms|
    decreases ms
  {
    if ms == [] then [] else
    var after := if |ms| > 1 then [] else close;
    [Entry(Indent(fmt, depth), Escapes(ms[0].key), PiecesOf(ms[0].key), [], Tab(fmt),
           WritingOf(lib, ms[0].value, fmt, depth), after)]
    + EntriesOf(lib, ms[1..], fmt, depth, close)
  }

  lemma IndentIsWhite(fmt: bool, depth: nat)
    ensures White(Gap(fmt)) && White(Tab(fmt)) && White(Indent(fmt, depth)) && White([])
    ensures Indent(fmt, depth) == Newline(fmt) + Tabs(fmt, depth)
  {
  }

  lemma WritesInt(lib: Libc, d: real)
    requires ReadsInts(lib) && Plain(Number(d))
    ensures WritesNumber(lib, NumberText(lib, d), [], d)
  {
    assert NumberText(lib, d) + [] == NumberText(lib, d);
    IntTextShape(ValueInt(d));
    StrtodOf(lib, ValueInt(d));
  }

  lemma StringIsText(s: Bytes)
    requires 0 !in s
    ensures Reads(Escapes(s), PiecesOf(s)) && Meanings(PiecesOf(s)) == s && Quoted(Escapes(s)) == Quote(s)
  {
    PiecesOfAre(s);
    ValidIsRead(PiecesOf(s));
  }

  /** What is printed for a tree is a text of that tree. */
  lemma {:induction false} PrintedIsText(lib: Libc, v: Json, fmt: bool, depth: nat, t: Bytes)
    requires ReadsInts(lib) && Plain(v) && PrintValue(lib, v, fmt, depth) == Some(t)
    ensures var w := WritingOf(lib, v, fmt, depth); Valid(lib, w) && Whole(w) && Text(w) == t && Tree(w) == v
    decreases v
  {
    hide ReadsInts, WritesNumber, NumberText, PrintItems, PrintMembers, ItemsOf, EntriesOf, Quoted, Quote, CString;
    hide Reads, PiecesOf, Meanings, Indent, White, Newline, Tabs, ItemsText, EntriesText, Trees, Members;
    IndentIsWhite(fmt, depth);
    match v {
      case Number(d) => WritesInt(lib, d);
      case Str(s) => StringIsText(s);
      case Array(items) => ListIsText(lib, items, fmt, depth, PrintItems(lib, items, fmt, depth + 1).value);
      case Object(ms) => RecordIsText(lib, ms, fmt, depth, PrintMembers(lib, ms, fmt, depth + 1).value);
      case _ =>
    }
  }

  lemma {:induction false} ListIsText(lib: Libc, items: seq<Json>, fmt: bool, depth: nat, body: Bytes)
    requires ReadsInts(lib) && (forall k | 0 <= k < |items| :: Plain(items[k]))
    requires PrintItems(lib, items, fmt, depth + 1) == Some(body)
    ensures var w := List([], ItemsOf(lib, items, fmt, depth + 1, []));
            Valid(lib, w) && Text(w) == [91] + (body + [93]) && Tree(w) == Array(items)
    decreases items, 1
  {
    hide *;
    IndentIsWhite(fmt, depth);
    ItemsAreTexts(lib, items, fmt, depth + 1, [], body);
    ListIs(lib, ItemsOf(lib, items, fmt, depth + 1, []));
    if items == [] { NothingPrinted(lib, fmt, depth + 1); }
    assert [] + body == body;
  }

  lemma ListIs(lib: Libc, items: seq<Item>)
    requires White([]) && ValidItems(lib, items)
    ensures var w := List([], items);
            && Valid(lib, w) && Tree(w) == Array(Trees(items))
            && Text(w) == [91] + ((if items == [] then [] else ItemsText(items)) + [93])
  {
  }

  lemma NothingPrinted(lib: Libc, fmt: bool, depth: nat)
    ensures PrintItems(lib, [], fmt, depth) == Some([]) && PrintMembers(lib, [], fmt, depth) == Some([])
  {
  }

  lemma {:induction false} ItemsAreTexts(lib: Libc, items: seq<Json>, fmt: bool, depth: nat, before: Bytes, body: Bytes)
    requires ReadsInts(lib) && (forall k | 0 <= k < |items| :: Plain(items[k])) && White(before)
    requires PrintItems(lib, items, fmt, depth) == Some(body)
    ensures var w := ItemsOf(lib, items, fmt, depth, before);
            ValidItems(lib, w) && Trees(w) == items && ItemsText(w) == if items == [] then [] else before + body
    decreases items, 0
  {
    hide *;
    if items == [] {
      NoItems(lib, fmt, depth, before);
    } else {
      FirstPrinted(lib, items, fmt, depth, before);
      var t, rest := PrintValue(lib, items[0], fmt, depth).value, PrintItems(lib, items[1..], fmt, depth).value;
      IndentIsWhite(fmt, depth);
      PrintedIsText(lib, items[0], fmt, depth, t);
      ItemsAreTexts(lib, items[1..], fmt, depth, Gap(fmt), rest);
      var w := ItemsOf(lib, items, fmt, depth, before);
      FirstOfItems(lib, w);
      ItemJoin(w[0], before, t, fmt, |items| > 1, rest, ItemsText(w[1..]));
      FirstAndOthers(items);
    }
  }

  lemma FirstAndOthers(items: seq<Json>)
    requires items != []
    ensures [items[0]] + items[1..] == items
  {
  }

  lemma ItemJoin(i: Item, before: Bytes, t: Bytes, fmt: bool, more: bool, rest: Bytes, tail: Bytes)
    requires i.before == before && i.after == [] && (more || rest == [])
    requires tail == if more then Gap(fmt) + rest else []
    ensures i.before + (t + (i.after + (Comma(more) + tail))) == before + (t + (Separator(fmt, more) + rest))
  {
    hide Comma, Gap, Separator;
    ItemsJoin(before, t, fmt, more, rest);
  }

  lemma NoItems(lib: Libc, fmt: bool, depth: nat, before: Bytes)
    ensures ItemsOf(lib, [], fmt, depth, before) == [] && ItemsText([]) == [] && ValidItems(lib, []) && Trees([]) == []
  {
  }

  // One level of what is printed, and of its text.
  lemma FirstPrinted(lib: Libc, items: seq<Json>, fmt: bool, depth: nat, before: Bytes)
    requires items != [] && PrintItems(lib, items, fmt, depth).Some?
    ensures var t, rest := PrintValue(lib, items[0], fmt, depth), PrintItems(lib, items[1..], fmt, depth);
            && t.Some? && rest.Some? && (|items| == 1 ==> rest.value == [])
            && PrintItems(lib, items, fmt, depth) == Some(t.value + (Separator(fmt, |items| > 1) + rest.value))
    ensures var w := ItemsOf(lib, items, fmt, depth, before);
            && w[0] == Item(before, WritingOf(lib, items[0], fmt, depth), [])
            && w[1..] == ItemsOf(lib, items[1..], fmt, depth, Gap(fmt))
    ensures forall k | 0 <= k < |items[1..]| :: items[1..][k] == items[k + 1]
  {
    hide PrintValue, WritingOf, Separator, Gap;
    if |items| == 1 { NothingPrinted(lib, fmt, depth); }
  }

  lemma FirstOfItems(lib: Libc, items: seq<Item>)
    requires items != []
    ensures var i := items[0];
            && ItemsText(items) == i.before + (Text(i.w) + (i.after + (Comma(|items| > 1) + ItemsText(items[1..]))))
            && Trees(items) == [Tree(i.w)] + Trees(items[1..])
            && (ValidItems(lib, items) <==>
                White(i.before) && Valid(lib, i.w) && Whole(i.w) && White(i.after) && ValidItems(lib, items[1..]))
            && (|items| == 1 ==> ItemsText(items[1..]) == [])
  {
    hide Text, Tree, Valid, White, Comma;
  }

  lemma ItemsJoin(before: Bytes, t: Bytes, fmt: bool, more: bool, rest: Bytes)
    requires more || rest == []
    ensures before + (t + ([] + (Comma(more) + (if more then Gap(fmt) + rest else []))))
         == before + (t + (Separator(fmt, more) + rest))
  {
    assert Separator(fmt, more) == Comma(more) + (if more then Gap(fmt) else []);
  }

  lemma {:induction false} RecordIsText(lib: Libc, ms: seq<Member>, fmt: bool, depth: nat, body: Bytes)
    requires ReadsInts(lib) && (forall k | 0 <= k < |ms| :: 0 !in ms[k].key && Plain(ms[k].value))
    requires PrintMembers(lib, ms, fmt, depth + 1) == Some(body)
    ensures var w := Record(Indent(fmt, depth), EntriesOf(lib, ms, fmt, depth + 1, Indent(fmt, depth)));
            && Valid(lib, w) && Tree(w) == Object(ms)
            && Text(w) == [123] + (Newline(fmt) + (body + (Tabs(fmt, depth) + [125])))
    decreases ms, 1
  {
    hide ReadsInts, EntriesOf, PrintMembers, Plain, Newline, Tabs;
    IndentIsWhite(fmt, depth);
    if ms == [] {
      NothingPrinted(lib, fmt, depth + 1);
    } else {
      EntriesAreTexts(lib, ms, fmt, depth + 1, Tabs(fmt, depth), body);
    }
    RecordJoin(Newline(fmt), body, Tabs(fmt, depth));
  }

  lemma RecordJoin(nl: Bytes, body: Bytes, tabs: Bytes)
    ensures (nl + (body + tabs)) + [125] == nl + (body + (tabs + [125]))
    ensures body == [] ==> (nl + tabs) + [125] == nl + (body + (tabs + [125]))
  {
  }

  lemma {:induction false} EntriesAreTexts(lib: Libc, ms: seq<Member>, fmt: bool, depth: nat, tabs: Bytes, body: Bytes)
    requires ReadsInts(lib) && ms != [] && (forall k | 0 <= k < |ms| :: 0 !in ms[k].key && Plain(ms[k].value))
    requires PrintMembers(lib, ms, fmt, depth) == Some(body) && White(Newline(fmt) + tabs)
    ensures var es := EntriesOf(lib, ms, fmt, depth, Newline(fmt) + tabs);
            ValidEntries(lib, es) && Members(es) == ms && EntriesText(es) == Newline(fmt) + (body + tabs)
    decreases ms, 0
  {
    hide *;
    var close, more := Newline(fmt) + tabs, |ms| > 1;
    FirstMemberPrinted(lib, ms, fmt, depth, close);
    var t, rest := PrintValue(lib, ms[0].value, fmt, depth).value, PrintMembers(lib, ms[1..], fmt, depth).value;
    IndentIsWhite(fmt, depth);
    StringIsText(ms[0].key);
    PrintedIsText(lib, ms[0].value, fmt, depth, t);
    if more {
      EntriesAreTexts(lib, ms[1..], fmt, depth, tabs, rest);
    }
    var es := EntriesOf(lib, ms, fmt, depth, close);
    FirstOfEntries(lib, es);
    EntryJoin(es[0], fmt, Tabs(fmt, depth), Quote(ms[0].key), t, more, tabs, rest, EntriesText(es[1..]));
    FirstAndRest(ms);
  }

  lemma FirstAndRest(ms: seq<Member>)
    requires ms != []
    ensures [ms[0]] + ms[1..] == ms && Member(ms[0].key, ms[0].value) == ms[0]
  {
  }

  lemma EntryJoin(x: Entry, fmt: bool, before: Bytes, name: Bytes, t: Bytes, more: bool, tabs: Bytes, rest: Bytes,
                  tail: Bytes)
    requires x.before == Newline(fmt) + before && Quoted(x.name) == name && x.left == [] && x.right == Tab(fmt)
    requires x.after == (if more then [] else Newline(fmt) + tabs) && (more || rest == [])
    requires tail == if more then Newline(fmt) + (rest + tabs) else []
    ensures NameText(x) + (t + (x.after + (Comma(more) + tail)))
         == Newline(fmt)
            + ((before + (name + (Colon(fmt) + (t + (Comma(more) + (Newline(fmt) + rest)))))) + tabs)
  {
    hide Newline, Quoted, Tab, Colon, Comma;
    EntriesJoin(fmt, before, name, t, more, tabs, rest);
  }

  lemma FirstMemberPrinted(lib: Libc, ms: seq<Member>, fmt: bool, depth: nat, close: Bytes)
    requires ms != [] && 0 !in ms[0].key && PrintMembers(lib, ms, fmt, depth).Some?
    ensures var t, rest := PrintValue(lib, ms[0].value, fmt, depth), PrintMembers(lib, ms[1..], fmt, depth);
            && t.Some? && rest.Some? && (|ms| == 1 ==> rest.value == [])
            && PrintMembers(lib, ms, fmt, depth)
               == Some(Tabs(fmt, depth) + (Quote(ms[0].key)
                       + (Colon(fmt) + (t.value + (Comma(|ms| > 1) + (Newline(fmt) + rest.value))))))
    ensures var es := EntriesOf(lib, ms, fmt, depth, close);
            && es[0] == Entry(Newline(fmt) + Tabs(fmt, depth), Escapes(ms[0].key), PiecesOf(ms[0].key), [], Tab(fmt),
                              WritingOf(lib, ms[0].value, fmt, depth), if |ms| > 1 then [] else close)
            && es[1..] == EntriesOf(lib, ms[1..], fmt, depth, close)
    ensures forall k | 0 <= k < |ms[1..]| :: ms[1..][k] == ms[k + 1]
  {
    hide PrintValue, WritingOf, Tabs, Quote, Colon, Comma, Newline, Tab, PiecesOf;
    if |ms| == 1 { NothingPrinted(lib, fmt, depth); }
  }

  lemma FirstOfEntries(lib: Libc, es: seq<Entry>)
    requires es != []
    ensures var x := es[0];
            && NameText(x) == x.before + (Quoted(x.name) + (x.left + ([58] + x.right)))
            && EntriesText(es)
               == NameText(x) + (Text(x.w) + (x.after + (Comma(|es| > 1) + EntriesText(es[1..]))))
            && Members(es) == [Member(Meanings(x.xs), Tree(x.w))] + Members(es[1..])
            && (|es| == 1 ==> EntriesText(es[1..]) == [] && Members(es[1..]) == [] && ValidEntries(lib, es[1..]))
            && (ValidEntries(lib, es) <==>
                && White(x.before) && Reads(x.name, x.xs) && White(x.left) && White(x.right) && Valid(lib, x.w)
                && Whole(x.w) && White(x.after) && ValidEntries(lib, es[1..]))
  {
    hide Text, Tree, Valid, White, Comma, Quoted, Meanings, Reads;
  }

  lemma EntriesJoin(fmt: bool, before: Bytes, name: Bytes, t: Bytes, more: bool, tabs: Bytes, rest: Bytes)
    requires more || rest == []
    ensures var nl := Newline(fmt); var after := if more then [] else nl + tabs;
            (((nl + before) + (name + ([] + ([58] + Tab(fmt)))))
              + (t + (after + (Comma(more) + (if more then nl + (rest + tabs) else [])))))
            == nl + ((before + (name + (Colon(fmt) + (t + (Comma(more) + (nl + rest)))))) + tabs)
  {
    hide Newline;
    var nl, colon := Newline(fmt), Colon(fmt);
    var behind := t + (Comma(more) + (nl + rest));
    assert (nl + before) + (name + ([] + ([58] + Tab(fmt)))) == nl + (before + (name + colon));
    ValueJoin(t, nl, more, tabs, rest);
    NameJoin(nl, before, name, colon, behind, tabs);
  }

  lemma ValueJoin(t: Bytes, nl: Bytes, more: bool, tabs: Bytes, rest: Bytes)
    requires more || rest == []
    ensures t + ((if more then [] else nl + tabs) + (Comma(more) + (if more then nl + (rest + tabs) else [])))
         == (t + (Comma(more) + (nl + rest))) + tabs
  {
  }

  lemma NameJoin(nl: Bytes, before: Bytes, name: Bytes, colon: Bytes, behind: Bytes, tabs: Bytes)
    ensures (nl + (before + (name + colon))) + (behind + tabs)
         == nl + ((before + (name + (colon + behind))) + tabs)
  {
  }

  /** Wherever a printed value stands in a text, parsing there gives it back. */
  lemma ReadValue(lib: Libc, c: Bytes, off: nat, v: Json, fmt: bool, depth: nat, t: Bytes)
    requires ReadsInts(lib) && Plain(v) && depth <= NESTING_LIMIT && PrintValue(lib, v, fmt, depth) == Some(t)
    requires Has(c, off, t) && off + |t| < |c| && !IsNumberByte(c[off + |t|])
    ensures ParseValue(lib, c, off, depth) == Some((v, off + |t|))
  {
    hide *;
    PrintedIsText(lib, v, fmt, depth, t);
    PrintsIff(lib, v, fmt, depth);
    WholeStands(c, off, WritingOf(lib, v, fmt, depth));
    StopsThere(c, off + |t|);
    ReadWriting(lib, c, off, WritingOf(lib, v, fmt, depth), depth);
  }

  // ----- The layout -----

  // A new line and that many tabs.
  function LineOf(depth: nat): Bytes {
    [10] + seq(depth, _ => 9)
  }

  /** No white space outside of strings; or, formatted, items on one line with a blank behind each comma,
      every member on a line of its own, indented by as many tabs as it is deep, with a tab behind its
      colon, and the closing brace on a line of its own. */
  ghost predicate LaidOut(w: Writing, fmt: bool, depth: nat)
    decreases w
  {
    match w
    case List(ws, items) => ws == [] && LaidItems(items, fmt, depth + 1, true)
    case Record(ws, es) => ws == (if fmt then LineOf(depth) else []) && LaidEntries(es, fmt, depth + 1)
    case _ => true
  }

  ghost predicate LaidItems(items: seq<Item>, fmt: bool, depth: nat, first: bool)
    decreases items
  {
    items == [] ||
    (&& items[0].before == (if fmt && !first then [32] else []) && items[0].after == []
     && LaidOut(items[0].w, fmt, depth) && LaidItems(items[1..], fmt, depth, false))
  }

  ghost predicate LaidEntries(es: seq<Entry>, fmt: bool, depth: nat)
    requires depth > 0
    decreases es
  {
    es == [] ||
    (&& es[0].before == (if fmt then LineOf(depth) else []) && es[0].left == []
     && es[0].right == (if fmt then [9] else [])
     && es[0].after == (if fmt && |es| == 1 then LineOf(depth - 1) else [])
     && LaidOut(es[0].w, fmt, depth) && LaidEntries(es[1..], fmt, depth))
  }

  /** What is printed is such a text of the tree. */
  lemma {:induction false} PrintedIsLaidOut(lib: Libc, v: Json, fmt: bool, depth: nat)
    ensures LaidOut(WritingOf(lib, v, fmt, depth), fmt, depth)
    decreases v
  {
    hide ItemsOf, EntriesOf, Indent, LineOf, LaidItems, LaidEntries;
    IndentIs(fmt, depth);
    match v {
      case Array(items) => ItemsAreLaidOut(lib, items, fmt, depth + 1, true);
      case Object(ms) => EntriesAreLaidOut(lib, ms, fmt, depth + 1);
      case _ =>
    }
  }

  lemma IndentIs(fmt: bool, depth: nat)
    ensures Indent(fmt, depth) == (if fmt then LineOf(depth) else []) && Gap(fmt) == if fmt then [32] else []
  {
  }

  lemma {:induction false} ItemsAreLaidOut(lib: Libc, items: seq<Json>, fmt: bool, depth: nat, first: bool)
    ensures LaidItems(ItemsOf(lib, items, fmt, depth, if first then [] else Gap(fmt)), fmt, depth, first)
    decreases items
  {
    hide WritingOf, LaidOut, Gap;
    IndentIs(fmt, depth);
    if items != [] {
      var w := ItemsOf(lib, items, fmt, depth, if first then [] else Gap(fmt));
      PrintedIsLaidOut(lib, items[0], fmt, depth);
      ItemsAreLaidOut(lib, items[1..], fmt, depth, false);
      assert w[1..] == ItemsOf(lib, items[1..], fmt, depth, Gap(fmt));
    }
  }

  lemma {:induction false} EntriesAreLaidOut(lib: Libc, ms: seq<Member>, fmt: bool, depth: nat)
    requires depth > 0
    ensures LaidEntries(EntriesOf(lib, ms, fmt, depth, Indent(fmt, depth - 1)), fmt, depth)
    decreases ms
  {
    hide WritingOf, LaidOut, LineOf, Indent;
    IndentIs(fmt, depth);
    IndentIs(fmt, depth - 1);
    if ms != [] {
      var w := EntriesOf(lib, ms, fmt, depth, Indent(fmt, depth - 1));
      PrintedIsLaidOut(lib, ms[0].value, fmt, depth);
      EntriesAreLaidOut(lib, ms[1..], fmt, depth);
      assert w[1..] == EntriesOf(lib, ms[1..], fmt, depth, Indent(fmt, depth - 1));
    }
  }

  // ----- Whole texts -----

  /** Printing succeeds exactly on the trees that are nested at most 1000 deep. */
  lemma {:induction false} PrintsIff(lib: Libc, v: Json, fmt: bool, depth: nat)
    requires depth <= NESTING_LIMIT
    ensures PrintValue(lib, v, fmt, depth).Some? <==> Fits(depth, Height(v))
    decreases v
  {
    match v {
      case Array(items) => if depth < NESTING_LIMIT { ItemsPrintIff(lib, items, fmt, depth + 1); }
      case Object(ms) => if depth < NESTING_LIMIT { MembersPrintIff(lib, ms, fmt, depth + 1); }
      case _ =>
    }
  }

  lemma {:induction false} ItemsPrintIff(lib: Libc, items: seq<Json>, fmt: bool, depth: nat)
    requires depth <= NESTING_LIMIT
    ensures PrintItems(lib, items, fmt, depth).Some? <==> Fits(depth, ItemsHeight(items))
    decreases items
  {
    if items != [] {
      PrintsIff(lib, items[0], fmt, depth);
      ItemsPrintIff(lib, items[1..], fmt, depth);
    }
  }

  lemma {:induction false} MembersPrintIff(lib: Libc, ms: seq<Member>, fmt: bool, depth: nat)
    requires depth <= NESTING_LIMIT
    ensures PrintMembers(lib, ms, fmt, depth).Some? <==> Fits(depth, MembersHeight(ms))
    decreases ms
  {
    if ms != [] {
      PrintsIff(lib, ms[0].value, fmt, depth);
      MembersPrintIff(lib, ms[1..], fmt, depth);
    }
  }

  // ----- No NUL is printed -----

  lemma IntTextNoNul(n: int)
    ensures 0 !in IntText(n)
  {
  }

  lemma {:induction false} NoNul(lib: Libc, v: Json, fmt: bool, depth: nat)
    requires Plain(v) && PrintValue(lib, v, fmt, depth).Some?
    ensures 0 !in PrintValue(lib, v, fmt, depth).value
    decreases v
  {
    match v {
      case Number(d) => IntTextNoNul(ValueInt(d));
      case Str(s) => QuoteNoNul(s);
      case Array(items) => ItemsNoNul(lib, items, fmt, depth + 1);
      case Object(ms) => MembersNoNul(lib, ms, fmt, depth + 1);
      case _ =>
    }
  }

  lemma {:induction false} ItemsNoNul(lib: Libc, items: seq<Json>, fmt: bool, depth: nat)
    requires (forall k | 0 <= k < |items| :: Plain(items[k])) && PrintItems(lib, items, fmt, depth).Some?
    ensures 0 !in PrintItems(lib, items, fmt, depth).value
    decreases items
  {
    if items != [] {
      NoNul(lib, items[0], fmt, depth);
      ItemsNoNul(lib, items[1..], fmt, depth);
    }
  }

  lemma {:induction false} MembersNoNul(lib: Libc, ms: seq<Member>, fmt: bool, depth: nat)
    requires (forall k | 0 <= k < |ms| :: 0 !in ms[k].key && Plain(ms[k].value))
        && PrintMembers(lib, ms, fmt, depth).Some?
    ensures 0 !in PrintMembers(lib, ms, fmt, depth).value
    decreases ms
  {
    if ms != [] {
      hide Quote;
      QuoteNoNul(ms[0].key);
      NoNul(lib, ms[0].value, fmt, depth);
      MembersNoNul(lib, ms[1..], fmt, depth);
    }
  }

  /** Printing and then parsing gives back the same tree, with the order of members and repeated
      names, whether or not the text was formatted and whether or not nothing may follow it. */
  lemma ParseUndoesPrint(lib: Libc, v: Json, fmt: bool, requireEnd: bool)
    requires ReadsInts(lib) && Plain(v) && Height(v) <= 1000
    ensures var t := PrintValue(lib, v, fmt, 0);
            t.Some? && 0 !in t.value && Parse(lib, t.value, requireEnd) == Some(v)
  {
    hide PrintValue, Parse, Plain, ReadsInts, Height, Text, Valid, Tree, WritingOf, White, Written;
    PrintsIff(lib, v, fmt, 0);
    NoNul(lib, v, fmt, 0);
    var t := PrintValue(lib, v, fmt, 0).value;
    PrintedIsText(lib, v, fmt, 0, t);
    PrintedIsWritten(lib, WritingOf(lib, v, fmt, 0), t);
    ParsesTextIff(lib, t, false, [], WritingOf(lib, v, fmt, 0), [], requireEnd);
  }

  lemma PrintedIsWritten(lib: Libc, w: Writing, t: Bytes)
    requires Valid(lib, w) && Whole(w) && Text(w) == t
    ensures White([]) && Written(lib, t, false, [], w, [])
  {
    hide Text, Valid;
    assert [] + ([] + (t + [])) == t;
  }

  lemma StopsThere(c: Bytes, p: nat)
    requires p < |c| && !IsNumberByte(c[p])
    ensures NumberStops(c, p)
  {
  }
}
