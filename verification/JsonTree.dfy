/** JSON values, and printing and parsing as functions of the text: what the buffers of cJSON.c
    (JsonBuffers) compute. */
module JsonTree {
  import opened Texts
  import opened Numerals
  import opened Wrappers
  import opened JsonBytes
  import opened JsonString
  import opened JsonQuote

  const NESTING_LIMIT := 1000
  const INT_MAX: int := 0x7fff_ffff
  const INT_MIN: int := -0x8000_0000

  // A number's double is an exact real here; its int is derived by saturation.
  datatype Json =
    | Null
    | False
    | True
    | Number(value: real)
    | Str(s: Bytes)
    | Array(items: seq<Json>)
    | Object(members: seq<Member>)

  datatype Member = Member(key: Bytes, value: Json)

  // What sprintf makes of a number in print_number's array of 26 bytes.
  type ShortText = s: Bytes | 0 !in s && |s| <= 25

  /** The C library's number conversions: strtod gives the length it consumed, and the value. */
  datatype Libc = Libc(strtod: Bytes -> (nat, real), dtoa: real -> ShortText)

  const NULL_TEXT: Bytes := [110, 117, 108, 108]
  const TRUE_TEXT: Bytes := [116, 114, 117, 101]
  const FALSE_TEXT: Bytes := [102, 97, 108, 115, 101]

  // ----- Printing -----

  function ValueInt(d: real): (n: int)
    ensures INT_MIN <= n <= INT_MAX
  {
    if d >= 2147483647.0 then INT_MAX
    else if d <= -2147483648.0 then INT_MIN
    else if d >= 0.0 then d.Floor
    else -((-d).Floor)
  }

  function DigitByte(d: nat): Byte {
    48 + d % 10
  }

  function Decimal(n: nat): (r: Bytes)
    ensures r != [] && forall b | b in r :: 48 <= b <= 57
  {
    Numeral(n, DigitByte)
  }

  // printf's %d.
  function IntText(n: int): Bytes {
    if n < 0 then [45] + Decimal(-n) else Decimal(n)
  }

  function NumberText(lib: Libc, d: real): Bytes {
    if d == ValueInt(d) as real then IntText(ValueInt(d)) else lib.dtoa(d)
  }

  // A C string ends at its first NUL.
  function CString(s: Bytes): (r: CBytes)
    ensures 0 !in s ==> r == s
  {
    Upto(s, 0)
  }

  function Tabs(fmt: bool, n: nat): Bytes {
    if fmt then seq(n, _ => 9) else []
  }

  function Newline(fmt: bool): Bytes {
    if fmt then [10] else []
  }

  function Colon(fmt: bool): Bytes {
    if fmt then [58, 9] else [58]
  }

  function Separator(fmt: bool, more: bool): Bytes {
    if !more then [] else if fmt then [44, 32] else [44]
  }

  function Comma(more: bool): Bytes {
    if more then [44] else []
  }

  function PrintValue(lib: Libc, v: Json, fmt: bool, depth: nat): Option<Bytes>
    decreases v
  {
    match v
    case Null => Some(NULL_TEXT)
    case False => Some(FALSE_TEXT)
    case True => Some(TRUE_TEXT)
    case Number(d) => Some(NumberText(lib, d))
    case Str(s) => Some(Quote(CString(s)))
    case Array(items) =>
      if depth >= NESTING_LIMIT then None else
      var body :- PrintItems(lib, items, fmt, depth + 1);
      Some([91] + (body + [93]))
    case Object(members) =>
      if depth >= NESTING_LIMIT then None else
      var body :- PrintMembers(lib, members, fmt, depth + 1);
      Some([123] + (Newline(fmt) + (body + (Tabs(fmt, depth) + [125]))))
  }

  function PrintItems(lib: Libc, items: seq<Json>, fmt: bool, depth: nat): Option<Bytes>
    decreases items
  {
    if items == [] then Some([]) else
    var t :- PrintValue(lib, items[0], fmt, depth);
    var rest :- PrintItems(lib, items[1..], fmt, depth);
    Some(t + (Separator(fmt, |items| > 1) + rest))
  }

  function PrintMembers(lib: Libc, ms: seq<Member>, fmt: bool, depth: nat): Option<Bytes>
    decreases ms
  {
    if ms == [] then Some([]) else
    var t :- PrintValue(lib, ms[0].value, fmt, depth);
    var rest :- PrintMembers(lib, ms[1..], fmt, depth);
    Some(Tabs(fmt, depth) + (Quote(CString(ms[0].key))
         + (Colon(fmt) + (t + (Comma(|ms| > 1) + (Newline(fmt) + rest))))))
  }

  // ----- Parsing -----

  // buffer_skip_whitespace, which steps back to the last byte when it runs off the end.
  function SkipWhite(c: Bytes, off: nat): (r: nat)
    requires off <= |c|
    ensures off <= r <= |c| && (off < |c| ==> r < |c|)
  {
    if off == |c| then off else
    var e := WhiteEnd(c, off);
    if e == |c| then e - 1 else e
  }

  function WhiteEnd(c: Bytes, off: nat): (r: nat)
    requires off <= |c|
    ensures off <= r <= |c| && (r < |c| ==> c[r] > 32)
    decreases |c| - off
  {
    if off < |c| && c[off] <= 32 then WhiteEnd(c, off + 1) else off
  }

  predicate Starts(c: Bytes, off: nat, t: Bytes) {
    off + |t| <= |c| && c[off..off + |t|] == t
  }

  // The characters that parse_number collects for strtod: digits and + - e E and the point.
  predicate IsNumberByte(b: Byte) {
    48 <= b <= 57 || b == 43 || b == 45 || b == 101 || b == 69 || b == 46
  }

  function NumberEnd(c: Bytes, off: nat): (r: nat)
    requires off <= |c|
    ensures off <= r <= |c|
    decreases |c| - off
  {
    if off < |c| && IsNumberByte(c[off]) then NumberEnd(c, off + 1) else off
  }

  function ParseNumberAt(lib: Libc, c: Bytes, off: nat): (r: Option<(Json, nat)>)
    requires off <= |c|
    ensures r.Some? ==> off < r.value.1 <= |c|
  {
    var text := c[off..NumberEnd(c, off)];
    var (n, d) := lib.strtod(text);
    if n == 0 || text == [] then None else Some((Number(d), off + if n <= |text| then n else |text|))
  }

  function ParseValue(lib: Libc, c: Bytes, off: nat, depth: nat): (r: Option<(Json, nat)>)
    requires off <= |c|
    ensures r.Some? ==> off < r.value.1 <= |c|
    decreases |c| - off, 3
  {
    if Starts(c, off, NULL_TEXT) then Some((Null, off + 4))
    else if Starts(c, off, FALSE_TEXT) then Some((False, off + 5))
    else if Starts(c, off, TRUE_TEXT) then Some((True, off + 4))
    else if off == |c| then None
    else if c[off] == QUOTE then
      var (s, e) :- ParseStringAt(c, off);
      Some((Str(s), e))
    else if c[off] == 45 || 48 <= c[off] <= 57 then
      ParseNumberAt(lib, c, off)
    else if c[off] == 91 then ParseArray(lib, c, off, depth)
    else if c[off] == 123 then ParseObject(lib, c, off, depth)
    else None
  }

  function ParseArray(lib: Libc, c: Bytes, off: nat, depth: nat): (r: Option<(Json, nat)>)
    requires off < |c|
    ensures r.Some? ==> off < r.value.1 <= |c|
    decreases |c| - off, 2
  {
    if depth >= NESTING_LIMIT then None else
    var p := SkipWhite(c, off + 1);
    if p == |c| then None
    else if c[p] == 93 then Some((Array([]), p + 1))
    else
      var (items, e) :- ParseItems(lib, c, p - 1, depth + 1, []);
      if e < |c| && c[e] == 93 then Some((Array(items), e + 1)) else None
  }

  // The loop of parse_array, from the byte before an item; acc are the items so far.
  function ParseItems(lib: Libc, c: Bytes, p: nat, depth: nat, acc: seq<Json>): (r: Option<(seq<Json>, nat)>)
    requires p < |c|
    ensures r.Some? ==> p < r.value.1 <= |c|
    decreases |c| - p, 1
  {
    var (v, e) :- ParseValue(lib, c, SkipWhite(c, p + 1), depth);
    var e' := SkipWhite(c, e);
    if e' < |c| && c[e'] == 44 then ParseItems(lib, c, e', depth, acc + [v])
    else Some((acc + [v], e'))
  }

  function ParseObject(lib: Libc, c: Bytes, off: nat, depth: nat): (r: Option<(Json, nat)>)
    requires off < |c|
    ensures r.Some? ==> off < r.value.1 <= |c|
    decreases |c| - off, 2
  {
    if depth >= NESTING_LIMIT then None else
    var p := SkipWhite(c, off + 1);
    if p == |c| then None
    else if c[p] == 125 then Some((Object([]), p + 1))
    else
      var (members, e) :- ParseMembers(lib, c, p - 1, depth + 1, []);
      if e < |c| && c[e] == 125 then Some((Object(members), e + 1)) else None
  }

  // A member's name and its colon: the name, and where its value starts.
  function ParseName(c: Bytes, p: nat): (r: Option<(Bytes, nat)>)
    requires p < |c|
    ensures r.Some? ==> p < r.value.1 <= |c|
  {
    if p + 1 >= |c| then None else
    var (key, k) :- ParseStringAt(c, SkipWhite(c, p + 1));
    var k' := SkipWhite(c, k);
    if k' >= |c| || c[k'] != 58 then None else Some((key, SkipWhite(c, k' + 1)))
  }

  // The loop of parse_object.
  function ParseMembers(lib: Libc, c: Bytes, p: nat, depth: nat, acc: seq<Member>): (r: Option<(seq<Member>, nat)>)
    requires p < |c|
    ensures r.Some? ==> p < r.value.1 <= |c|
    decreases |c| - p, 1
  {
    var (key, start) :- ParseName(c, p);
    var (v, e) :- ParseValue(lib, c, start, depth);
    var e' := SkipWhite(c, e);
    if e' < |c| && c[e'] == 44 then ParseMembers(lib, c, e', depth, acc + [Member(key, v)])
    else Some((acc + [Member(key, v)], e'))
  }

  const BOM: Bytes := [0xEF, 0xBB, 0xBF]

  // cJSON_ParseWithOpts on a C string.
  function Parse(lib: Libc, text: CBytes, requireEnd: bool): Option<Json> {
    var c := text + [0];
    var start := if |c| > 4 && Starts(c, 0, BOM) then 3 else 0;
    var (v, e) :- ParseValue(lib, c, SkipWhite(c, start), 0);
    var e' := SkipWhite(c, e);
    if requireEnd && (e' == |c| || c[e'] != 0) then None else Some(v)
  }
}
