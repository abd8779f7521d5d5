/** JSON strings in cJSON.c: the two passes of parse_string and of print_string_ptr. */
module JsonString {
  import opened Texts
  import opened Wrappers
  import opened JsonBytes

  const LETTER_U: Byte := 117

  // ----- Parsing, as functions of the content and a position -----

  // The first pass: the closing quote, with every backslash taking the next byte along.
  function StringEnd(c: Bytes, p: nat): (r: Option<nat>)
    ensures r.Some? ==> p <= r.value < |c| && c[r.value] == QUOTE
    decreases |c| - p
  {
    if p >= |c| then None
    else if c[p] == QUOTE then Some(p)
    else if c[p] == BACKSLASH then
      if p + 1 >= |c| then None else StringEnd(c, p + 2)
    else StringEnd(c, p + 1)
  }

  // How many escapes the first pass starts before position x.
  function Skipped(c: Bytes, p: nat, x: nat): nat
    decreases |c| - p
  {
    if p >= x || p >= |c| then 0
    else if c[p] == BACKSLASH then 1 + Skipped(c, p + 2, x)
    else Skipped(c, p + 1, x)
  }

  // utf16_literal_to_utf8: the bytes written and the bytes consumed.
  function Utf16Escape(c: Bytes, p: nat, end: nat): (r: Option<(Bytes, nat)>)
    requires p <= end <= |c|
    ensures r.Some? ==> p + r.value.1 <= end && (r.value.1 == 6 || r.value.1 == 12)
    ensures r.Some? ==> |r.value.0| <= r.value.1 / 2
  {
    if end - p < 6 then None else
    var w1 := Hex4(c[p + 2..p + 6]);
    if Low(w1) then None
    else if High(w1) then
      if end - (p + 6) < 6 || c[p + 6] != BACKSLASH || c[p + 7] != LETTER_U then None else
      var w2 := Hex4(c[p + 8..p + 12]);
      if !Low(w2) then None else Some((Utf8(Combine(w1, w2)), 12))
    else Some((Utf8(w1), 6))
  }

  function Simple(b: Byte): Option<Byte> {
    if b == 98 then Some(8)
    else if b == 102 then Some(12)
    else if b == 110 then Some(10)
    else if b == 114 then Some(13)
    else if b == 116 then Some(9)
    else if b == QUOTE || b == BACKSLASH || b == 47 then Some(b)
    else None
  }

  // The second pass, from p to the closing quote at end.
  function Unescape(c: Bytes, p: nat, end: nat): Option<Bytes>
    requires end < |c|
    decreases end + 1 - p
  {
    if p >= end then Some([])
    else if c[p] != BACKSLASH then
      var rest :- Unescape(c, p + 1, end);
      Some([c[p]] + rest)
    else if c[p + 1] == LETTER_U then
      var (u, n) :- Utf16Escape(c, p, end);
      var rest :- Unescape(c, p + n, end);
      Some(u + rest)
    else
      var b :- Simple(c[p + 1]);
      var rest :- Unescape(c, p + 2, end);
      Some([b] + rest)
  }

  function ParseStringAt(c: Bytes, off: nat): (r: Option<(Bytes, nat)>)
    requires off < |c|
    ensures r.Some? ==> off < r.value.1 <= |c|
  {
    if c[off] != QUOTE then None else
    var end :- StringEnd(c, off + 1);
    var s :- Unescape(c, off + 1, end);
    Some((s, end + 1))
  }

  // ----- The output buffer -----

  // A later limit adds an escape only at a backslash, and never two in a row.
  lemma {:induction false} SkippedGrows(c: Bytes, p: nat, x: nat)
    requires x < |c|
    ensures Skipped(c, p, x) <= Skipped(c, p, x + 1) <= Skipped(c, p, x) + 1
    ensures c[x] != BACKSLASH ==> Skipped(c, p, x + 1) == Skipped(c, p, x)
    ensures Skipped(c, p, x + 2) <= Skipped(c, p, x) + 1
    decreases |c| - p
  {
    if p < x {
      SkippedGrows(c, if c[p] == BACKSLASH then p + 2 else p + 1, x);
    } else {
      assert Skipped(c, p + 1, x + 2) <= 1 && Skipped(c, p + 2, x + 2) == 0;
    }
  }

  lemma {:induction false} SkippedPairs(c: Bytes, p: nat, x: nat, n: nat)
    requires x + 2 * n <= |c|
    ensures Skipped(c, p, x + 2 * n) <= Skipped(c, p, x) + n
    decreases n
  {
    if n > 0 {
      SkippedPairs(c, p, x, n - 1);
      SkippedGrows(c, p, x + 2 * (n - 1));
    }
  }

  function Before(done: Bytes, r: Option<Bytes>): Option<Bytes> {
    if r.None? then None else Some(done + r.value)
  }

  lemma BeforeJoin(done: Bytes, s: Bytes, r: Option<Bytes>)
    ensures Before(done, Before(s, r)) == Before(done + s, r)
  {
    if r.Some? {
      assert done + (s + r.value) == done + s + r.value;
    }
  }

  lemma BeforeNothing(r: Option<Bytes>)
    ensures Before([], r) == r
    ensures r.Some? ==> Before(r.value, Some([])) == r
  {
    if r.Some? {
      assert [] + r.value == r.value && r.value + [] == r.value;
    }
  }

  lemma UnescapeEnds(c: Bytes, p: nat, end: nat)
    requires end <= p && end < |c|
    ensures Unescape(c, p, end) == Some([])
  {
  }

  // The first loop of parse_string.
  method MeasureString(c: Bytes, start: nat) returns (r: Option<(nat, nat)>)
    requires start <= |c|
    ensures r.Some? == StringEnd(c, start).Some?
    ensures r.Some? ==> r.value == (StringEnd(c, start).value, Skipped(c, start, StringEnd(c, start).value))
  {
    var end, skipped := start, 0;
    while end < |c| && c[end] != QUOTE
      invariant start <= end <= |c|
      invariant StringEnd(c, start) == StringEnd(c, end)
      invariant skipped == Skipped(c, start, end)
      invariant forall x | x >= end :: Skipped(c, start, x) == skipped + Skipped(c, end, x)
    {
      if c[end] == BACKSLASH {
        if end + 1 >= |c| { return None; }
        skipped := skipped + 1;
        end := end + 1;
      }
      end := end + 1;
    }
    if end >= |c| { return None; }
    return Some((end, skipped));
  }

  method Write(out: array<Byte>, o: nat, s: Bytes)
    requires o + |s| <= out.Length
    modifies out
    ensures out[..o + |s|] == old(out[..o]) + s
  {
    for k := 0 to |s|
      invariant out[..o] == old(out[..o])
      invariant forall x | 0 <= x < k :: out[o + x] == s[x]
    {
      out[o + k] := s[k];
    }
    assert out[..o + |s|] == out[..o] + out[o..o + |s|];
  }

  // One turn of the second loop: the bytes it writes, and where it goes on.
  method NextPiece(c: Bytes, p: nat, end: nat) returns (r: Option<(Bytes, nat)>)
    requires p < end < |c|
    ensures r.None? ==> Unescape(c, p, end).None?
    ensures r.Some? ==> var (s, next) := r.value;
            && p < next <= end + 1
            && Unescape(c, p, end) == Before(s, Unescape(c, next, end))
            && (forall start: nat | start <= p :: |s| + Skipped(c, start, next) <= next - p + Skipped(c, start, p))
  {
    if c[p] != BACKSLASH {
      forall start: nat | start <= p ensures Skipped(c, start, p + 1) <= Skipped(c, start, p) {
        SkippedGrows(c, start, p);
      }
      return Some(([c[p]], p + 1));
    }
    if c[p + 1] == LETTER_U {
      var u := Utf16Escape(c, p, end);
      if u.None? { return None; }
      var n := u.value.1;
      forall start: nat | start <= p ensures Skipped(c, start, p + n) <= Skipped(c, start, p) + n / 2 {
        SkippedPairs(c, start, p, n / 2);
      }
      return Some((u.value.0, p + n));
    }
    var b := Simple(c[p + 1]);
    if b.None? { return None; }
    forall start: nat | start <= p ensures Skipped(c, start, p + 2) <= Skipped(c, start, p) + 1 {
      SkippedGrows(c, start, p);
    }
    return Some(([b.value], p + 2));
  }

  /** parse_string. The second pass writes within the buffer that the first pass sized, for every
      content: a malformed \u may put it out of step with the first pass, and it may even run one
      byte past the closing quote, but the byte counted for the opening quote makes up for that. */
  method ParseString(c: Bytes, off: nat) returns (r: Option<(Bytes, nat)>)
    requires off < |c|
    ensures r == ParseStringAt(c, off)
  {
    hide Unescape, Skipped, StringEnd;
    if c[off] != QUOTE { return None; }
    var m := MeasureString(c, off + 1);
    if m.None? { return None; }
    var (end, skipped) := m.value;
    SkippedTo(c, off + 1, end);
    var allocation := end - off - skipped;
    var out := new Byte[allocation + 1](_ => 0);
    var o, p := 0, off + 1;
    BeforeNothing(Unescape(c, p, end));
    SkippedTo(c, p, p);
    assert out[..o] == [];
    while p < end
      invariant off + 1 <= p <= end + 1 && 0 <= o <= out.Length
      invariant o + Skipped(c, off + 1, p) <= p - (off + 1)
      invariant Unescape(c, off + 1, end) == Before(out[..o], Unescape(c, p, end))
      decreases end + 1 - p
    {
      var piece := NextPiece(c, p, end);
      if piece.None? { return None; }
      var (s, next) := piece.value;
      ghost var done := out[..o];
      if next == end + 1 { SkippedGrows(c, off + 1, end); } else { SkippedMonotone(c, off + 1, next, end); }
      Write(out, o, s);
      assert out[..o + |s|] == done + s;
      BeforeJoin(done, s, Unescape(c, next, end));
      o, p := o + |s|, next;
    }
    if p == end + 1 { SkippedGrows(c, off + 1, end); }
    UnescapeEnds(c, p, end);
    BeforeNothing(Some(out[..o]));
    out[o] := 0;
    return Some((out[..o], end + 1));
  }

  lemma {:induction false} SkippedMonotone(c: Bytes, p: nat, x: nat, y: nat)
    requires x <= y <= |c|
    ensures Skipped(c, p, x) <= Skipped(c, p, y) <= Skipped(c, p, x) + (y - x)
    decreases y - x
  {
    if x < y {
      SkippedMonotone(c, p, x, y - 1);
      SkippedGrows(c, p, y - 1);
    }
  }

  lemma {:induction false} SkippedTo(c: Bytes, p: nat, x: nat)
    requires p <= x <= |c|
    ensures Skipped(c, p, x) <= x - p
    decreases x - p
  {
    if p < x {
      SkippedTo(c, p, x - 1);
      SkippedGrows(c, p, x - 1);
    }
  }
}
