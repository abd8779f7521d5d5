/** Printing strings, and the proof that parsing undoes it; section 7 of RFC 8259. */
module JsonQuote {
  import opened Texts
  import opened Wrappers
  import opened JsonBytes
  import opened JsonString

  // A C string: print_string_ptr stops at the first NUL.
  type CBytes = s: Bytes | 0 !in s

  function HexDigit(n: int): (b: Byte)
    requires 0 <= n < 16
    ensures IsHex(b) && HexValue(b) == n
  {
    if n < 10 then 48 + n else 87 + n
  }

  // The one-character escapes.
  function Short(b: Byte): Option<Byte> {
    if b == QUOTE || b == BACKSLASH then Some(b)
    else if b == 8 then Some(98)
    else if b == 12 then Some(102)
    else if b == 10 then Some(110)
    else if b == 13 then Some(114)
    else if b == 9 then Some(116)
    else None
  }

  function Escape(b: Byte): Bytes {
    if Short(b).Some? then [BACKSLASH, Short(b).value]
    else if b < 32 then
      var high, low := b / 16, b % 16;
      [BACKSLASH, LETTER_U, 48, 48, HexDigit(high), HexDigit(low)]
    else [b]
  }

  function Escapes(s: Bytes): Bytes {
    if s == [] then [] else Escape(s[0]) + Escapes(s[1..])
  }

  function Quote(s: Bytes): Bytes {
    [QUOTE] + (Escapes(s) + [QUOTE])
  }

  // ----- The two passes of print_string_ptr -----

  lemma {:induction false} EscapesJoin(s: Bytes, t: Bytes)
    ensures Escapes(s + t) == Escapes(s) + Escapes(t)
    decreases |s|
  {
    if s == [] {
      assert s + t == t;
    } else {
      assert (s + t)[1..] == s[1..] + t;
      EscapesJoin(s[1..], t);
    }
  }

  lemma EscapesPush(s: Bytes, k: nat)
    requires k < |s|
    ensures Escapes(s[..k + 1]) == Escapes(s[..k]) + Escape(s[k])
  {
    assert s[..k + 1] == s[..k] + [s[k]];
    EscapesJoin(s[..k], [s[k]]);
    assert Escapes([s[k]]) == Escape(s[k]) + Escapes([s[k]][1..]);
  }

  lemma EscapesFit(s: Bytes, k: nat)
    requires k < |s|
    ensures |Escapes(s[..k])| + |Escape(s[k])| <= |Escapes(s)|
  {
    hide Escape, Escapes;
    EscapesPush(s, k);
    EscapesJoin(s[..k + 1], s[k + 1..]);
    assert s[..k + 1] + s[k + 1..] == s;
  }

  // The first pass: how many bytes escaping adds.
  method CountExtra(s: CBytes) returns (extra: nat)
    ensures |s| + extra == |Escapes(s)|
    ensures extra == 0 ==> Escapes(s) == s
  {
    extra := 0;
    for k := 0 to |s|
      invariant k + extra == |Escapes(s[..k])|
      invariant extra == 0 ==> Escapes(s[..k]) == s[..k]
    {
      EscapesPush(s, k);
      if Short(s[k]).Some? {
        extra := extra + 1;
      } else if s[k] < 32 {
        extra := extra + 5;
      }
      assert s[..k + 1] == s[..k] + [s[k]];
    }
    assert s[..|s|] == s;
  }

  // The second pass, from a position of the output on.
  method WriteEscapes(buf: array<Byte>, at: nat, s: CBytes)
    requires at + |Escapes(s)| <= buf.Length
    modifies buf
    ensures buf[..at + |Escapes(s)|] == old(buf[..at]) + Escapes(s)
  {
    hide Escape;
    ghost var before := buf[..at];
    var o: nat := at;
    assert buf[..at] == before + Escapes(s[..0]);
    for k := 0 to |s|
      invariant o == at + |Escapes(s[..k])| <= buf.Length
      invariant buf[..o] == before + Escapes(s[..k])
    {
      EscapesPush(s, k);
      EscapesFit(s, k);
      Write(buf, o, Escape(s[k]));
      o := o + |Escape(s[k])|;
    }
    assert s[..|s|] == s;
  }

  /** The length counted first is exactly the length written, with both quotes and the NUL. */
  method PrintStringPtr(buf: array<Byte>, at: nat, s: CBytes, extra: nat)
    requires |s| + extra == |Escapes(s)| && (extra == 0 ==> Escapes(s) == s)
    requires at + |s| + extra + 3 <= buf.Length
    modifies buf
    ensures |Quote(s)| == |s| + extra + 2
    ensures buf[..at + |Quote(s)| + 1] == old(buf[..at]) + Quote(s) + [0]
  {
    hide Escapes;
    var length := |s| + extra;
    ghost var before := buf[..at];
    Write(buf, at, [QUOTE]);
    if extra == 0 {
      Write(buf, at + 1, s);
    } else {
      WriteEscapes(buf, at + 1, s);
    }
    assert buf[..at + 1 + length] == (before + [QUOTE]) + Escapes(s);
    Write(buf, at + 1 + length, [QUOTE]);
    Write(buf, at + 2 + length, [0]);
    assert before + [QUOTE] + Escapes(s) + [QUOTE] == before + Quote(s);
  }

  lemma {:induction false} QuoteNoNul(s: CBytes)
    ensures 0 !in Quote(s) && 0 !in Escapes(s)
    decreases |s|
  {
    if s != [] {
      QuoteNoNul(s[1..]);
      if Short(s[0]).None? && s[0] < 32 {
        assert HexDigit(s[0] / 16) != 0 && HexDigit(s[0] % 16) != 0;
      }
      assert 0 !in Escape(s[0]);
    }
  }

  // ----- \u escapes -----

  // Any spelling of four hexadecimal digits, in either case.
  ghost predicate Spells(h: Bytes, w: int) {
    |h| == 4 && (forall k | 0 <= k < 4 :: IsHex(h[k])) && Hex4(h) == w
  }

  /** Every character of Unicode, written as the one or two \u escapes of its UTF-16 form with any
      spelling of the digits, becomes the shortest UTF-8 form of the same character. */
  lemma EscapedCharacterBecomesUtf8(c: Bytes, p: nat, end: nat, cp: int, h1: Bytes, h2: Bytes)
    requires Scalar(cp) && p <= end <= |c| && Spells(h1, Utf16(cp)[0])
    requires cp >= 0x10000 ==> Spells(h2, Utf16(cp)[1])
    requires var text := [BACKSLASH, LETTER_U] + h1 + (if cp < 0x10000 then [] else [BACKSLASH, LETTER_U] + h2);
             Has(c, p, text) && p + |text| <= end
    ensures Utf16Escape(c, p, end) == Some((Utf8(cp), if cp < 0x10000 then 6 else 12))
    ensures Utf8Decode(Utf8(cp)) == Some(cp)
  {
    Utf8RoundTrip(cp);
    var second := if cp < 0x10000 then [] else [BACKSLASH, LETTER_U] + h2;
    HasJoin(c, p, [BACKSLASH, LETTER_U] + h1, second);
    HasJoin(c, p, [BACKSLASH, LETTER_U], h1);
    assert c[p + 2..p + 6] == h1;
    if cp >= 0x10000 {
      PairRoundTrip(cp);
      HasJoin(c, p + 6, [BACKSLASH, LETTER_U], h2);
      assert c[p + 6] == [BACKSLASH, LETTER_U][0] && c[p + 7] == [BACKSLASH, LETTER_U][1];
      assert c[p + 8..p + 12] == h2;
    }
  }

  // One UTF-16 code unit as four hexadecimal digits; anything else is refused.
  function StrictUnit(h: Bytes): Option<int> {
    if |h| == 4 && forall b | b in h :: IsHex(b) then Some(Hex4(h)) else None
  }

  /** What section 7 of RFC 8259 and section 2.2 of RFC 2781 make of an escape: one code unit that is no
      surrogate, or a high surrogate and the escape of a low one. */
  function StrictEscape(c: Bytes, p: nat, end: nat): Option<(Bytes, nat)>
    requires p <= end <= |c|
  {
    if end < p + 6 then None else
    var unit :- StrictUnit(c[p + 2..p + 6]);
    if Scalar(unit) then Some((Utf8(unit), 6))
    else if High(unit) && p + 12 <= end && c[p + 6..p + 8] == [BACKSLASH, LETTER_U] then
      var second :- StrictUnit(c[p + 8..p + 12]);
      if Low(second) then Some((Utf8(Combine(unit, second)), 12)) else None
    else None
  }

  /** The code agrees with that exactly if the first four digits are hexadecimal or cut off by the
      closing quote. Otherwise it reads NUL where the escape should be refused; with them, it refuses
      exactly lone and unpaired surrogates. */
  lemma EscapeIsStrictIff(c: Bytes, p: nat, end: nat)
    requires p <= end <= |c|
    ensures Utf16Escape(c, p, end) == StrictEscape(c, p, end) <==>
            end - p < 6 || forall b | b in c[p + 2..p + 6] :: IsHex(b)
    ensures end - p >= 6 && !(forall b | b in c[p + 2..p + 6] :: IsHex(b)) ==>
              Utf16Escape(c, p, end) == Some(([0], 6)) && StrictEscape(c, p, end) == None
    ensures Utf16Escape(c, p, end).None? <==>
            || end - p < 6
            || Low(Hex4(c[p + 2..p + 6]))
            || (High(Hex4(c[p + 2..p + 6])) &&
                !(end - p >= 12 && c[p + 6] == BACKSLASH && c[p + 7] == LETTER_U && Low(Hex4(c[p + 8..p + 12]))))
  {
    if end - p >= 6 {
      HexOrNot(c[p + 2..p + 6]);
    }
    if end - p >= 12 {
      HexOrNot(c[p + 8..p + 12]);
      assert c[p + 6..p + 8] == [c[p + 6], c[p + 7]];
    }
  }

  lemma HexOrNot(h: Bytes)
    requires |h| == 4
    ensures (forall b | b in h :: IsHex(b)) <==> (forall k | 0 <= k < 4 :: IsHex(h[k]))
    ensures !(forall b | b in h :: IsHex(b)) ==> Hex4(h) == 0
  {
  }
}
