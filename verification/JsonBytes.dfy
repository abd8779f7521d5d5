/** Bytes, and the Unicode encodings that JSON strings need: UTF-8 (section 3 of RFC 3629) and
    UTF-16 (section 2 of RFC 2781). Shifts and masks of the source are divisions by powers of two
    here, and a bitwise or of fields that do not overlap is their sum. */
module JsonBytes {
  import opened Texts
  import opened Wrappers

  type Bytes = seq<Byte>

  const QUOTE: Byte := 34
  const BACKSLASH: Byte := 92

  // ----- UTF-8 -----

  // 10xxxxxx with the low six bits of x.
  function Tail6(x: int): (b: Byte)
    ensures IsTail(b)
  {
    var low := x % 0x40;
    0x80 + low
  }

  // The encoding loop of utf16_literal_to_utf8: low six bits last, the mark on the first byte.
  function Utf8(cp: int): (r: Bytes)
    requires 0 <= cp <= 0x10FFFF
    ensures |r| == Utf8Length(cp)
  {
    var q1, q2, q3 := cp / 0x40, cp / 0x1000, cp / 0x40000;
    if cp < 0x80 then [cp]
    else if cp < 0x800 then [0xC0 + q1, Tail6(cp)]
    else if cp < 0x10000 then [0xE0 + q2, Tail6(q1), Tail6(cp)]
    else [0xF0 + q3, Tail6(q2), Tail6(q1), Tail6(cp)]
  }

  // The shortest form.
  function Utf8Length(cp: int): nat {
    if cp < 0x80 then 1 else if cp < 0x800 then 2 else if cp < 0x10000 then 3 else 4
  }

  predicate IsTail(b: int) { 0x80 <= b < 0xC0 }

  predicate Scalar(cp: int) { 0 <= cp < 0xD800 || 0xE000 <= cp <= 0x10FFFF }

  /** A strict decoder of one character: shortest form only, and no surrogates. */
  function Utf8Decode(s: Bytes): Option<int> {
    if |s| == 1 then Check(s[0] < 0x80, s[0], 1)
    else if |s| == 2 then
      Check(0xC0 <= s[0] < 0xE0 && IsTail(s[1]), Join2(Bits(s[0], 0xC0), Bits(s[1], 0x80)), 2)
    else if |s| == 3 then
      Check(0xE0 <= s[0] < 0xF0 && IsTail(s[1]) && IsTail(s[2]),
            Join2(Join2(Bits(s[0], 0xE0), Bits(s[1], 0x80)), Bits(s[2], 0x80)), 3)
    else if |s| == 4 then
      Check(0xF0 <= s[0] < 0xF8 && IsTail(s[1]) && IsTail(s[2]) && IsTail(s[3]),
            Join2(Join2(Join2(Bits(s[0], 0xF0), Bits(s[1], 0x80)), Bits(s[2], 0x80)), Bits(s[3], 0x80)), 4)
    else None
  }

  // A byte without its mark.
  function Bits(b: int, mark: int): int {
    b - mark
  }

  function Join2(high: int, low: int): int {
    high * 0x40 + low
  }

  function Check(form: bool, cp: int, length: nat): Option<int> {
    if form && Scalar(cp) && Utf8Length(cp) == length then Some(cp) else None
  }

  lemma Fields(cp: int)
    requires cp >= 0
    ensures cp == Join2(cp / 0x40, cp % 0x40)
    ensures cp / 0x40 == Join2(cp / 0x1000, cp / 0x40 % 0x40)
    ensures cp / 0x1000 == Join2(cp / 0x40000, cp / 0x1000 % 0x40)
  {
    assert cp / 0x40 / 0x40 == cp / 0x1000;
    assert cp / 0x1000 / 0x40 == cp / 0x40000;
  }

  lemma FieldsUnique(high: int, low: int)
    requires 0 <= low < 0x40
    ensures Join2(high, low) / 0x40 == high && Join2(high, low) % 0x40 == low
  {
  }

  // The decoder on each length, with the marks taken off.
  lemma DecodeTwo(x: int, y: int)
    requires 0 <= x < 0x20 && 0 <= y < 0x40
    ensures Utf8Decode([0xC0 + x, 0x80 + y]) == Check(true, Join2(x, y), 2)
  {
    hide Check, Join2;
  }

  lemma DecodeThree(x: int, y: int, z: int)
    requires 0 <= x < 0x10 && 0 <= y < 0x40 && 0 <= z < 0x40
    ensures Utf8Decode([0xE0 + x, 0x80 + y, 0x80 + z]) == Check(true, Join2(Join2(x, y), z), 3)
  {
    hide Check, Join2;
  }

  lemma DecodeFour(x: int, y: int, z: int, w: int)
    requires 0 <= x < 8 && 0 <= y < 0x40 && 0 <= z < 0x40 && 0 <= w < 0x40
    ensures Utf8Decode([0xF0 + x, 0x80 + y, 0x80 + z, 0x80 + w]) == Check(true, Join2(Join2(Join2(x, y), z), w), 4)
  {
    hide Check, Join2;
  }

  // The encoder, field by field.
  lemma EncodeIs(cp: int)
    requires 0 <= cp <= 0x10FFFF
    ensures 0x80 <= cp < 0x800 ==> Utf8(cp) == [0xC0 + cp / 0x40, 0x80 + cp % 0x40]
    ensures 0x800 <= cp < 0x10000 ==> Utf8(cp) == [0xE0 + cp / 0x1000, 0x80 + cp / 0x40 % 0x40, 0x80 + cp % 0x40]
    ensures cp >= 0x10000 ==>
      Utf8(cp) == [0xF0 + cp / 0x40000, 0x80 + cp / 0x1000 % 0x40, 0x80 + cp / 0x40 % 0x40, 0x80 + cp % 0x40]
  {
  }

  // Encoding and strict decoding are inverse, both ways.
  lemma Utf8RoundTrip(cp: int)
    requires Scalar(cp)
    ensures Utf8Decode(Utf8(cp)) == Some(cp)
  {
    if cp >= 0x80 {
      hide Utf8, Utf8Decode, Join2;
      Fields(cp);
      EncodeIs(cp);
      if cp < 0x800 {
        DecodeTwo(cp / 0x40, cp % 0x40);
      } else if cp < 0x10000 {
        DecodeThree(cp / 0x1000, cp / 0x40 % 0x40, cp % 0x40);
      } else {
        DecodeFour(cp / 0x40000, cp / 0x1000 % 0x40, cp / 0x40 % 0x40, cp % 0x40);
      }
    }
  }

  lemma Utf8Unique(s: Bytes)
    requires Utf8Decode(s).Some?
    ensures Utf8(Utf8Decode(s).value) == s
  {
    if |s| == 2 {
      UniqueTwo(s[0] - 0xC0, s[1] - 0x80);
    } else if |s| == 3 {
      UniqueThree(s[0] - 0xE0, s[1] - 0x80, s[2] - 0x80);
    } else if |s| == 4 {
      UniqueFour(s[0] - 0xF0, s[1] - 0x80, s[2] - 0x80, s[3] - 0x80);
    }
    hide Join2, Utf8Length, Tail6;
    if |s| > 1 {
      hide Utf8;
    }
  }

  lemma UniqueTwo(x: int, y: int)
    requires 0 <= x < 0x20 && 0 <= y < 0x40 && Join2(x, y) >= 0x80
    ensures Join2(x, y) < 0x800 && Utf8(Join2(x, y)) == [0xC0 + x, 0x80 + y]
  {
    FieldsUnique(x, y);
  }

  lemma UniqueThree(x: int, y: int, z: int)
    requires 0 <= x < 0x10 && 0 <= y < 0x40 && 0 <= z < 0x40 && Join2(Join2(x, y), z) >= 0x800
    ensures var cp := Join2(Join2(x, y), z); cp < 0x10000 && Utf8(cp) == [0xE0 + x, 0x80 + y, 0x80 + z]
  {
    FieldsUnique(x, y);
    FieldsUnique(Join2(x, y), z);
    var cp := Join2(Join2(x, y), z);
    assert cp / 0x1000 == cp / 0x40 / 0x40;
  }

  lemma UniqueFour(x: int, y: int, z: int, w: int)
    requires 0 <= x < 8 && 0 <= y < 0x40 && 0 <= z < 0x40 && 0 <= w < 0x40
    requires 0x10000 <= Join2(Join2(Join2(x, y), z), w) <= 0x10FFFF
    ensures Utf8(Join2(Join2(Join2(x, y), z), w)) == [0xF0 + x, 0x80 + y, 0x80 + z, 0x80 + w]
  {
    var g, h := Join2(x, y), Join2(Join2(x, y), z);
    var cp := Join2(h, w);
    FieldsUnique(x, y);
    FieldsUnique(g, z);
    FieldsUnique(h, w);
    assert cp / 0x1000 == cp / 0x40 / 0x40 && cp / 0x40000 == cp / 0x1000 / 0x40;
    hide Join2;
  }

  // ----- UTF-16 -----

  predicate High(w: int) { 0xD800 <= w <= 0xDBFF }
  predicate Low(w: int) { 0xDC00 <= w <= 0xDFFF }

  function Utf16(cp: int): seq<int>
    requires Scalar(cp)
  {
    if cp < 0x10000 then [cp]
    else [0xD800 + (cp - 0x10000) / 0x400, 0xDC00 + (cp - 0x10000) % 0x400]
  }

  // The code point of a surrogate pair.
  function Combine(w1: int, w2: int): (cp: int)
    ensures 0x10000 <= cp <= 0x10FFFF
  {
    0x10000 + w1 % 0x400 * 0x400 + w2 % 0x400
  }

  lemma PairRoundTrip(cp: int)
    requires Scalar(cp) && cp >= 0x10000
    ensures High(Utf16(cp)[0]) && Low(Utf16(cp)[1]) && Combine(Utf16(cp)[0], Utf16(cp)[1]) == cp
  {
    var u := cp - 0x10000;
    assert 0 <= u / 0x400 < 0x400;
    assert (0xD800 + u / 0x400) % 0x400 == u / 0x400;
    assert (0xDC00 + u % 0x400) % 0x400 == u % 0x400;
  }

  // ----- Hexadecimal -----

  predicate IsHex(b: Byte) { 48 <= b <= 57 || 65 <= b <= 70 || 97 <= b <= 102 }

  function HexValue(b: Byte): (v: int)
    requires IsHex(b)
    ensures 0 <= v < 16
  {
    if b <= 57 then b - 48 else if b <= 70 then b - 55 else b - 87
  }

  // parse_hex4 returns 0 when any of the four is not a hexadecimal digit.
  function Hex4(s: Bytes): (h: int)
    requires |s| == 4
    ensures 0 <= h < 0x10000
  {
    if forall k | 0 <= k < 4 :: IsHex(s[k]) then
      HexValue(s[0]) * 0x1000 + HexValue(s[1]) * 0x100 + HexValue(s[2]) * 0x10 + HexValue(s[3])
    else 0
  }

  method ParseHex4(s: Bytes) returns (h: int)
    requires |s| == 4
    ensures h == Hex4(s)
  {
    h := 0;
    var i := 0;
    while i < 4
      invariant 0 <= i <= 4
      invariant forall k | 0 <= k < i :: IsHex(s[k])
      invariant i == 0 ==> h == 0
      invariant i == 1 ==> h == HexValue(s[0]) * 0x10
      invariant i == 2 ==> h == HexValue(s[0]) * 0x100 + HexValue(s[1]) * 0x10
      invariant i == 3 ==> h == HexValue(s[0]) * 0x1000 + HexValue(s[1]) * 0x100 + HexValue(s[2]) * 0x10
      invariant i == 4 ==> h == Hex4(s)
    {
      if !IsHex(s[i]) { return 0; }
      h := h + HexValue(s[i]);
      if i < 3 { h := h * 0x10; }
      i := i + 1;
    }
  }
}
