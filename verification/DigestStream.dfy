/** md5_hexdigest and sha256_hexdigest: reading a file 64 bytes at a time and padding the last block.
    The two functions differ only in the initial state, the block function and the byte order. */
module DigestStream {
  import opened Texts
  import opened DigestPadding
  import opened DigestBlocks

  const MD5_INITIAL: seq<Word> := [0x67452301, 0xefcdab89, 0x98badcfe, 0x10325476]
  const SHA_INITIAL: seq<Word> := [0x6a09e667, 0xbb67ae85, 0x3c6ef372, 0xa54ff53a,
                                   0x510e527f, 0x9b05688c, 0x1f83d9ab, 0x5be0cd19]

  function Initial(alg: Algorithm): (s: seq<Word>)
    ensures |s| == Size(alg)
  {
    if alg.MD5? then MD5_INITIAL else SHA_INITIAL
  }

  function Size(alg: Algorithm): nat {
    if alg.MD5? then 4 else 8
  }

  function Compress(alg: Algorithm): BlockFunction {
    (s: seq<Word>, b: seq<Byte>) =>
      if |s| == Size(alg) && |b| == 64 then (if alg.MD5? then Md5Block(s, b) else ShaBlock(s, b)) else s
  }

  // The digest by its standard: the block function folded over the padded message.
  function Standard(alg: Algorithm, m: seq<Byte>): (s: seq<Word>)
    ensures |s| == Size(alg)
  {
    FoldSize(alg, Initial(alg), Pad(alg, m));
    Fold(Compress(alg), Initial(alg), Pad(alg, m))
  }

  lemma {:induction false} FoldSize(alg: Algorithm, s: seq<Word>, m: seq<Byte>)
    requires |s| == Size(alg)
    ensures |Fold(Compress(alg), s, m)| == Size(alg)
    decreases |m|
  {
    hide Md5Block, ShaBlock;
    if |m| >= 64 {
      FoldSize(alg, Compress(alg)(s, m[..64]), m[64..]);
    }
  }

  const TWO64: int := 0x1_0000_0000_0000_0000

  // The number of bits of n bytes, in the 64 bits of the code's counter.
  function BitCount(n: nat): nat {
    8 * n % TWO64
  }

  // The bytes of the padded message from the last whole block on.
  function Tail(alg: Algorithm, m: seq<Byte>, pos: nat): seq<Byte>
    requires pos <= |m|
  {
    m[pos..] + [0x80] + Zeros(ZeroCount(|m|)) + LengthBytes(alg, |m|)
  }

  lemma PadSplits(alg: Algorithm, m: seq<Byte>, pos: nat)
    requires pos <= |m|
    ensures Pad(alg, m) == m[..pos] + Tail(alg, m, pos)
  {
    assert m == m[..pos] + m[pos..];
  }

  method BlockInPlace(alg: Algorithm, s: array<Word>, b: array<Byte>)
    requires s.Length == Size(alg) && b.Length == 64
    modifies s
    ensures s[..] == Compress(alg)(old(s[..]), old(b[..]))
  {
    hide Md5Block, ShaBlock;
    if alg.MD5? {
      Md5BlockInPlace(s, b);
    } else {
      Sha256BlockInPlace(s, b);
    }
  }

  // fread(buf, 1, 64, fp): fewer than 64 bytes only at the end of the file.
  method Read(file: seq<Byte>, pos: nat, buf: array<Byte>) returns (n: nat)
    requires pos <= |file| && buf.Length == 64
    modifies buf
    ensures n == if |file| - pos < 64 then |file| - pos else 64
    ensures buf[..n] == file[pos..pos + n]
  {
    n := if |file| - pos < 64 then |file| - pos else 64;
    for k := 0 to n
      invariant buf[..k] == file[pos..pos + k]
    {
      buf[k] := file[pos + k];
    }
  }

  method FillZeros(buf: array<Byte>, n: nat, end: nat)
    requires n <= end <= 64 == buf.Length
    modifies buf
    ensures buf[..end] == old(buf[..n]) + Zeros(end - n)
  {
    var k := n;
    while k < end
      invariant n <= k <= end
      invariant buf[..n] == old(buf[..n]) && forall j | n <= j < k :: buf[j] == 0
    {
      buf[k] := 0;
      k := k + 1;
    }
    assert buf[..end] == buf[..n] + buf[n..end];
  }

  method StoreLength(alg: Algorithm, buf: array<Byte>, bits: nat)
    requires buf.Length == 64
    modifies buf
    ensures buf[..] == old(buf[..56]) + LengthField(alg, bits)
  {
    hide ByteOf;
    ghost var field := LengthField(alg, bits);
    for i := 0 to 8
      invariant buf[..56] == old(buf[..56]) && buf[56..56 + i] == field[..i]
    {
      buf[56 + i] := ByteOf(bits, if alg.MD5? then i else 7 - i);
      assert field[..i + 1] == field[..i] + [field[i]];
      assert buf[56..56 + (i + 1)] == buf[56..56 + i] + [buf[56 + i]];
    }
    assert buf[..] == buf[..56] + buf[56..56 + 8];
  }

  // What the last one or two blocks hold.
  lemma TailBlocks(alg: Algorithm, m: seq<Byte>, pos: nat)
    requires pos <= |m| && pos % 64 == 0 && |m| - pos < 64
    ensures var rest := m[pos..] + [0x80];
            Tail(alg, m, pos) == if |rest| <= 56 then rest + Zeros(56 - |rest|) + LengthBytes(alg, |m|)
                                 else (rest + Zeros(64 - |rest|)) + (Zeros(56) + LengthBytes(alg, |m|))
  {
    hide LengthBytes;
    var n := |m| - pos + 1;
    if n <= 56 {
      assert ZeroCount(|m|) == 56 - n;
    } else {
      assert ZeroCount(|m|) == (64 - n) + 56;
      hide ZeroCount;
      assert Zeros(64 - n + 56) == Zeros(64 - n) + Zeros(56);
    }
  }

  method LastBlock(alg: Algorithm, s: array<Word>, buf: array<Byte>, n: nat, bits: nat)
    requires s.Length == Size(alg) && buf.Length == 64 && n <= 56
    modifies s, buf
    ensures s[..] == Compress(alg)(old(s[..]), old(buf[..n]) + Zeros(56 - n) + LengthField(alg, bits))
  {
    hide Compress, LengthField;
    ghost var start := s[..];
    FillZeros(buf, n, 56);
    StoreLength(alg, buf, bits);
    assert s[..] == start;
    BlockInPlace(alg, s, buf);
  }

  // The mark and the length do not fit together: a block of the message's end and zeros goes first.
  method FullBlock(alg: Algorithm, s: array<Word>, buf: array<Byte>, n: nat)
    requires s.Length == Size(alg) && n <= 64 == buf.Length
    modifies s, buf
    ensures s[..] == Compress(alg)(old(s[..]), old(buf[..n]) + Zeros(64 - n))
  {
    hide Compress;
    ghost var start := s[..];
    FillZeros(buf, n, 64);
    assert s[..] == start && buf[..] == buf[..64];
    BlockInPlace(alg, s, buf);
  }

  // The effect of the last one or two blocks on the state; the buffer holds the end of the file and the mark.
  function Last(alg: Algorithm, s: seq<Word>, held: seq<Byte>, bits: nat): seq<Word>
    requires |held| <= 64
  {
    var f := Compress(alg);
    if |held| > 56 then f(f(s, held + Zeros(64 - |held|)), Zeros(56) + LengthField(alg, bits))
    else f(s, held + Zeros(56 - |held|) + LengthField(alg, bits))
  }

  lemma LastIsFold(alg: Algorithm, s: seq<Word>, m: seq<Byte>, pos: nat)
    requires pos <= |m| && pos % 64 == 0 && |m| - pos < 64
    ensures Last(alg, s, m[pos..] + [0x80], 8 * |m| % TWO64) == Fold(Compress(alg), s, Tail(alg, m, pos))
  {
    hide Compress, Last, Fold, Tail, Zeros, LengthField;
    var bits := 8 * |m| % TWO64;
    assert LengthBytes(alg, |m|) == LengthField(alg, bits);
    hide LengthBytes;
    TailBlocks(alg, m, pos);
    LastFolds(alg, s, m[pos..] + [0x80], bits);
  }

  lemma LastFolds(alg: Algorithm, s: seq<Word>, held: seq<Byte>, bits: nat)
    requires |held| <= 64
    ensures Last(alg, s, held, bits) == Fold(Compress(alg), s,
              if |held| <= 56 then held + Zeros(56 - |held|) + LengthField(alg, bits)
              else (held + Zeros(64 - |held|)) + (Zeros(56) + LengthField(alg, bits)))
  {
    hide Compress, LengthField, Fold;
    if |held| > 56 {
      FoldTwo(Compress(alg), s, held + Zeros(64 - |held|), Zeros(56) + LengthField(alg, bits));
    } else {
      FoldOne(Compress(alg), s, held + Zeros(56 - |held|) + LengthField(alg, bits));
    }
  }

  method LastBlocks(alg: Algorithm, s: array<Word>, buf: array<Byte>, count: nat, bits: nat)
    requires s.Length == Size(alg) && count <= 64 == buf.Length
    modifies s, buf
    ensures s[..] == Last(alg, old(s[..]), old(buf[..count]), bits)
  {
    hide Compress, LengthField;
    var n := count;
    if n > 56 {
      FullBlock(alg, s, buf, n);
      n := 0;
      assert buf[..n] + Zeros(56 - n) == Zeros(56);
    }
    LastBlock(alg, s, buf, n, bits);
  }

  /** The rest of the file is in the buffer; it is marked, padded and folded in. */
  method Finish(alg: Algorithm, ghost m: seq<Byte>, ghost pos: nat, s: array<Word>, buf: array<Byte>, rest: nat,
      bits: nat)
    requires s.Length == Size(alg) && buf.Length == 64
    requires pos <= |m| && pos % 64 == 0 && rest == |m| - pos < 64 && bits == BitCount(|m|)
    requires buf[..rest] == m[pos..]
    modifies s, buf
    ensures s[..] == Fold(Compress(alg), old(s[..]), Tail(alg, m, pos))
  {
    hide Compress, Fold, Last, Tail;
    ghost var start := s[..];
    buf[rest] := 0x80;
    assert buf[..rest + 1] == m[pos..] + [0x80];
    assert s[..] == start;
    LastIsFold(alg, start, m, pos);
    LastBlocks(alg, s, buf, rest + 1, bits);
  }

  lemma FoldTwo(f: BlockFunction, s: seq<Word>, m: seq<Byte>, n: seq<Byte>)
    requires |m| == |n| == 64
    ensures Fold(f, s, m + n) == f(f(s, m), n)
  {
    FoldJoin(f, s, m, n);
    FoldOne(f, s, m);
    FoldOne(f, f(s, m), n);
  }

  // One more whole block.
  lemma FoldNext(f: BlockFunction, s: seq<Word>, m: seq<Byte>, pos: nat)
    requires pos + 64 <= |m| && pos % 64 == 0
    ensures Fold(f, s, m[..pos + 64]) == f(Fold(f, s, m[..pos]), m[pos..pos + 64])
  {
    assert m[..pos + 64] == m[..pos] + m[pos..pos + 64];
    FoldJoin(f, s, m[..pos], m[pos..pos + 64]);
    FoldOne(f, Fold(f, s, m[..pos]), m[pos..pos + 64]);
  }

  lemma NoBits()
    ensures BitCount(0) == 0
  {
  }

  lemma CountOn(pos: nat, n: nat)
    ensures (BitCount(pos) + n * 8) % TWO64 == BitCount(pos + n)
  {
  }

  /** The state after the whole file is the standard's digest of its bytes. */
  method Digest(alg: Algorithm, file: seq<Byte>) returns (s: array<Word>)
    ensures fresh(s) && s[..] == Standard(alg, file)
  {
    hide Compress, Fold, Initial, Tail, Pad, BitCount;
    NoBits();
    ghost var f := Compress(alg);
    var init := Initial(alg);
    s := new Word[Size(alg)](i requires 0 <= i < Size(alg) => init[i]);
    assert s[..] == init;
    var bits := 0;
    var buf := new Byte[64](_ => 0);
    var pos := 0;
    FoldNone(f, init);
    assert file[..0] == [];
    var n := Read(file, pos, buf);
    while n == 64
      invariant pos <= |file| && pos % 64 == 0 && bits == BitCount(pos)
      invariant n == if |file| - pos < 64 then |file| - pos else 64
      invariant buf[..n] == file[pos..pos + n]
      invariant s[..] == Fold(f, init, file[..pos])
      decreases |file| - pos
    {
      FoldNext(f, init, file, pos);
      assert buf[..] == file[pos..pos + 64];
      BlockInPlace(alg, s, buf);
      CountOn(pos, 64);
      bits := (bits + 512) % TWO64;
      ghost var state := s[..];
      pos := pos + 64;
      n := Read(file, pos, buf);
      assert s[..] == state;
    }
    CountOn(pos, n);
    bits := (bits + n * 8) % TWO64;
    PadSplits(alg, file, pos);
    FoldJoin(f, init, file[..pos], Tail(alg, file, pos));
    assert file[pos..] == file[pos..pos + n];
    Finish(alg, file, pos, s, buf, n, bits);
  }

  lemma FoldNone(f: BlockFunction, s: seq<Word>)
    ensures Fold(f, s, []) == s
  {
  }

  // ----- The printed digest -----

  function HexDigit(d: Word): char
    requires d < 16
  {
    "0123456789abcdef"[d as int]
  }

  lemma HexDigitIsInjective(d: Word, e: Word)
    requires d < 16 && e < 16 && HexDigit(d) == HexDigit(e)
    ensures d == e
  {
    DistinctDigits(d as int, e as int);
    assert (d as int) as Word == d && (e as int) as Word == e;
  }

  lemma DistinctDigits(d: nat, e: nat)
    requires d < 16 && e < 16 && "0123456789abcdef"[d] == "0123456789abcdef"[e]
    ensures d == e
  {
  }

  // Digit k of a word's eight: bytes low first for MD5 and high first for SHA-256, each high digit first.
  function DigitOf(alg: Algorithm, w: Word, k: nat): (d: Word)
    requires k < 8
    ensures d < 16
  {
    Nibble(w, Place(alg, k))
  }

  function Place(alg: Algorithm, k: nat): (p: nat)
    requires k < 8
    ensures p < 8
  {
    if alg.SHA256? then 7 - k else if k % 2 == 0 then k + 1 else k - 1
  }

  function Nibble(w: Word, p: nat): (d: Word)
    requires p < 8
    ensures d < 16
  {
    (if p == 0 then w else if p == 1 then w >> 4 else if p == 2 then w >> 8 else if p == 3 then w >> 12
     else if p == 4 then w >> 16 else if p == 5 then w >> 20 else if p == 6 then w >> 24 else w >> 28) & 0xf
  }

  function HexWord(alg: Algorithm, w: Word): (t: string)
    ensures |t| == 8
  {
    seq(8, k requires 0 <= k < 8 => HexDigit(DigitOf(alg, w, k)))
  }

  function Hex(alg: Algorithm, s: seq<Word>): (t: string)
    ensures |t| == 8 * |s|
  {
    if s == [] then "" else Hex(alg, s[..|s| - 1]) + HexWord(alg, s[|s| - 1])
  }

  // A byte in hexadecimal, high digit first.
  function ByteText(b: Word): string
    requires b < 256
  {
    [HexDigit(b >> 4), HexDigit(b & 0xf)]
  }

  lemma LowNibbles(p: Word, q: Word, r: Word, t: Word)
    requires p < 256 && q < 256 && r < 256 && t < 256
    ensures var w := LowFirst(p, q, r, t);
            Nibble(w, 0) == p & 0xf && Nibble(w, 1) == p >> 4 && Nibble(w, 2) == q & 0xf && Nibble(w, 3) == q >> 4
  {
  }

  lemma HighNibbles(p: Word, q: Word, r: Word, t: Word)
    requires p < 256 && q < 256 && r < 256 && t < 256
    ensures var w := LowFirst(p, q, r, t);
            Nibble(w, 4) == r & 0xf && Nibble(w, 5) == r >> 4 && Nibble(w, 6) == t & 0xf && Nibble(w, 7) == t >> 4
  {
  }

  lemma OtherOrder(p: Word, q: Word, r: Word, t: Word)
    ensures HighFirst(t, r, q, p) == LowFirst(p, q, r, t)
  {
  }

  /** A word is shown as its four bytes in hexadecimal, low byte first for MD5 and high byte first for
      SHA-256. */
  lemma HexWordIs(alg: Algorithm, p: Word, q: Word, r: Word, t: Word)
    requires p < 256 && q < 256 && r < 256 && t < 256
    ensures HexWord(alg, if alg.MD5? then LowFirst(p, q, r, t) else HighFirst(p, q, r, t))
            == ByteText(p) + ByteText(q) + ByteText(r) + ByteText(t)
  {
    hide LowFirst, HighFirst, Nibble, HexDigit;
    if alg.MD5? {
      LowNibbles(p, q, r, t);
      HighNibbles(p, q, r, t);
    } else {
      OtherOrder(t, r, q, p);
      LowNibbles(t, r, q, p);
      HighNibbles(t, r, q, p);
    }
  }

  lemma EqualNibbles(w: Word, v: Word)
    requires forall p | 0 <= p < 8 :: Nibble(w, p) == Nibble(v, p)
    ensures w == v
  {
    assert Nibble(w, 0) == Nibble(v, 0) && Nibble(w, 1) == Nibble(v, 1);
    assert Nibble(w, 2) == Nibble(v, 2) && Nibble(w, 3) == Nibble(v, 3);
    assert Nibble(w, 4) == Nibble(v, 4) && Nibble(w, 5) == Nibble(v, 5);
    assert Nibble(w, 6) == Nibble(v, 6) && Nibble(w, 7) == Nibble(v, 7);
  }

  lemma HexWordIsInjective(alg: Algorithm, w: Word, v: Word)
    requires HexWord(alg, w) == HexWord(alg, v)
    ensures w == v
  {
    hide HexDigit, Nibble;
    forall k | 0 <= k < 8 ensures DigitOf(alg, w, k) == DigitOf(alg, v, k) {
      assert HexWord(alg, w)[k] == HexWord(alg, v)[k];
      HexDigitIsInjective(DigitOf(alg, w, k), DigitOf(alg, v, k));
    }
    forall p | 0 <= p < 8 ensures Nibble(w, p) == Nibble(v, p) {
      var k := Place(alg, p);
      assert DigitOf(alg, w, k) == DigitOf(alg, v, k);
    }
    EqualNibbles(w, v);
  }

  /** The text shows the whole state: equal digests in hexadecimal are equal digests. */
  lemma {:induction false} HexIsInjective(alg: Algorithm, s: seq<Word>, t: seq<Word>)
    requires |s| == |t| && Hex(alg, s) == Hex(alg, t)
    ensures s == t
  {
    if s != [] {
      var n := |s| - 1;
      var p, q := Hex(alg, s[..n]), Hex(alg, t[..n]);
      hide HexWord;
      assert Hex(alg, s)[..8 * n] == p && Hex(alg, t)[..8 * n] == q;
      assert Hex(alg, s)[8 * n..] == HexWord(alg, s[n]) && Hex(alg, t)[8 * n..] == HexWord(alg, t[n]);
      HexIsInjective(alg, s[..n], t[..n]);
      HexWordIsInjective(alg, s[n], t[n]);
      assert s == s[..n] + [s[n]] && t == t[..n] + [t[n]];
    }
  }

  /** The string that md5_hexdigest (32 digits) and sha256_hexdigest (64 digits) return. */
  method HexDigest(alg: Algorithm, file: seq<Byte>) returns (hex: string)
    ensures hex == Hex(alg, Standard(alg, file)) && |hex| == 8 * Size(alg)
  {
    hide Standard, HexWord;
    var s := Digest(alg, file);
    hex := "";
    for i := 0 to s.Length
      invariant hex == Hex(alg, s[..i])
    {
      assert s[..i + 1][..i] == s[..i];
      hex := hex + HexWord(alg, s[i]);
    }
    assert s[..s.Length] == s[..];
  }
}
