/** The block functions of hash_utils.c, in place over arrays, against their standards: section 3.4
    of RFC 1321 for MD5 and section 6.2.2 of FIPS 180-4 for SHA-256. */
module DigestBlocks {
  import opened Texts
  import opened DigestPadding

  // Addition modulo 2^32.
  function Add(x: Word, y: Word): Word {
    x + y
  }

  function Rotl(x: Word, n: nat): Word
    requires n <= 32
  {
    (x << n) | (x >> (32 - n))
  }

  /** The shift-and-or of the code is a circular shift, by each of the amounts that MD5 uses. */
  lemma RotlIsCircular(x: Word)
    ensures Rotl(x, 7) == x.RotateLeft(7) && Rotl(x, 12) == x.RotateLeft(12)
    ensures Rotl(x, 17) == x.RotateLeft(17) && Rotl(x, 22) == x.RotateLeft(22)
    ensures Rotl(x, 5) == x.RotateLeft(5) && Rotl(x, 9) == x.RotateLeft(9)
    ensures Rotl(x, 14) == x.RotateLeft(14) && Rotl(x, 20) == x.RotateLeft(20)
    ensures Rotl(x, 4) == x.RotateLeft(4) && Rotl(x, 11) == x.RotateLeft(11)
    ensures Rotl(x, 16) == x.RotateLeft(16) && Rotl(x, 23) == x.RotateLeft(23)
    ensures Rotl(x, 6) == x.RotateLeft(6) && Rotl(x, 10) == x.RotateLeft(10)
    ensures Rotl(x, 15) == x.RotateLeft(15) && Rotl(x, 21) == x.RotateLeft(21)
  {
  }

  // ----- MD5 -----

  const MD5_TABLE: seq<Word> := [
    0xd76aa478, 0xe8c7b756, 0x242070db, 0xc1bdceee, 0xf57c0faf, 0x4787c62a, 0xa8304613, 0xfd469501,
    0x698098d8, 0x8b44f7af, 0xffff5bb1, 0x895cd7be, 0x6b901122, 0xfd987193, 0xa679438e, 0x49b40821,
    0xf61e2562, 0xc040b340, 0x265e5a51, 0xe9b6c7aa, 0xd62f105d, 0x02441453, 0xd8a1e681, 0xe7d3fbc8,
    0x21e1cde6, 0xc33707d6, 0xf4d50d87, 0x455a14ed, 0xa9e3e905, 0xfcefa3f8, 0x676f02d9, 0x8d2a4c8a,
    0xfffa3942, 0x8771f681, 0x6d9d6122, 0xfde5380c, 0xa4beea44, 0x4bdecfa9, 0xf6bb4b60, 0xbebfbc70,
    0x289b7ec6, 0xeaa127fa, 0xd4ef3085, 0x04881d05, 0xd9d4d039, 0xe6db99e5, 0x1fa27cf8, 0xc4ac5665,
    0xf4292244, 0x432aff97, 0xab9423a7, 0xfc93a039, 0x655b59c3, 0x8f0ccc92, 0xffeff47d, 0x85845dd1,
    0x6fa87e4f, 0xfe2ce6e0, 0xa3014314, 0x4e0811a1, 0xf7537e82, 0xbd3af235, 0x2ad7d2bb, 0xeb86d391]

  function Md5K(i: nat): Word
    requires i < 64
  {
    MD5_TABLE[i]
  }

  // Shift amounts, four for each round, used in turn.
  function Shift(i: nat): (n: nat)
    requires i < 64
    ensures 0 < n < 32
  {
    var rows := if i < 16 then [7, 12, 17, 22] else if i < 32 then [5, 9, 14, 20]
                else if i < 48 then [4, 11, 16, 23] else [6, 10, 15, 21];
    rows[i % 4]
  }

  // Four bytes as a word, low byte first for MD5 and high byte first for SHA-256.
  function LittleWord(b: seq<Byte>, i: nat): Word
    requires 4 * i + 4 <= |b|
  {
    LowFirst(b[4 * i] as Word, b[4 * i + 1] as Word, b[4 * i + 2] as Word, b[4 * i + 3] as Word)
  }

  function LowFirst(p: Word, q: Word, r: Word, t: Word): Word {
    p | (q << 8) | (r << 16) | (t << 24)
  }

  function HighFirst(p: Word, q: Word, r: Word, t: Word): Word {
    (p << 24) | (q << 16) | (r << 8) | t
  }

  // The bytes stand in the word in their order.
  lemma LowFirstHolds(p: Word, q: Word, r: Word, t: Word)
    requires p < 256 && q < 256 && r < 256 && t < 256
    ensures var w := LowFirst(p, q, r, t);
            w & 0xff == p && (w >> 8) & 0xff == q && (w >> 16) & 0xff == r && w >> 24 == t
  {
  }

  lemma HighFirstHolds(p: Word, q: Word, r: Word, t: Word)
    requires p < 256 && q < 256 && r < 256 && t < 256
    ensures var w := HighFirst(p, q, r, t);
            w >> 24 == p && (w >> 16) & 0xff == q && (w >> 8) & 0xff == r && w & 0xff == t
  {
  }

  // The auxiliary functions F, G, H and I of the four rounds.
  function Aux(i: nat, x: Word, y: Word, z: Word): Word {
    if i < 16 then (x & y) | (!x & z)
    else if i < 32 then (x & z) | (y & !z)
    else if i < 48 then x ^ y ^ z
    else y ^ (x | !z)
  }

  // y where x has ones, z where it has zeros.
  predicate Chooses(f: Word, x: Word, y: Word, z: Word) {
    Agree(x, f, y) && Agree(!x, f, z)
  }

  // Two words have the same bits where the mask has ones.
  predicate Agree(mask: Word, f: Word, g: Word) {
    mask & f == mask & g
  }

  lemma OrAgrees(x: Word, y: Word, z: Word)
    ensures Agree(x, (x & y) | (!x & z), y)
  {
  }

  lemma OrAgreesElsewhere(x: Word, y: Word, z: Word)
    ensures Agree(!x, (x & y) | (!x & z), z)
  {
  }

  lemma OrChooses(x: Word, y: Word, z: Word)
    ensures Chooses((x & y) | (!x & z), x, y, z)
  {
    hide Agree;
    OrAgrees(x, y, z);
    OrAgreesElsewhere(x, y, z);
  }

  lemma OrderOfOr(x: Word, y: Word)
    ensures x | y == y | x && x & y == y & x
  {
  }

  /** F and G choose between two words bit by bit, by x and by z. */
  lemma AuxChooses(x: Word, y: Word, z: Word, i: nat)
    ensures i < 16 ==> Chooses(Aux(i, x, y, z), x, y, z)
    ensures 16 <= i < 32 ==> Chooses(Aux(i, x, y, z), z, x, y)
  {
    OrChooses(x, y, z);
    OrChooses(z, x, y);
    OrderOfOr(x, z);
    OrderOfOr(y, !z);
    hide Chooses;
  }

  // Which word of the block an operation uses: steps of 1, 5, 3 and 7 from 0, 1, 5 and 0.
  function WordIndex(i: nat): (k: nat)
    ensures k < 16
  {
    if i < 16 then i else if i < 32 then (1 + 5 * (i - 16)) % 16
    else if i < 48 then (5 + 3 * (i - 32)) % 16 else 7 * (i - 48) % 16
  }

  // The register that operation i changes: A, D, C, B in turn.
  function Target(i: nat): (t: nat)
    ensures t < 4
  {
    if i % 4 == 0 then 0 else 4 - i % 4
  }

  // The register k places after t in the order A, B, C, D.
  function After(t: nat, k: nat): (r: nat)
    requires t < 4 && k < 4
    ensures r < 4
  {
    if t + k < 4 then t + k else t + k - 4
  }

  lemma NextTarget(i: nat)
    ensures Target(i + 1) == After(Target(i), 3)
  {
  }

  /** One operation [abcd k s i] of the standard on the registers A, B, C, D: each operation changes
      one register, the next operation the one before it. */
  function Md5Operation(r: seq<Word>, x: seq<Word>, i: nat): (r': seq<Word>)
    requires |r| == 4 && |x| == 16 && i < 64
    ensures |r'| == 4
  {
    var t := Target(i);
    var b, c, d := r[After(t, 1)], r[After(t, 2)], r[After(t, 3)];
    r[t := Add(b, Rotl(Add(Aux(i, b, c, d), Add(Add(r[t], Md5K(i)), x[WordIndex(i)])), Shift(i)))]
  }

  function Md5Operations(r: seq<Word>, x: seq<Word>, n: nat): (r': seq<Word>)
    requires |r| == 4 && |x| == 16 && n <= 64
    ensures |r'| == 4
  {
    if n == 0 then r else Md5Operation(Md5Operations(r, x, n - 1), x, n - 1)
  }

  function LittleWords(b: seq<Byte>): (x: seq<Word>)
    requires |b| == 64
    ensures |x| == 16
  {
    seq(16, i requires 0 <= i < 16 => LittleWord(b, i))
  }

  function Md5Block(s: seq<Word>, b: seq<Byte>): (s': seq<Word>)
    requires |s| == 4 && |b| == 64
    ensures |s'| == 4
  {
    var r := Md5Operations(s, LittleWords(b), 64);
    [Add(s[0], r[0]), Add(s[1], r[1]), Add(s[2], r[2]), Add(s[3], r[3])]
  }

  // ----- The loop of md5_block -----

  // After n operations the code's A is the register that operation n will change.
  ghost predicate Rotated(a: Word, b: Word, c: Word, d: Word, r: seq<Word>, n: nat)
    requires |r| == 4
  {
    var t := Target(n);
    a == r[t] && b == r[After(t, 1)] && c == r[After(t, 2)] && d == r[After(t, 3)]
  }

  function CodeAux(i: nat, b: Word, c: Word, d: Word): Word {
    if i < 16 then (b & c) | (!b & d)
    else if i < 32 then (d & b) | (!d & c)
    else if i < 48 then b ^ c ^ d
    else c ^ (b | !d)
  }

  lemma SameAux(i: nat, b: Word, c: Word, d: Word)
    ensures CodeAux(i, b, c, d) == Aux(i, b, c, d)
  {
  }

  function CodeIndex(i: nat): nat {
    if i < 16 then i else if i < 32 then (5 * i + 1) % 16 else if i < 48 then (3 * i + 5) % 16 else 7 * i % 16
  }

  lemma SameIndex(i: nat)
    requires i < 64
    ensures CodeIndex(i) == WordIndex(i)
  {
    if i < 16 {
    } else if i < 32 {
      Wrap(1 + 5 * (i - 16), 5);
    } else if i < 48 {
      Wrap(5 + 3 * (i - 32), 6);
    } else {
      Wrap(7 * (i - 48), 21);
    }
  }

  lemma Wrap(x: int, k: int)
    ensures (x + 16 * k) % 16 == x % 16
  {
  }

  // Four consecutive words of the state each take their share.
  method AddFour(s: array<Word>, from: nat, p: Word, q: Word, r: Word, t: Word)
    requires from + 4 <= s.Length
    modifies s
    ensures s[from] == Add(old(s[from]), p) && s[from + 1] == Add(old(s[from + 1]), q)
    ensures s[from + 2] == Add(old(s[from + 2]), r) && s[from + 3] == Add(old(s[from + 3]), t)
    ensures forall i | 0 <= i < s.Length && !(from <= i < from + 4) :: s[i] == old(s[i])
  {
    hide Add;
    s[from], s[from + 1], s[from + 2], s[from + 3] :=
      Add(s[from], p), Add(s[from + 1], q), Add(s[from + 2], r), Add(s[from + 3], t);
  }

  method Md5BlockInPlace(s: array<Word>, b: array<Byte>)
    requires s.Length == 4 && b.Length == 64
    modifies s
    ensures s[..] == Md5Block(old(s[..]), old(b[..]))
  {
    hide Add, Md5Operations, LittleWord;
    ghost var start, block := s[..], b[..];
    var m := new Word[16](_ => 0);
    for i := 0 to 16
      invariant b[..] == block && s[..] == start
      invariant forall k | 0 <= k < i :: m[k] == LittleWord(block, k)
    {
      m[i] := LittleWord(b[..], i);
    }
    assert m[..] == LittleWords(block);
    assert start == [s[0], s[1], s[2], s[3]];
    var A, B, C, D := Md5Rounds(m[..], s[0], s[1], s[2], s[3]);
    AddFour(s, 0, A, B, C, D);
    assert s[..] == Md5Block(start, block);
  }

  method Md5Rounds(m: seq<Word>, A0: Word, B0: Word, C0: Word, D0: Word) returns (A: Word, B: Word, C: Word, D: Word)
    requires |m| == 16
    ensures [A, B, C, D] == Md5Operations([A0, B0, C0, D0], m, 64)
  {
    hide Add, Rotl, CodeAux, CodeIndex, Md5K, Shift, Md5Operation;
    ghost var start := [A0, B0, C0, D0];
    A, B, C, D := A0, B0, C0, D0;
    for i := 0 to 64
      invariant Rotated(A, B, C, D, Md5Operations(start, m, i), i)
    {
      SameIndex(i);
      Step(A, B, C, D, Md5Operations(start, m, i), m, i);
      var f := Add(CodeAux(i, B, C, D), Add(Add(A, Md5K(i)), m[CodeIndex(i)]));
      A, D, C, B := D, C, B, Add(B, Rotl(f, Shift(i)));
    }
    ghost var r := Md5Operations(start, m, 64);
    assert r == [r[0], r[1], r[2], r[3]];
  }

  lemma Step(a: Word, b: Word, c: Word, d: Word, r: seq<Word>, m: seq<Word>, i: nat)
    requires |r| == 4 && |m| == 16 && i < 64 && Rotated(a, b, c, d, r, i)
    ensures CodeIndex(i) < 16
    ensures var f := Add(CodeAux(i, b, c, d), Add(Add(a, Md5K(i)), m[CodeIndex(i)]));
            Rotated(d, Add(b, Rotl(f, Shift(i))), b, c, Md5Operation(r, m, i), i + 1)
  {
    SameAux(i, b, c, d);
    SameIndex(i);
    hide Add, Rotl, CodeAux, CodeIndex, Aux, WordIndex, Md5K, Shift;
    NextTarget(i);
    var t := Target(i);
    assert After(After(t, 3), 1) == t && After(After(t, 3), 2) == After(t, 1) && After(After(t, 3), 3) == After(t, 2);
    hide Target;
  }

  // ----- SHA-256 -----

  // The round constants, in rows of eight.
  function ShaRow(r: nat): (row: seq<Word>)
    ensures |row| == 8
  {
    if r == 0 then [0x428a2f98, 0x71374491, 0xb5c0fbcf, 0xe9b5dba5, 0x3956c25b, 0x59f111f1, 0x923f82a4, 0xab1c5ed5]
    else if r == 1 then [0xd807aa98, 0x12835b01, 0x243185be, 0x550c7dc3, 0x72be5d74, 0x80deb1fe, 0x9bdc06a7, 0xc19bf174]
    else if r == 2 then [0xe49b69c1, 0xefbe4786, 0x0fc19dc6, 0x240ca1cc, 0x2de92c6f, 0x4a7484aa, 0x5cb0a9dc, 0x76f988da]
    else if r == 3 then [0x983e5152, 0xa831c66d, 0xb00327c8, 0xbf597fc7, 0xc6e00bf3, 0xd5a79147, 0x06ca6351, 0x14292967]
    else if r == 4 then [0x27b70a85, 0x2e1b2138, 0x4d2c6dfc, 0x53380d13, 0x650a7354, 0x766a0abb, 0x81c2c92e, 0x92722c85]
    else if r == 5 then [0xa2bfe8a1, 0xa81a664b, 0xc24b8b70, 0xc76c51a3, 0xd192e819, 0xd6990624, 0xf40e3585, 0x106aa070]
    else if r == 6 then [0x19a4c116, 0x1e376c08, 0x2748774c, 0x34b0bcb5, 0x391c0cb3, 0x4ed8aa4a, 0x5b9cca4f, 0x682e6ff3]
    else [0x748f82ee, 0x78a5636f, 0x84c87814, 0x8cc70208, 0x90befffa, 0xa4506ceb, 0xbef9a3f7, 0xc67178f2]
  }

  function ShaK(i: nat): Word
    requires i < 64
  {
    ShaRow(i / 8)[i % 8]
  }

  function Rotr(x: Word, n: nat): Word
    requires n <= 32
  {
    (x >> n) | (x << (32 - n))
  }

  function Ch(x: Word, y: Word, z: Word): Word { (x & y) ^ (!x & z) }
  function Maj(x: Word, y: Word, z: Word): Word { (x & y) ^ (x & z) ^ (y & z) }
  function Xor(x: Word, y: Word, z: Word): Word { x ^ y ^ z }
  function BigSigma0(x: Word): Word { Xor(Rotr(x, 2), Rotr(x, 13), Rotr(x, 22)) }
  function BigSigma1(x: Word): Word { Xor(Rotr(x, 6), Rotr(x, 11), Rotr(x, 25)) }
  function SmallSigma0(x: Word): Word { Xor(Rotr(x, 7), Rotr(x, 18), x >> 3) }
  function SmallSigma1(x: Word): Word { Xor(Rotr(x, 17), Rotr(x, 19), x >> 10) }

  function BigWord(b: seq<Byte>, i: nat): Word
    requires 4 * i + 4 <= |b|
  {
    HighFirst(b[4 * i] as Word, b[4 * i + 1] as Word, b[4 * i + 2] as Word, b[4 * i + 3] as Word)
  }

  /** Ch chooses between y and z by the bits of x, Maj takes the majority, and the four sums are of
      circular and plain shifts, section 4.1.2 of FIPS 180-4. */
  lemma ShaFunctionsAre(x: Word, y: Word, z: Word)
    ensures Chooses(Ch(x, y, z), x, y, z)
    ensures Maj(x, y, z) == (x & y) | (x & z) | (y & z)
    ensures BigSigma0(x) == Xor(x.RotateRight(2), x.RotateRight(13), x.RotateRight(22))
    ensures BigSigma1(x) == Xor(x.RotateRight(6), x.RotateRight(11), x.RotateRight(25))
    ensures SmallSigma0(x) == Xor(x.RotateRight(7), x.RotateRight(18), x >> 3)
    ensures SmallSigma1(x) == Xor(x.RotateRight(17), x.RotateRight(19), x >> 10)
  {
    SigmasRotate(x);
    ChChooses(x, y, z);
    MajIsMajority(x, y, z);
    hide *;
  }

  lemma SigmasRotate(x: Word)
    ensures BigSigma0(x) == Xor(x.RotateRight(2), x.RotateRight(13), x.RotateRight(22))
    ensures BigSigma1(x) == Xor(x.RotateRight(6), x.RotateRight(11), x.RotateRight(25))
    ensures SmallSigma0(x) == Xor(x.RotateRight(7), x.RotateRight(18), x >> 3)
    ensures SmallSigma1(x) == Xor(x.RotateRight(17), x.RotateRight(19), x >> 10)
  {
    RotrIsCircular(x);
    hide Rotr, Xor;
  }

  lemma RotrIsCircular(x: Word)
    ensures Rotr(x, 2) == x.RotateRight(2) && Rotr(x, 13) == x.RotateRight(13) && Rotr(x, 22) == x.RotateRight(22)
    ensures Rotr(x, 6) == x.RotateRight(6) && Rotr(x, 11) == x.RotateRight(11) && Rotr(x, 25) == x.RotateRight(25)
    ensures Rotr(x, 7) == x.RotateRight(7) && Rotr(x, 18) == x.RotateRight(18)
    ensures Rotr(x, 17) == x.RotateRight(17) && Rotr(x, 19) == x.RotateRight(19)
  {
  }

  lemma XorIsOr(x: Word, y: Word, z: Word)
    ensures (x & y) ^ (!x & z) == (x & y) | (!x & z)
  {
  }

  lemma ChChooses(x: Word, y: Word, z: Word)
    ensures Chooses(Ch(x, y, z), x, y, z)
  {
    hide Chooses;
    XorIsOr(x, y, z);
    OrChooses(x, y, z);
  }

  lemma MajIsMajority(x: Word, y: Word, z: Word)
    ensures Maj(x, y, z) == (x & y) | (x & z) | (y & z)
  {
  }

  // Word t of the message schedule.
  function Schedule(b: seq<Byte>, t: nat): Word
    requires |b| == 64
  {
    if t < 16 then BigWord(b, t)
    else Add(Add(Add(SmallSigma1(Schedule(b, t - 2)), Schedule(b, t - 7)), SmallSigma0(Schedule(b, t - 15))),
        Schedule(b, t - 16))
  }

  // One level of the definition.
  lemma Expand(b: seq<Byte>, t: nat)
    requires |b| == 64
    ensures t < 16 ==> Schedule(b, t) == BigWord(b, t)
    ensures t >= 16 ==> Schedule(b, t) == Add(Add(Add(SmallSigma1(Schedule(b, t - 2)), Schedule(b, t - 7)),
                                                  SmallSigma0(Schedule(b, t - 15))), Schedule(b, t - 16))
  {
    hide Add, SmallSigma0, SmallSigma1, BigWord;
  }

  // The working variables a to h.
  datatype Working = Working(a: Word, b: Word, c: Word, d: Word, e: Word, f: Word, g: Word, h: Word)

  function ShaStep(v: Working, b: seq<Byte>, t: nat): Working
    requires |b| == 64 && t < 64
  {
    var t1 := Add(Add(Add(Add(v.h, BigSigma1(v.e)), Ch(v.e, v.f, v.g)), ShaK(t)), Schedule(b, t));
    var t2 := Add(BigSigma0(v.a), Maj(v.a, v.b, v.c));
    Working(Add(t1, t2), v.a, v.b, v.c, Add(v.d, t1), v.e, v.f, v.g)
  }

  function ShaSteps(v: Working, b: seq<Byte>, n: nat): Working
    requires |b| == 64 && n <= 64
  {
    if n == 0 then v else ShaStep(ShaSteps(v, b, n - 1), b, n - 1)
  }

  function ShaBlock(s: seq<Word>, b: seq<Byte>): (s': seq<Word>)
    requires |s| == 8 && |b| == 64
    ensures |s'| == 8
  {
    Sums(s, ShaSteps(Loaded(s), b, 64))
  }

  function Loaded(s: seq<Word>): Working
    requires |s| == 8
  {
    Working(s[0], s[1], s[2], s[3], s[4], s[5], s[6], s[7])
  }

  function Sums(s: seq<Word>, v: Working): (s': seq<Word>)
    requires |s| == 8
    ensures |s'| == 8
  {
    [Add(s[0], v.a), Add(s[1], v.b), Add(s[2], v.c), Add(s[3], v.d),
     Add(s[4], v.e), Add(s[5], v.f), Add(s[6], v.g), Add(s[7], v.h)]
  }

  // The loops that fill the schedule.
  method FillSchedule(b: seq<Byte>) returns (w: array<Word>)
    requires |b| == 64
    ensures fresh(w) && w.Length == 64 && forall t | 0 <= t < 64 :: w[t] == Schedule(b, t)
  {
    hide Add, SmallSigma0, SmallSigma1, BigWord, Schedule;
    w := new Word[64](_ => 0);
    for i := 0 to 16
      invariant forall t | 0 <= t < i :: w[t] == Schedule(b, t)
    {
      Expand(b, i);
      w[i] := BigWord(b, i);
    }
    for i := 16 to 64
      invariant forall t | 0 <= t < i :: w[t] == Schedule(b, t)
    {
      Expand(b, i);
      w[i] := Add(Add(Add(SmallSigma1(w[i - 2]), w[i - 7]), SmallSigma0(w[i - 15])), w[i - 16]);
    }
  }

  method Sha256BlockInPlace(s: array<Word>, b: array<Byte>)
    requires s.Length == 8 && b.Length == 64
    modifies s
    ensures s[..] == ShaBlock(old(s[..]), old(b[..]))
  {
    hide Add, ShaSteps, Schedule, Sums;
    var w := FillSchedule(b[..]);
    assert Loaded(s[..]) == Working(s[0], s[1], s[2], s[3], s[4], s[5], s[6], s[7]);
    var v := ShaRounds(b[..], w, Working(s[0], s[1], s[2], s[3], s[4], s[5], s[6], s[7]));
    AddSums(s, v);
  }

  method AddSums(s: array<Word>, v: Working)
    requires s.Length == 8
    modifies s
    ensures s[..] == Sums(old(s[..]), v)
  {
    hide Add;
    AddFour(s, 0, v.a, v.b, v.c, v.d);
    AddFour(s, 4, v.e, v.f, v.g, v.h);
  }

  method ShaRounds(block: seq<Byte>, w: array<Word>, start: Working) returns (v: Working)
    requires |block| == 64 && w.Length == 64 && forall t | 0 <= t < 64 :: w[t] == Schedule(block, t)
    ensures v == ShaSteps(start, block, 64)
  {
    hide Add, BigSigma0, BigSigma1, Ch, Maj, ShaK, Schedule;
    var a, b2, c, d, e, f, g, h := start.a, start.b, start.c, start.d, start.e, start.f, start.g, start.h;
    for i := 0 to 64
      invariant Working(a, b2, c, d, e, f, g, h) == ShaSteps(start, block, i)
    {
      var t1 := Add(Add(Add(Add(h, BigSigma1(e)), Ch(e, f, g)), ShaK(i)), w[i]);
      var t2 := Add(BigSigma0(a), Maj(a, b2, c));
      h, g, f, e, d, c, b2, a := g, f, e, Add(d, t1), c, b2, a, Add(t1, t2);
    }
    v := Working(a, b2, c, d, e, f, g, h);
  }
}
