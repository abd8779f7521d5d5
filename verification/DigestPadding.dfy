/** The message padding of MD5 (section 3 of RFC 1321) and SHA-256 (section 5.1.1 of FIPS 180-4),
    and folding a block function over the padded message. */
module DigestPadding {
  import opened Texts

  type Word = bv32

  datatype Algorithm = MD5 | SHA256

  function Pow256(i: nat): (p: int)
    ensures p > 0
  {
    if i == 0 then 1 else 256 * Pow256(i - 1)
  }

  // Byte i of a number, counted from the low end.
  function ByteOf(bits: nat, i: nat): Byte {
    var shifted := bits / Pow256(i);
    shifted % 256
  }

  // A 64-bit count, low byte first for MD5 and high byte first for SHA-256.
  function LengthField(alg: Algorithm, bits: nat): (r: seq<Byte>)
    ensures |r| == 8
  {
    seq(8, i requires 0 <= i < 8 => ByteOf(bits, if alg.MD5? then i else 7 - i))
  }

  // The count of message bits modulo 2^64.
  function LengthBytes(alg: Algorithm, length: nat): (r: seq<Byte>)
    ensures |r| == 8
  {
    LengthField(alg, 8 * length % 0x1_0000_0000_0000_0000)
  }

  function Zeros(n: nat): (r: seq<Byte>)
    ensures |r| == n && forall k | 0 <= k < n :: r[k] == 0
  {
    seq(n, _ => 0)
  }

  // How many zeros bring the padded length to a multiple of 64.
  function ZeroCount(length: nat): (z: nat)
    ensures z < 64 && (length + 1 + z + 8) % 64 == 0
  {
    (119 - length % 64) % 64
  }

  function Pad(alg: Algorithm, m: seq<Byte>): (r: seq<Byte>)
    ensures |r| % 64 == 0
  {
    m + [0x80] + Zeros(ZeroCount(|m|)) + LengthBytes(alg, |m|)
  }

  // The fewest zeros that complete the last block.
  lemma ZeroCountIsLeast(length: nat, z: nat)
    requires (length + 1 + z + 8) % 64 == 0
    ensures ZeroCount(length) <= z
  {
  }

  // Where the longer message has its mark, the shorter one has a padding zero.
  lemma LengthsShow(alg: Algorithm, m: seq<Byte>, n: seq<Byte>)
    requires |m| < |n| && |Pad(alg, m)| == |Pad(alg, n)|
    ensures Pad(alg, m)[|n|] == 0 && Pad(alg, n)[|n|] == 0x80
  {
  }

  /** Different messages have different padded messages. */
  lemma PadIsInjective(alg: Algorithm, m: seq<Byte>, n: seq<Byte>)
    requires Pad(alg, m) == Pad(alg, n)
    ensures m == n
  {
    if |m| < |n| {
      LengthsShow(alg, m, n);
    } else if |n| < |m| {
      LengthsShow(alg, n, m);
    } else {
      assert Pad(alg, m)[..|m|] == m && Pad(alg, n)[..|n|] == n;
    }
  }

  // ----- The length field -----

  // The number that bytes stand for, lowest byte first.
  function Number(low: seq<Byte>): nat {
    if low == [] then 0 else low[0] + 256 * Number(low[1..])
  }

  function Backwards(s: seq<Byte>): seq<Byte> {
    seq(|s|, i requires 0 <= i < |s| => s[|s| - 1 - i])
  }

  lemma Divisions(x: nat, p: nat)
    requires p > 0
    ensures x / (256 * p) == x / 256 / p
    ensures x % (256 * p) == x % 256 + 256 * (x / 256 % p)
  {
    var q, r := x / 256 / p, x / 256 % p;
    assert x / 256 == q * p + r;
    assert x == 256 * (q * p + r) + x % 256;
    assert x == (256 * p) * q + (256 * r + x % 256) by { assert 256 * (q * p) == (256 * p) * q; }
    assert 0 <= 256 * r + x % 256 < 256 * p;
    Quotient(x, 256 * p, q, 256 * r + x % 256);
  }

  lemma Quotient(x: int, d: int, q: int, r: int)
    requires d > 0 && x == d * q + r && 0 <= r < d
    ensures x / d == q && x % d == r
  {
    var k := q - x / d;
    assert d * k == x % d - r;
    MultipleIsLarge(d, k);
  }

  lemma MultipleIsLarge(d: int, k: int)
    requires d > 0
    ensures k != 0 ==> d * k >= d || d * k <= -d
  {
    if k >= 1 {
      assert d * (k - 1) >= 0;
    } else if k <= -1 {
      assert d * (-k - 1) >= 0;
    }
  }

  lemma {:induction false} LowBytes(bits: nat, n: nat)
    ensures Number(seq(n, i requires 0 <= i < n => ByteOf(bits, i))) == bits % Pow256(n)
    decreases n
  {
    if n > 0 {
      var s := seq(n, i requires 0 <= i < n => ByteOf(bits, i));
      var t := seq(n - 1, i requires 0 <= i < n - 1 => ByteOf(bits / 256, i));
      forall i | 0 <= i < n - 1 ensures s[1..][i] == t[i] {
        Divisions(bits, Pow256(i));
      }
      assert s[1..] == t;
      LowBytes(bits / 256, n - 1);
      Divisions(bits, Pow256(n - 1));
    }
  }

  /** The eight bytes read back, in the algorithm's byte order, as the number of message bits modulo
      2^64; for messages under 2^61 bytes that is the number itself. */
  lemma LengthReadsBack(alg: Algorithm, length: nat)
    ensures var field := LengthBytes(alg, length);
            Number(if alg.MD5? then field else Backwards(field)) == 8 * length % 0x1_0000_0000_0000_0000
    ensures length < 0x2000_0000_0000_0000 ==> 8 * length % 0x1_0000_0000_0000_0000 == 8 * length
  {
    hide Number, ByteOf, Pow256;
    var bits := 8 * length % 0x1_0000_0000_0000_0000;
    var field := LengthBytes(alg, length);
    LowBytes(bits, 8);
    assert (if alg.MD5? then field else Backwards(field)) == seq(8, i requires 0 <= i < 8 => ByteOf(bits, i));
    SixtyFourBits();
  }

  lemma SixtyFourBits()
    ensures Pow256(8) == 0x1_0000_0000_0000_0000
  {
    assert Pow256(2) == 0x1_0000;
    assert Pow256(4) == 0x1_0000_0000;
    assert Pow256(6) == 0x1_0000_0000_0000;
  }

  // ----- Folding blocks -----

  type BlockFunction = (seq<Word>, seq<Byte>) -> seq<Word>

  function Fold(block: BlockFunction, s: seq<Word>, m: seq<Byte>): seq<Word>
    decreases |m|
  {
    if |m| < 64 then s else Fold(block, block(s, m[..64]), m[64..])
  }

  lemma {:induction false} FoldJoin(block: BlockFunction, s: seq<Word>, m: seq<Byte>, n: seq<Byte>)
    requires |m| % 64 == 0
    ensures Fold(block, s, m + n) == Fold(block, Fold(block, s, m), n)
    decreases |m|
  {
    if |m| < 64 {
      assert m + n == n;
    } else {
      assert (m + n)[..64] == m[..64] && (m + n)[64..] == m[64..] + n;
      FoldJoin(block, block(s, m[..64]), m[64..], n);
    }
  }

  lemma FoldOne(block: BlockFunction, s: seq<Word>, m: seq<Byte>)
    requires |m| == 64
    ensures Fold(block, s, m) == block(s, m)
  {
    assert m[..64] == m;
  }
}
