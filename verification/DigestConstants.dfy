/** Where the constants of SHA-256 come from: sections 4.2.2 and 5.3.3 of FIPS 180-4, in integers. */
module DigestConstants {
  import opened Texts
  import opened DigestBlocks
  import opened DigestStream

  // The first 64 primes, in rows of eight.
  function PrimeRow(r: nat): (row: seq<nat>)
    ensures |row| == 8
  {
    if r == 0 then [2, 3, 5, 7, 11, 13, 17, 19]
    else if r == 1 then [23, 29, 31, 37, 41, 43, 47, 53]
    else if r == 2 then [59, 61, 67, 71, 73, 79, 83, 89]
    else if r == 3 then [97, 101, 103, 107, 109, 113, 127, 131]
    else if r == 4 then [137, 139, 149, 151, 157, 163, 167, 173]
    else if r == 5 then [179, 181, 191, 193, 197, 199, 211, 223]
    else if r == 6 then [227, 229, 233, 239, 241, 251, 257, 263]
    else [269, 271, 277, 281, 283, 293, 307, 311]
  }

  function PrimeAt(i: nat): nat
    requires i < 64
  {
    PrimeRow(i / 8)[i % 8]
  }

  function Square(x: nat): nat { x * x }
  function Cube(x: nat): nat { x * x * x }

  const TWO32: nat := 0x1_0000_0000

  // w is the first 32 bits behind the point of the square root of p, whose whole part is r.
  predicate SquareRootBits(p: nat, r: nat, w: nat) {
    && Square(r) <= p < Square(r + 1)
    && Square(r * TWO32 + w) <= p * Square(TWO32) < Square(r * TWO32 + w + 1)
  }

  predicate CubeRootBits(p: nat, r: nat, w: nat) {
    && Cube(r) <= p < Cube(r + 1)
    && Cube(r * TWO32 + w) <= p * Cube(TWO32) < Cube(r * TWO32 + w + 1)
  }

  ghost predicate IsCubeRoot(i: nat)
    requires i < 64
  {
    var p, w := PrimeAt(i), ShaK(i) as nat;
    exists r: nat :: CubeRootBits(p, r, w)
  }

  ghost predicate IsSquareRoot(i: nat)
    requires i < 8
  {
    var p, w := PrimeAt(i), SHA_INITIAL[i] as nat;
    exists r: nat :: SquareRootBits(p, r, w)
  }

  lemma CubeRootIs(i: nat, p: nat, r: nat, w: nat)
    requires i < 64 && PrimeAt(i) == p && ShaK(i) as nat == w && CubeRootBits(p, r, w)
    ensures IsCubeRoot(i)
  {
    hide CubeRootBits;
  }

  lemma SquareRootIs(i: nat, p: nat, r: nat, w: nat)
    requires i < 8 && PrimeAt(i) == p && SHA_INITIAL[i] as nat == w && SquareRootBits(p, r, w)
    ensures IsSquareRoot(i)
  {
    hide SquareRootBits;
  }

  lemma CubeRootsFrom0()
    ensures forall i | 0 <= i < 4 :: IsCubeRoot(i)
  {
    hide IsCubeRoot;
    CubeRootIs(0, 2, 1, 0x428a2f98);
    CubeRootIs(1, 3, 1, 0x71374491);
    CubeRootIs(2, 5, 1, 0xb5c0fbcf);
    CubeRootIs(3, 7, 1, 0xe9b5dba5);
  }

  lemma CubeRootsFrom4()
    ensures forall i | 4 <= i < 8 :: IsCubeRoot(i)
  {
    hide IsCubeRoot;
    CubeRootIs(4, 11, 2, 0x3956c25b);
    CubeRootIs(5, 13, 2, 0x59f111f1);
    CubeRootIs(6, 17, 2, 0x923f82a4);
    CubeRootIs(7, 19, 2, 0xab1c5ed5);
  }

  lemma CubeRootsFrom8()
    ensures forall i | 8 <= i < 12 :: IsCubeRoot(i)
  {
    hide IsCubeRoot;
    CubeRootIs(8, 23, 2, 0xd807aa98);
    CubeRootIs(9, 29, 3, 0x12835b01);
    CubeRootIs(10, 31, 3, 0x243185be);
    CubeRootIs(11, 37, 3, 0x550c7dc3);
  }

  lemma CubeRootsFrom12()
    ensures forall i | 12 <= i < 16 :: IsCubeRoot(i)
  {
    hide IsCubeRoot;
    CubeRootIs(12, 41, 3, 0x72be5d74);
    CubeRootIs(13, 43, 3, 0x80deb1fe);
    CubeRootIs(14, 47, 3, 0x9bdc06a7);
    CubeRootIs(15, 53, 3, 0xc19bf174);
  }

  lemma CubeRootsFrom16()
    ensures forall i | 16 <= i < 20 :: IsCubeRoot(i)
  {
    hide IsCubeRoot;
    CubeRootIs(16, 59, 3, 0xe49b69c1);
    CubeRootIs(17, 61, 3, 0xefbe4786);
    CubeRootIs(18, 67, 4, 0x0fc19dc6);
    CubeRootIs(19, 71, 4, 0x240ca1cc);
  }

  lemma CubeRootsFrom20()
    ensures forall i | 20 <= i < 24 :: IsCubeRoot(i)
  {
    hide IsCubeRoot;
    CubeRootIs(20, 73, 4, 0x2de92c6f);
    CubeRootIs(21, 79, 4, 0x4a7484aa);
    CubeRootIs(22, 83, 4, 0x5cb0a9dc);
    CubeRootIs(23, 89, 4, 0x76f988da);
  }

  lemma CubeRootsFrom24()
    ensures forall i | 24 <= i < 28 :: IsCubeRoot(i)
  {
    hide IsCubeRoot;
    CubeRootIs(24, 97, 4, 0x983e5152);
    CubeRootIs(25, 101, 4, 0xa831c66d);
    CubeRootIs(26, 103, 4, 0xb00327c8);
    CubeRootIs(27, 107, 4, 0xbf597fc7);
  }

  lemma CubeRootsFrom28()
    ensures forall i | 28 <= i < 32 :: IsCubeRoot(i)
  {
    hide IsCubeRoot;
    CubeRootIs(28, 109, 4, 0xc6e00bf3);
    CubeRootIs(29, 113, 4, 0xd5a79147);
    CubeRootIs(30, 127, 5, 0x06ca6351);
    CubeRootIs(31, 131, 5, 0x14292967);
  }

  lemma CubeRootsFrom32()
    ensures forall i | 32 <= i < 36 :: IsCubeRoot(i)
  {
    hide IsCubeRoot;
    CubeRootIs(32, 137, 5, 0x27b70a85);
    CubeRootIs(33, 139, 5, 0x2e1b2138);
    CubeRootIs(34, 149, 5, 0x4d2c6dfc);
    CubeRootIs(35, 151, 5, 0x53380d13);
  }

  lemma CubeRootsFrom36()
    ensures forall i | 36 <= i < 40 :: IsCubeRoot(i)
  {
    hide IsCubeRoot;
    CubeRootIs(36, 157, 5, 0x650a7354);
    CubeRootIs(37, 163, 5, 0x766a0abb);
    CubeRootIs(38, 167, 5, 0x81c2c92e);
    CubeRootIs(39, 173, 5, 0x92722c85);
  }

  lemma CubeRootsFrom40()
    ensures forall i | 40 <= i < 44 :: IsCubeRoot(i)
  {
    hide IsCubeRoot;
    CubeRootIs(40, 179, 5, 0xa2bfe8a1);
    CubeRootIs(41, 181, 5, 0xa81a664b);
    CubeRootIs(42, 191, 5, 0xc24b8b70);
    CubeRootIs(43, 193, 5, 0xc76c51a3);
  }

  lemma CubeRootsFrom44()
    ensures forall i | 44 <= i < 48 :: IsCubeRoot(i)
  {
    hide IsCubeRoot;
    CubeRootIs(44, 197, 5, 0xd192e819);
    CubeRootIs(45, 199, 5, 0xd6990624);
    CubeRootIs(46, 211, 5, 0xf40e3585);
    CubeRootIs(47, 223, 6, 0x106aa070);
  }

  lemma CubeRootsFrom48()
    ensures forall i | 48 <= i < 52 :: IsCubeRoot(i)
  {
    hide IsCubeRoot;
    CubeRootIs(48, 227, 6, 0x19a4c116);
    CubeRootIs(49, 229, 6, 0x1e376c08);
    CubeRootIs(50, 233, 6, 0x2748774c);
    CubeRootIs(51, 239, 6, 0x34b0bcb5);
  }

  lemma CubeRootsFrom52()
    ensures forall i | 52 <= i < 56 :: IsCubeRoot(i)
  {
    hide IsCubeRoot;
    CubeRootIs(52, 241, 6, 0x391c0cb3);
    CubeRootIs(53, 251, 6, 0x4ed8aa4a);
    CubeRootIs(54, 257, 6, 0x5b9cca4f);
    CubeRootIs(55, 263, 6, 0x682e6ff3);
  }

  lemma CubeRootsFrom56()
    ensures forall i | 56 <= i < 60 :: IsCubeRoot(i)
  {
    hide IsCubeRoot;
    CubeRootIs(56, 269, 6, 0x748f82ee);
    CubeRootIs(57, 271, 6, 0x78a5636f);
    CubeRootIs(58, 277, 6, 0x84c87814);
    CubeRootIs(59, 281, 6, 0x8cc70208);
  }

  lemma CubeRootsFrom60()
    ensures forall i | 60 <= i < 64 :: IsCubeRoot(i)
  {
    hide IsCubeRoot;
    CubeRootIs(60, 283, 6, 0x90befffa);
    CubeRootIs(61, 293, 6, 0xa4506ceb);
    CubeRootIs(62, 307, 6, 0xbef9a3f7);
    CubeRootIs(63, 311, 6, 0xc67178f2);
  }

  lemma SquareRootsFrom0()
    ensures forall i | 0 <= i < 4 :: IsSquareRoot(i)
  {
    hide IsSquareRoot;
    SquareRootIs(0, 2, 1, 0x6a09e667);
    SquareRootIs(1, 3, 1, 0xbb67ae85);
    SquareRootIs(2, 5, 2, 0x3c6ef372);
    SquareRootIs(3, 7, 2, 0xa54ff53a);
  }

  lemma SquareRootsFrom4()
    ensures forall i | 4 <= i < 8 :: IsSquareRoot(i)
  {
    hide IsSquareRoot;
    SquareRootIs(4, 11, 3, 0x510e527f);
    SquareRootIs(5, 13, 3, 0x9b05688c);
    SquareRootIs(6, 17, 4, 0x1f83d9ab);
    SquareRootIs(7, 19, 4, 0x5be0cd19);
  }

  /** The 64 round constants of SHA-256 are the first 32 bits of the fractional parts of the cube roots of
      the first 64 primes, and its initial state those of the square roots of the first eight. */
  lemma ShaConstantsAreRoots()
    ensures forall i | 0 <= i < 64 :: IsCubeRoot(i)
    ensures forall i | 0 <= i < 8 :: IsSquareRoot(i)
  {
    hide IsCubeRoot, IsSquareRoot;
    CubeRootsFrom0();
    CubeRootsFrom4();
    CubeRootsFrom8();
    CubeRootsFrom12();
    CubeRootsFrom16();
    CubeRootsFrom20();
    CubeRootsFrom24();
    CubeRootsFrom28();
    CubeRootsFrom32();
    CubeRootsFrom36();
    CubeRootsFrom40();
    CubeRootsFrom44();
    CubeRootsFrom48();
    CubeRootsFrom52();
    CubeRootsFrom56();
    CubeRootsFrom60();
    SquareRootsFrom0();
    SquareRootsFrom4();
  }

  /** MD5 begins with the bytes 01 23 45 67 and so on up to 10 in its words, low byte first; section 3.3 of
      RFC 1321. */
  lemma Md5InitialIs()
    ensures MD5_INITIAL == [LowFirst(0x01, 0x23, 0x45, 0x67), LowFirst(0x89, 0xab, 0xcd, 0xef),
                            LowFirst(0xfe, 0xdc, 0xba, 0x98), LowFirst(0x76, 0x54, 0x32, 0x10)]
  {
  }
}
