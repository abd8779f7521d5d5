/** The ones' complement checksum of ping's echo packets, on a little-endian machine: the 16-bit words
    of the packet are added up and the carries folded back in (RFC 1071). */
module IcmpChecksum {
  import opened Texts

  const M: int := 0xffff

  // Two bytes as the machine reads them, and the other way round.
  function Word(low: int, high: int): int {
    low + 256 * high
  }

  // The sum of the words; an odd last byte counts as a low byte.
  function Sum(b: seq<Byte>): (s: nat)
    ensures s <= 0xffff * ((|b| + 1) / 2)
  {
    if b == [] then 0 else if |b| == 1 then b[0] else Word(b[0], b[1]) + Sum(b[2..])
  }

  // The same with the words read high byte first, as the packet's numbers are meant.
  function NetworkSum(b: seq<Byte>): nat {
    if b == [] then 0 else if |b| == 1 then 256 * b[0] else Word(b[1], b[0]) + NetworkSum(b[2..])
  }

  /** The sum with its carries folded in: congruent modulo 65535, and zero only for zero. */
  function Folded(s: nat): (r: nat)
    ensures r <= M && (s - r) % M == 0 && (r == 0 <==> s == 0)
  {
    if s == 0 then 0 else Representative(s); 1 + (s - 1) % M
  }

  lemma Representative(s: nat)
    requires s > 0
    ensures (s - (1 + (s - 1) % M)) % M == 0
  {
    var q, r := (s - 1) / M, (s - 1) % M;
    assert s - (1 + r) == M * q;
  }

  // No other number is.
  lemma FoldedIs(s: nat, r: nat)
    requires r <= M && (s - r) % M == 0 && (r == 0 <==> s == 0)
    ensures Folded(s) == r
  {
    var k := Folded(s);
    assert (k - r) % M == 0;
  }

  // The bytes from i on, as the loop reads them: p moves through the packet.
  lemma SumFrom(b: seq<Byte>, i: nat)
    requires i + 1 < |b|
    ensures Sum(b[i..]) == Word(b[i], b[i + 1]) + Sum(b[i + 2..])
  {
    assert b[i..][2..] == b[i + 2..];
  }

  const WORD_LIMIT: int := 0x1_0000_0000

  /** icmp_cksum, for packets of any length: the 32-bit sum wraps, which does not happen up to 128 KiB. */
  method Checksum(d: array<Byte>) returns (c: nat)
    ensures c == M - Folded(Sum(d[..]) % WORD_LIMIT)
    ensures d.Length <= 0x20000 ==> c == M - Folded(Sum(d[..]))
  {
    hide Sum, Folded;
    var s := AddUp(d);
    c := FoldUp(s);
    if d.Length <= 0x20000 {
      SumIsSmall(d[..]);
    }
  }

  lemma SumIsSmall(b: seq<Byte>)
    requires |b| <= 0x20000
    ensures Sum(b) % WORD_LIMIT == Sum(b)
  {
    hide Sum;
  }

  // The two first loops: the words, and an odd byte.
  method AddUp(d: array<Byte>) returns (s: nat)
    ensures s == Sum(d[..]) % WORD_LIMIT
  {
    hide Sum, Word;
    var p: nat, n: nat := 0, d.Length;
    s := 0;
    assert d[..] == d[0..];
    ghost var all := d[..];
    while n > 1
      invariant p + n == d.Length && (s + Sum(all[p..])) % WORD_LIMIT == Sum(all) % WORD_LIMIT && s < WORD_LIMIT
    {
      SumFrom(all, p);
      Wraps(s + Word(d[p], d[p + 1]), Sum(all[p + 2..]));
      s := (s + Word(d[p], d[p + 1])) % WORD_LIMIT;
      p := p + 2;
      n := n - 2;
    }
    SumOfRest(all, p);
    if n > 0 {
      s := (s + d[p]) % WORD_LIMIT;
    }
  }

  // The last loop: the carries.
  method FoldUp(sum: nat) returns (c: nat)
    ensures c <= M && c == M - Folded(sum)
  {
    var s: nat := sum;
    while s / 0x1_0000 != 0
      invariant (sum - s) % M == 0 && (s == 0 <==> sum == 0)
      decreases s
    {
      FoldOnce(s);
      s := s % 0x1_0000 + s / 0x1_0000;
    }
    FoldedIs(sum, s);
    c := M - s;
  }

  // Wrapping early or late makes no difference.
  lemma Wraps(x: int, y: int)
    ensures (x % WORD_LIMIT + y) % WORD_LIMIT == (x + y) % WORD_LIMIT
  {
  }

  lemma SumOfRest(b: seq<Byte>, p: nat)
    requires p <= |b| <= p + 1
    ensures Sum(b[p..]) == if p < |b| then b[p] else 0
  {
  }

  lemma FoldOnce(s: int)
    requires s >= 0x1_0000
    ensures var t := s % 0x1_0000 + s / 0x1_0000; 0 < t < s && (s - t) % M == 0
  {
    var q := s / 0x1_0000;
    assert s - (s % 0x1_0000 + q) == M * q;
  }

  // ----- What the checksum is for -----

  // The packet with a checksum in its field at offset k, in the machine's byte order.
  function Fill(b: seq<Byte>, k: nat, c: nat): (r: seq<Byte>)
    requires k + 1 < |b| && c <= M
    ensures |r| == |b|
  {
    b[k := c % 256][k + 1 := c / 256]
  }

  lemma {:induction false} SumWithWord(b: seq<Byte>, k: nat, c: nat)
    requires k + 1 < |b| && k % 2 == 0 && c <= M
    ensures Sum(Fill(b, k, c)) == Sum(b) - Word(b[k], b[k + 1]) + c
    decreases |b|
  {
    var r := Fill(b, k, c);
    if k == 0 {
      assert r[2..] == b[2..];
    } else {
      SumWithWord(b[2..], k - 2, c);
      assert r[2..] == Fill(b[2..], k - 2, c);
    }
  }

  // A packet is accepted when the checksum of all of it is zero.
  predicate Accepted(b: seq<Byte>) {
    Folded(Sum(b)) == M
  }

  lemma AcceptedIff(b: seq<Byte>)
    ensures Accepted(b) <==> Sum(b) > 0 && Sum(b) % M == 0
  {
    var s := Sum(b);
    hide Sum;
    if s > 0 && s % M == 0 {
      assert (s - M) % M == 0;
      FoldedIs(s, M);
    }
  }

  /** Filled into the zero field it was computed with, the checksum makes the packet accepted. */
  lemma FilledIsAccepted(b: seq<Byte>, k: nat)
    requires k + 1 < |b| && k % 2 == 0 && b[k] == 0 && b[k + 1] == 0
    ensures Accepted(Fill(b, k, M - Folded(Sum(b))))
  {
    hide Sum, Folded, Fill, Accepted;
    var r := Folded(Sum(b));
    SumWithWord(b, k, M - r);
    AcceptedIff(Fill(b, k, M - r));
    Complement(Sum(b), r);
  }

  lemma Complement(s: int, r: int)
    requires (s - r) % M == 0
    ensures (s + (M - r)) % M == 0
  {
  }

  /** The echo request of ping: type 8, process id and sequence number in network order, 56 bytes of
      data, and a checksum that the other side accepts. */
  method EchoRequest(pid: nat, seqno: nat) returns (pkt: array<Byte>)
    ensures fresh(pkt) && pkt.Length == 64 && Accepted(pkt[..])
    ensures pkt[0] == 8 && pkt[1] == 0
    ensures Word(pkt[5], pkt[4]) == pid % 0x1_0000 && Word(pkt[7], pkt[6]) == seqno % 0x1_0000
    ensures forall i | 8 <= i < 64 :: pkt[i] == 0x41
  {
    hide Sum, Folded, Accepted, Word;
    pkt := new Byte[64](i => if i < 8 then 0 else 0x41);
    pkt[0] := 8;
    PutNumber(pkt, 4, pid);
    PutNumber(pkt, 6, seqno);
    ghost var before := pkt[..];
    FilledIsAccepted(before, 2);
    var c := Checksum(pkt);
    pkt[2], pkt[3] := c % 256, c / 256;
    assert pkt[..] == Fill(before, 2, c);
  }

  // htons: the low sixteen bits, high byte first.
  method PutNumber(pkt: array<Byte>, at: nat, number: nat)
    requires at + 2 <= pkt.Length
    modifies pkt
    ensures Word(pkt[at + 1], pkt[at]) == number % 0x1_0000
    ensures forall i | 0 <= i < pkt.Length && i != at && i != at + 1 :: pkt[i] == old(pkt[i])
  {
    var n: nat := number % 0x1_0000;
    pkt[at], pkt[at + 1] := n / 256, n % 256;
  }

  /** One word of an accepted packet changed: this goes unnoticed exactly if the old word and the new
      one are the two zeros of ones' complement, 0 and 65535, and the packet is not all zero. */
  lemma ChangedWordIsNoticedIff(b: seq<Byte>, k: nat, c: nat)
    requires Accepted(b) && k + 1 < |b| && k % 2 == 0 && c <= M
    ensures var old_word := Word(b[k], b[k + 1]);
            Accepted(Fill(b, k, c)) <==>
            c == old_word || (c == M && old_word == 0) || (c == 0 && old_word == M && Sum(b) > M)
  {
    hide Sum, Folded, Fill, Accepted;
    var w, s := Word(b[k], b[k + 1]), Sum(b);
    SumWithWord(b, k, c);
    AcceptedIff(b);
    AcceptedIff(Fill(b, k, c));
    WordInSum(b, k);
    OneWord(s, w, c);
  }

  lemma OneWord(s: int, w: int, c: int)
    requires s > 0 && s % M == 0 && 0 <= w <= M && w <= s && 0 <= c <= M
    ensures (s - w + c > 0 && (s - w + c) % M == 0) <==> c == w || (c == M && w == 0) || (c == 0 && w == M && s > M)
  {
    Shifted(s, c - w);
  }

  lemma Shifted(s: int, d: int)
    requires s % M == 0 && -M <= d <= M
    ensures (s + d) % M == 0 <==> d == 0 || d == M || d == -M
  {
    assert (s + d) % M == 0 <==> d % M == 0;
  }

  lemma {:induction false} WordInSum(b: seq<Byte>, k: nat)
    requires k + 1 < |b| && k % 2 == 0
    ensures Word(b[k], b[k + 1]) <= Sum(b)
    decreases |b|
  {
    if k > 0 {
      WordInSum(b[2..], k - 2);
    }
  }

  // ----- Byte order -----

  function Swapped(v: nat): nat
    requires v <= M
  {
    v % 256 * 256 + v / 256
  }

  lemma TakeOff(x: int, k: int)
    ensures (x - M * k) % M == x % M
  {
  }

  lemma {:induction false} OrdersAgree(b: seq<Byte>)
    ensures (NetworkSum(b) - 256 * Sum(b)) % M == 0
    ensures NetworkSum(b) == 0 <==> Sum(b) == 0
    decreases |b|
  {
    if |b| > 1 {
      OrdersAgree(b[2..]);
      var x := NetworkSum(b[2..]) - 256 * Sum(b[2..]);
      TakeOff(x, b[1]);
      assert NetworkSum(b) - 256 * Sum(b) == x - M * b[1];
    }
  }

  /** Summing the words in network order gives the same checksum with its bytes exchanged, so the two
      bytes put into the packet do not depend on the machine. */
  lemma ChecksumIgnoresByteOrder(b: seq<Byte>)
    ensures M - Folded(NetworkSum(b)) == Swapped(M - Folded(Sum(b)))
  {
    hide Sum, NetworkSum, Folded, Swapped;
    OrdersAgree(b);
    var s, t, r := Sum(b), NetworkSum(b), Folded(Sum(b));
    SwappedIs(r);
    Congruent(s, t, r, Swapped(r), r / 256);
    FoldedIs(t, Swapped(r));
  }

  lemma SwappedIs(r: nat)
    requires r <= M
    ensures 256 * r - Swapped(r) == M * (r / 256) && Swapped(r) <= M && (Swapped(r) == 0 <==> r == 0)
    ensures Swapped(M - r) == M - Swapped(r)
  {
    var low, high := r % 256, r / 256;
    assert r == 256 * high + low && 0 <= high < 256;
    assert M - r == 256 * (255 - high) + (255 - low);
    assert (M - r) % 256 == 255 - low && (M - r) / 256 == 255 - high;
  }

  lemma Congruent(s: int, t: int, r: int, v: int, q: int)
    requires (t - 256 * s) % M == 0 && (s - r) % M == 0 && 256 * r - v == M * q
    ensures (t - v) % M == 0
  {
    var a, c := (t - 256 * s) / M, (s - r) / M;
    assert t - 256 * s == M * a && s - r == M * c;
    assert t - v == M * (a + 256 * c + q);
  }
}
