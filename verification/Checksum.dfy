/**
  The Internet checksum (RFC 1071) of the raw socket sender, in its two forms: folded twice, and
  folded in a loop. Both are compared with the one's complement sum they stand for.
*/
module Checksum {
  import opened Bytes

  type word = w: int | 0 <= w < 0x1_0000

  const MASK := 0xffff
  const TWO_32 := 0x1_0000_0000
  const TWO_64 := 0x1_0000_0000_0000_0000

  function Sum(words: seq<word>): nat {
    if words == [] then 0 else Sum(words[..|words| - 1]) + words[|words| - 1]
  }

  /** The value of a trailing odd byte read as a signed char. */
  function CharOf(tail: Option<byte>): int {
    match tail
    case None => 0
    case Some(b) => if b < 128 then b else b - 256
  }

  /** The sum the first form computes, before it is reduced modulo 2^64. */
  function Total(words: seq<word>, tail: Option<byte>): int {
    Sum(words) + CharOf(tail)
  }

  /** The 16-bit one's complement sum with the value of `s`: congruent modulo 2^16 - 1, and 0 only for 0. */
  function OnesSum(s: nat): (r: nat)
    ensures r <= MASK
  {
    if s == 0 then 0 else (s - 1) % MASK + 1
  }

  function FoldTwice(s: nat): nat {
    var t := s / 0x1_0000 + s % 0x1_0000;
    t + t / 0x1_0000
  }

  method SumWords(words: seq<word>, tail: Option<byte>) returns (sum: nat)
    requires |words| < 0x1000_0000_0000
    ensures sum == Total(words, tail) % TWO_64
  {
    sum := 0;
    var i := 0;
    while i < |words|
      invariant i <= |words| && sum == Sum(words[..i]) <= i * MASK
    {
      assert words[..i + 1][..i] == words[..i];
      sum := (sum + words[i]) % TWO_64;
      i := i + 1;
    }
    assert words[..i] == words;
    sum := (sum + CharOf(tail)) % TWO_64;
  }

  /** The checksum; within the size of an IP packet it is the complement of the one's complement sum. */
  method ChecksumGeneric(words: seq<word>, tail: Option<byte>) returns (r: word)
    requires |words| < 0x1000_0000_0000
    ensures r == MASK - FoldTwice(Total(words, tail) % TWO_64) % 0x1_0000
    ensures |words| < 0x1_0000 && Total(words, tail) >= 0 ==> r == MASK - OnesSum(Total(words, tail))
  {
    FoldedTotal(words, tail);
    var sum := SumWords(words, tail);
    sum := sum / 0x1_0000 + sum % 0x1_0000;
    sum := sum + sum / 0x1_0000;
    r := MASK - sum % 0x1_0000;
  }

  method TestChecksumGeneric(words: seq<word>, tail: Option<byte>) returns (ok: bool)
    requires |words| < 0x1000_0000_0000
    ensures ok == (FoldTwice(Total(words, tail) % TWO_64) == MASK)
    ensures |words| < 0x1_0000 && Total(words, tail) >= 0 ==> ok == (OnesSum(Total(words, tail)) == MASK)
  {
    FoldedTotal(words, tail);
    var sum := SumWords(words, tail);
    sum := sum / 0x1_0000 + sum % 0x1_0000;
    sum := sum + sum / 0x1_0000;
    ok := sum == MASK;
  }

  /** Folding keeps the one's complement value. */
  lemma FoldKeepsValue(s: nat)
    ensures OnesSum(s / 0x1_0000 + s % 0x1_0000) == OnesSum(s)
    ensures s >= 0x1_0000 ==> s / 0x1_0000 + s % 0x1_0000 < s
  {
    var q, t := s / 0x1_0000, s / 0x1_0000 + s % 0x1_0000;
    assert s == t + MASK * q;
    if s > 0 {
      assert t > 0;
      SameModulo(t - 1, q);
    }
  }

  lemma {:induction false} SameModulo(a: nat, q: nat)
    ensures (a + MASK * q) % MASK == a % MASK
  {
    if q > 0 {
      SameModulo(a, q - 1);
      assert a + MASK * q == (a + MASK * (q - 1)) + MASK;
    }
  }

  /** Two folds are enough for a 32-bit sum. */
  lemma FoldTwiceIsOnesSum(s: nat)
    requires s < TWO_32
    ensures FoldTwice(s) % 0x1_0000 == OnesSum(s)
    ensures FoldTwice(s) == MASK <==> OnesSum(s) == MASK && s != 0xffff_ffff
  {
    var t := s / 0x1_0000 + s % 0x1_0000;
    FoldKeepsValue(s);
    assert t <= 2 * MASK;
    if t >= 0x1_0000 {
      assert t / 0x1_0000 == 1;
      assert FoldTwice(s) == t + 1 && FoldTwice(s) % 0x1_0000 == t + 1 - 0x1_0000;
      assert (t - 1) % MASK == t - 1 - MASK;
    } else {
      assert t / 0x1_0000 == 0;
    }
  }

  lemma FoldedTotal(words: seq<word>, tail: Option<byte>)
    ensures |words| < 0x1_0000 && Total(words, tail) >= 0 ==>
      var t := Total(words, tail);
      && FoldTwice(t % TWO_64) % 0x1_0000 == OnesSum(t)
      && (FoldTwice(t % TWO_64) == MASK <==> OnesSum(t) == MASK)
  {
    var t := Total(words, tail);
    SumBound(words);
    if |words| < 0x1_0000 && t >= 0 {
      assert t <= MASK * MASK + 127 && t % TWO_64 == t;
      FoldTwiceIsOnesSum(t);
    }
  }

  /** Addition in an unsigned 32-bit variable. */
  method Add(sum: nat, x: nat, ghost total: nat) returns (r: nat)
    requires sum == total % TWO_32
    ensures r == (total + x) % TWO_32
  {
    r := (sum + x) % TWO_32;
  }

  method FoldLoop(start: nat) returns (sum: nat)
    ensures sum == OnesSum(start)
  {
    sum := start;
    while sum / 0x1_0000 != 0
      invariant OnesSum(sum) == OnesSum(start)
      decreases sum
    {
      FoldKeepsValue(sum);
      sum := sum % 0x1_0000 + sum / 0x1_0000;
    }
    assert sum <= MASK;
  }

  /** The second form: the loop folds until 16 bits are left. */
  method ChecksumTcpUdp(words: seq<word>, tail: Option<byte>, ipSrc: nat, ipDst: nat, protocol: byte, dataLen: word)
    returns (r: word)
    requires ipSrc < TWO_32 && ipDst < TWO_32
    ensures r == MASK - PseudoSum(words, tail, ipSrc, ipDst, protocol, dataLen)
  {
    hide OnesSum;
    var sum := 0;
    var i := 0;
    while i < |words|
      invariant i <= |words| && sum == Sum(words[..i]) % TWO_32
    {
      assert words[..i + 1][..i] == words[..i];
      sum := Add(sum, words[i], Sum(words[..i]));
      i := i + 1;
    }
    assert words[..i] == words;
    hide Sum;
    ghost var total := Sum(words);
    var odd := if tail.Some? then tail.value else 0;
    sum := Add(sum, odd, total);
    total := total + odd;
    sum := Add(sum, ipSrc / 0x1_0000, total);
    total := total + ipSrc / 0x1_0000;
    sum := Add(sum, ipSrc % 0x1_0000, total);
    total := total + ipSrc % 0x1_0000;
    sum := Add(sum, ipDst / 0x1_0000, total);
    total := total + ipDst / 0x1_0000;
    sum := Add(sum, ipDst % 0x1_0000, total);
    total := total + ipDst % 0x1_0000;
    sum := Add(sum, 256 * (protocol as int), total);
    total := total + 256 * (protocol as int);
    sum := Add(sum, dataLen, total);
    sum := FoldLoop(sum);
    r := MASK - sum;
  }

  /** Its one's complement sum, in 32-bit arithmetic. */
  function PseudoSum(words: seq<word>, tail: Option<byte>, ipSrc: nat, ipDst: nat, protocol: byte, dataLen: word)
    : (s: nat)
    ensures s <= MASK
  {
    OnesSum(PseudoTotal(words, tail, ipSrc, ipDst, protocol, dataLen) % TWO_32)
  }

  /** Packet, odd byte, addresses, protocol in network order, and length. */
  function PseudoTotal(words: seq<word>, tail: Option<byte>, ipSrc: nat, ipDst: nat, protocol: byte, dataLen: word): nat
  {
    Sum(words) + (if tail.Some? then tail.value else 0)
    + ipSrc / 0x1_0000 + ipSrc % 0x1_0000 + ipDst / 0x1_0000 + ipDst % 0x1_0000 + 256 * (protocol as int) + dataLen
  }

  // ----- the pseudo header -----

  /** Two bytes as a little-endian machine loads them. */
  function Pair(lo: byte, hi: byte): word {
    lo + 256 * (hi as int)
  }

  /** The words of a byte string, as a little-endian machine loads them. */
  function WordsOf(bytes: seq<byte>): seq<word>
    requires |bytes| % 2 == 0
  {
    if bytes == [] then [] else [Pair(bytes[0], bytes[1])] + WordsOf(bytes[2..])
  }

  /** An address as the machine loads it. */
  function Address(a: seq<byte>): (v: nat)
    requires |a| == 4
    ensures v < TWO_32
  {
    Pair(a[0], a[1]) + 0x1_0000 * (Pair(a[2], a[3]) as int)
  }

  /** Source, destination, zero, protocol and length in network order (section 3.1 of RFC 9293, and RFC 768). */
  function PseudoHeader(src: seq<byte>, dst: seq<byte>, protocol: byte, length: seq<byte>): (bytes: seq<byte>)
    requires |src| == |dst| == 4 && |length| == 2
    ensures |bytes| == 12
  {
    src + dst + [0, protocol] + length
  }

  lemma AddressWords(a: seq<byte>)
    requires |a| == 4
    ensures Address(a) % 0x1_0000 == Pair(a[0], a[1]) && Address(a) / 0x1_0000 == Pair(a[2], a[3])
  {
    hide Pair;
  }

  lemma {:induction false} SumAppend(a: seq<word>, b: seq<word>)
    ensures Sum(a + b) == Sum(a) + Sum(b)
    decreases |b|
  {
    if b == [] {
      assert a + b == a;
    } else {
      SumAppend(a, b[..|b| - 1]);
      assert (a + b)[..|a + b| - 1] == a + b[..|b| - 1];
    }
  }

  lemma SumOne(w: word)
    ensures Sum([w]) == w
  {
    assert [w][..0] == [];
  }

  /** One more word in front. */
  lemma WordsFirst(lo: byte, hi: byte, rest: seq<byte>)
    requires |rest| % 2 == 0
    ensures Sum(WordsOf([lo, hi] + rest)) == Pair(lo, hi) + Sum(WordsOf(rest))
  {
    FirstWord(lo, hi, rest);
    hide Sum, WordsOf, Pair;
    SumOne(Pair(lo, hi));
    SumAppend([Pair(lo, hi)], WordsOf(rest));
  }

  lemma FirstWord(lo: byte, hi: byte, rest: seq<byte>)
    requires |rest| % 2 == 0
    ensures WordsOf([lo, hi] + rest) == [Pair(lo, hi)] + WordsOf(rest)
  {
    hide Pair;
    assert ([lo, hi] + rest)[2..] == rest;
  }

  lemma PseudoHeaderSum(src: seq<byte>, dst: seq<byte>, protocol: byte, length: seq<byte>)
    requires |src| == |dst| == 4 && |length| == 2
    ensures Sum(WordsOf(PseudoHeader(src, dst, protocol, length)))
         == Address(src) / 0x1_0000 + Address(src) % 0x1_0000 + Address(dst) / 0x1_0000 + Address(dst) % 0x1_0000
            + 256 * (protocol as int) + Pair(length[0], length[1])
  {
    AddressWords(src);
    AddressWords(dst);
    assert Pair(0, protocol) == 256 * (protocol as int);
    hide Sum, WordsOf, Address, Pair;
    var r5: seq<byte> := [length[0], length[1]];
    var r4, r3 := [0, protocol] + r5, [dst[2], dst[3]] + ([0, protocol] + r5);
    var r2 := [dst[0], dst[1]] + r3;
    var r1 := [src[2], src[3]] + r2;
    assert PseudoHeader(src, dst, protocol, length) == [src[0], src[1]] + r1;
    assert r5 == [length[0], length[1]] + [];
    NoWords();
    WordsFirst(length[0], length[1], []);
    WordsFirst(0, protocol, r5);
    WordsFirst(dst[2], dst[3], r4);
    WordsFirst(dst[0], dst[1], r3);
    WordsFirst(src[2], src[3], r2);
    WordsFirst(src[0], src[1], r1);
  }

  lemma NoWords()
    ensures Sum(WordsOf([])) == 0
  {
  }

  /** An odd last byte is summed as a word with a zero byte behind it. */
  function Padded(tail: Option<byte>): seq<word> {
    match tail
    case None => []
    case Some(b) => [b]
  }

  /**
    RFC 1071: with the checksum stored in its zero word, the one's complement sum of pseudo header,
    packet and padded last byte is 0xffff.
  */
  lemma StoredTcpUdp(words: seq<word>, tail: Option<byte>, src: seq<byte>, dst: seq<byte>, protocol: byte,
                     length: seq<byte>, at: nat, c: word)
    requires |src| == |dst| == 4 && |length| == 2 && at < |words| <= 65000 && words[at] == 0
    requires c == MASK - PseudoSum(words, tail, Address(src), Address(dst), protocol, Pair(length[0], length[1]))
    ensures OnesSum(Sum(WordsOf(PseudoHeader(src, dst, protocol, length)) + words[at := c] + Padded(tail))) == MASK
  {
    hide *;
    var header := WordsOf(PseudoHeader(src, dst, protocol, length));
    var total := PseudoTotal(words, tail, Address(src), Address(dst), protocol, Pair(length[0], length[1]));
    HeaderAndPacket(words, tail, src, dst, protocol, length);
    SumUpdate(words, at, c);
    SumAppend(header + words[at := c], Padded(tail));
    SumAppend(header, words[at := c]);
    TotalFits(words, tail, Address(src), Address(dst), protocol, Pair(length[0], length[1]));
    ComplementStored(total, c);
  }

  /** What is summed: the pseudo header, the packet and the padded last byte. */
  lemma HeaderAndPacket(words: seq<word>, tail: Option<byte>, src: seq<byte>, dst: seq<byte>, protocol: byte,
                        length: seq<byte>)
    requires |src| == |dst| == 4 && |length| == 2
    ensures var total := PseudoTotal(words, tail, Address(src), Address(dst), protocol, Pair(length[0], length[1]));
            && total == Sum(WordsOf(PseudoHeader(src, dst, protocol, length))) + Sum(words) + Sum(Padded(tail))
            && PseudoSum(words, tail, Address(src), Address(dst), protocol, Pair(length[0], length[1]))
               == OnesSum(total % TWO_32)
  {
    hide Sum, OnesSum, WordsOf, PseudoHeader, Address, Padded, Pair;
    PseudoHeaderSum(src, dst, protocol, length);
    PaddedSum(tail);
  }

  lemma ComplementStored(total: nat, c: nat)
    requires total < TWO_32 && c == MASK - OnesSum(total % TWO_32)
    ensures OnesSum(total + c) == MASK
  {
    assert total % TWO_32 == total;
    hide OnesSum;
    Complement(total);
  }

  lemma TotalFits(words: seq<word>, tail: Option<byte>, src: nat, dst: nat, protocol: byte, dataLen: word)
    requires |words| <= 65000 && src < TWO_32 && dst < TWO_32
    ensures PseudoTotal(words, tail, src, dst, protocol, dataLen) < TWO_32
  {
    SumBound(words);
    hide Sum;
    Halves(src);
    Halves(dst);
  }

  lemma Halves(v: nat)
    requires v < TWO_32
    ensures v / 0x1_0000 <= MASK && v % 0x1_0000 <= MASK
  {
  }

  lemma PaddedSum(tail: Option<byte>)
    ensures Sum(Padded(tail)) == if tail.Some? then tail.value else 0
  {
    if tail.Some? {
      SumOne(tail.value);
    }
  }

  // ----- a stored checksum is accepted -----

  lemma {:induction false} SumUpdate(words: seq<word>, i: nat, w: word)
    requires i < |words|
    ensures Sum(words[i := w]) == Sum(words) - words[i] + w
  {
    var n := |words| - 1;
    if i < n {
      SumUpdate(words[..n], i, w);
      assert words[i := w][..n] == words[..n][i := w];
    } else {
      assert words[i := w][..n] == words[..n];
    }
  }

  lemma {:induction false} SumBound(words: seq<word>)
    ensures Sum(words) <= MASK * |words|
  {
    if words != [] {
      SumBound(words[..|words| - 1]);
    }
  }

  lemma SumWithZero(words: seq<word>, at: nat)
    requires at < |words| && words[at] == 0
    ensures Sum(words) <= MASK * (|words| - 1)
  {
    SumUpdate(words, at, MASK);
    SumBound(words[at := MASK]);
  }

  lemma Complement(s: nat)
    requires s < TWO_32
    ensures var c := MASK - OnesSum(s); OnesSum(s + c) == MASK
  {
    if s > 0 {
      var q := (s - 1) / MASK;
      assert s - 1 == MASK * q + (s - 1) % MASK;
      assert s + (MASK - OnesSum(s)) == MASK * q + MASK;
      SameModulo(MASK - 1, q);
    }
  }

  /**
    In a packet of fewer than 65536 words, storing the computed checksum in a zero word makes the
    test succeed exactly when the sum is not negative, that is, always for an even number of
    bytes, and for an odd number unless the last byte is 128 or more and outweighs the rest.
  */
  lemma StoredChecksumIsAccepted(words: seq<word>, tail: Option<byte>, at: nat, c: word)
    requires at < |words| < 0x1_0000 && words[at] == 0
    requires c == MASK - FoldTwice(Total(words, tail) % TWO_64) % 0x1_0000
    ensures FoldTwice(Total(words[at := c], tail) % TWO_64) == MASK <==> Total(words, tail) >= 0
    ensures tail == None ==> Total(words, tail) >= 0
    ensures forall b: byte :: tail == Some(b) ==> (Total(words, tail) >= 0 <==> b < 128 || Sum(words) + b >= 256)
  {
    var t := Total(words, tail);
    SumWithZero(words, at);
    SumUpdate(words, at, c);
    assert Total(words[at := c], tail) == t + c;
    if t >= 0 {
      AcceptedTotal(t, c);
    } else {
      RejectedTotal(t, c);
    }
  }

  lemma AcceptedTotal(t: nat, c: word)
    requires t + MASK < 0xffff_ffff && c == MASK - FoldTwice(t % TWO_64) % 0x1_0000
    ensures FoldTwice((t + c) % TWO_64) == MASK
  {
    hide FoldTwice, OnesSum;
    assert t % TWO_64 == t && (t + c) % TWO_64 == t + c;
    FoldTwiceIsOnesSum(t);
    Complement(t);
    FoldTwiceIsOnesSum(t + c);
  }

  lemma RejectedTotal(t: int, c: word)
    requires -128 <= t < 0 && c == MASK - FoldTwice(t % TWO_64) % 0x1_0000
    ensures FoldTwice((t + c) % TWO_64) != MASK
  {
    assert t % TWO_64 == TWO_64 - (-t);
    NegativeTotal(-t);
  }

  lemma NegativeTotal(k: nat)
    requires 1 <= k <= 128
    ensures FoldTwice(TWO_64 - k) % 0x1_0000 == MASK - k
    ensures FoldTwice(0) == 0
  {
    var s := TWO_64 - k;
    assert s / 0x1_0000 == 0xffff_ffff_ffff && s % 0x1_0000 == 0x1_0000 - k;
    var t := 0xffff_ffff_ffff + 0x1_0000 - k;
    assert t / 0x1_0000 == TWO_32;
  }
}
