/**
  The bit reader of the parameter set parsers: fixed-length fields u(n) and the Exp-Golomb codes
  ue(v) and se(v) (sections 7.2, 9.1 and 9.1.1 of ITU-T H.264).
*/
module BitReading {
  import opened Bytes

  type bit = b: int | 0 <= b < 2

  function Pow2(n: nat): (p: nat)
    ensures p > 0
  {
    if n == 0 then 1 else 2 * Pow2(n - 1)
  }

  /** x >> n for x >= 0. */
  function ShiftRight(x: nat, n: nat): nat {
    if n == 0 then x else ShiftRight(x / 2, n - 1)
  }

  lemma {:induction false} ShiftedOut(x: nat, n: nat)
    ensures ShiftRight(x, n) > 0 <==> x >= Pow2(n)
  {
    if n > 0 {
      ShiftedOut(x / 2, n - 1);
    }
  }

  /** The j-th bit of a byte, the most significant one first. */
  function BitOf(b: byte, j: nat): bit
    requires j < 8
  {
    ShiftRight(b, 7 - j) % 2
  }

  /** All bits of a byte string, in reading order. */
  function BitsOf(buf: seq<byte>): (bits: seq<bit>)
    ensures |bits| == 8 * |buf|
  {
    seq(8 * |buf|, i requires 0 <= i < 8 * |buf| => BitOf(buf[i / 8], i % 8))
  }

  /** The number a bit string stands for. */
  function Value(bits: seq<bit>): nat {
    if bits == [] then 0 else 2 * Value(bits[..|bits| - 1]) + bits[|bits| - 1]
  }

  /** The 32-bit signed view of a number. */
  function Int32(v: int): (r: int)
    ensures -0x8000_0000 <= r < 0x8000_0000
    ensures -0x8000_0000 <= v < 0x8000_0000 ==> r == v
  {
    (v + 0x8000_0000) % 0x1_0000_0000 - 0x8000_0000
  }

  /** Integer division by two of a signed number, towards zero. */
  function Half(v: int): int {
    if v >= 0 then v / 2 else -(-v / 2)
  }

  /** Leading zero bits. */
  function LeadingZeros(bits: seq<bit>): (z: nat)
    ensures z <= |bits|
    ensures forall i :: 0 <= i < z ==> bits[i] == 0
    ensures z < |bits| ==> bits[z] == 1
  {
    if bits == [] || bits[0] == 1 then 0 else 1 + LeadingZeros(bits[1..])
  }

  // ----- what the reader makes of the bits ahead -----

  /** The bits of an Exp-Golomb code: prefix, marker and suffix; 33 bits if the prefix is too long. */
  function UeLength(bits: seq<bit>): nat {
    var z := LeadingZeros(bits);
    if z >= 32 then 33 else 2 * z + 1
  }

  function UeValue(bits: seq<bit>): int
    requires UeLength(bits) <= |bits|
  {
    var z := LeadingZeros(bits);
    if z >= 32 then -1 else Int32(Value(bits[z + 1..2 * z + 1]) + (Pow2(z) - 1))
  }

  function SeValue(bits: seq<bit>): int
    requires UeLength(bits) <= |bits|
  {
    var r := UeValue(bits);
    if r % 2 == 1 then Half(Int32(r + 1)) else -Half(r)
  }

  class BitStream {
    const buf: seq<byte>
    var p: nat
    var bitsLeft: nat

    ghost predicate Valid()
      reads this
    {
      p <= |buf| && 1 <= bitsLeft <= 8 && (p == |buf| ==> bitsLeft == 8)
    }

    /** The bits not read yet. */
    ghost function Remaining(): seq<bit>
      requires Valid()
      reads this
    {
      BitsOf(buf)[8 * p + 8 - bitsLeft..]
    }

    constructor (buf: seq<byte>)
      ensures Valid() && Remaining() == BitsOf(buf)
    {
      this.buf, p, bitsLeft := buf, 0, 8;
    }

    method ReadU1() returns (r: bit)
      requires Valid() && Remaining() != []
      modifies this
      ensures Valid() && r == old(Remaining())[0] && Remaining() == old(Remaining())[1..]
    {
      ghost var bits, at := BitsOf(buf), 8 * p + 8 - bitsLeft;
      bitsLeft := bitsLeft - 1;
      r := ShiftRight(buf[p], bitsLeft) % 2;
      assert at / 8 == p && at % 8 == 7 - bitsLeft;
      assert r == bits[at];
      if bitsLeft == 0 {
        p := p + 1;
        bitsLeft := 8;
      }
    }

    method ReadU(n: nat) returns (r: int)
      requires Valid() && n <= |Remaining()|
      modifies this
      ensures Valid() && r == Int32(Value(old(Remaining())[..n])) && Remaining() == old(Remaining())[n..]
    {
      hide *;
      ghost var bits := Remaining();
      var sum := 0;
      NoBits(bits, n);
      for i := 0 to n
        invariant Valid() && Remaining() == bits[i..]
        invariant sum == Value(bits[..i]) * Pow2(n - i)
      {
        NextBit(bits, i);
        var b := ReadU1();
        ShiftIn(bits, i, n);
        sum := sum + b * Pow2(n - i - 1);
      }
      assert Pow2(0) == 1 by {
        NoBits(bits, 0);
      }
      r := Int32(sum);
    }

    /** Reads the zero bits in front of a code and the bit behind them, 33 bits at most. */
    method CountZeros() returns (zeroCnt: nat)
      requires Valid() && UeLength(Remaining()) <= |Remaining()|
      modifies this
      ensures Valid()
      ensures zeroCnt == (if LeadingZeros(old(Remaining())) >= 32 then 32 else LeadingZeros(old(Remaining())))
      ensures zeroCnt < |old(Remaining())| && Remaining() == old(Remaining())[zeroCnt + 1..]
    {
      hide *;
      ghost var bits := Remaining();
      UeBits(bits);
      zeroCnt := 0;
      var b := ReadU1();
      while b == 0 && zeroCnt < 32
        invariant Valid() && zeroCnt <= 32 && zeroCnt < |bits|
        invariant Remaining() == bits[zeroCnt + 1..] && b == bits[zeroCnt]
        invariant forall i :: 0 <= i < zeroCnt ==> bits[i] == 0
      {
        ZerosAhead(bits, zeroCnt + 1);
        NextBit(bits, zeroCnt + 1);
        zeroCnt := zeroCnt + 1;
        b := ReadU1();
      }
      ZerosAhead(bits, zeroCnt);
    }

    method ReadUE() returns (r: int)
      requires Valid() && UeLength(Remaining()) <= |Remaining()|
      modifies this
      ensures Valid() && r == UeValue(old(Remaining())) && Remaining() == old(Remaining())[UeLength(old(Remaining()))..]
    {
      hide *;
      ghost var bits := Remaining();
      UeBits(bits);
      var zeroCnt := CountZeros();
      if zeroCnt >= 32 {
        return -1;
      }
      r := ReadU(zeroCnt);
      Suffix(bits, zeroCnt);
      WrapOnce(Value(bits[zeroCnt + 1..2 * zeroCnt + 1]), Pow2(zeroCnt) - 1);
      r := Int32(r + (Pow2(zeroCnt) - 1));
    }

    method ReadSE() returns (r: int)
      requires Valid() && UeLength(Remaining()) <= |Remaining()|
      modifies this
      ensures Valid() && r == SeValue(old(Remaining())) && Remaining() == old(Remaining())[UeLength(old(Remaining()))..]
    {
      r := ReadUE();
      if r % 2 == 1 {
        r := Half(Int32(r + 1));
      } else {
        r := -Half(r);
      }
    }
  }

  /** The bits a code needs, and what they mean. */
  lemma UeBits(bits: seq<bit>)
    requires UeLength(bits) <= |bits|
    ensures bits != []
    ensures var z := LeadingZeros(bits);
            && (z >= 32 ==> UeLength(bits) == 33 && UeValue(bits) == -1)
            && (z < 32 ==> UeLength(bits) == 2 * z + 1
                           && UeValue(bits) == Int32(Value(bits[z + 1..2 * z + 1]) + (Pow2(z) - 1)))
  {
    hide LeadingZeros, Value, Pow2, Int32;
  }

  lemma NoBits(bits: seq<bit>, n: nat)
    ensures Value(bits[..0]) * Pow2(n) == 0 && bits[0..] == bits && Pow2(0) == 1
  {
  }

  lemma NextBit(bits: seq<bit>, i: nat)
    requires i < |bits|
    ensures bits[i..][0] == bits[i] && bits[i..][1..] == bits[i + 1..] && bits[i..] != []
  {
  }

  lemma Suffix(bits: seq<bit>, z: nat)
    requires 2 * z + 1 <= |bits|
    ensures bits[z + 1..][..z] == bits[z + 1..2 * z + 1]
    ensures bits[z + 1..][z..] == bits[2 * z + 1..]
  {
  }

  lemma WrapOnce(a: int, b: int)
    ensures Int32(Int32(a) + b) == Int32(a + b)
  {
  }

  lemma ShiftIn(bits: seq<bit>, i: nat, n: nat)
    requires i < n <= |bits|
    ensures Value(bits[..i + 1]) * Pow2(n - i - 1) == Value(bits[..i]) * Pow2(n - i) + bits[i] * Pow2(n - i - 1)
  {
    var t := bits[..i + 1];
    assert t[..i] == bits[..i];
    var v, q := Value(bits[..i]), Pow2(n - i - 1);
    assert Value(t) == 2 * v + bits[i];
    assert (2 * v + bits[i]) * q == v * (2 * q) + bits[i] * q;
  }

  /** n zero bits at the front are leading zeros. */
  lemma ZerosAhead(bits: seq<bit>, n: nat)
    requires n <= |bits| && forall i :: 0 <= i < n ==> bits[i] == 0
    ensures LeadingZeros(bits) >= n
    ensures n < |bits| && bits[n] == 1 ==> LeadingZeros(bits) == n
  {
  }
}
