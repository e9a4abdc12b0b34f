/**
  Syntax elements as the standard writes them: the codes for u(n), ue(v) and se(v), and lists of
  elements. Decoding a list by its descriptors gives back its values and stops right behind it.
*/
module Syntax {
  import opened Bytes
  import opened BitReading

  /** v in n bits, the most significant first. */
  function FixedCode(n: nat, v: nat): (bits: seq<bit>)
    ensures |bits| == n
  {
    if n == 0 then [] else FixedCode(n - 1, v / 2) + [v % 2]
  }

  lemma {:induction false} FixedCodeValue(n: nat, v: nat)
    requires v < Pow2(n)
    ensures Value(FixedCode(n, v)) == v
  {
    if n > 0 {
      FixedCodeValue(n - 1, v / 2);
      var bits := FixedCode(n, v);
      assert bits[..|bits| - 1] == FixedCode(n - 1, v / 2);
    }
  }

  /** The largest z with 2^z <= v. */
  function Log2(v: nat): (z: nat)
    requires v > 0
    ensures Pow2(z) <= v < Pow2(z + 1)
  {
    if v == 1 then 0 else Log2(v / 2) + 1
  }

  function ZeroBits(n: nat): (bits: seq<bit>)
    ensures |bits| == n
  {
    if n == 0 then [] else [0] + ZeroBits(n - 1)
  }

  /** The Exp-Golomb code of a number (section 9.1): as many zeros as suffix bits, 1, suffix. */
  function UeCode(v: nat): seq<bit> {
    var z := Log2(v + 1);
    ZeroBits(z) + [1] + FixedCode(z, v + 1 - Pow2(z))
  }

  /** The signed mapping (section 9.1.1): 0, 1, -1, 2, -2, ... */
  function SeNumber(k: int): nat {
    if k > 0 then 2 * k - 1 else -2 * k
  }

  function SeCode(k: int): seq<bit> {
    UeCode(SeNumber(k))
  }

  // ----- one code -----

  lemma {:induction false} LeadingZerosOf(z: nat, after: seq<bit>)
    ensures LeadingZeros(ZeroBits(z) + ([1] + after)) == z
  {
    var bits := ZeroBits(z) + ([1] + after);
    if z > 0 {
      assert bits[1..] == ZeroBits(z - 1) + ([1] + after);
      LeadingZerosOf(z - 1, after);
    } else {
      assert bits == [1] + after;
    }
  }

  lemma {:induction false} Pow2Monotone(a: nat, b: nat)
    requires a <= b
    ensures Pow2(a) <= Pow2(b)
    decreases b - a
  {
    if a < b {
      Pow2Monotone(a, b - 1);
    }
  }

  lemma Pow2At32()
    ensures Pow2(31) == 0x8000_0000 && Pow2(32) == 0x1_0000_0000
  {
    assert Pow2(4) == 16;
    assert Pow2(8) == 256;
    assert Pow2(12) == 0x1000;
    assert Pow2(16) == 0x1_0000;
    assert Pow2(20) == 0x10_0000;
    assert Pow2(24) == 0x100_0000;
    assert Pow2(28) == 0x1000_0000;
  }

  lemma UeParts(v: nat, after: seq<bit>)
    ensures var z := Log2(v + 1); var bits := UeCode(v) + after;
            && LeadingZeros(bits) == z
            && 2 * z + 1 <= |bits|
            && bits[z + 1..2 * z + 1] == FixedCode(z, v + 1 - Pow2(z))
            && bits[2 * z + 1..] == after
  {
    var z := Log2(v + 1);
    var suffix := FixedCode(z, v + 1 - Pow2(z));
    var bits := UeCode(v) + after;
    assert bits == ZeroBits(z) + ([1] + (suffix + after));
    LeadingZerosOf(z, suffix + after);
  }

  lemma SuffixFits(v: nat)
    ensures v + 1 - Pow2(Log2(v + 1)) < Pow2(Log2(v + 1))
  {
  }

  /**
    The reader decodes the code of every number below 2^32 - 1 to its 32-bit view and stops behind
    it, so it returns the number itself exactly when that is below 2^31.
  */
  lemma UeDecodes(v: nat, after: seq<bit>)
    requires v < 0xffff_ffff
    ensures var bits := UeCode(v) + after;
            && UeLength(bits) <= |bits|
            && bits[UeLength(bits)..] == after
            && UeValue(bits) == Int32(v)
            && (UeValue(bits) == v <==> v < 0x8000_0000)
  {
    var z := Log2(v + 1);
    Pow2At32();
    if z >= 32 {
      Pow2Monotone(32, z);
    }
    UeParts(v, after);
    SuffixFits(v);
    FixedCodeValue(z, v + 1 - Pow2(z));
    hide UeCode, FixedCode, LeadingZeros, Value, Log2, Pow2;
  }

  /** What the reader makes of the code of k: the code number's 32-bit view, mapped back. */
  function SeRead(k: int): int {
    var r := Int32(SeNumber(k));
    if r % 2 == 1 then Half(Int32(r + 1)) else -Half(r)
  }

  /**
    se(v) is decoded correctly exactly for |k| < 2^30: beyond that the code number no longer fits
    a signed 32-bit number.
  */
  lemma SeDecodes(k: int, after: seq<bit>)
    requires -0x7fff_ffff <= k <= 0x7fff_ffff
    ensures var bits := SeCode(k) + after;
            && UeLength(bits) <= |bits|
            && bits[UeLength(bits)..] == after
            && SeValue(bits) == SeRead(k)
            && (SeValue(bits) == k <==> -0x4000_0000 < k < 0x4000_0000)
            && (k >= 0x4000_0000 ==> SeValue(bits) == k - 0x8000_0000)
            && (k <= -0x4000_0000 ==> SeValue(bits) == k + 0x8000_0000)
  {
    var v := SeNumber(k);
    var bits := SeCode(k) + after;
    SeArithmetic(k);
    hide UeCode, UeLength, UeValue, Int32, Half, SeNumber;
    UeDecodes(v, after);
  }

  /**
    The signed mapping is undone exactly when the code number fits a signed 32-bit number; otherwise
    the value is off by 2^31.
  */
  lemma SeArithmetic(k: int)
    requires -0x7fff_ffff <= k <= 0x7fff_ffff
    ensures SeNumber(k) < 0xffff_ffff
    ensures SeRead(k) == k <==> -0x4000_0000 < k < 0x4000_0000
    ensures k >= 0x4000_0000 ==> SeRead(k) == k - 0x8000_0000
    ensures k <= -0x4000_0000 ==> SeRead(k) == k + 0x8000_0000
  {
    hide Int32;
    var v := SeNumber(k);
    Int32Cases(v);
    if v < 0x7fff_ffff {
      Int32Cases(v + 1);
    } else if v % 2 == 1 {
      Int32Cases(Int32(v) + 1);
    }
  }

  lemma Int32Cases(v: int)
    requires -0x8000_0000 <= v < 0x1_0000_0000
    ensures Int32(v) == if v < 0x8000_0000 then v else v - 0x1_0000_0000
  {
  }

  // ----- lists of elements -----

  datatype Element = U(n: nat, v: nat) | UE(v: nat) | SE(k: int) {
    /** The values that have a code. */
    predicate InRange() {
      match this
      case U(n, v) => n <= 32 && v < Pow2(n)
      case UE(v) => v < 0xffff_ffff
      case SE(k) => -0x7fff_ffff <= k <= 0x7fff_ffff
    }

    function Code(): seq<bit> {
      match this
      case U(n, v) => FixedCode(n, v)
      case UE(v) => UeCode(v)
      case SE(k) => SeCode(k)
    }

    /** The value the reader returns for it. */
    function Read(): int {
      match this
      case U(n, v) => Int32(v)
      case UE(v) => Int32(v)
      case SE(k) => SeRead(k)
    }
  }

  /** Numbers that the reader returns unchanged. */
  predicate IsUe(v: nat) {
    v < 0x8000_0000
  }

  predicate IsSe(k: int) {
    -0x4000_0000 < k < 0x4000_0000
  }

  /** An element is read as its own value exactly when that fits: 31 bits, or 30 bits and a sign. */
  lemma ReadUnchanged(e: Element)
    requires e.InRange()
    ensures match e
      case U(n, v) => e.Read() == v <==> v < 0x8000_0000
      case UE(v) => e.Read() == v <==> IsUe(v)
      case SE(k) => e.Read() == k <==> IsSe(k)
  {
    if e.SE? {
      SeArithmetic(e.k);
    } else if e.U? {
      Pow2Monotone(e.n, 32);
      Pow2At32();
    }
  }

  /** Elements to be read, and the bits behind them. */
  datatype Table = End(bits: seq<bit>) | Row(e: Element, next: Table) {
    function Bits(): seq<bit> {
      match this
      case End(bits) => bits
      case Row(e, next) => e.Code() + next.Bits()
    }
  }

  /** The bits behind the last row. */
  function EndOf(t: Table): seq<bit> {
    match t
    case End(bits) => bits
    case Row(_, next) => EndOf(next)
  }

  function Line(e: Element, next: Table): (t: Table)
    ensures t == Row(e, next) && EndOf(t) == EndOf(next)
  {
    Row(e, next)
  }

  lemma {:induction false} EndsInEnd(t: Table)
    ensures |EndOf(t)| <= |t.Bits()| && t.Bits()[|t.Bits()| - |EndOf(t)|..] == EndOf(t)
  {
    if t.Row? {
      BitsOfRow(t.e, t.next);
      hide *;
      EndsInEnd(t.next);
      EndOfAppend(t.e.Code(), t.next.Bits(), |EndOf(t)|);
    }
  }

  lemma BitsOfRow(e: Element, next: Table)
    ensures Row(e, next).Bits() == e.Code() + next.Bits() && EndOf(Row(e, next)) == EndOf(next)
  {
    hide Element.Code;
  }

  lemma EndOfAppend(front: seq<bit>, back: seq<bit>, n: nat)
    requires n <= |back|
    ensures (front + back)[|front + back| - n..] == back[|back| - n..]
  {
  }

  datatype Descriptor = Du(n: nat) | Due | Dse

  function DescriptorOf(e: Element): Descriptor {
    match e
    case U(n, _) => Du(n)
    case UE(_) => Due
    case SE(_) => Dse
  }

  /** One element read off the front of the bits, if they are enough. */
  function ReadElement(d: Descriptor, bits: seq<bit>): Option<(int, seq<bit>)> {
    match d
    case Du(n) => if n > |bits| then None else Some((Int32(Value(bits[..n])), bits[n..]))
    case Due => if UeLength(bits) > |bits| then None else Some((UeValue(bits), bits[UeLength(bits)..]))
    case Dse => if UeLength(bits) > |bits| then None else Some((SeValue(bits), bits[UeLength(bits)..]))
  }

  lemma ReadElementDecodes(e: Element, after: seq<bit>)
    requires e.InRange()
    ensures ReadElement(DescriptorOf(e), e.Code() + after) == Some((e.Read(), after))
  {
    match e
    case U(n, v) =>
      FixedCodeValue(n, v);
      assert (e.Code() + after)[..n] == FixedCode(n, v);
      assert (e.Code() + after)[n..] == after;
    case UE(v) => UeDecodes(v, after);
    case SE(k) => SeDecodes(k, after);
  }

  function ReadAll(ds: seq<Descriptor>, bits: seq<bit>): Option<(seq<int>, seq<bit>)> {
    if ds == [] then Some(([], bits))
    else
      match ReadElement(ds[0], bits)
      case None => None
      case Some((v, rest)) =>
        match ReadAll(ds[1..], rest)
        case None => None
        case Some((vs, end)) => Some(([v] + vs, end))
  }

  function TableOf(es: seq<Element>, after: seq<bit>): Table {
    if es == [] then End(after) else Row(es[0], TableOf(es[1..], after))
  }

  function Descriptors(es: seq<Element>): (ds: seq<Descriptor>)
    ensures |ds| == |es|
  {
    seq(|es|, i requires 0 <= i < |es| => DescriptorOf(es[i]))
  }

  function Reads(es: seq<Element>): (vs: seq<int>)
    ensures |vs| == |es|
  {
    seq(|es|, i requires 0 <= i < |es| => es[i].Read())
  }

  /** A concatenation of codes is decoded to exactly its list of values, and no bit more is read. */
  lemma {:induction false} ReadAllDecodes(es: seq<Element>, after: seq<bit>)
    requires forall i :: 0 <= i < |es| ==> es[i].InRange()
    ensures ReadAll(Descriptors(es), TableOf(es, after).Bits()) == Some((Reads(es), after))
  {
    if es != [] {
      ReadElementDecodes(es[0], TableOf(es[1..], after).Bits());
      ReadAllDecodes(es[1..], after);
      ReadAllStep(es, after);
    }
  }

  lemma ReadAllStep(es: seq<Element>, after: seq<bit>)
    requires es != []
    requires var rest := TableOf(es[1..], after).Bits();
             && ReadElement(DescriptorOf(es[0]), es[0].Code() + rest) == Some((es[0].Read(), rest))
             && ReadAll(Descriptors(es[1..]), rest) == Some((Reads(es[1..]), after))
    ensures ReadAll(Descriptors(es), TableOf(es, after).Bits()) == Some((Reads(es), after))
  {
    hide ReadElement, DescriptorOf;
    assert Descriptors(es)[1..] == Descriptors(es[1..]);
    assert Reads(es) == [es[0].Read()] + Reads(es[1..]);
  }

  // ----- reading a table row by row -----

  method TakeU(bs: BitStream, n: nat, ghost t: Table) returns (r: int)
    requires bs.Valid() && t.Row? && t.e.U? && t.e.n == n && t.e.InRange() && bs.Remaining() == t.Bits()
    modifies bs
    ensures bs.Valid() && bs.Remaining() == t.next.Bits()
    ensures r == Int32(t.e.v) && (n < 32 ==> r == t.e.v)
  {
    ReadElementDecodes(t.e, t.next.Bits());
    SmallFields(t.e.n, t.e.v);
    r := bs.ReadU(n);
  }

  lemma SmallFields(n: nat, v: nat)
    requires n <= 32 && v < Pow2(n)
    ensures n < 32 ==> Int32(v) == v
  {
    if n < 32 {
      Pow2Monotone(n, 31);
      Pow2At32();
    }
  }

  /** ReadU1 on a one-bit field. */
  method TakeFlag(bs: BitStream, ghost t: Table) returns (r: nat)
    requires bs.Valid() && t.Row? && t.e.U? && t.e.n == 1 && t.e.InRange() && bs.Remaining() == t.Bits()
    modifies bs
    ensures bs.Valid() && bs.Remaining() == t.next.Bits() && r == t.e.v < 2
  {
    OneBit(t.e.v, t.next.Bits());
    r := bs.ReadU1();
  }

  lemma OneBit(v: nat, after: seq<bit>)
    requires v < Pow2(1)
    ensures v < 2 && FixedCode(1, v) + after == [v] + after
    ensures ([v] + after)[1..] == after
  {
    assert FixedCode(1, v) == FixedCode(0, v / 2) + [v % 2];
  }

  method TakeUE(bs: BitStream, ghost t: Table) returns (r: nat)
    requires bs.Valid() && t.Row? && t.e.UE? && IsUe(t.e.v) && bs.Remaining() == t.Bits()
    modifies bs
    ensures bs.Valid() && bs.Remaining() == t.next.Bits() && r == t.e.v
  {
    UeDecodes(t.e.v, t.next.Bits());
    r := bs.ReadUE();
  }

  /** A number that may be too large for an int is read as its 32-bit view. */
  method TakeWideUE(bs: BitStream, ghost t: Table) returns (r: int)
    requires bs.Valid() && t.Row? && t.e.UE? && t.e.InRange() && bs.Remaining() == t.Bits()
    modifies bs
    ensures bs.Valid() && bs.Remaining() == t.next.Bits() && r == Int32(t.e.v)
  {
    UeDecodes(t.e.v, t.next.Bits());
    r := bs.ReadUE();
  }

  method TakeSE(bs: BitStream, ghost t: Table) returns (r: int)
    requires bs.Valid() && t.Row? && t.e.SE? && t.e.InRange() && bs.Remaining() == t.Bits()
    modifies bs
    ensures bs.Valid() && bs.Remaining() == t.next.Bits() && r == SeRead(t.e.k)
    ensures r == t.e.k <==> IsSe(t.e.k)
  {
    SeDecodes(t.e.k, t.next.Bits());
    r := bs.ReadSE();
  }

  // ----- bits as bytes -----

  lemma {:induction false} ValueBelow(bits: seq<bit>)
    ensures Value(bits) < Pow2(|bits|)
  {
    if bits != [] {
      ValueBelow(bits[..|bits| - 1]);
    }
  }

  function PackedByte(bits: seq<bit>): byte
    requires |bits| == 8
  {
    ValueBelow(bits);
    assert Pow2(8) == 256;
    Value(bits)
  }

  /** The byte string whose bits are these. */
  function Pack(bits: seq<bit>): (bytes: seq<byte>)
    requires |bits| % 8 == 0
    ensures |bytes| == |bits| / 8
  {
    if bits == [] then [] else [PackedByte(bits[..8])] + Pack(bits[8..])
  }

  /** Shifting a number to the right drops its last bits. */
  lemma {:induction false} ShiftValue(bits: seq<bit>, n: nat)
    requires n <= |bits|
    ensures ShiftRight(Value(bits), n) == Value(bits[..|bits| - n])
    decreases n
  {
    if n == 0 {
      assert bits[..|bits|] == bits;
    } else {
      var init := bits[..|bits| - 1];
      ShiftValue(init, n - 1);
      assert init[..|init| - (n - 1)] == bits[..|bits| - n];
    }
  }

  lemma PackedByteBits(bits: seq<bit>, j: nat)
    requires |bits| == 8 && j < 8
    ensures BitOf(PackedByte(bits), j) == bits[j]
  {
    ShiftValue(bits, 7 - j);
    var front := bits[..j + 1];
    assert front[|front| - 1] == bits[j];
  }

  lemma BitsOfMore(first: byte, rest: seq<byte>, i: nat)
    requires i < 8 * (|rest| + 1)
    ensures BitsOf([first] + rest)[i] == if i < 8 then BitOf(first, i) else BitsOf(rest)[i - 8]
  {
    if i >= 8 {
      assert (i - 8) / 8 == i / 8 - 1 && (i - 8) % 8 == i % 8;
    }
  }

  lemma {:induction false} BitsOfPack(bits: seq<bit>)
    requires |bits| % 8 == 0
    ensures BitsOf(Pack(bits)) == bits
    decreases |bits|
  {
    if bits != [] {
      var first, rest := PackedByte(bits[..8]), Pack(bits[8..]);
      BitsOfPack(bits[8..]);
      assert Pack(bits) == [first] + rest;
      hide Pack, PackedByte, BitsOf, BitOf;
      forall i | 0 <= i < |bits| ensures BitsOf([first] + rest)[i] == bits[i] {
        BitsOfMore(first, rest, i);
        if i < 8 {
          PackedByteBits(bits[..8], i);
        } else {
          assert bits[i] == bits[8..][i - 8];
        }
      }
    }
  }

  /** RBSP trailing bits (section 7.3.2.11): a one and zeros up to the end of the byte. */
  function Trailing(zeros: nat): seq<bit> {
    [1] + ZeroBits(zeros)
  }

  /** Bytes that end in trailing bits do not end in a zero byte. */
  lemma PackedTrailing(bits: seq<bit>, zeros: nat)
    requires |bits| % 8 == 0 && zeros < 8 && zeros < |bits| && bits[|bits| - zeros - 1..] == Trailing(zeros)
    ensures Pack(bits) != [] && Pack(bits)[|bits| / 8 - 1] != 0
  {
    var bytes, i := Pack(bits), |bits| - zeros - 1;
    BitsOfPack(bits);
    assert bits[i] == bits[i..][0] == 1;
    assert i / 8 == |bytes| - 1;
    hide Pack;
    assert BitsOf(bytes)[i] == BitOf(bytes[i / 8], i % 8);
    NoBitsInZero(i % 8);
  }

  lemma NoBitsInZero(j: nat)
    requires j < 8
    ensures BitOf(0, j) == 0
  {
    ShiftedOut(0, 7 - j);
  }
}
