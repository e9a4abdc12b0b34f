/** Bytes, byte strings and the few facts about sequences that every other module needs. */
module Bytes {
  type byte = b: int | 0 <= b < 256

  datatype Option<+T> = None | Some(value: T)

  /** The big-endian 16-bit number written in two bytes. */
  function Word16(hi: int, lo: int): int {
    256 * hi + lo
  }

  function Word32(a: int, b: int, c: int, d: int): int {
    0x100_0000 * a + 0x1_0000 * b + 256 * c + d
  }

  /** Bytes as a number, the most significant one first. */
  function Number(b: seq<byte>): nat {
    if b == [] then 0 else 256 * Number(b[..|b| - 1]) + b[|b| - 1]
  }

  lemma NumberOfTwo(b: seq<byte>)
    requires |b| == 2
    ensures Number(b) == Word16(b[0], b[1])
  {
    assert b[..1][..0] == [] && b[..1][0] == b[0];
    assert Number(b[..1]) == 256 * Number(b[..1][..0]) + b[0];
  }

  lemma NumberOfFour(b: seq<byte>)
    requires |b| == 4
    ensures Number(b) == Word32(b[0], b[1], b[2], b[3])
  {
    NumberOfTwo(b[..2]);
    assert b[..3][..2] == b[..2];
    assert Number(b[..3]) == 256 * Number(b[..2]) + b[2];
  }

  lemma NumberOfBe16(v: nat)
    ensures Number(Be16(v)) == v % 0x1_0000
  {
    var b := Be16(v);
    NumberOfTwo(b);
    hide Number;
    LowDigits(v / 256 / 256, v / 256 % 256, v % 256, v);
  }

  lemma LowDigits(a: nat, b: nat, c: nat, v: nat)
    requires b < 256 && c < 256 && v == 256 * (256 * a + b) + c
    ensures v % 0x1_0000 == 256 * b + c
  {
    assert v == 0x1_0000 * a + (256 * b + c);
  }

  lemma NumberOfBe32(v: nat)
    requires v < 0x1_0000_0000
    ensures Number(Be32(v)) == v
  {
    NumberOfFour(Be32(v));
    Word32OfBe32(v);
  }

  /** Counting on in an unsigned 16- or 32-bit field. */
  function Plus16(a: int, n: nat): nat {
    (a + n) % 0x1_0000
  }

  function Plus32(a: int, n: nat): nat {
    (a + n) % 0x1_0000_0000
  }

  function Be16(v: nat): (b: seq<byte>)
    ensures |b| == 2
    ensures v < 0x1_0000 ==> Word16(b[0], b[1]) == v
  {
    [v / 256 % 256, v % 256]
  }

  function Be32(v: nat): (b: seq<byte>)
    ensures |b| == 4
  {
    [v / 0x100_0000 % 256, v / 0x1_0000 % 256, v / 256 % 256, v % 256]
  }

  lemma Be16OfWord16(hi: byte, lo: byte)
    ensures Be16(Word16(hi, lo)) == [hi, lo]
  {
  }

  lemma Be32OfWord32(a: byte, b: byte, c: byte, d: byte)
    ensures Be32(Word32(a, b, c, d)) == [a, b, c, d]
  {
    Digits(a, b, c, d);
    hide Word32;
  }

  lemma Digits(a: byte, b: byte, c: byte, d: byte)
    ensures var v := Word32(a, b, c, d);
            && v % 256 == d && v / 256 % 256 == c && v / 0x1_0000 % 256 == b && v / 0x100_0000 % 256 == a
  {
    var v := Word32(a, b, c, d);
    var ab := 256 * (a as int) + b;
    var abc := 256 * ab + c;
    assert v == 256 * abc + d;
    assert v / 256 == abc;
    assert v == 0x1_0000 * ab + (256 * (c as int) + d);
    assert v / 0x1_0000 == ab;
    assert v / 0x100_0000 == a;
  }

  lemma Word32OfBe32(v: nat)
    requires v < 0x1_0000_0000
    ensures var b := Be32(v); Word32(b[0], b[1], b[2], b[3]) == v
  {
    var a := v / 256;
    var b := a / 256;
    assert v / 0x1_0000 == b && v / 0x100_0000 == b / 256;
  }

  function Zeros(n: nat): (s: seq<byte>)
    ensures |s| == n
  {
    seq(n, _ => 0)
  }

  /** The concatenation of all parts, in order. */
  function Flatten<T>(parts: seq<seq<T>>): seq<T> {
    if parts == [] then [] else parts[0] + Flatten(parts[1..])
  }

  lemma AppendAssoc<T>(a: seq<T>, b: seq<T>, c: seq<T>)
    ensures (a + b) + c == a + (b + c)
  {
  }

  lemma TakeOneMore<T>(before: seq<T>, s: seq<T>, k: nat)
    requires k < |s|
    ensures before + s[..k + 1] == (before + s[..k]) + [s[k]]
  {
  }

  lemma FlattenCons<T>(x: seq<T>, a: seq<seq<T>>)
    ensures Flatten([x] + a) == x + Flatten(a)
  {
    assert ([x] + a)[1..] == a;
  }

  lemma {:induction false} FlattenAppend<T>(a: seq<seq<T>>, b: seq<seq<T>>)
    ensures Flatten(a + b) == Flatten(a) + Flatten(b)
  {
    if a == [] {
      assert a + b == b;
    } else {
      hide Flatten;
      FlattenAppend(a[1..], b);
      FlattenCons(a[0], a[1..]);
      FlattenCons(a[0], a[1..] + b);
      assert [a[0]] + a[1..] == a;
      assert [a[0]] + (a[1..] + b) == a + b;
      AppendAssoc(a[0], Flatten(a[1..]), Flatten(b));
    }
  }

  lemma FlattenSnoc<T>(a: seq<seq<T>>, x: seq<T>)
    ensures Flatten(a + [x]) == Flatten(a) + x
  {
    FlattenAppend(a, [x]);
    assert Flatten([x]) == x + Flatten<T>([]);
  }
}
