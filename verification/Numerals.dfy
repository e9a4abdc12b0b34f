/**
  Codes as numbers: what the standard's codes are for every value, as numerals of a stated width, and
  how rows of codes become bytes. This ties the bit strings of `Syntax` to ordinary big-endian numbers.
*/
module Numerals {
  import opened Bytes
  import opened BitReading
  import opened Syntax

  /** Two fixed-length codes are one. */
  lemma {:induction false} FixedAppend(n: nat, a: nat, m: nat, b: nat)
    requires b < Pow2(m)
    ensures FixedCode(n, a) + FixedCode(m, b) == FixedCode(n + m, a * Pow2(m) + b)
    decreases m
  {
    if m > 0 {
      FixedAppend(n, a, m - 1, b / 2);
      HalfOf(a, Pow2(m - 1), b);
      var v := a * Pow2(m) + b;
      assert FixedCode(m, b) == FixedCode(m - 1, b / 2) + [b % 2];
      assert FixedCode(n + m, v) == FixedCode(n + m - 1, v / 2) + [v % 2];
      hide FixedCode, Pow2;
      AppendAssoc(FixedCode(n, a), FixedCode(m - 1, b / 2), [b % 2]);
    } else {
      assert FixedCode(n, a) + [] == FixedCode(n, a);
    }
  }

  lemma HalfOf(a: nat, p: nat, b: nat)
    ensures (a * (2 * p) + b) / 2 == a * p + b / 2 && (a * (2 * p) + b) % 2 == b % 2
  {
    assert a * (2 * p) == 2 * (a * p);
  }

  /** A number in few bits has the bits of its value. */
  lemma {:induction false} ZeroCode(n: nat)
    ensures FixedCode(n, 0) == ZeroBits(n)
  {
    if n > 0 {
      ZeroCode(n - 1);
      ZeroBitsSnoc(n - 1);
    }
  }

  lemma {:induction false} ZeroBitsSnoc(n: nat)
    ensures ZeroBits(n) + [0] == ZeroBits(n + 1)
  {
    if n > 0 {
      ZeroBitsSnoc(n - 1);
      assert ZeroBits(n) + [0] == [0] + (ZeroBits(n - 1) + [0]);
    }
  }

  /** The Exp-Golomb code of v is v + 1, in twice as many bits, less one, as it needs. */
  lemma UeIsFixed(v: nat, z: nat)
    requires Pow2(z) <= v + 1 < Pow2(z + 1)
    ensures UeCode(v) == FixedCode(2 * z + 1, v + 1)
  {
    LogIs(v + 1, z);
    ZeroCode(z);
    OneCode();
    hide FixedCode, ZeroBits, Log2;
    FixedAppend(z, 0, 1, 1);
    FixedAppend(z + 1, 1, z, v + 1 - Pow2(z));
  }

  lemma OneCode()
    ensures FixedCode(1, 1) == [1] && Pow2(1) == 2
  {
    assert FixedCode(1, 1) == FixedCode(0, 0) + [1];
  }

  lemma LogIs(v: nat, z: nat)
    requires Pow2(z) <= v < Pow2(z + 1)
    ensures Log2(v) == z
  {
    var y := Log2(v);
    if y < z {
      Pow2Monotone(y + 1, z);
    } else if z < y {
      Pow2Monotone(z + 1, y);
    }
  }

  lemma {:induction false} Pow2Sum(n: nat, m: nat)
    ensures Pow2(n + m) == Pow2(n) * Pow2(m)
  {
    if m > 0 {
      Pow2Sum(n, m - 1);
    }
  }

  /** The lengths of Exp-Golomb codes (table 9-2 of ITU-T H.264). */
  function UeWidth(v: nat): nat {
    if v == 0 then 1
    else if v <= 2 then 3
    else if v <= 6 then 5
    else if v <= 14 then 7
    else if v <= 30 then 9
    else 2 * Log2(v + 1) + 1
  }

  lemma SmallPowers()
    ensures Pow2(0) == 1 && Pow2(1) == 2 && Pow2(2) == 4 && Pow2(3) == 8 && Pow2(4) == 16 && Pow2(5) == 32
    ensures Pow2(7) == 128 && Pow2(9) == 512
  {
  }

  lemma UeIsNumeral(v: nat)
    ensures UeCode(v) == FixedCode(UeWidth(v), v + 1) && v + 1 < Pow2(UeWidth(v))
  {
    var z := if v == 0 then 0 else if v <= 2 then 1 else if v <= 6 then 2 else if v <= 14 then 3
             else if v <= 30 then 4 else Log2(v + 1);
    assert UeWidth(v) == 2 * z + 1;
    SmallPowers();
    UeIsFixed(v, z);
    Pow2Monotone(z + 1, 2 * z + 1);
  }

  /** Each code is a number in so many bits. */
  function Width(e: Element): nat {
    match e
    case U(n, _) => n
    case UE(v) => UeWidth(v)
    case SE(k) => UeWidth(if k > 0 then 2 * k - 1 else -2 * k)
  }

  function Numeral(e: Element): nat {
    match e
    case U(_, v) => v
    case UE(v) => v + 1
    case SE(k) => if k > 0 then 2 * k else 1 - 2 * k
  }

  lemma CodeIsNumeral(e: Element)
    requires e.InRange()
    ensures e.Code() == FixedCode(Width(e), Numeral(e)) && Numeral(e) < Pow2(Width(e))
  {
    if !e.U? {
      hide UeWidth, UeCode, FixedCode;
      UeIsNumeral(if e.UE? then e.v else SeNumber(e.k));
    }
  }

  // ----- rows as numbers -----

  function Shifted(x: nat, n: nat): nat {
    x * Pow2(n)
  }

  /** What is behind some rows, and the rows as one number. */
  datatype Rows = Rows(next: Table, width: nat, number: nat)

  /** The first n rows behind a number x of w bits, if they are there and can be coded. */
  function ReadRows(t: Table, n: nat, w: nat, x: nat): Option<Rows>
    decreases n
  {
    if n == 0 then Some(Rows(t, w, x))
    else if t.Row? && t.e.InRange() then
      ReadRows(t.next, n - 1, w + Width(t.e), Shifted(x, Width(t.e)) + Numeral(t.e))
    else None
  }

  lemma {:induction false} RowsAreNumeral(t: Table, n: nat, w: nat, x: nat, r: Rows)
    requires ReadRows(t, n, w, x) == Some(r)
    ensures FixedCode(w, x) + t.Bits() == FixedCode(r.width, r.number) + r.next.Bits()
    decreases n
  {
    hide *;
    ReadNext(t, n, w, x);
    if n > 0 {
      RowIsNumeral(t.e, t.next, w, x);
      RowsAreNumeral(t.next, n - 1, w + Width(t.e), Shifted(x, Width(t.e)) + Numeral(t.e), r);
    }
  }

  lemma ReadNext(t: Table, n: nat, w: nat, x: nat)
    requires ReadRows(t, n, w, x).Some?
    ensures n == 0 ==> ReadRows(t, n, w, x) == Some(Rows(t, w, x))
    ensures n > 0 ==>
              && t.Row? && t == Row(t.e, t.next) && t.e.InRange()
              && ReadRows(t, n, w, x) == ReadRows(t.next, n - 1, w + Width(t.e), Shifted(x, Width(t.e)) + Numeral(t.e))
  {
    hide Element.InRange, Shifted, Width, Numeral;
  }

  lemma RowIsNumeral(e: Element, next: Table, w: nat, x: nat)
    requires e.InRange()
    ensures FixedCode(w, x) + Row(e, next).Bits()
         == FixedCode(w + Width(e), Shifted(x, Width(e)) + Numeral(e)) + next.Bits()
  {
    hide Element.InRange;
    CodeIsNumeral(e);
    BitsOfRow(e, next);
    hide FixedCode, Table.Bits, Pow2, Element.Code, Width, Numeral;
    FixedAppend(w, x, Width(e), Numeral(e));
    AppendAssoc(FixedCode(w, x), e.Code(), next.Bits());
  }

  // ----- bytes -----

  /** The table's bits are those of the bytes. */
  ghost predicate Packs(t: Table, bytes: seq<byte>) {
    |t.Bits()| % 8 == 0 && Pack(t.Bits()) == bytes
  }

  /** Packing undoes writing a big-endian number of bytes. */
  lemma {:induction false} PackNumber(bytes: seq<byte>, rest: seq<bit>)
    requires |rest| % 8 == 0
    ensures |FixedCode(8 * |bytes|, Number(bytes)) + rest| % 8 == 0
    ensures Pack(FixedCode(8 * |bytes|, Number(bytes)) + rest) == bytes + Pack(rest)
    decreases |bytes|
  {
    if bytes == [] {
      assert FixedCode(0, 0) + rest == rest;
    } else {
      var init, x := bytes[..|bytes| - 1], bytes[|bytes| - 1];
      assert bytes == init + [x];
      NumberMore(init, x);
      hide FixedCode, Pack, Number;
      LastByte(|init|, Number(init), x);
      PackByte(x, rest);
      PackNumber(init, FixedCode(8, x) + rest);
      AppendAssoc(FixedCode(8 * |init|, Number(init)), FixedCode(8, x), rest);
      AppendAssoc(init, [x], Pack(rest));
    }
  }

  lemma LastByte(n: nat, v: nat, x: byte)
    ensures FixedCode(8 * n, v) + FixedCode(8, x) == FixedCode(8 * (n + 1), 256 * v + x)
  {
    assert Pow2(8) == 256;
    hide FixedCode, Pow2;
    FixedAppend(8 * n, v, 8, x);
  }

  lemma PackByte(x: byte, rest: seq<bit>)
    requires |rest| % 8 == 0
    ensures |FixedCode(8, x) + rest| % 8 == 0 && Pack(FixedCode(8, x) + rest) == [x] + Pack(rest)
  {
    assert Pow2(8) == 256;
    hide FixedCode, Value, Pow2, Pack;
    FixedCodeValue(8, x);
    PackFront(x, FixedCode(8, x), rest);
  }

  lemma PackFront(x: byte, bits: seq<bit>, rest: seq<bit>)
    requires |bits| == 8 && |rest| % 8 == 0 && Value(bits) == x
    ensures Pack(bits + rest) == [x] + Pack(rest)
  {
    hide Value;
    assert (bits + rest)[..8] == bits && (bits + rest)[8..] == rest;
  }

  /** n rows in front that fill the bytes. */
  lemma PackRows(t: Table, n: nat, bytes: seq<byte>, number: nat, k: Table, tail: seq<byte>)
    requires ReadRows(t, n, 0, 0) == Some(Rows(k, 8 * |bytes|, number)) && number == Number(bytes)
    requires Packs(k, tail)
    ensures Packs(t, bytes + tail)
  {
    RowsAreNumeral(t, n, 0, 0, Rows(k, 8 * |bytes|, Number(bytes)));
    assert FixedCode(0, 0) + t.Bits() == t.Bits();
    hide Pack, FixedCode, Table.Bits, ReadRows, Number;
    PackNumber(bytes, k.Bits());
  }

  lemma NumberMore(bytes: seq<byte>, x: byte)
    ensures Number(bytes + [x]) == 256 * Number(bytes) + x
  {
    assert (bytes + [x])[..|bytes|] == bytes;
  }

  lemma NumberOne(a: byte)
    ensures Number([a]) == a
  {
    NumberMore([], a);
    assert [] + [a] == [a];
  }

  lemma Numbers(a: byte, b: byte, c: byte, d: byte, e: byte, f: byte)
    ensures Number([a, b]) == 256 * Number([a]) + b
    ensures Number([a, b, c]) == 256 * Number([a, b]) + c
    ensures Number([a, b, c, d]) == 256 * Number([a, b, c]) + d
    ensures Number([a, b, c, d, e]) == 256 * Number([a, b, c, d]) + e
    ensures Number([a, b, c, d, e, f]) == 256 * Number([a, b, c, d, e]) + f
  {
    hide Number;
    NumberMore([a], b);
    NumberMore([a, b], c);
    NumberMore([a, b, c], d);
    NumberMore([a, b, c, d], e);
    NumberMore([a, b, c, d, e], f);
    assert [a] + [b] == [a, b] && [a, b] + [c] == [a, b, c] && [a, b, c] + [d] == [a, b, c, d];
    assert [a, b, c, d] + [e] == [a, b, c, d, e] && [a, b, c, d, e] + [f] == [a, b, c, d, e, f];
  }
}
