/**
  A file with two parameter sets, byte by byte. The tables of `Sps` and `Pps` serve the writer as well
  as the proof of the reader; here they are compared with bytes written down by hand, for a sequence
  and a picture parameter set in which nearly every optional part is present and neighbouring fields
  differ.
*/
module Samples {
  import opened Bytes
  import opened AnnexB
  import opened BitReading
  import opened Syntax
  import opened Numerals
  import opened NalReading
  import opened DecoderMain
  import Emulation
  import Sps
  import Pps

  // ----- the sequence parameter set -----

  /** Profile, flags and level. */
  function Sps1(k: Table): Table {
    Row(U(8, 244), Row(U(1, 1), Row(U(1, 0), Row(U(1, 1), Row(U(1, 1), Row(U(1, 0), Row(U(1, 0),
    Row(U(2, 2), Row(U(8, 51), k)))))))))
  }

  lemma Sps1Packs(k: Table, tail: seq<byte>)
    requires Packs(k, tail)
    ensures Packs(Sps1(k), [0xF4, 0xB2, 0x33] + tail)
  {
    assert Number([0xF4, 0xB2, 0x33]) == 0xF4B233 by {
      NumberOne(0xF4);
      Numbers(0xF4, 0xB2, 0x33, 0x00, 0x00, 0x00);
    }
    hide Packs, Number;
    PackRows(Sps1(k), 9, [0xF4, 0xB2, 0x33], 0xF4B233, k, tail);
  }

  /** Identifier, chroma format and luma depth. */
  function Sps2(k: Table): Table {
    Row(UE(1), Row(UE(3), Row(U(1, 1), Row(UE(8), k))))
  }

  lemma Sps2Packs(k: Table, tail: seq<byte>)
    requires Packs(k, tail)
    ensures Packs(Sps2(k), [0x44, 0x89] + tail)
  {
    assert Number([0x44, 0x89]) == 0x4489 by {
      NumberOne(0x44);
      Numbers(0x44, 0x89, 0x00, 0x00, 0x00, 0x00);
    }
    hide Packs, Number;
    SmallPowers();
    PackRows(Sps2(k), 4, [0x44, 0x89], 0x4489, k, tail);
  }

  /** Chroma depth, bypass, and the first two scaling lists. */
  function Sps3(k: Table): Table {
    Row(UE(2), Row(U(1, 0), Row(U(1, 1), Row(U(1, 0), Row(U(1, 1), Row(SE(-8), k))))))
  }

  lemma Sps3Packs(k: Table, tail: seq<byte>)
    requires Packs(k, tail)
    ensures Packs(Sps3(k), [0x6A, 0x11] + tail)
  {
    assert Number([0x6A, 0x11]) == 0x6A11 by {
      NumberOne(0x6A);
      Numbers(0x6A, 0x11, 0x00, 0x00, 0x00, 0x00);
    }
    hide Packs, Number;
    SmallPowers();
    PackRows(Sps3(k), 6, [0x6A, 0x11], 0x6A11, k, tail);
  }

  /** The lists up to the seventh. */
  function Sps4(k: Table): Table {
    Row(U(1, 0), Row(U(1, 0), Row(U(1, 0), Row(U(1, 0), Row(U(1, 1), Row(SE(1), k))))))
  }

  lemma Sps4Packs(k: Table, tail: seq<byte>)
    requires Packs(k, tail)
    ensures Packs(Sps4(k), [0x0A] + tail)
  {
    NumberOne(0x0A);
    hide Packs, Number;
    SmallPowers();
    PackRows(Sps4(k), 6, [0x0A], 0xA, k, tail);
  }

  /** The other lists, frame number size and picture order count type. */
  function Sps5(k: Table): Table {
    Row(SE(-9), Row(U(1, 0), Row(U(1, 0), Row(U(1, 0), Row(U(1, 0), Row(U(1, 0), Row(UE(12),
    Row(UE(1), k))))))))
  }

  lemma Sps5Packs(k: Table, tail: seq<byte>)
    requires Packs(k, tail)
    ensures Packs(Sps5(k), [0x09, 0x80, 0x6A] + tail)
  {
    assert Number([0x09, 0x80, 0x6A]) == 0x9806A by {
      NumberOne(0x09);
      Numbers(0x09, 0x80, 0x6A, 0x00, 0x00, 0x00);
    }
    hide Packs, Number;
    SmallPowers();
    PackRows(Sps5(k), 8, [0x09, 0x80, 0x6A], 0x9806A, k, tail);
  }

  /** Picture order count. */
  function Sps6(k: Table): Table {
    Row(U(1, 1), Row(SE(-3), Row(SE(4), Row(UE(2), Row(SE(2), Row(SE(-1), k))))))
  }

  lemma Sps6Packs(k: Table, tail: seq<byte>)
    requires Packs(k, tail)
    ensures Packs(Sps6(k), [0x9C, 0x43, 0x23] + tail)
  {
    assert Number([0x9C, 0x43, 0x23]) == 0x9C4323 by {
      NumberOne(0x9C);
      Numbers(0x9C, 0x43, 0x23, 0x00, 0x00, 0x00);
    }
    hide Packs, Number;
    SmallPowers();
    PackRows(Sps6(k), 6, [0x9C, 0x43, 0x23], 0x9C4323, k, tail);
  }

  /** Reference frames and size. */
  function Sps7(k: Table): Table {
    Row(UE(4), Row(U(1, 1), Row(UE(10), Row(UE(1), k))))
  }

  lemma Sps7Packs(k: Table, tail: seq<byte>)
    requires Packs(k, tail)
    ensures Packs(Sps7(k), [0x2C, 0x5A] + tail)
  {
    assert Number([0x2C, 0x5A]) == 0x2C5A by {
      NumberOne(0x2C);
      Numbers(0x2C, 0x5A, 0x00, 0x00, 0x00, 0x00);
    }
    hide Packs, Number;
    SmallPowers();
    PackRows(Sps7(k), 4, [0x2C, 0x5A], 0x2C5A, k, tail);
  }

  /** Field coding and cropping. */
  function Sps8(k: Table): Table {
    Row(U(1, 0), Row(U(1, 1), Row(U(1, 0), Row(U(1, 1), Row(UE(3), Row(UE(13), Row(UE(2),
    Row(UE(4), k))))))))
  }

  lemma Sps8Packs(k: Table, tail: seq<byte>)
    requires Packs(k, tail)
    ensures Packs(Sps8(k), [0x52, 0x0E, 0x65] + tail)
  {
    assert Number([0x52, 0x0E, 0x65]) == 0x520E65 by {
      NumberOne(0x52);
      Numbers(0x52, 0x0E, 0x65, 0x00, 0x00, 0x00);
    }
    hide Packs, Number;
    SmallPowers();
    PackRows(Sps8(k), 8, [0x52, 0x0E, 0x65], 0x520E65, k, tail);
  }

  /** Aspect ratio, overscan and video signal. */
  function Sps9(k: Table): Table {
    Row(U(1, 1), Row(U(1, 1), Row(U(8, 255), Row(U(16, 2612), Row(U(16, 9575), Row(U(1, 1),
    Row(U(1, 0), Row(U(1, 1), Row(U(3, 5), k)))))))))
  }

  lemma Sps9Packs(k: Table, tail: seq<byte>)
    requires Packs(k, tail)
    ensures Packs(Sps9(k), [0xFF, 0xC2, 0x8D, 0x09, 0x59, 0xED] + tail)
  {
    assert Number([0xFF, 0xC2, 0x8D, 0x09, 0x59, 0xED]) == 0xFFC28D0959ED by {
      NumberOne(0xFF);
      Numbers(0xFF, 0xC2, 0x8D, 0x09, 0x59, 0xED);
    }
    hide Packs, Number;
    PackRows(Sps9(k), 9, [0xFF, 0xC2, 0x8D, 0x09, 0x59, 0xED], 0xFFC28D0959ED, k, tail);
  }

  /** Colour and chroma location. */
  function Sps10(k: Table): Table {
    Row(U(1, 1), Row(U(1, 1), Row(U(8, 9), Row(U(8, 14), Row(U(8, 3), Row(U(1, 1), Row(UE(4), k)))))))
  }

  lemma Sps10Packs(k: Table, tail: seq<byte>)
    requires Packs(k, tail)
    ensures Packs(Sps10(k), [0xC2, 0x43, 0x80, 0xE5] + tail)
  {
    assert Number([0xC2, 0x43, 0x80, 0xE5]) == 0xC24380E5 by {
      NumberOne(0xC2);
      Numbers(0xC2, 0x43, 0x80, 0xE5, 0x00, 0x00);
    }
    hide Packs, Number;
    PackRows(Sps10(k), 7, [0xC2, 0x43, 0x80, 0xE5], 0xC24380E5, k, tail);
  }

  /** The clock flag. */
  function Sps11(k: Table): Table {
    Row(UE(9), Row(U(1, 1), k))
  }

  lemma Sps11Packs(k: Table, tail: seq<byte>)
    requires Packs(k, tail)
    ensures Packs(Sps11(k), [0x15] + tail)
  {
    NumberOne(0x15);
    hide Packs, Number;
    PackRows(Sps11(k), 2, [0x15], 0x15, k, tail);
  }

  /** The first clock field. */
  function Sps12(k: Table): Table {
    Row(U(32, 1), k)
  }

  lemma Sps12Packs(k: Table, tail: seq<byte>)
    requires Packs(k, tail)
    ensures Packs(Sps12(k), [0x00, 0x00, 0x00, 0x01] + tail)
  {
    assert Number([0x00, 0x00, 0x00, 0x01]) == 0x1 by {
      NumberOne(0x00);
      Numbers(0x00, 0x00, 0x00, 0x01, 0x00, 0x00);
    }
    hide Packs, Number;
    Pow2At32();
    PackRows(Sps12(k), 1, [0x00, 0x00, 0x00, 0x01], 0x1, k, tail);
  }

  /** The second clock field. */
  function Sps13(k: Table): Table {
    Row(U(32, 2596069105), k)
  }

  lemma Sps13Packs(k: Table, tail: seq<byte>)
    requires Packs(k, tail)
    ensures Packs(Sps13(k), [0x9A, 0xBC, 0xDE, 0xF1] + tail)
  {
    assert Number([0x9A, 0xBC, 0xDE, 0xF1]) == 0x9ABCDEF1 by {
      NumberOne(0x9A);
      Numbers(0x9A, 0xBC, 0xDE, 0xF1, 0x00, 0x00);
    }
    hide Packs, Number;
    Pow2At32();
    PackRows(Sps13(k), 1, [0x9A, 0xBC, 0xDE, 0xF1], 0x9ABCDEF1, k, tail);
  }

  /** Frame rate and the first HRD. */
  function Sps14(k: Table): Table {
    Row(U(1, 1), Row(U(1, 1), Row(UE(1), Row(U(4, 6), Row(U(4, 11), Row(UE(2), k))))))
  }

  lemma Sps14Packs(k: Table, tail: seq<byte>)
    requires Packs(k, tail)
    ensures Packs(Sps14(k), [0xD3, 0x5B] + tail)
  {
    assert Number([0xD3, 0x5B]) == 0xD35B by {
      NumberOne(0xD3);
      Numbers(0xD3, 0x5B, 0x00, 0x00, 0x00, 0x00);
    }
    hide Packs, Number;
    PackRows(Sps14(k), 6, [0xD3, 0x5B], 0xD35B, k, tail);
  }

  /** Its entries and lengths. */
  function Sps15(k: Table): Table {
    Row(UE(4), Row(U(1, 1), Row(UE(7), Row(UE(1), Row(U(1, 0), Row(U(5, 23), Row(U(5, 6),
    Row(U(5, 17), k))))))))
  }

  lemma Sps15Packs(k: Table, tail: seq<byte>)
    requires Packs(k, tail)
    ensures Packs(Sps15(k), [0x2C, 0x42, 0x5C, 0xD1] + tail)
  {
    assert Number([0x2C, 0x42, 0x5C, 0xD1]) == 0x2C425CD1 by {
      NumberOne(0x2C);
      Numbers(0x2C, 0x42, 0x5C, 0xD1, 0x00, 0x00);
    }
    hide Packs, Number;
    SmallPowers();
    PackRows(Sps15(k), 8, [0x2C, 0x42, 0x5C, 0xD1], 0x2C425CD1, k, tail);
  }

  /** The second HRD. */
  function Sps16(k: Table): Table {
    Row(U(5, 24), Row(U(1, 1), Row(UE(0), Row(U(4, 3), Row(U(4, 13), Row(UE(3), Row(UE(1),
    Row(U(1, 1), k))))))))
  }

  lemma Sps16Packs(k: Table, tail: seq<byte>)
    requires Packs(k, tail)
    ensures Packs(Sps16(k), [0xC6, 0x7A, 0x45] + tail)
  {
    assert Number([0xC6, 0x7A, 0x45]) == 0xC67A45 by {
      NumberOne(0xC6);
      Numbers(0xC6, 0x7A, 0x45, 0x00, 0x00, 0x00);
    }
    hide Packs, Number;
    SmallPowers();
    PackRows(Sps16(k), 8, [0xC6, 0x7A, 0x45], 0xC67A45, k, tail);
  }

  /** Its lengths, delay and picture structure. */
  function Sps17(k: Table): Table {
    Row(U(5, 9), Row(U(5, 30), Row(U(5, 12), Row(U(5, 3), Row(U(1, 1), Row(U(1, 0), Row(U(1, 1),
    Row(U(1, 1), k))))))))
  }

  lemma Sps17Packs(k: Table, tail: seq<byte>)
    requires Packs(k, tail)
    ensures Packs(Sps17(k), [0x4F, 0x98, 0x3B] + tail)
  {
    assert Number([0x4F, 0x98, 0x3B]) == 0x4F983B by {
      NumberOne(0x4F);
      Numbers(0x4F, 0x98, 0x3B, 0x00, 0x00, 0x00);
    }
    hide Packs, Number;
    PackRows(Sps17(k), 8, [0x4F, 0x98, 0x3B], 0x4F983B, k, tail);
  }

  /** Bitstream restriction. */
  function Sps18(k: Table): Table {
    Row(UE(3), Row(UE(2), Row(UE(11), Row(UE(0), Row(UE(5), Row(UE(1), k))))))
  }

  lemma Sps18Packs(k: Table, tail: seq<byte>)
    requires Packs(k, tail)
    ensures Packs(Sps18(k), [0x23, 0x19, 0x32] + tail)
  {
    assert Number([0x23, 0x19, 0x32]) == 0x231932 by {
      NumberOne(0x23);
      Numbers(0x23, 0x19, 0x32, 0x00, 0x00, 0x00);
    }
    hide Packs, Number;
    SmallPowers();
    PackRows(Sps18(k), 6, [0x23, 0x19, 0x32], 0x231932, k, tail);
  }

  // ----- the picture parameter set -----

  /** Identifiers and entropy coding. */
  function Pps1(k: Table): Table {
    Row(UE(2), Row(UE(1), Row(U(1, 1), Row(U(1, 0), k))))
  }

  lemma Pps1Packs(k: Table, tail: seq<byte>)
    requires Packs(k, tail)
    ensures Packs(Pps1(k), [0x6A] + tail)
  {
    NumberOne(0x6A);
    hide Packs, Number;
    PackRows(Pps1(k), 4, [0x6A], 0x6A, k, tail);
  }

  /** Slice groups. */
  function Pps2(k: Table): Table {
    Row(UE(2), Row(UE(6), Row(UE(2), Row(U(2, 2), Row(U(2, 0), Row(U(2, 1), Row(UE(7), k)))))))
  }

  lemma Pps2Packs(k: Table, tail: seq<byte>)
    requires Packs(k, tail)
    ensures Packs(Pps2(k), [0x67, 0x70, 0x88] + tail)
  {
    assert Number([0x67, 0x70, 0x88]) == 0x677088 by {
      NumberOne(0x67);
      Numbers(0x67, 0x70, 0x88, 0x00, 0x00, 0x00);
    }
    hide Packs, Number;
    SmallPowers();
    PackRows(Pps2(k), 7, [0x67, 0x70, 0x88], 0x677088, k, tail);
  }

  /** Reference pictures and prediction. */
  function Pps3(k: Table): Table {
    Row(UE(3), Row(U(1, 1), Row(U(2, 2), k)))
  }

  lemma Pps3Packs(k: Table, tail: seq<byte>)
    requires Packs(k, tail)
    ensures Packs(Pps3(k), [0x26] + tail)
  {
    NumberOne(0x26);
    hide Packs, Number;
    PackRows(Pps3(k), 3, [0x26], 0x26, k, tail);
  }

  /** Quantization and control. */
  function Pps4(k: Table): Table {
    Row(SE(-4), Row(SE(3), Row(SE(-8), Row(U(1, 1), Row(U(1, 0), Row(U(1, 1), k))))))
  }

  lemma Pps4Packs(k: Table, tail: seq<byte>)
    requires Packs(k, tail)
    ensures Packs(Pps4(k), [0x12, 0x60, 0x8D] + tail)
  {
    assert Number([0x12, 0x60, 0x8D]) == 0x12608D by {
      NumberOne(0x12);
      Numbers(0x12, 0x60, 0x8D, 0x00, 0x00, 0x00);
    }
    hide Packs, Number;
    SmallPowers();
    PackRows(Pps4(k), 6, [0x12, 0x60, 0x8D], 0x12608D, k, tail);
  }

  // ----- the values -----

  const NAL_HRD := Sps.Hrd(6, 11, [Sps.Cpb(2, 4, 1), Sps.Cpb(7, 1, 0)], 23, 6, 17, 24)
  const VCL_HRD := Sps.Hrd(3, 13, [Sps.Cpb(3, 1, 1)], 9, 30, 12, 3)

  /** The second clock field is larger than a signed variable can hold. */
  const TIMING := Sps.Timing(1, 0x9ABC_DEF1 - 0x1_0000_0000, 1)
  const SIGNAL := Sps.VideoSignal(5, 1, Some(Sps.Colour(9, 14, 3)))
  const VUI := Sps.Vui(Some(Sps.Aspect(255, 0x0A34, 0x2567)), Some(0), Some(SIGNAL), Some(Sps.ChromaLoc(4, 9)),
                       Some(TIMING), Some(NAL_HRD), Some(VCL_HRD), 1, 0,
                       Some(Sps.Restriction(1, 3, 2, 11, 0, 5, 1)))

  const FRAME := Sps.Frame(4, 1, 10, 1, 0, 1, 0, Some(Sps.Crop(3, 13, 2, 4)), Some(VUI))
  const POC := Sps.Poc1(1, -3, 4, [2, -1])
  const FLAGS: seq<nat> := [1, 0, 1, 1, 0, 0]

  /** The second list is the default one, the seventh repeats its first value. */
  const LISTS: seq<Option<Sps.ScalingCode>> :=
    [None, Some([]), None, None, None, None, Some([9]), None, None, None, None, None]

  const HIGH := Sps.High(3, 1, 8, 2, 0, Some(LISTS))
  const SPS: Sps.Sps<Sps.ScalingCode> := Sps.Sps(244, FLAGS, 51, 1, Some(HIGH), 12, POC, FRAME)

  const PPS := Pps.Pps(2, 1, 1, 0, Some(Pps.SliceGroups(2, Pps.Explicit([2, 0, 1]))),
                       Pps.Quantization(7, 3, 1, 2, -4, 3, -8, 1, 0, 1))

  // ----- the rows of the tables -----

  lemma NalHrdRows(k: Table)
    ensures NAL_HRD.InRange()
    ensures Sps.HrdTable(NAL_HRD, k)
         == Row(UE(1), Row(U(4, 6), Row(U(4, 11), Row(UE(2), Row(UE(4), Row(U(1, 1), Row(UE(7),
            Row(UE(1), Row(U(1, 0), Row(U(5, 23), Row(U(5, 6), Row(U(5, 17), Row(U(5, 24), k)))))))))))))
  {
    var es, lengths := NAL_HRD.entries, Sps.HrdLengths(NAL_HRD, k);
    assert Sps.CpbTable(es, 2, lengths) == lengths;
    assert Sps.CpbTable(es, 1, lengths) == Row(UE(7), Row(UE(1), Row(U(1, 0), lengths)));
  }

  lemma VclHrdRows(k: Table)
    ensures VCL_HRD.InRange()
    ensures Sps.HrdTable(VCL_HRD, k)
         == Row(UE(0), Row(U(4, 3), Row(U(4, 13), Row(UE(3), Row(UE(1), Row(U(1, 1), Row(U(5, 9),
            Row(U(5, 30), Row(U(5, 12), Row(U(5, 3), k))))))))))
  {
    var es, lengths := VCL_HRD.entries, Sps.HrdLengths(VCL_HRD, k);
    assert Sps.CpbTable(es, 1, lengths) == lengths;
  }

  lemma VuiTailRows(k: Table)
    ensures VUI.InRange()
    ensures Sps.VuiTail(VUI, k)
         == Row(U(1, 1), Sps.HrdTable(NAL_HRD, Row(U(1, 1), Sps.HrdTable(VCL_HRD,
              Row(U(1, 1), Row(U(1, 0), Row(U(1, 1), Row(U(1, 1), Row(UE(3), Row(UE(2), Row(UE(11),
              Row(UE(0), Row(UE(5), Row(UE(1), k))))))))))))))
  {
    NalHrdRows(k);
    VclHrdRows(k);
    ClockInRange();
    hide Sps.HrdTable, Sps.Hrd.InRange;
  }

  lemma VuiRows(k: Table)
    ensures VUI.InRange()
    ensures Sps.VuiTable(VUI, k)
         == Row(U(1, 1), Row(U(8, 255), Row(U(16, 2612), Row(U(16, 9575), Row(U(1, 1), Row(U(1, 0),
            Row(U(1, 1), Row(U(3, 5), Row(U(1, 1), Row(U(1, 1), Row(U(8, 9), Row(U(8, 14),
            Row(U(8, 3), Row(U(1, 1), Row(UE(4), Row(UE(9), Row(U(1, 1), Row(U(32, 1),
            Row(U(32, 2596069105), Row(U(1, 1), Sps.VuiTail(VUI, k)))))))))))))))))))))
  {
    VuiTailRows(k);
    ClockInRange();
    hide Sps.HrdTable, Sps.Hrd.InRange, Sps.VuiTail;
  }

  lemma ClockInRange()
    ensures Sps.TimingInRange(TIMING) && Sps.Uint32(TIMING.timeScale) == 0x9ABC_DEF1
  {
  }

  lemma ListRows(k: Table)
    ensures Sps.ListsInRange(LISTS)
    ensures Sps.ListsTable(LISTS, 0, k)
         == Row(U(1, 0), Row(U(1, 1), Row(SE(-8), Row(U(1, 0), Row(U(1, 0), Row(U(1, 0),
            Row(U(1, 0), Row(U(1, 1), Row(SE(1), Row(SE(-9), Row(U(1, 0), Row(U(1, 0), Row(U(1, 0),
            Row(U(1, 0), Row(U(1, 0), k)))))))))))))))
  {
    var seventh := Sps.ListsTable(LISTS, 7, k);
    LastLists(k);
    assert Sps.ScalingTable([9], 1, 64, seventh) == Row(SE(-9), seventh);
    var sixth := Row(U(1, 1), Row(SE(1), Row(SE(-9), seventh)));
    assert Sps.ListsTable(LISTS, 6, k) == sixth;
    assert Sps.ListsTable(LISTS, 4, k) == Row(U(1, 0), Row(U(1, 0), sixth));
    assert Sps.ListsTable(LISTS, 2, k) == Row(U(1, 0), Row(U(1, 0), Row(U(1, 0), Row(U(1, 0), sixth))));
  }

  lemma LastLists(k: Table)
    ensures Sps.ListsInRange(LISTS)
    ensures Sps.ListsTable(LISTS, 7, k) == Row(U(1, 0), Row(U(1, 0), Row(U(1, 0), Row(U(1, 0), Row(U(1, 0), k)))))
  {
    assert Sps.ListsTable(LISTS, 12, k) == k;
    assert Sps.ListsTable(LISTS, 10, k) == Row(U(1, 0), Row(U(1, 0), k));
    assert Sps.ListsTable(LISTS, 8, k) == Row(U(1, 0), Row(U(1, 0), Row(U(1, 0), Row(U(1, 0), k))));
  }

  lemma HighRows(k: Table)
    ensures Sps.HighInRange(HIGH)
    ensures Sps.HighTable(HIGH, k)
         == Row(UE(3), Row(U(1, 1), Row(UE(8), Row(UE(2), Row(U(1, 0), Row(U(1, 1), Sps.ListsTable(LISTS, 0, k)))))))
  {
    ListRows(k);
    hide Sps.ListsTable, Sps.ListsInRange;
  }

  lemma PocRows(k: Table)
    ensures Sps.PocInRange(POC)
    ensures Sps.PocTable(POC, k)
         == Row(UE(1), Row(U(1, 1), Row(SE(-3), Row(SE(4), Row(UE(2), Row(SE(2), Row(SE(-1), k)))))))
  {
    var offsets := POC.offsetsForRefFrame;
    assert Sps.OffsetsTable(offsets, 2, k) == k && Sps.OffsetsTable(offsets, 1, k) == Row(SE(-1), k);
  }

  lemma FrameRows(k: Table)
    ensures Sps.FrameInRange(FRAME) && VUI.InRange()
    ensures Sps.FrameTable(FRAME, k)
         == Row(UE(4), Row(U(1, 1), Row(UE(10), Row(UE(1), Row(U(1, 0), Row(U(1, 1), Row(U(1, 0),
            Row(U(1, 1), Row(UE(3), Row(UE(13), Row(UE(2), Row(UE(4), Row(U(1, 1), Sps.VuiTable(VUI, k))))))))))))))
  {
    VuiRows(k);
    hide Sps.VuiTable, Sps.Vui.InRange;
  }

  lemma SpsRows(k: Table)
    ensures Sps.InRange(SPS) && Sps.HighInRange(HIGH) && Sps.FrameInRange(FRAME)
    ensures Sps.SpsTable(SPS, 2, k)
         == Row(U(8, 244), Row(U(1, 1), Row(U(1, 0), Row(U(1, 1), Row(U(1, 1), Row(U(1, 0),
            Row(U(1, 0), Row(U(2, 2), Row(U(8, 51), Row(UE(1),
            Sps.HighTable(HIGH, Row(UE(12), Sps.PocTable(POC, Sps.FrameTable(FRAME, k))))))))))))))
  {
    HighRows(k);
    PocRows(k);
    FrameRows(k);
    FlagsAreBits();
    hide Sps.HighTable, Sps.PocTable, Sps.FrameTable, Sps.HighInRange, Sps.PocInRange, Sps.FrameInRange;
  }

  lemma FlagsAreBits()
    ensures Sps.FlagsInRange(FLAGS)
  {
    assert Pow2(1) == 2;
  }

  /** All of the sequence parameter set's rows. */
  lemma AllSpsRows(k: Table)
    ensures Sps.InRange(SPS)
    ensures Sps.SpsTable(SPS, 2, k) == AllSps(k)
  {
    SpsRows(k);
    HighRows(Row(UE(12), Sps.PocTable(POC, Sps.FrameTable(FRAME, k))));
    ListRows(Row(UE(12), Sps.PocTable(POC, Sps.FrameTable(FRAME, k))));
    PocRows(Sps.FrameTable(FRAME, k));
    FrameRows(k);
    VuiRows(k);
    VuiTailRows(k);
    var behind := Row(U(1, 1), Row(U(1, 0), Row(U(1, 1), Row(U(1, 1), Row(UE(3), Row(UE(2), Row(UE(11),
      Row(UE(0), Row(UE(5), Row(UE(1), k))))))))));
    VclHrdRows(behind);
    NalHrdRows(Row(U(1, 1), Sps.HrdTable(VCL_HRD, behind)));
    hide Sps.SpsTable, Sps.HighTable, Sps.ListsTable, Sps.PocTable, Sps.FrameTable, Sps.VuiTable, Sps.VuiTail,
      Sps.HrdTable, Sps.InRange, Sps.HighInRange, Sps.FrameInRange;
  }

  function AllSps(k: Table): Table {
    Sps1(Sps2(Sps3(Sps4(Sps5(Sps6(Sps7(Sps8(Sps9(
    Sps10(Sps11(Sps12(Sps13(Sps14(Sps15(Sps16(Sps17(Sps18(k))))))))))))))))))
  }

  /** All of the picture parameter set's rows. */
  lemma AllPpsRows(k: Table)
    ensures Pps.InRange(PPS)
    ensures Pps.PpsTable(PPS, k) == AllPps(k)
  {
    assert Pow2(1) == 2 && Pow2(2) == 4;
    Pps.CeilLog2Unique(3, 2);
    IdRows(Pps.QuantizationTable(PPS.quantization, k));
    hide Pps.IdsTable;
  }

  function AllPps(k: Table): Table {
    Pps1(Pps2(Pps3(Pps4(k))))
  }

  lemma IdRows(k: Table)
    ensures Pps.IdsTable([2, 0, 1], 2, 0, k) == Row(U(2, 2), Row(U(2, 0), Row(U(2, 1), k)))
  {
    var ids: seq<nat> := [2, 0, 1];
    assert Pps.IdsTable(ids, 2, 3, k) == k;
    assert Pps.IdsTable(ids, 2, 2, k) == Row(U(2, 1), k);
  }

  // ----- the bytes of the file -----

  /** The sequence parameter set up to the first clock field. */
  function SpsFront(tail: seq<byte>): seq<byte> {
    [0xF4, 0xB2, 0x33] + ([0x44, 0x89] + ([0x6A, 0x11] + ([0x0A] + ([0x09, 0x80, 0x6A] + (
    [0x9C, 0x43, 0x23] + ([0x2C, 0x5A] + ([0x52, 0x0E, 0x65] + ([0xFF, 0xC2, 0x8D, 0x09, 0x59, 0xED] + (
    [0xC2, 0x43, 0x80, 0xE5] + ([0x15] + (tail)))))))))))
  }

  /** What stands behind it, up to the trailing bits. */
  function SpsBack(tail: seq<byte>): seq<byte> {
    [0x9A, 0xBC, 0xDE, 0xF1] + ([0xD3, 0x5B] + ([0x2C, 0x42, 0x5C, 0xD1] + ([0xC6, 0x7A, 0x45] + (
    [0x4F, 0x98, 0x3B] + ([0x23, 0x19, 0x32] + (tail))))))
  }

  function PpsBytes(tail: seq<byte>): seq<byte> {
    [0x6A] + ([0x67, 0x70, 0x88] + ([0x26] + ([0x12, 0x60, 0x8D] + (tail))))
  }

  lemma LastBits()
    ensures Packs(End(Trailing(7)), [0x80])
  {
    FixedAppend(1, 1, 7, 0);
    OneCode();
    ZeroCode(7);
    SmallPowers();
    hide FixedCode, Pack;
    PackByte(128, []);
    assert FixedCode(8, 128) + [] == FixedCode(8, 128) && [128] + Pack([]) == [128] by {
      NothingPacked();
    }
  }

  lemma NothingPacked()
    ensures Pack([]) == []
  {
  }

  lemma SpsPacks()
    ensures Packs(AllSps(End(Trailing(7))), SpsFront([0, 0, 0, 1] + SpsBack([0x80])))
  {
    hide Packs, Trailing;
    LastBits();
    var k, b: seq<byte> := End(Trailing(7)), [0x80];
    Sps18Packs(k, b);
    k, b := Sps18(k), [0x23, 0x19, 0x32] + b;
    Sps17Packs(k, b);
    k, b := Sps17(k), [0x4F, 0x98, 0x3B] + b;
    Sps16Packs(k, b);
    k, b := Sps16(k), [0xC6, 0x7A, 0x45] + b;
    Sps15Packs(k, b);
    k, b := Sps15(k), [0x2C, 0x42, 0x5C, 0xD1] + b;
    Sps14Packs(k, b);
    k, b := Sps14(k), [0xD3, 0x5B] + b;
    Sps13Packs(k, b);
    k, b := Sps13(k), [0x9A, 0xBC, 0xDE, 0xF1] + b;
    Sps12Packs(k, b);
    k, b := Sps12(k), [0x00, 0x00, 0x00, 0x01] + b;
    Sps11Packs(k, b);
    k, b := Sps11(k), [0x15] + b;
    Sps10Packs(k, b);
    k, b := Sps10(k), [0xC2, 0x43, 0x80, 0xE5] + b;
    Sps9Packs(k, b);
    k, b := Sps9(k), [0xFF, 0xC2, 0x8D, 0x09, 0x59, 0xED] + b;
    Sps8Packs(k, b);
    k, b := Sps8(k), [0x52, 0x0E, 0x65] + b;
    Sps7Packs(k, b);
    k, b := Sps7(k), [0x2C, 0x5A] + b;
    Sps6Packs(k, b);
    k, b := Sps6(k), [0x9C, 0x43, 0x23] + b;
    Sps5Packs(k, b);
    k, b := Sps5(k), [0x09, 0x80, 0x6A] + b;
    Sps4Packs(k, b);
    k, b := Sps4(k), [0x0A] + b;
    Sps3Packs(k, b);
    k, b := Sps3(k), [0x6A, 0x11] + b;
    Sps2Packs(k, b);
    k, b := Sps2(k), [0x44, 0x89] + b;
    Sps1Packs(k, b);
    k, b := Sps1(k), [0xF4, 0xB2, 0x33] + b;
  }

  lemma PpsPacks()
    ensures Packs(AllPps(End(Trailing(7))), PpsBytes([0x80]))
  {
    hide Packs, Trailing;
    LastBits();
    var k, b: seq<byte> := End(Trailing(7)), [0x80];
    Pps4Packs(k, b);
    k, b := Pps4(k), [0x12, 0x60, 0x8D] + b;
    Pps3Packs(k, b);
    k, b := Pps3(k), [0x26] + b;
    Pps2Packs(k, b);
    k, b := Pps2(k), [0x67, 0x70, 0x88] + b;
    Pps1Packs(k, b);
    k, b := Pps1(k), [0x6A] + b;
  }

  // ----- the file -----

  /** Bytes without zeros are not changed. */
  lemma {:induction false} EscapePlain(a: seq<byte>, b: seq<byte>)
    requires forall i :: 0 <= i < |a| ==> a[i] != 0
    ensures Emulation.EscapeFrom(a + b, 0) == a + Emulation.EscapeFrom(b, 0)
  {
    if a == [] {
      assert a + b == b;
    } else {
      assert (a + b)[1..] == a[1..] + b;
      EscapePlain(a[1..], b);
      AppendAssoc([a[0]], a[1..], Emulation.EscapeFrom(b, 0));
      assert [a[0]] + a[1..] == a;
    }
  }

  lemma EscapedClock(rest: seq<byte>)
    ensures Emulation.EscapeFrom([0, 0, 0, 1] + rest, 0) == [0, 0, 3, 0, 1] + Emulation.EscapeFrom(rest, 0)
  {
    assert ([0, 0, 0, 1] + rest)[1..] == [0, 0, 1] + rest;
    assert ([0, 0, 1] + rest)[1..] == [0, 1] + rest;
    assert ([0, 1] + rest)[1..] == [1] + rest;
    assert ([1] + rest)[1..] == rest;
    var e := Emulation.EscapeFrom(rest, 0);
    assert Emulation.EscapeFrom([1] + rest, 1) == [1] + e;
    assert Emulation.EscapeFrom([0, 1] + rest, 2) == [3, 0] + ([1] + e);
  }

  lemma EscapedLast()
    ensures Emulation.EscapeFrom([0x80], 0) == [0x80] && Emulation.EscapeFrom([0xF0], 0) == [0xF0]
  {
    EscapePlain([0x80], []);
    EscapePlain([0xF0], []);
    assert [0x80] + [] == [0x80] && [0xF0] + [] == [0xF0];
  }

  lemma EscapedFront(tail: seq<byte>)
    requires tail != []
    ensures Emulation.EscapeFrom(SpsFront(tail), 0) == SpsFront(Emulation.EscapeFrom(tail, 0))
    ensures SpsFront(tail) != [] && SpsFront(tail)[|SpsFront(tail)| - 1] == tail[|tail| - 1]
  {
    var b := tail;
    hide Emulation.EscapeFrom;
    EscapePlain([0x15], b);
    b := [0x15] + b;
    EscapePlain([0xC2, 0x43, 0x80, 0xE5], b);
    b := [0xC2, 0x43, 0x80, 0xE5] + b;
    EscapePlain([0xFF, 0xC2, 0x8D, 0x09, 0x59, 0xED], b);
    b := [0xFF, 0xC2, 0x8D, 0x09, 0x59, 0xED] + b;
    EscapePlain([0x52, 0x0E, 0x65], b);
    b := [0x52, 0x0E, 0x65] + b;
    EscapePlain([0x2C, 0x5A], b);
    b := [0x2C, 0x5A] + b;
    EscapePlain([0x9C, 0x43, 0x23], b);
    b := [0x9C, 0x43, 0x23] + b;
    EscapePlain([0x09, 0x80, 0x6A], b);
    b := [0x09, 0x80, 0x6A] + b;
    EscapePlain([0x0A], b);
    b := [0x0A] + b;
    EscapePlain([0x6A, 0x11], b);
    b := [0x6A, 0x11] + b;
    EscapePlain([0x44, 0x89], b);
    b := [0x44, 0x89] + b;
    EscapePlain([0xF4, 0xB2, 0x33], b);
    b := [0xF4, 0xB2, 0x33] + b;
  }

  lemma EscapedBack(tail: seq<byte>)
    requires tail != []
    ensures Emulation.EscapeFrom(SpsBack(tail), 0) == SpsBack(Emulation.EscapeFrom(tail, 0))
    ensures SpsBack(tail) != [] && SpsBack(tail)[|SpsBack(tail)| - 1] == tail[|tail| - 1]
  {
    var b := tail;
    hide Emulation.EscapeFrom;
    EscapePlain([0x23, 0x19, 0x32], b);
    b := [0x23, 0x19, 0x32] + b;
    EscapePlain([0x4F, 0x98, 0x3B], b);
    b := [0x4F, 0x98, 0x3B] + b;
    EscapePlain([0xC6, 0x7A, 0x45], b);
    b := [0xC6, 0x7A, 0x45] + b;
    EscapePlain([0x2C, 0x42, 0x5C, 0xD1], b);
    b := [0x2C, 0x42, 0x5C, 0xD1] + b;
    EscapePlain([0xD3, 0x5B], b);
    b := [0xD3, 0x5B] + b;
    EscapePlain([0x9A, 0xBC, 0xDE, 0xF1], b);
    b := [0x9A, 0xBC, 0xDE, 0xF1] + b;
  }

  lemma EscapedPps(tail: seq<byte>)
    requires tail != []
    ensures Emulation.EscapeFrom(PpsBytes(tail), 0) == PpsBytes(Emulation.EscapeFrom(tail, 0))
    ensures PpsBytes(tail) != [] && PpsBytes(tail)[|PpsBytes(tail)| - 1] == tail[|tail| - 1]
  {
    var b := tail;
    hide Emulation.EscapeFrom;
    EscapePlain([0x12, 0x60, 0x8D], b);
    b := [0x12, 0x60, 0x8D] + b;
    EscapePlain([0x26], b);
    b := [0x26] + b;
    EscapePlain([0x67, 0x70, 0x88], b);
    b := [0x67, 0x70, 0x88] + b;
    EscapePlain([0x6A], b);
    b := [0x6A] + b;
  }

  lemma NoTail(r: seq<byte>)
    requires r != [] && r[|r| - 1] != 0
    ensures Emulation.Escape(r) == Emulation.EscapeFrom(r, 0)
  {
    assert Emulation.EscapeFrom(r, 0) + [] == Emulation.EscapeFrom(r, 0);
  }

  /** The clock field is the only place that needs an emulation prevention byte. */
  lemma SampleEscaped()
    ensures Emulation.Escape(SpsFront([0, 0, 0, 1] + SpsBack([0x80]))) == SpsFront([0, 0, 3, 0, 1] + SpsBack([0x80]))
    ensures Emulation.Escape(PpsBytes([0x80])) == PpsBytes([0x80]) && Emulation.Escape([0xF0]) == [0xF0]
  {
    hide SpsFront, SpsBack, PpsBytes, Emulation.EscapeFrom, Emulation.Escape;
    EscapedLast();
    EscapedBack([0x80]);
    EscapedClock(SpsBack([0x80]));
    EscapedFront([0, 0, 0, 1] + SpsBack([0x80]));
    EscapedPps([0x80]);
    NoTail(SpsFront([0, 0, 0, 1] + SpsBack([0x80])));
    NoTail(PpsBytes([0x80]));
    NoTail([0xF0]);
  }

  const SPS_UNIT := Unit(true, 0x67, SpsContent(SPS, 2, 7))
  const PPS_UNIT := Unit(false, 0x68, PpsContent(PPS, 7))
  const DELIMITER := Unit(false, 0x09, OtherContent([0xF0]))
  const UNITS := [SPS_UNIT, PPS_UNIT, DELIMITER]

  const FILE: seq<byte> :=
    ([0, 0, 0, 1] + ([0x67] + SpsFront([0, 0, 3, 0, 1] + SpsBack([0x80]))))
    + (([0, 0, 1] + ([0x68] + PpsBytes([0x80]))) + ([0, 0, 1] + ([0x09] + [0xF0])))

  lemma SpsUnit()
    ensures SPS_UNIT.Valid() && SPS_UNIT.Source() == SourceNal(true, 0x67, SpsFront([0, 0, 0, 1] + SpsBack([0x80])))
  {
    hide Sps.SpsTable, Sps.InRange, Pack, Table.Bits, SpsFront, SpsBack, SPS, Trailing, AllSps;
    SpsPacks();
    AllSpsRows(End(Trailing(7)));
    assert Pow2(2) == 4;
  }

  lemma PpsUnit()
    ensures PPS_UNIT.Valid() && PPS_UNIT.Source() == SourceNal(false, 0x68, PpsBytes([0x80]))
  {
    hide Pps.PpsTable, Pps.InRange, Pack, Table.Bits, PpsBytes, PPS, Trailing, AllPps;
    PpsPacks();
    AllPpsRows(End(Trailing(7)));
  }

  lemma DelimiterUnit()
    ensures DELIMITER.Valid() && DELIMITER.Source() == SourceNal(false, 0x09, [0xF0])
  {
  }

  lemma UnitsValid()
    ensures forall i :: 0 <= i < |UNITS| ==> UNITS[i].Valid()
  {
    hide Unit.Valid, SPS_UNIT, PPS_UNIT, DELIMITER;
    SpsUnit();
    PpsUnit();
    DelimiterUnit();
  }

  lemma FlattenThree(a: seq<byte>, b: seq<byte>, c: seq<byte>)
    ensures Flatten([a, b, c]) == a + (b + c)
  {
    assert [a, b, c] == [a] + [b, c] && [b, c] == [b] + [c] && [c] == [c] + [];
    hide Flatten;
    FlattenCons(a, [b, c]);
    FlattenCons(b, [c]);
    FlattenCons(c, []);
    NothingFlat(c);
  }

  lemma NothingFlat(c: seq<byte>)
    ensures c + Flatten([]) == c
  {
  }

  lemma UnitBytes(n: SourceNal, escaped: seq<byte>)
    requires Emulation.Escape(n.payload) == escaped
    ensures n.Encoded().Bytes() == (if n.four then [0, 0, 0, 1] else [0, 0, 1]) + ([n.header] + escaped)
  {
    hide Emulation.Escape;
  }

  lemma FileOfSample()
    ensures forall i :: 0 <= i < |UNITS| ==> UNITS[i].Valid()
    ensures Flatten(Written(Encoded(Sources(UNITS)))) == FILE
  {
    UnitsValid();
    hide SpsFront, SpsBack, PpsBytes, SPS_UNIT, PPS_UNIT, DELIMITER, Unit.Valid, Unit.Source, Emulation.Escape;
    hide Flatten, SourceNal.Encoded;
    SpsUnit();
    PpsUnit();
    DelimiterUnit();
    SampleEscaped();
    UnitBytes(SPS_UNIT.Source(), SpsFront([0, 0, 3, 0, 1] + SpsBack([0x80])));
    UnitBytes(PPS_UNIT.Source(), PpsBytes([0x80]));
    UnitBytes(DELIMITER.Source(), [0xF0]);
    var x, y, z := SPS_UNIT.Source().Encoded().Bytes(), PPS_UNIT.Source().Encoded().Bytes(),
                   DELIMITER.Source().Encoded().Bytes();
    assert Written(Encoded(Sources(UNITS))) == [x, y, z];
    FlattenThree(x, y, z);
  }

  /** The scaling lists filled in. */
  function Sixteen(): seq<int> {
    [8, 8, 8, 8, 8, 8, 8, 8, 8, 8, 8, 8, 8, 8, 8, 8]
  }

  const FOUND_LISTS: seq<Option<Sps.ScalingList>> :=
    [None, Some(Sps.ScalingList(Sixteen(), true)), None, None, None, None,
     Some(Sps.ScalingList(seq(64, _ => 9), false)), None, None, None, None, None]

  const FOUND_SPS: Sps.Sps<Sps.ScalingList> :=
    Sps.Sps(244, FLAGS, 51, 1, Some(Sps.High(3, 1, 8, 2, 0, Some(FOUND_LISTS))), 12, POC, FRAME)

  lemma SampleLists()
    requires Sps.ListsInRange(LISTS)
    ensures Sps.ExpandedLists(LISTS) == FOUND_LISTS
  {
    var found := Sps.ExpandedLists(LISTS);
    assert Sps.Expanded([], 16).values == Sixteen();
    assert Sps.Expanded([9], 64).values == seq(64, _ => 9);
    hide Sps.Expanded;
    assert found[1] == Some(Sps.Expanded([], 16)) && found[6] == Some(Sps.Expanded([9], 64));
  }

  lemma SampleOffsets()
    ensures Sps.PocRead(POC) == POC
  {
    Sps.PocUnchanged(POC);
  }

  lemma SampleFilled()
    requires Sps.InRange(SPS)
    ensures Sps.Filled(SPS) == FOUND_SPS
  {
    SampleOffsets();
    hide LISTS, FOUND_LISTS, POC, FRAME, FLAGS, Sps.InRange, Sps.ExpandedLists, Sps.PocRead;
    assert Sps.ListsInRange(LISTS) by {
      ListRows(End([]));
    }
    SampleLists();
  }

  /** The decoder finds both parameter sets in the file, with these values. */
  method DecodeSample() returns (found: seq<ParameterSet>)
    ensures found == [FoundSps(FOUND_SPS), FoundPps(PPS)]
  {
    hide FILE, SPS, PPS, FOUND_SPS, Unit.Valid, Sources, Flatten, Sps.Filled, Sps.InRange;
    FileOfSample();
    AllSpsRows(End([]));
    SampleFilled();
    found := DecodeParameterSets(FILE, UNITS);
    TwoSets(UNITS);
  }

  lemma TwoSets(units: seq<Unit>)
    requires |units| == 3 && forall i :: 0 <= i < |units| ==> units[i].Valid()
    ensures ParameterSets(units[..2]) == ParameterSetOf(units[0]) + ParameterSetOf(units[1])
  {
    hide ParameterSetOf, Unit.Valid;
    assert units[..2][..1] == units[..1] && units[..1][..0] == [];
    assert ParameterSets(units[..1]) == [] + ParameterSetOf(units[0]);
  }

  // ----- the branches that the file does not take -----

  /** The profiles whose parameter sets have the fields of the high profiles. */
  lemma HighProfiles(p: nat)
    ensures Sps.IsHigh(p) <==>
              p == 100 || p == 110 || p == 122 || p == 244 || p == 44 || p == 83 || p == 86 || p == 118 || p == 128
              || p == 138 || p == 139 || p == 134 || p == 135
  {
  }

  const SMALL_VUI := Sps.Vui(Some(Sps.Aspect(7, 0, 0)), None, Some(Sps.VideoSignal(2, 0, None)), None, None, None, None,
                             0, 1, None)
  const PLAIN_FRAME := Sps.Frame(2, 0, 19, 14, 1, 0, 1, None, Some(SMALL_VUI))

  /** Frame coding only, no cropping, and a VUI of which nearly all is absent. */
  lemma PlainFrameRows(k: Table)
    ensures Sps.FrameInRange(PLAIN_FRAME)
    ensures Sps.FrameTable(PLAIN_FRAME, k)
         == Row(UE(2), Row(U(1, 0), Row(UE(19), Row(UE(14), Row(U(1, 1), Row(U(1, 1), Row(U(1, 0), Row(U(1, 1),
            SmallVui(k)))))))))
  {
    SmallPowers();
    assert Pow2(8) == 256 && Pow2(16) == 0x1_0000;
    assert SMALL_VUI.InRange();
    assert Sps.VuiTable(SMALL_VUI, k) == SmallVui(k);
    hide Sps.VuiTable, Sps.Vui.InRange, SmallVui;
  }

  function SmallVui(k: Table): Table {
    Row(U(1, 1), Row(U(8, 7), Row(U(1, 0), Row(U(1, 1), Row(U(3, 2), Row(U(1, 0), Row(U(1, 0), Row(U(1, 0),
    Row(U(1, 0), Row(U(1, 0), Row(U(1, 0), Row(U(1, 1), Row(U(1, 0), k)))))))))))))
  }

  const NO_LISTS: seq<Option<Sps.ScalingCode>> := [None, None, None, None, None, None, None, None]
  const PLAIN_HIGH := Sps.High(1, 0, 3, 4, 1, Some(NO_LISTS))

  /** Eight scaling lists and no flag for separate planes unless the chroma format is 3. */
  lemma PlainHighRows(k: Table)
    ensures Sps.HighInRange(PLAIN_HIGH)
    ensures Sps.HighTable(PLAIN_HIGH, k)
         == Row(UE(1), Row(UE(3), Row(UE(4), Row(U(1, 1), Row(U(1, 1),
            Row(U(1, 0), Row(U(1, 0), Row(U(1, 0), Row(U(1, 0), Row(U(1, 0), Row(U(1, 0), Row(U(1, 0), Row(U(1, 0),
            k)))))))))))))
  {
    SmallPowers();
    assert Sps.ListsTable(NO_LISTS, 8, k) == k;
    assert Sps.ListsTable(NO_LISTS, 6, k) == Row(U(1, 0), Row(U(1, 0), k));
    assert Sps.ListsTable(NO_LISTS, 4, k) == Row(U(1, 0), Row(U(1, 0), Row(U(1, 0), Row(U(1, 0), k))));
    assert Sps.ListsTable(NO_LISTS, 2, k)
        == Row(U(1, 0), Row(U(1, 0), Row(U(1, 0), Row(U(1, 0), Row(U(1, 0), Row(U(1, 0), k))))));
  }

  /** Without scaling lists only their flag is written. */
  lemma NoListsRows(k: Table)
    ensures Sps.HighTable(Sps.High(2, 0, 5, 6, 0, None), k)
         == Row(UE(2), Row(UE(5), Row(UE(6), Row(U(1, 0), Row(U(1, 0), k)))))
  {
  }

  /** The other picture order count types. */
  lemma PlainPocRows(k: Table)
    ensures Sps.PocTable(Sps.Poc0(6), k) == Row(UE(0), Row(UE(6), k))
    ensures Sps.PocTable(Sps.PocOther(2), k) == Row(UE(2), k)
  {
  }

  /** A profile that is not a high one. */
  lemma BaselineRows(v: Sps.Sps<Sps.ScalingCode>, k: Table)
    requires Sps.InRange(v) && v.profileIdc == 66
    ensures Sps.SpsTable(v, 0, k)
         == Row(U(8, 66),
            Row(U(1, v.constraintFlags[0]), Row(U(1, v.constraintFlags[1]), Row(U(1, v.constraintFlags[2]),
            Row(U(1, v.constraintFlags[3]), Row(U(1, v.constraintFlags[4]), Row(U(1, v.constraintFlags[5]),
            Row(U(2, 0), Row(U(8, v.levelIdc), Row(UE(v.id),
            Row(UE(v.log2MaxFrameNumMinus4), Sps.PocTable(v.poc, Sps.FrameTable(v.frame, k)))))))))))))
  {
    hide Sps.PocTable, Sps.FrameTable;
  }

  /** The slice group map types besides the one in the file. */
  lemma MapRows(k: Table)
    ensures Pps.GroupsTable(None, k) == Row(UE(0), k)
    ensures Pps.MapTable(Pps.Interleaved([5, 4]), 1, k) == Row(UE(0), Row(UE(5), Row(UE(4), k)))
    ensures Pps.MapTable(Pps.Foreground([Pps.Corner(1, 9)]), 1, k) == Row(UE(2), Row(UE(1), Row(UE(9), k)))
    ensures Pow2(1) == 2 && Pps.MapTable(Pps.Changing(4, 1, 7), 1, k) == Row(UE(4), Row(U(1, 1), Row(UE(7), k)))
    ensures Pps.MapTable(Pps.NoParameters(1), 1, k) == Row(UE(1), k)
  {
    var runs: seq<nat> := [5, 4];
    var corners := [Pps.Corner(1, 9)];
    assert Pps.RunsTable(runs, 2, k) == k && Pps.RunsTable(runs, 1, k) == Row(UE(4), k);
    assert Pps.CornersTable(corners, 1, k) == k;
  }
}
