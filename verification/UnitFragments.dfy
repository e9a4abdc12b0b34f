/**
  The proxy's fragment cache: NAL units come from a file that is read again and again, are cut
  into FU fragments (H.264: RFC 6184 section 5.8, H.265: RFC 7798 section 4.4.3) and handed out one by one.
*/
module UnitFragments {
  import opened Bytes
  import opened AnnexB
  import opened NalSource
  import opened SplitterAgreement
  import FuA
  import opened Receiver

  const RTP_PAYLOAD_MAX_SIZE := FuA.RTP_PAYLOAD_MAX_SIZE

  /** `data` are the bytes written into the fragment, `size` is what it claims to hold. */
  datatype Fragment = Fragment(marker: int, data: seq<byte>, size: int)

  function Indicator265(naluHeader: byte): (b: byte)
    ensures b / 2 % 64 == FU_265 && b / 128 == naluHeader / 128 && b % 2 == naluHeader % 2
  {
    naluHeader / 128 * 128 + FU_265 * 2 + naluHeader % 2
  }

  function FuHeader265(naluHeader: byte, fragType: int): (b: byte)
    ensures b % 64 == naluHeader / 2 % 64
    ensures (b / 128 == 1 <==> fragType == 1) && (b / 64 % 2 == 1 <==> fragType == 2)
  {
    (if fragType == 1 then 128 else 0) + (if fragType == 2 then 64 else 0) + naluHeader / 2 % 64
  }

  /** The FU bytes in front of a fragment's payload. */
  function Prefix(nal: seq<byte>, is265: bool, fragType: int): (p: seq<byte>)
    requires |nal| >= 2
    ensures |p| == HeaderSize(is265) + 1
  {
    if is265 then [Indicator265(nal[0]), nal[1], FuHeader265(nal[0], fragType)]
    else [FuA.Indicator(nal[0]), FuA.FuHeader(nal[0], fragType)]
  }

  /** The FU bytes of an H.264 slice of an IDR picture, and of an H.265 one of type 19. */
  lemma SamplePrefixes()
    ensures Prefix([0x65, 0], false, 1) == [0x7C, 0x85] && Prefix([0x65, 0], false, 0) == [0x7C, 0x05]
    ensures Prefix([0x65, 0], false, 2) == [0x7C, 0x45]
    ensures Prefix([0x26, 0x01], true, 1) == [0x62, 0x01, 0x93] && Prefix([0x26, 0x01], true, 0) == [0x62, 0x01, 0x13]
    ensures Prefix([0x26, 0x01], true, 2) == [0x62, 0x01, 0x53]
  {
  }

  function Body(nal: seq<byte>, is265: bool): seq<byte>
    requires |nal| >= 2
  {
    nal[HeaderSize(is265)..]
  }

  /** Fragment k of a unit too large for one packet. */
  function FragmentAt(nal: seq<byte>, is265: bool, k: nat): (f: Fragment)
    requires |nal| >= RTP_PAYLOAD_MAX_SIZE && k < FuA.FragmentCount(|Body(nal, is265)|)
  {
    var body := Body(nal, is265);
    var fragType := FuA.FragType(k, FuA.FragmentCount(|body|));
    Fragment(
      if fragType == 2 then 1 else 0,
      Prefix(nal, is265, fragType) + FuA.Piece(body, k),
      HeaderSize(is265) + 1 + if fragType == 2 then FuA.LastFragmentSize(|body|) else RTP_PAYLOAD_MAX_SIZE)
  }

  /** All fragments of a unit. */
  function Fragmented(nal: seq<byte>, is265: bool): (fs: seq<Fragment>)
    requires nal != []
    ensures fs != []
  {
    if |nal| < RTP_PAYLOAD_MAX_SIZE then [Fragment(0, nal, |nal|)]
    else
      var count := FuA.FragmentCount(|Body(nal, is265)|);
      seq(count, k requires 0 <= k < count => FragmentAt(nal, is265, k))
  }

  // ----- what the fragments say about the unit -----

  function PayloadsOf(fs: seq<Fragment>, is265: bool): (ps: seq<seq<byte>>)
    requires forall k :: 0 <= k < |fs| ==> Prefixed(fs[k].data, is265)
    ensures |ps| == |fs|
  {
    seq(|fs|, k requires 0 <= k < |fs| => Payload(fs[k].data, is265))
  }

  /** The receiver's view: the unit header from the first fragment, then all payloads. */
  function Rebuilt(fs: seq<Fragment>, is265: bool): seq<byte>
    requires fs != [] && forall k :: 0 <= k < |fs| ==> Prefixed(fs[k].data, is265)
  {
    HeaderOf(fs[0].data, is265) + Flatten(PayloadsOf(fs, is265))
  }

  lemma OneFragment(nal: seq<byte>, is265: bool, k: nat)
    requires |nal| >= RTP_PAYLOAD_MAX_SIZE && k < |Fragmented(nal, is265)|
    ensures var f := Fragmented(nal, is265)[k];
            && Prefixed(f.data, is265)
            && Payload(f.data, is265) == FuA.Piece(Body(nal, is265), k)
            && HeaderOf(f.data, is265) == nal[..HeaderSize(is265)]
  {
    var body := Body(nal, is265);
    var f := FragmentAt(nal, is265, k);
    PrefixedData(nal, is265, FuA.FragType(k, FuA.FragmentCount(|body|)), FuA.Piece(body, k), f.data);
    hide Prefixed, Payload, HeaderOf, FragmentAt, FuA.Piece;
  }

  lemma PrefixedData(nal: seq<byte>, is265: bool, fragType: int, piece: seq<byte>, p: seq<byte>)
    requires |nal| >= 2 && p == Prefix(nal, is265, fragType) + piece
    ensures Prefixed(p, is265) && Payload(p, is265) == piece
    ensures HeaderOf(p, is265) == nal[..HeaderSize(is265)]
    ensures p[0] == Prefix(nal, is265, fragType)[0]
    ensures p[HeaderSize(is265)] == Prefix(nal, is265, fragType)[HeaderSize(is265)]
  {
    PrefixKeepsHeader(nal, is265, fragType);
    var prefix := Prefix(nal, is265, fragType);
    hide Prefix;
    Behind(prefix, piece);
  }

  lemma Behind(prefix: seq<byte>, piece: seq<byte>)
    ensures (prefix + piece)[|prefix|..] == piece
    ensures forall i :: 0 <= i < |prefix| ==> (prefix + piece)[i] == prefix[i]
  {
  }

  /** The FU bytes keep every bit of the unit header. */
  lemma PrefixKeepsHeader(nal: seq<byte>, is265: bool, fragType: int)
    requires |nal| >= 2
    ensures var p := Prefix(nal, is265, fragType);
            if is265 then p[0] / 128 * 128 + p[2] % 64 * 2 + p[0] % 2 == nal[0] && p[1] == nal[1]
            else p[0] / 32 * 32 + p[1] % 32 == nal[0]
    ensures nal[..HeaderSize(is265)] == if is265 then [nal[0], nal[1]] else [nal[0]]
  {
    hide Indicator265, FuHeader265, FuA.Indicator, FuA.FuHeader;
    if is265 {
      HeaderBits265(nal[0], Indicator265(nal[0]), FuHeader265(nal[0], fragType));
    } else {
      HeaderBits264(nal[0], FuA.Indicator(nal[0]), FuA.FuHeader(nal[0], fragType));
    }
  }

  lemma HeaderBits264(header: byte, indicator: byte, fu: byte)
    requires indicator / 32 == header / 32 && fu % 32 == header % 32
    ensures indicator / 32 * 32 + fu % 32 == header
  {
  }

  lemma HeaderBits265(header: byte, indicator: byte, fu: byte)
    requires indicator / 128 == header / 128 && indicator % 2 == header % 2 && fu % 64 == header / 2 % 64
    ensures indicator / 128 * 128 + fu % 64 * 2 + indicator % 2 == header
  {
    assert header / 2 == header / 128 * 64 + header / 2 % 64;
  }

  lemma NoPayload(ps: seq<seq<byte>>, piece: seq<byte>)
    requires |ps| == 0
    ensures Flatten(ps) + piece == piece && Flatten(ps) == []
  {
  }

  lemma PayloadsOfMore(fs: seq<Fragment>, is265: bool, k: nat)
    requires 0 < k <= |fs| && forall i :: 0 <= i < k ==> Prefixed(fs[..k][i].data, is265)
    ensures PayloadsOf(fs[..k], is265) == PayloadsOf(fs[..k - 1], is265) + [Payload(fs[k - 1].data, is265)]
  {
    hide Payload, Prefixed;
    assert forall i :: 0 <= i < k ==> fs[i] == fs[..k][i];
  }

  /** How much of the unit the first k fragments carry. */
  function Covered(nal: seq<byte>, is265: bool, k: nat): (n: nat)
    requires |nal| >= RTP_PAYLOAD_MAX_SIZE && k <= |Fragmented(nal, is265)|
    ensures n <= |Body(nal, is265)|
    ensures k == 0 ==> n == 0
    ensures k == |Fragmented(nal, is265)| ==> n == |Body(nal, is265)|
  {
    if k == |Fragmented(nal, is265)| then |Body(nal, is265)| else RTP_PAYLOAD_MAX_SIZE * k
  }

  lemma CoveredMore(nal: seq<byte>, is265: bool, k: nat)
    requires |nal| >= RTP_PAYLOAD_MAX_SIZE && k < |Fragmented(nal, is265)|
    ensures var f, body := Fragmented(nal, is265)[k], Body(nal, is265);
            && Prefixed(f.data, is265)
            && body[..Covered(nal, is265, k + 1)] == body[..Covered(nal, is265, k)] + Payload(f.data, is265)
  {
    OneFragment(nal, is265, k);
    FuA.PiecesCover(Body(nal, is265), k);
  }

  lemma {:induction false} PayloadsAreBody(nal: seq<byte>, is265: bool, k: nat)
    requires |nal| >= RTP_PAYLOAD_MAX_SIZE && k <= |Fragmented(nal, is265)|
    requires forall i :: 0 <= i < k ==> Prefixed(Fragmented(nal, is265)[..k][i].data, is265)
    ensures Flatten(PayloadsOf(Fragmented(nal, is265)[..k], is265))
         == Body(nal, is265)[..Covered(nal, is265, k)]
  {
    var fs := Fragmented(nal, is265);
    hide *;
    if k == 0 {
      NoPayload(PayloadsOf(fs[..0], is265), []);
    } else {
      assert fs[..k - 1] == fs[..k][..k - 1];
      assert fs[..k][k - 1] == fs[k - 1];
      CoveredMore(nal, is265, k - 1);
      PayloadsOfMore(fs, is265, k);
      FlattenSnoc(PayloadsOf(fs[..k - 1], is265), Payload(fs[k - 1].data, is265));
      PayloadsAreBody(nal, is265, k - 1);
    }
  }

  /** The fragments of a large unit carry exactly the unit. */
  lemma FragmentsCarryUnit(nal: seq<byte>, is265: bool)
    requires |nal| >= RTP_PAYLOAD_MAX_SIZE
    ensures forall k :: 0 <= k < |Fragmented(nal, is265)| ==> Prefixed(Fragmented(nal, is265)[k].data, is265)
    ensures Rebuilt(Fragmented(nal, is265), is265) == nal
  {
    var fs, body := Fragmented(nal, is265), Body(nal, is265);
    hide Fragmented, Body, HeaderSize, PayloadsOf, Payload, HeaderOf, Prefixed, Covered, Flatten;
    forall k | 0 <= k < |fs| ensures Prefixed(fs[k].data, is265) {
      OneFragment(nal, is265, k);
    }
    OneFragment(nal, is265, 0);
    PayloadsAreBody(nal, is265, |fs|);
    HeaderAndBody(nal, is265);
    assert fs[..|fs|] == fs && body[..|body|] == body;
  }

  lemma HeaderAndBody(nal: seq<byte>, is265: bool)
    requires |nal| >= 2
    ensures nal == nal[..HeaderSize(is265)] + Body(nal, is265)
  {
  }

  /**
    A fragment claims more bytes than it holds exactly when the unit needs FU packaging but its
    only fragment is not full: 1400 bytes for H.264, 1400 or 1401 bytes for H.265.
  */
  lemma SizesAreTrue(nal: seq<byte>, is265: bool)
    requires nal != []
    ensures (forall k :: 0 <= k < |Fragmented(nal, is265)| ==>
               Fragmented(nal, is265)[k].size == |Fragmented(nal, is265)[k].data|)
            <==> !(RTP_PAYLOAD_MAX_SIZE <= |nal| < RTP_PAYLOAD_MAX_SIZE + HeaderSize(is265))
  {
    var fs := Fragmented(nal, is265);
    if |nal| >= RTP_PAYLOAD_MAX_SIZE {
      var body := Body(nal, is265);
      var count := FuA.FragmentCount(|body|);
      if |body| < RTP_PAYLOAD_MAX_SIZE {
        assert fs[0].size != |fs[0].data|;
      }
    }
  }

  /** What an overstated size is: that of a full fragment, more than the one that holds the unit. */
  lemma OverstatedSize(nal: seq<byte>, is265: bool)
    requires 1400 <= |nal| < 1400 + HeaderSize(is265)
    ensures var fs := Fragmented(nal, is265);
            |fs| == 1 && |fs[0].data| == |nal| + 1 && fs[0].size == if is265 then 1403 else 1402
  {
  }

  // ----- the cache -----

  /** The units that are handed out: those of one pass over the file that are not empty. */
  function NonEmpty(results: seq<seq<byte>>): (units: seq<seq<byte>>)
    ensures forall i :: 0 <= i < |units| ==> units[i] != []
  {
    if results == [] then []
    else (if results[0] == [] then [] else [results[0]]) + NonEmpty(results[1..])
  }

  /** Every result that is not empty is handed out, in order, and no other. */
  lemma {:induction false} OnlyEmptyOnesSkipped(a: seq<seq<byte>>, b: seq<seq<byte>>, x: seq<byte>)
    ensures NonEmpty([]) == [] && NonEmpty([x]) == if |x| == 0 then [] else [x]
    ensures NonEmpty(a + b) == NonEmpty(a) + NonEmpty(b)
    decreases |a|
  {
    var one: seq<seq<byte>> := [x];
    assert one[1..] == [];
    if a == [] {
      assert a + b == b;
    } else {
      assert (a + b)[1..] == a[1..] + b;
      OnlyEmptyOnesSkipped(a[1..], b, x);
    }
  }

  function UnitsOf(s: seq<byte>): (units: seq<seq<byte>>)
    ensures forall i :: 0 <= i < |units| ==> units[i] != []
  {
    NonEmpty(Results(s))
  }

  lemma {:induction false} NoneEmpty(nals: seq<seq<byte>>)
    requires forall i :: 0 <= i < |nals| ==> nals[i] != []
    ensures NonEmpty(nals) == nals
  {
    if nals != [] {
      NoneEmpty(nals[1..]);
      assert nals == [nals[0]] + nals[1..];
    }
  }

  /** From a written file that starts with 00 00 00 01, the units handed out are all but the last. */
  lemma UnitsOfWritten(units: seq<Coded>, beyond: byte)
    requires units != [] && units[0].four
    requires forall i :: 0 <= i < |units| ==> Separable(units[i].nal) && units[i].nal != []
    ensures UnitsOf(Delivered(Flatten(Written(units)), beyond)) == Nals(units[..|units| - 1])
  {
    var nals := Nals(units[..|units| - 1]);
    SplittersAgree(units, beyond);
    hide Results, Delivered, Written, Flatten, Separable, Split;
    NoneEmpty(nals);
    assert ([[]] + nals)[1..] == nals;
  }

  /** n modulo count. */
  function Wrap(n: nat, count: nat): (i: nat)
    requires count > 0
    ensures i < count
  {
    if n < count then n else Wrap(n - count, count)
  }

  /** The fragments of the first n units when the file is read over and over. */
  function FragmentStream(units: seq<seq<byte>>, is265: bool, n: nat): seq<Fragment>
    requires units != [] && forall i :: 0 <= i < |units| ==> units[i] != []
  {
    if n == 0 then [] else FragmentStream(units, is265, n - 1) + Fragmented(units[Wrap(n - 1, |units|)], is265)
  }

  lemma UnitsStep(s: seq<byte>)
    ensures var r := Copy(s, 0);
            UnitsOf(s) == if r.Ended? then []
                          else if r.nal == [] then UnitsOf(s[r.used..])
                          else [r.nal] + UnitsOf(s[r.used..])
  {
    var r := Copy(s, 0);
    if r.Found? {
      assert Results(s)[1..] == Results(s[r.used..]);
      assert [] + UnitsOf(s[r.used..]) == UnitsOf(s[r.used..]);
    }
  }

  lemma FitsStep(s: seq<byte>)
    requires Fits(s, NAL_BUF_SIZE)
    ensures Copy(s, 0).Size() <= NAL_BUF_SIZE
    ensures Copy(s, 0).Found? ==> Fits(s[Copy(s, 0).used..], NAL_BUF_SIZE)
  {
  }

  class FragmentCache {
    const source: RtspSource
    const is265: bool
    var fragments: seq<Fragment>
    var pos: nat
    /** Everything handed out since the last reset. */
    ghost var emitted: seq<Fragment>
    /** How many units have been read since then: complete passes and units of the current pass. */
    ghost var passes: nat
    ghost var next: nat

    ghost function File(): seq<byte> {
      Delivered(source.buffer, source.beyond)
    }

    ghost predicate Valid()
      reads this, source
    {
      && source.Valid()
      && Fits(File(), NAL_BUF_SIZE) && Fits(source.Remaining(), NAL_BUF_SIZE)
      && UnitsOf(File()) != []
      && next <= |UnitsOf(File())|
      && UnitsOf(source.Remaining()) == UnitsOf(File())[next..]
    }

    ghost function Taken(): nat
      reads this
    {
      passes * |UnitsOf(File())| + next
    }

    /** Handed out plus still cached is all that was cut from the units read. */
    ghost predicate Consistent()
      requires Valid()
      reads this, source
    {
      emitted + Cached() == FragmentStream(UnitsOf(File()), is265, Taken())
    }

    ghost function Cached(): seq<Fragment>
      reads this
    {
      if pos < |fragments| then fragments[pos..] else []
    }

    constructor (source: RtspSource, is265: bool)
      requires source.Valid() && source.bufferPos == 0
      requires UnitsOf(Delivered(source.buffer, source.beyond)) != []
      requires Fits(Delivered(source.buffer, source.beyond), NAL_BUF_SIZE)
      ensures this.source == source && this.is265 == is265
      ensures Valid() && Consistent() && emitted == []
    {
      this.source, this.is265 := source, is265;
      fragments, pos := [], 10000;
      emitted, passes, next := [], 0, 0;
      new;
      FromTheStart();
      hide *;
      Restarted();
    }

    lemma FromTheStart()
      requires source.Valid() && source.bufferPos == 0
      ensures source.Remaining() == File()
    {
      hide Delivered;
      assert File()[0..] == File();
    }

    method Reset()
      requires Valid()
      modifies this, source
      ensures Valid() && Consistent() && emitted == []
    {
      Usable();
      hide *;
      Rewind();
      Restarted();
    }

    method Rewind()
      modifies this, source
      ensures source.Valid() && source.Remaining() == File()
      ensures fragments == [] && emitted == [] && passes == 0 && next == 0
    {
      hide Delivered, RtspSource.Remaining;
      fragments, pos := [], 0;
      emitted, passes, next := [], 0, 0;
      source.Reset();
    }

    lemma Usable()
      requires Valid()
      ensures Fits(File(), NAL_BUF_SIZE) && UnitsOf(File()) != []
    {
    }

    lemma Restarted()
      requires source.Valid() && source.Remaining() == File() && Fits(File(), NAL_BUF_SIZE) && UnitsOf(File()) != []
      requires fragments == [] && emitted == [] && passes == 0 && next == 0
      ensures Valid() && Consistent()
    {
      StreamStart(UnitsOf(File()), is265);
      hide UnitsOf, FragmentStream, Fits, Delivered;
      assert UnitsOf(File())[0..] == UnitsOf(File());
      assert Taken() == 0;
    }

    /** Reads up to the next unit that is not empty, starting over when the file ends. */
    method ReadUnit(nalBuf: array<byte>) returns (len: nat)
      requires Valid() && nalBuf.Length == NAL_BUF_SIZE
      modifies this`passes, this`next, source, nalBuf
      ensures Valid() && 0 < len <= nalBuf.Length
      ensures Taken() == old(Taken()) + 1
      ensures nalBuf[..len] == UnitsOf(File())[Wrap(old(Taken()), |UnitsOf(File())|)]
    {
      ghost var units := UnitsOf(File());
      hide UnitsOf, Copy, Fits, Wrap, Delivered;
      while true
        invariant Valid() && Taken() == old(Taken())
        decreases next == |units|, |source.Remaining()|
      {
        UnitsStep(source.Remaining());
        FitsStep(source.Remaining());
        ghost var rest := source.Remaining();
        var ret;
        ret, len := source.CopyNalFromFile(nalBuf);
        if ret > 0 {
          Position(passes, |units|, next);
          next := next + 1;
          assert UnitsOf(source.Remaining()) == UnitsOf(rest)[1..];
          return;
        } else if ret < 0 {
          source.Reset();
          EndOfPass(passes, |units|);
          passes, next := passes + 1, 0;
        }
      }
    }

    /** One fragment if the unit is small, otherwise FU fragments of full size and a last one. */
    method CutUnit(nal: seq<byte>)
      requires nal != []
      modifies this`fragments
      ensures fragments == Fragmented(nal, is265)
    {
      fragments := [];
      if |nal| < RTP_PAYLOAD_MAX_SIZE {
        fragments := fragments + [Fragment(0, nal, |nal|)];
      } else {
        var body := nal[HeaderSize(is265)..];
        var fuPackNum := FuA.FragmentCount(|body|);
        var lastSize := FuA.LastFragmentSize(|body|);
        for fuSeq := 0 to fuPackNum
          invariant |fragments| == fuSeq
          invariant forall k :: 0 <= k < fuSeq ==> fragments[k] == FragmentAt(nal, is265, k)
        {
          var fragType := FuA.FragType(fuSeq, fuPackNum);
          var marker, size := 0, RTP_PAYLOAD_MAX_SIZE + 2;
          if fragType == 2 {
            marker, size := 1, lastSize + 2;
          }
          if is265 {
            size := size + 1;
          }
          var fragment := Fragment(marker, Prefix(nal, is265, fragType) + FuA.Piece(body, fuSeq), size);
          assert fragment == FragmentAt(nal, is265, fuSeq);
          fragments := fragments + [fragment];
        }
      }
    }

    /** Replaces an exhausted cache by the fragments of the next unit. */
    method Refill()
      requires Valid() && Consistent() && Cached() == []
      modifies this, source
      ensures Valid() && Consistent() && fragments != [] && pos == 0
      ensures emitted == old(emitted)
    {
      ghost var taken := Taken();
      Exhausted();
      hide *;
      fragments, pos := [], 0;
      var nalBuf := new byte[NAL_BUF_SIZE];
      var len := ReadUnit(nalBuf);
      CutUnit(nalBuf[..len]);
      Refilled(taken);
    }

    lemma Exhausted()
      requires Valid() && Consistent() && Cached() == []
      ensures emitted == FragmentStream(UnitsOf(File()), is265, Taken())
    {
      hide UnitsOf, FragmentStream;
      assert emitted + [] == emitted;
    }

    lemma Refilled(taken: nat)
      requires Valid() && Taken() == taken + 1 && pos == 0
      requires emitted == FragmentStream(UnitsOf(File()), is265, taken)
      requires fragments == Fragmented(UnitsOf(File())[Wrap(taken, |UnitsOf(File())|)], is265)
      ensures Consistent() && fragments != []
    {
      StreamMore(UnitsOf(File()), is265, taken);
      hide UnitsOf, FragmentStream, Fragmented, Wrap, Fits;
      assert Cached() == fragments;
    }

    method GetFragment() returns (f: Fragment)
      requires Valid() && Consistent()
      modifies this, source
      ensures Valid() && Consistent()
      ensures emitted == old(emitted) + [f]
    {
      hide UnitsOf, FragmentStream, Fragmented, Fits, Delivered;
      if pos >= |fragments| {
        Refill();
      }
      f := fragments[pos];
      assert fragments[pos..] == [f] + fragments[pos + 1..];
      AppendAssoc(emitted, [f], fragments[pos + 1..]);
      pos := pos + 1;
      emitted := emitted + [f];
      assert Cached() == fragments[pos..];
    }
  }

  lemma StreamMore(units: seq<seq<byte>>, is265: bool, n: nat)
    requires units != [] && forall i :: 0 <= i < |units| ==> units[i] != []
    ensures FragmentStream(units, is265, n + 1)
         == FragmentStream(units, is265, n) + Fragmented(units[Wrap(n, |units|)], is265)
  {
  }

  lemma StreamStart(units: seq<seq<byte>>, is265: bool)
    requires units != [] && forall i :: 0 <= i < |units| ==> units[i] != []
    ensures FragmentStream(units, is265, 0) == []
  {
  }

  lemma {:induction false} Position(passes: nat, count: nat, next: nat)
    requires next < count
    ensures Wrap(passes * count + next, count) == next
  {
    if passes > 0 {
      EndOfPass(passes - 1, count);
      Position(passes - 1, count, next);
    }
  }

  lemma EndOfPass(passes: nat, count: nat)
    ensures passes * count + count == (passes + 1) * count
  {
  }
}
