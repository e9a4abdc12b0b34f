/**
  Locating RTP packets in an RTSP byte stream (interleaved binary data, section 10.12 of RFC 2326).

  A frame is '$', a channel byte, a 16-bit big-endian length, and that many bytes.
  `Scan` looks at the whole stream at once; `RtspReader` sees it in arbitrary pieces and
  keeps a skip count and a short tail between calls. The contract of `RtspReader.Read`
  says that the two report the same frames.
*/
module RtspFraming {
  import opened Bytes

  const INTERLEAVE_SIZE := 4
  const RTP_HEADER_SIZE := 12
  const MAGIC_SIZE := INTERLEAVE_SIZE + RTP_HEADER_SIZE + 3 - 1
  const DOLLAR: byte := 0x24

  /** The length field of the frame that starts at q, read as an unsigned 16-bit number. */
  function LengthField(s: seq<byte>, q: nat): nat
    requires q + 3 < |s|
  {
    Word16(s[q + 2], s[q + 3])
  }

  lemma LengthInWindow(s: seq<byte>, base: nat, q: nat)
    requires base + q + 3 < |s|
    ensures LengthField(s[base..], q) == LengthField(s, base + q)
  {
  }

  lemma LengthExtends(s: seq<byte>, more: seq<byte>, q: nat)
    requires q + 3 < |s|
    ensures LengthField(s + more, q) == LengthField(s, q)
  {
  }

  /** The first '$' at or after p, or the end of the stream. */
  function NextDollar(s: seq<byte>, p: nat): (q: nat)
    requires p <= |s|
    ensures p <= q <= |s|
    ensures q < |s| ==> s[q] == DOLLAR
    ensures forall i :: p <= i < q ==> s[i] != DOLLAR
    decreases |s| - p
  {
    if p == |s| || s[p] == DOLLAR then p else NextDollar(s, p + 1)
  }

  /** The frame starts found, and whether the last of them has a length of 2^15 or more. */
  datatype Located = Located(starts: seq<int>, broken: bool) {
    function After(earlier: seq<int>): Located {
      Located(earlier + starts, broken)
    }
  }

  /**
    The one-shot locator: from p on, go to the next '$'; it is a frame start if more than
    MAGIC_SIZE bytes follow its first byte; skip the frame by its length and go on.
  */
  function Scan(s: seq<byte>, p: nat): (found: Located)
    decreases if p < |s| then |s| - p else 0
  {
    if p + MAGIC_SIZE >= |s| then Located([], false)
    else
      var q := NextDollar(s, p);
      if q + MAGIC_SIZE >= |s| then Located([], false)
      else if LengthField(s, q) >= 0x8000 then Located([q], true)
      else Scan(s, q + LengthField(s, q) + INTERLEAVE_SIZE).After([q])
  }

  /**
    What a reader that has seen `s`, reported `reported` and will go on looking at offset p
    may rely on: however the stream continues, nothing reported is lost or repeated.
  */
  ghost predicate Progress(s: seq<byte>, reported: seq<int>, p: nat) {
    forall t :: s <= t ==> Scan(t, 0) == Scan(t, p).After(reported)
  }

  lemma ProgressStart()
    ensures Progress([], [], 0)
  {
    forall t ensures Scan(t, 0) == Scan(t, 0).After([]) {
      assert [] + Scan(t, 0).starts == Scan(t, 0).starts;
    }
  }

  lemma ProgressExtends(s: seq<byte>, more: seq<byte>, reported: seq<int>, p: nat)
    requires Progress(s, reported, p)
    ensures Progress(s + more, reported, p)
  {
    forall t | s + more <= t ensures Scan(t, 0) == Scan(t, p).After(reported) {
      assert s <= t;
    }
  }

  /** A byte that is not '$' can be stepped over. */
  lemma SkipByte(t: seq<byte>, p: nat)
    requires p < |t| && t[p] != DOLLAR
    ensures Scan(t, p) == Scan(t, p + 1)
  {
    if p + MAGIC_SIZE < |t| {
      assert NextDollar(t, p) == NextDollar(t, p + 1);
    }
  }

  lemma ProgressSkip(s: seq<byte>, reported: seq<int>, p: nat)
    requires Progress(s, reported, p)
    requires p < |s| && s[p] != DOLLAR
    ensures Progress(s, reported, p + 1)
  {
    forall t | s <= t ensures Scan(t, 0) == Scan(t, p + 1).After(reported) {
      assert t[p] == s[p];
      SkipByte(t, p);
    }
  }

  /** A located frame is reported once and then jumped over. */
  lemma ProgressFrame(s: seq<byte>, reported: seq<int>, p: nat)
    requires Progress(s, reported, p)
    requires p + MAGIC_SIZE < |s| && s[p] == DOLLAR && LengthField(s, p) < 0x8000
    ensures Progress(s, reported + [p], p + LengthField(s, p) + INTERLEAVE_SIZE)
  {
    var next := p + LengthField(s, p) + INTERLEAVE_SIZE;
    forall t | s <= t ensures Scan(t, 0) == Scan(t, next).After(reported + [p]) {
      assert t[p] == s[p] && t[p + 2] == s[p + 2] && t[p + 3] == s[p + 3];
      assert NextDollar(t, p) == p;
      assert reported + ([p] + Scan(t, next).starts) == (reported + [p]) + Scan(t, next).starts;
    }
  }

  lemma ProgressBroken(s: seq<byte>, reported: seq<int>, p: nat)
    requires Progress(s, reported, p)
    requires p + MAGIC_SIZE < |s| && s[p] == DOLLAR && LengthField(s, p) >= 0x8000
    ensures Scan(s, 0) == Located(reported + [p], true)
  {
    assert s <= s;
    assert NextDollar(s, p) == p;
  }

  lemma NothingLocated(s: seq<byte>, reported: seq<int>, p: nat)
    requires Progress(s, reported, p)
    requires p + MAGIC_SIZE >= |s|
    ensures Scan(s, 0) == Located(reported, false)
  {
    assert s <= s;
    assert reported + [] == reported;
  }

  /** Every reported start is a '$' with enough bytes behind it, and no start is reported twice. */
  lemma {:induction false} ScanFindsFrames(s: seq<byte>, p: nat)
    ensures forall k :: 0 <= k < |Scan(s, p).starts| ==>
              && p <= Scan(s, p).starts[k] < |s| - MAGIC_SIZE
              && s[Scan(s, p).starts[k]] == DOLLAR
    ensures forall j, k :: 0 <= j < k < |Scan(s, p).starts| ==> Scan(s, p).starts[j] < Scan(s, p).starts[k]
    decreases if p < |s| then |s| - p else 0
  {
    if p + MAGIC_SIZE < |s| {
      var q := NextDollar(s, p);
      if q + MAGIC_SIZE < |s| && LengthField(s, q) < 0x8000 {
        ScanFindsFrames(s, q + LengthField(s, q) + INTERLEAVE_SIZE);
      }
    }
  }

  lemma NextDollarExtends(s: seq<byte>, more: seq<byte>, p: nat)
    requires p <= |s|
    ensures NextDollar(s, p) < |s| ==> NextDollar(s + more, p) == NextDollar(s, p)
    ensures NextDollar(s, p) <= NextDollar(s + more, p)
    decreases |s| - p
  {
    if p < |s| && s[p] != DOLLAR {
      NextDollarExtends(s, more, p + 1);
    }
  }

  /** One step of the scan, from p to the frame at q and on. */
  lemma ScanStep(s: seq<byte>, p: nat, q: nat)
    requires p <= |s| && NextDollar(s, p) == q && q + MAGIC_SIZE < |s|
    ensures Scan(s, p) == if LengthField(s, q) >= 0x8000 then Located([q], true)
                          else Scan(s, q + LengthField(s, q) + INTERLEAVE_SIZE).After([q])
  {
  }

  lemma ScanNone(s: seq<byte>, p: nat)
    requires p > |s| || NextDollar(s, p) + MAGIC_SIZE >= |s|
    ensures Scan(s, p) == Located([], false)
  {
  }

  /** What has been located stays located when more bytes arrive; a broken stream stays as it is. */
  lemma {:induction false} ScanExtends(s: seq<byte>, more: seq<byte>, p: nat)
    ensures Scan(s, p).starts <= Scan(s + more, p).starts
    ensures Scan(s, p).broken ==> Scan(s + more, p) == Scan(s, p)
    decreases if p < |s| then |s| - p else 0
  {
    hide Scan, LengthField;
    if p > |s| || NextDollar(s, p) + MAGIC_SIZE >= |s| {
      ScanNone(s, p);
    } else {
      var q := NextDollar(s, p);
      NextDollarExtends(s, more, p);
      LengthExtends(s, more, q);
      ScanStep(s, p, q);
      ScanStep(s + more, p, q);
      if LengthField(s, q) < 0x8000 {
        ScanExtends(s, more, q + LengthField(s, q) + INTERLEAVE_SIZE);
      }
    }
  }

  /** Packet positions relative to a chunk, turned into frame starts in the whole stream. */
  function FrameStarts(positions: seq<int>, chunkStart: int): seq<int> {
    seq(|positions|, i requires 0 <= i < |positions| => chunkStart + positions[i] - INTERLEAVE_SIZE)
  }

  lemma FrameStartsSnoc(earlier: seq<int>, positions: seq<int>, position: int, chunkStart: int)
    ensures earlier + FrameStarts(positions + [position], chunkStart)
         == earlier + FrameStarts(positions, chunkStart) + [chunkStart + position - INTERLEAVE_SIZE]
  {
  }

  lemma NoFrameStarts(earlier: seq<int>, chunkStart: int)
    ensures earlier + FrameStarts([], chunkStart) == earlier
  {
  }

  predicate TailOf(tail: seq<byte>, s: seq<byte>) {
    |tail| <= |s| && tail == s[|s| - |tail|..]
  }

  lemma TailThenChunk(s: seq<byte>, tail: seq<byte>, chunk: seq<byte>)
    requires TailOf(tail, s)
    ensures TailOf(tail + chunk, s + chunk)
  {
  }

  lemma TailOfTail(s: seq<byte>, window: seq<byte>, p: nat)
    requires TailOf(window, s) && p <= |window|
    ensures TailOf(window[p..], s)
  {
  }

  lemma TakeOneMoreFrom(s: seq<byte>, p: nat, k: nat)
    requires p <= k < |s|
    ensures s[p..k + 1] == s[p..k] + [s[k]]
  {
  }

  lemma EmptyTail(tail: seq<byte>, s: seq<byte>)
    requires tail == []
    ensures TailOf(tail, s)
  {
  }

  class RtspReader {
    var position: int
    var prepend: nat
    const prependBuf: array<byte>
    ghost var stream: seq<byte>
    ghost var reported: seq<int>

    /** Where in `stream` the reader will look for the next frame. */
    ghost function Cursor(): int
      reads this
    {
      |stream| - prepend + position
    }

    ghost predicate Valid()
      reads this, prependBuf
    {
      && prependBuf.Length == MAGIC_SIZE + 1
      && prepend <= MAGIC_SIZE
      && prepend <= |stream|
      && -1 <= position
      && (position != 0 ==> prepend == 0)
      && (position == -1 ==> stream == [] && reported == [])
      && TailOf(prependBuf[..prepend], stream)
      && (position >= 0 ==> Progress(stream, reported, Cursor()))
    }

    constructor ()
      ensures Valid() && fresh(prependBuf)
      ensures position == -1 && stream == [] && reported == []
    {
      position, prepend := -1, 0;
      prependBuf := new byte[MAGIC_SIZE + 1];
      stream, reported := [], [];
    }

    /** True until a chunk that starts with '$' has been seen. */
    predicate Unsynchronised(buf: seq<byte>)
      requires buf != []
      reads this
    {
      position == -1 && buf[0] != DOLLAR
    }

    /** Frames still to be reported start in the saved tail or behind it, with the look-ahead in the stream. */
    lemma StartsAhead(buf: seq<byte>)
      requires Valid()
      ensures prepend <= MAGIC_SIZE && prepend <= |stream|
      ensures var starts := Scan(stream + buf, 0).starts;
              && |reported| <= |starts|
              && forall k :: |reported| <= k < |starts| ==>
                   |stream| - prepend <= starts[k] < |stream + buf| - MAGIC_SIZE
    {
      var t := stream + buf;
      hide TailOf;
      if position == -1 {
        ScanFindsFrames(t, 0);
      } else {
        assert stream <= t;
        assert Scan(t, 0) == Scan(t, Cursor()).After(reported);
        ScanFindsFrames(t, Cursor());
        hide Scan, Progress;
        var ahead := Scan(t, Cursor()).starts;
        assert forall k :: 0 <= k < |ahead| ==> (reported + ahead)[|reported| + k] == ahead[k];
      }
    }

    /** `window` is the end of the stream, and the search goes on at `position` inside it. */
    ghost predicate Searching(window: seq<byte>)
      reads this
    {
      && prepend == 0
      && |window| <= |stream|
      && TailOf(window, stream)
      && 0 <= position
      && Progress(stream, reported, |stream| - |window| + position)
    }

    /** Moves `position` to the next '$', or to the last byte of the window. */
    method Resynchronise(window: seq<byte>)
      requires Searching(window) && position < |window|
      modifies this`position
      ensures Searching(window) && old(position) <= position < |window|
      ensures window[position] == DOLLAR || position == |window| - 1
    {
      hide Progress;
      var remained := |window| - position;
      var i := 1;
      while i < remained && window[position] != DOLLAR
        invariant i <= remained && position == old(position) + i - 1
        invariant Searching(window)
      {
        ProgressSkip(stream, reported, |stream| - |window| + position);
        position := position + 1;
        i := i + 1;
      }
    }

    /** Jumps over the frame at `position`, unless its length field is negative as a signed number. */
    method PassFrame(window: seq<byte>) returns (broken: bool)
      requires Searching(window) && position + MAGIC_SIZE < |window| && window[position] == DOLLAR
      modifies this`position, this`reported
      ensures reported == old(reported) + [|stream| - |window| + old(position)]
      ensures !broken ==> Searching(window) && position > old(position)
      ensures broken ==> position == 0 && Scan(stream, 0) == Located(reported, true)
    {
      hide Progress, Scan, LengthField;
      ghost var start := |stream| - |window| + position;
      LengthInWindow(stream, |stream| - |window|, position);
      var rtpSize := LengthField(window, position);
      reported := reported + [start];
      broken := rtpSize >= 0x8000;
      if broken {
        ProgressBroken(stream, old(reported), start);
        position := 0;
      } else {
        ProgressFrame(stream, old(reported), start);
        position := position + rtpSize + INTERLEAVE_SIZE;
      }
    }

    /** Reports every frame whose first MAGIC_SIZE + 1 bytes lie inside the window. */
    method LocateFrames(window: seq<byte>, offset: nat) returns (result: int, positions: seq<int>)
      requires Searching(window) && offset <= |window|
      modifies this`position, this`reported
      ensures result == 0 || result == -1
      ensures reported == old(reported) + FrameStarts(positions, |stream| - |window| + offset)
      ensures result == 0 ==> Searching(window) && 0 <= position && position + MAGIC_SIZE >= |window|
      ensures result == -1 ==> position == 0 && Scan(stream, 0) == Located(reported, true)
    {
      hide Progress, Scan;
      positions := [];
      NoFrameStarts(reported, |stream| - |window| + offset);
      assert 0 <= position;
      hide FrameStarts, Searching;
      ghost var base := |stream| - |window|;
      while position + MAGIC_SIZE < |window|
        invariant 0 <= position && Searching(window)
        invariant reported == old(reported) + FrameStarts(positions, base + offset)
        decreases |window| - position
      {
        Resynchronise(window);
        if position + MAGIC_SIZE >= |window| {
          break;
        }
        FrameStartsSnoc(old(reported), positions, position + INTERLEAVE_SIZE - offset, base + offset);
        positions := positions + [position + INTERLEAVE_SIZE - offset];
        var broken := PassFrame(window);
        if broken {
          return -1, positions;
        }
      }
      result := 0;
    }

    /** Keeps the unread end of the window for the next call. */
    method SaveTail(window: seq<byte>)
      requires Searching(window) && position < |window| <= position + MAGIC_SIZE
      requires prependBuf.Length == MAGIC_SIZE + 1
      modifies this`prepend, this`position, prependBuf
      ensures Valid() && position == 0
    {
      hide Progress, TailOf;
      TailOfTail(stream, window, position);
      for k := position to |window|
        invariant position == old(position) && prepend == k - position
        invariant prependBuf[..prepend] == window[position..k]
      {
        prependBuf[prepend] := window[k];
        TakeOneMoreFrom(window, position, k);
        prepend := prepend + 1;
      }
      assert prependBuf[..prepend] == window[position..];
      position := 0;
    }

    /** Searches the window and leaves the reader ready for the next chunk. */
    method Search(window: seq<byte>, offset: nat) returns (result: int, positions: seq<int>)
      requires Searching(window) && position < |window| && offset <= |window|
      requires prependBuf.Length == MAGIC_SIZE + 1
      modifies this, prependBuf
      ensures Valid() && position >= 0
      ensures result == 0 || result == -1
      ensures Scan(old(stream), 0)
           == Located(old(reported) + FrameStarts(positions, |old(stream)| - |window| + offset), result == -1)
      ensures result == 0 ==> stream == old(stream) && reported == Scan(stream, 0).starts
      ensures result == -1 ==> position == 0 && stream == [] && reported == []
    {
      hide Progress, Scan, FrameStarts, TailOf;
      result, positions := LocateFrames(window, offset);
      if result == -1 {
        stream, reported := [], [];
        ProgressStart();
        EmptyTail(prependBuf[..prepend], stream);
        return;
      }
      NothingLocated(stream, reported, |stream| - |window| + position);
      if position >= |window| {
        position := position - |window|;
        EmptyTail(prependBuf[..prepend], stream);
      } else {
        SaveTail(window);
      }
    }

    method Read(buf: seq<byte>) returns (result: int, positions: seq<int>)
      requires Valid() && buf != []
      modifies this, prependBuf
      ensures Valid()
      ensures result == 0 || result == -1
      ensures old(Unsynchronised(buf)) ==> result == 0 && positions == [] && stream == [] && position == -1
      ensures !old(Unsynchronised(buf)) ==>
                && position >= 0
                && Scan(old(stream) + buf, 0)
                   == Located(old(reported) + FrameStarts(positions, |old(stream)|), result == -1)
                && (result == 0 ==> stream == old(stream) + buf && reported == Scan(stream, 0).starts)
                && (result == -1 ==> position == 0 && stream == [] && reported == [])
    {
      hide Progress, Scan, FrameStarts, TailOf;
      var offset := prepend;
      if position == -1 {
        if buf[0] == DOLLAR {
          position := 0;
          ProgressStart();
        } else {
          return 0, [];
        }
      }
      var originBuf := prependBuf[..prepend] + buf;
      var n := |originBuf|;
      TailThenChunk(stream, prependBuf[..prepend], buf);
      NoFrameStarts(reported, |stream|);
      ProgressExtends(stream, buf, reported, Cursor());
      prepend := 0;
      stream := stream + buf;
      if position >= n {
        position := position - n;
        EmptyTail(prependBuf[..prepend], stream);
        NothingLocated(stream, reported, position + |stream|);
        return 0, [];
      }
      result, positions := Search(originBuf, offset);
    }
  }

  predicate NonEmpty(chunks: seq<seq<byte>>) {
    forall i :: 0 <= i < |chunks| ==> chunks[i] != []
  }

  /** The chunks from the first one that starts with '$'. */
  function Synchronised(chunks: seq<seq<byte>>): seq<seq<byte>>
    requires NonEmpty(chunks)
  {
    if chunks == [] || chunks[0][0] == DOLLAR then chunks else Synchronised(chunks[1..])
  }

  /** The chunks ignored are exactly those before the first one that starts with '$'. */
  lemma {:induction false} IgnoredChunks(chunks: seq<seq<byte>>)
    requires NonEmpty(chunks)
    ensures var n := |chunks| - |Synchronised(chunks)|;
            && 0 <= n && Synchronised(chunks) == chunks[n..]
            && (forall i :: 0 <= i < n ==> chunks[i][0] != 0x24)
            && (n < |chunks| ==> chunks[n][0] == 0x24)
  {
    if chunks != [] && chunks[0][0] != DOLLAR {
      IgnoredChunks(chunks[1..]);
      var n := |chunks| - |Synchronised(chunks)|;
      forall i | 0 <= i < n ensures chunks[i][0] != 0x24 {
        assert i > 0 ==> chunks[i] == chunks[1..][i - 1];
      }
    }
  }

  /** Feeds a fresh reader with chunks that do not start with '$'; it ignores them. */
  method AwaitStart(reader: RtspReader, chunks: seq<seq<byte>>) returns (first: nat)
    requires reader.Valid() && reader.position == -1 && NonEmpty(chunks)
    modifies reader, reader.prependBuf
    ensures reader.Valid() && reader.position == -1 && reader.stream == []
    ensures first <= |chunks| && chunks[first..] == Synchronised(chunks)
    ensures first < |chunks| ==> chunks[first][0] == DOLLAR
  {
    first := 0;
    while first < |chunks| && chunks[first][0] != DOLLAR
      invariant first <= |chunks| && reader.Valid() && reader.position == -1 && reader.stream == []
      invariant Synchronised(chunks) == Synchronised(chunks[first..])
    {
      var _, _ := reader.Read(chunks[first]);
      assert chunks[first..][1..] == chunks[first + 1..];
      first := first + 1;
    }
  }

  function Shifted(starts: seq<int>, base: int): (shifted: seq<int>)
    ensures |shifted| == |starts|
  {
    seq(|starts|, i requires 0 <= i < |starts| => base + starts[i])
  }

  /**
    What a reader reports for the chunks to come when `s` has come since it last started, `base`
    bytes into the stream: the frames of s and what follows it, up to a negative length; with the
    next chunk the reader then starts over.
  */
  function Reports(chunks: seq<seq<byte>>, s: seq<byte>, base: nat): seq<int>
    decreases |chunks|
  {
    if chunks == [] then Shifted(Scan(s, 0).starts, base)
    else
      var t := s + chunks[0];
      if Scan(t, 0).broken then Shifted(Scan(t, 0).starts, base) + Reports(chunks[1..], [], base + |t|)
      else Reports(chunks[1..], t, base)
  }

  lemma ReportsNext(chunks: seq<seq<byte>>, i: nat, s: seq<byte>, base: nat)
    requires i < |chunks|
    ensures var t := s + chunks[i];
            Reports(chunks[i..], s, base)
            == if Scan(t, 0).broken then Shifted(Scan(t, 0).starts, base) + Reports(chunks[i + 1..], [], base + |t|)
               else Reports(chunks[i + 1..], t, base)
  {
    assert chunks[i..][1..] == chunks[i + 1..];
  }

  lemma ShiftedMore(reported: seq<int>, positions: seq<int>, n: int, base: int)
    ensures Shifted(reported + FrameStarts(positions, n), base)
         == Shifted(reported, base) + FrameStarts(positions, base + n)
  {
  }

  lemma NothingReported(earlier: seq<int>, base: int)
    ensures earlier + Shifted([], base) == earlier && Shifted([], base) + earlier == earlier
    ensures Scan([], 0) == Located([], false)
  {
  }

  /**
    The receive loop: one reader is fed chunk after chunk until the connection ends. Nobody looks
    at the result of a call, so after a negative length the reader goes on with the next chunk.
  */
  method ReceiveAll(chunks: seq<seq<byte>>) returns (starts: seq<int>)
    requires NonEmpty(chunks)
    ensures starts == Reports(Synchronised(chunks), [], 0)
  {
    hide Scan, FrameStarts, Received, Shifted, Reports, RtspReader.Valid, Progress, TailOf;
    var reader := new RtspReader();
    var first := AwaitStart(reader, chunks);
    var rest := chunks[first..];
    starts := [];
    ghost var earlier: seq<int>, base: nat := [], 0;
    ReceivedNothing(rest);
    var received := 0;
    for i := 0 to |rest|
      invariant reader.Valid() && fresh(reader) && fresh(reader.prependBuf)
      invariant reader.position == -1 ==> i == 0
      invariant received == base + |reader.stream|
      invariant Received(rest, i, earlier, base, reader.stream, reader.reported, starts)
    {
      ghost var s, reported := reader.stream, reader.reported;
      var result, positions := reader.Read(rest[i]);
      ReceivedMore(rest, i, earlier, base, s, reported, starts, positions, result == -1);
      starts := starts + FrameStarts(positions, received);
      received := received + |rest[i]|;
      if result == -1 {
        earlier, base := starts, received;
      }
    }
    ReceivedAll(rest, earlier, base, reader.stream, reader.reported, starts);
  }

  /** After i chunks, `starts` are the frames reported before the reader last started over and since. */
  predicate Received(rest: seq<seq<byte>>, i: nat, earlier: seq<int>, base: nat, s: seq<byte>, reported: seq<int>,
                     starts: seq<int>)
  {
    && i <= |rest|
    && Scan(s, 0) == Located(reported, false)
    && starts == earlier + Shifted(reported, base)
    && Reports(rest, [], 0) == earlier + Reports(rest[i..], s, base)
  }

  lemma ReceivedNothing(rest: seq<seq<byte>>)
    ensures Received(rest, 0, [], 0, [], [], [])
  {
    assert rest[0..] == rest;
    hide Scan, Reports;
    NothingReported([], 0);
  }

  lemma ReceivedMore(rest: seq<seq<byte>>, i: nat, earlier: seq<int>, base: nat, s: seq<byte>, reported: seq<int>,
                     starts: seq<int>, positions: seq<int>, broken: bool)
    requires Received(rest, i, earlier, base, s, reported, starts) && i < |rest|
    requires Scan(s + rest[i], 0) == Located(reported + FrameStarts(positions, |s|), broken)
    ensures var now, end := starts + FrameStarts(positions, base + |s|), base + |s + rest[i]|;
            if broken then Received(rest, i + 1, now, end, [], [], now)
            else Received(rest, i + 1, earlier, base, s + rest[i], reported + FrameStarts(positions, |s|), now)
  {
    hide Scan, Reports, Shifted, FrameStarts;
    ReportsNext(rest, i, s, base);
    ShiftedMore(reported, positions, |s|, base);
    AppendAssoc(earlier, Shifted(reported, base), FrameStarts(positions, base + |s|));
    if broken {
      var now, end := starts + FrameStarts(positions, base + |s|), base + |s + rest[i]|;
      AppendAssoc(earlier, Shifted(reported + FrameStarts(positions, |s|), base), Reports(rest[i + 1..], [], end));
      NothingReported(now, end);
    }
  }

  lemma ReceivedAll(rest: seq<seq<byte>>, earlier: seq<int>, base: nat, s: seq<byte>, reported: seq<int>,
                    starts: seq<int>)
    requires Received(rest, |rest|, earlier, base, s, reported, starts)
    ensures starts == Reports(rest, [], 0)
  {
    hide Scan, Reports, Shifted;
    ReportsEnd(rest[|rest|..], s, base);
  }

  lemma ReportsEnd(chunks: seq<seq<byte>>, s: seq<byte>, base: nat)
    requires |chunks| == 0
    ensures Reports(chunks, s, base) == Shifted(Scan(s, 0).starts, base)
  {
  }

  /** How many chunks come until the reader starts over, or all of them. */
  function UntilBroken(chunks: seq<seq<byte>>, s: seq<byte>): (n: nat)
    ensures n <= |chunks|
    decreases |chunks|
  {
    if chunks == [] then 0 else if Scan(s + chunks[0], 0).broken then 1 else 1 + UntilBroken(chunks[1..], s + chunks[0])
  }

  lemma FirstTaken(chunks: seq<seq<byte>>, n: nat)
    requires 1 <= n <= |chunks|
    ensures chunks[n..] == chunks[1..][n - 1..] && chunks[..n] == [chunks[0]] + chunks[1..][..n - 1]
  {
  }

  lemma FlattenFrom(chunks: seq<seq<byte>>, s: seq<byte>, rest: seq<seq<byte>>)
    requires chunks != [] && chunks == [chunks[0]] + rest
    ensures s + Flatten(chunks) == (s + chunks[0]) + Flatten(rest)
  {
    hide Flatten;
    FlattenCons(chunks[0], rest);
    AppendAssoc(s, chunks[0], Flatten(rest));
  }

  lemma ChunksFrom(chunks: seq<seq<byte>>, s: seq<byte>, n: nat)
    requires 1 <= n <= |chunks|
    ensures chunks[n..] == chunks[1..][n - 1..]
    ensures s + Flatten(chunks) == (s + chunks[0]) + Flatten(chunks[1..])
    ensures s + Flatten(chunks[..n]) == (s + chunks[0]) + Flatten(chunks[1..][..n - 1])
  {
    hide Flatten;
    FirstTaken(chunks, n);
    FlattenFrom(chunks, s, chunks[1..]);
    FlattenFrom(chunks[..n], s, chunks[1..][..n - 1]);
  }

  lemma NoChunks(s: seq<byte>, none: seq<seq<byte>>)
    requires |none| == 0
    ensures s + Flatten(none) == s
  {
  }

  lemma UntilBrokenNext(chunks: seq<seq<byte>>, s: seq<byte>)
    requires chunks != []
    ensures UntilBroken(chunks, s)
         == if Scan(s + chunks[0], 0).broken then 1 else 1 + UntilBroken(chunks[1..], s + chunks[0])
  {
    hide Scan;
  }

  /** The frames of the one-shot scan are reported first, then those found after starting over. */
  lemma {:induction false} ReportsSplit(chunks: seq<seq<byte>>, s: seq<byte>, base: nat)
    requires !Scan(s, 0).broken
    ensures var n, whole := UntilBroken(chunks, s), Scan(s + Flatten(chunks), 0);
            && Reports(chunks, s, base)
               == Shifted(whole.starts, base) + Reports(chunks[n..], [], base + |s + Flatten(chunks[..n])|)
            && (!whole.broken ==> n == |chunks|)
    decreases |chunks|
  {
    hide *;
    var n := UntilBroken(chunks, s);
    if chunks == [] {
      NoChunks(s, chunks);
      NoChunks(s, chunks[..n]);
      NothingReported(Shifted(Scan(s, 0).starts, base), base + |s|);
      ReportsEnd(chunks, s, base);
      ReportsEnd(chunks[n..], [], base + |s|);
    } else {
      var t, rest := s + chunks[0], chunks[1..];
      UntilBrokenNext(chunks, s);
      ChunksFrom(chunks, s, n);
      assert chunks[0..] == chunks;
      ReportsNext(chunks, 0, s, base);
      if Scan(t, 0).broken {
        ScanExtends(t, Flatten(rest), 0);
        NoChunks(t, rest[..0]);
      } else {
        ReportsSplit(rest, t, base);
      }
    }
  }

  /** The scan finds nothing exactly when no '$' has more than MAGIC_SIZE bytes behind it. */
  lemma ScanFindsNothing(s: seq<byte>)
    ensures Scan(s, 0).starts == [] <==> NextDollar(s, 0) + MAGIC_SIZE >= |s|
    ensures Scan(s, 0).broken ==> Scan(s, 0).starts != []
  {
    hide Scan;
    if NextDollar(s, 0) + MAGIC_SIZE >= |s| {
      ScanNone(s, 0);
    } else {
      ScanStep(s, 0, NextDollar(s, 0));
    }
  }

  /** A reader that starts over reports nothing exactly when the scan of all that is to come finds nothing. */
  lemma NothingReportedAgain(chunks: seq<seq<byte>>, base: nat)
    ensures Reports(chunks, [], base) == [] <==> NextDollar(Flatten(chunks), 0) + MAGIC_SIZE >= |Flatten(chunks)|
  {
    hide *;
    NothingReported([], base);
    ReportsSplit(chunks, [], base);
    assert [] + Flatten(chunks) == Flatten(chunks);
    ScanFindsNothing(Flatten(chunks));
    var n := UntilBroken(chunks, []);
    if Scan(Flatten(chunks), 0).starts == [] {
      ReportsEnd(chunks[n..], [], base + |[] + Flatten(chunks[..n])|);
    }
  }

  /**
    However a stream is cut, the frames reported are those of the one-shot scan exactly when, behind
    the chunk with the first negative length, no '$' has more than MAGIC_SIZE bytes after it; without
    a negative length that is always so.
  */
  lemma ReportsAreScan(chunks: seq<seq<byte>>)
    ensures var after, whole := Flatten(chunks[UntilBroken(chunks, [])..]), Scan(Flatten(chunks), 0);
            && (Reports(chunks, [], 0) == whole.starts <==> NextDollar(after, 0) + MAGIC_SIZE >= |after|)
            && (!whole.broken ==> UntilBroken(chunks, []) == |chunks| && Reports(chunks, [], 0) == whole.starts)
  {
    hide *;
    NothingReported([], 0);
    var n, whole := UntilBroken(chunks, []), Scan(Flatten(chunks), 0);
    ReportsSplit(chunks, [], 0);
    assert [] + Flatten(chunks) == Flatten(chunks);
    ShiftedByNothing(whole.starts);
    var end := |[] + Flatten(chunks[..n])|;
    NothingReportedAgain(chunks[n..], end);
    assert whole.starts + Reports(chunks[n..], [], end) == whole.starts <==> Reports(chunks[n..], [], end) == [];
    if !whole.broken {
      ReportsEnd(chunks[n..], [], end);
    }
  }

  lemma ShiftedByNothing(starts: seq<int>)
    ensures Shifted(starts, 0) == starts
  {
  }

  /**
    A header with a negative length, then a whole frame: in one chunk the frame is not reported, in
    two it is.
  */
  lemma CutShows(broken: seq<byte>, frame: seq<byte>)
    requires broken == [DOLLAR, 0, 0x80, 0] + Zeros(15) && frame == [DOLLAR, 0, 0, 15] + Zeros(15)
    ensures Reports([broken + frame], [], 0) == [0]
    ensures Reports([broken, frame], [], 0) == [0, 19]
  {
    var one, two := [broken + frame], [broken, frame];
    assert [] + (broken + frame) == broken + frame && [] + broken == broken && [] + frame == frame;
    BrokenAtOnce(broken);
    BrokenAtOnce(broken + frame);
    WholeAtOnce(frame);
    ReportsEnd(one[1..], [], 38);
    ReportsEnd(two[1..][1..], frame, 19);
    assert two[1..][0] == frame;
  }

  lemma BrokenAtOnce(s: seq<byte>)
    requires |s| > MAGIC_SIZE && s[0] == DOLLAR && s[2] == 0x80
    ensures Scan(s, 0) == Located([0], true)
  {
    assert NextDollar(s, 0) == 0;
  }

  lemma WholeAtOnce(s: seq<byte>)
    requires |s| == MAGIC_SIZE + 1 && s[0] == DOLLAR && s[2] == 0 && s[3] == 15
    ensures Scan(s, 0) == Located([0], false)
  {
    assert NextDollar(s, 0) == 0;
  }

  // ----- streams made of whole frames -----

  /** A frame, of RTP or of anything else, whose length is that of the bytes behind it. */
  predicate Complete(f: seq<byte>) {
    |f| >= 4 && f[0] == 0x24 && 256 * (f[2] as int) + f[3] as int == |f| - 4 < 0x8000
  }

  /** An RTP frame that holds at least one payload byte. */
  predicate WholeFrame(f: seq<byte>) {
    Complete(f) && |f| > 16
  }

  /** The interleaved frame, on channel 0, of a packet with the given header and payload. */
  function Framed(header: seq<byte>, payload: seq<byte>): (f: seq<byte>)
    ensures |f| == INTERLEAVE_SIZE + |header| + |payload|
  {
    [DOLLAR, 0] + Be16(|header| + |payload|) + header + payload
  }

  /** Every byte of the frame of a packet with a fixed RTP header. */
  lemma FramedBytes(header: seq<byte>, payload: seq<byte>)
    requires |header| == 12 && |payload| < 0x8000 - 12
    ensures var f := Framed(header, payload);
            Complete(f) && f[1] == 0 && f[4..16] == header && f[16..] == payload
  {
    var length := Be16(|header| + |payload|);
    assert Framed(header, payload) == ([DOLLAR, 0] + length) + (header + payload);
    assert (256 * (length[0] as int) + length[1] as int) == |header| + |payload|;
    hide Be16;
  }

  /** Where each frame starts when the first one starts at `start`. */
  function Offsets(frames: seq<seq<byte>>, start: int): (offsets: seq<int>)
    ensures |offsets| == |frames|
  {
    if frames == [] then [] else [start] + Offsets(frames[1..], start + |frames[0]|)
  }

  /** All frames, except a last one too short for the reader's look-ahead. */
  function Locatable(frames: seq<seq<byte>>): (n: nat)
    ensures n <= |frames|
  {
    if frames == [] then 0
    else if |frames[|frames| - 1]| <= MAGIC_SIZE then |frames| - 1
    else |frames|
  }

  lemma FrameInStream(before: seq<byte>, f: seq<byte>, after: seq<byte>)
    requires Complete(f)
    ensures |f| >= 4 && NextDollar(before + f + after, |before|) == |before|
    ensures LengthField(before + f + after, |before|) == |f| - INTERLEAVE_SIZE < 0x8000
  {
    var s, p := before + f + after, |before|;
    assert s[p] == f[0];
    assert s[p + 2] == f[2] && s[p + 3] == f[3];
  }

  lemma ScanFrame(s: seq<byte>, p: nat, size: nat)
    requires p + 3 < |s| && NextDollar(s, p) == p && LengthField(s, p) == size - INTERLEAVE_SIZE < 0x8000
    ensures Scan(s, p) == if |s| - p > MAGIC_SIZE then Scan(s, p + size).After([p]) else Located([], false)
  {
    hide LengthField, Scan, NextDollar;
    if |s| - p > MAGIC_SIZE {
      ScanStep(s, p, p);
    } else {
      ScanNone(s, p);
    }
  }

  /** A frame of any length is located if more than 18 bytes follow its '$', and the scan goes on behind it. */
  lemma WholeFrameAt(before: seq<byte>, f: seq<byte>, after: seq<byte>)
    requires Complete(f)
    ensures Scan(before + f + after, |before|)
         == if |f + after| > 18 then Scan(before + f + after, |before + f|).After([|before|]) else Located([], false)
  {
    var s, p := before + f + after, |before|;
    FrameInStream(before, f, after);
    hide *;
    Sizes(before, f, after);
    ScanFrame(s, p, |f|);
  }

  lemma Sizes(before: seq<byte>, f: seq<byte>, after: seq<byte>)
    ensures |before + f + after| == |before| + |f + after| && |before + f| == |before| + |f|
  {
  }

  /** A length of 2^15 or more ends the scan at its frame. */
  lemma NegativeFrameAt(before: seq<byte>, f: seq<byte>)
    requires |f| > 18 && f[0] == 0x24 && f[2] >= 0x80
    ensures Scan(before + f, |before|) == Located([|before|], true)
  {
    var s, p := before + f, |before|;
    assert s[p] == f[0] && s[p + 2] == f[2];
    assert NextDollar(s, p) == p;
    hide Scan, NextDollar;
    ScanStep(s, p, p);
  }

  lemma OffsetsCons(frames: seq<seq<byte>>, start: int, n: nat)
    requires frames != [] && n < |frames|
    ensures Offsets(frames, start)[..n + 1] == [start] + Offsets(frames[1..], start + |frames[0]|)[..n]
    ensures Offsets(frames, start)[..0] == []
  {
  }

  /** A frame starts behind all the bytes of the frames before it. */
  lemma {:induction false} OffsetOfFrame(frames: seq<seq<byte>>, start: int, k: nat)
    requires k < |frames|
    ensures Offsets(frames, start)[k] == start + |Flatten(frames[..k])|
    decreases k
  {
    if k > 0 {
      assert frames[..k][1..] == frames[1..][..k - 1];
      OffsetOfFrame(frames[1..], start + |frames[0]|, k - 1);
    }
  }

  /** The frames whose '$' has more than 18 bytes behind it. */
  function InReach(frames: seq<seq<byte>>): (n: nat)
    ensures n <= |frames|
  {
    if |Flatten(frames)| <= 18 then 0 else 1 + InReach(frames[1..])
  }

  lemma {:induction false} InReachExactly(frames: seq<seq<byte>>, start: int, k: nat)
    requires k < |frames|
    ensures k < InReach(frames) <==> Offsets(frames, start)[k] + 18 < start + |Flatten(frames)|
    decreases k
  {
    assert |Flatten(frames)| == |frames[0]| + |Flatten(frames[1..])|;
    if k > 0 {
      InReachExactly(frames[1..], start + |frames[0]|, k - 1);
    }
  }

  lemma OffsetsBelow(frames: seq<seq<byte>>, start: int)
    ensures Offsets(frames, start)[..0] == []
    ensures frames == [] ==> InReach(frames) == 0
  {
  }

  /**
    On a stream of frames of any lengths, RTP or not, the scan finds exactly those with more than
    18 bytes behind their '$', where they start.
  */
  lemma {:induction false} ScanFrames(before: seq<byte>, frames: seq<seq<byte>>)
    requires forall i :: 0 <= i < |frames| ==> Complete(frames[i])
    ensures Scan(before + Flatten(frames), |before|) == Located(Offsets(frames, |before|)[..InReach(frames)], false)
    decreases |frames|
  {
    hide Scan, Complete;
    if frames == [] {
      ScanNone(before + [], |before|);
    } else {
      var f, rest := frames[0], frames[1..];
      WholeFrameAt(before, f, Flatten(rest));
      AppendAssoc(before, f, Flatten(rest));
      ScanFrames(before + f, rest);
      assert Flatten(frames) == f + Flatten(rest);
      assert InReach(frames) == if |Flatten(frames)| <= 18 then 0 else 1 + InReach(rest);
      hide InReach, Flatten, Offsets;
      if |f + Flatten(rest)| > 18 {
        OffsetsCons(frames, |before|, InReach(rest));
      } else {
        OffsetsBelow(frames, |before|);
      }
    }
  }

  /** Only the last RTP frame can be too close to the end of the stream. */
  lemma {:induction false} RtpFramesInReach(frames: seq<seq<byte>>)
    requires forall i :: 0 <= i < |frames| ==> WholeFrame(frames[i])
    ensures InReach(frames) == Locatable(frames)
  {
    hide WholeFrame;
    if frames != [] {
      var rest := frames[1..];
      RtpFramesInReach(rest);
      FlattenSize(frames);
      assert WholeFrame(frames[0]);
      if rest != [] {
        FlattenSize(rest);
        RtpFrameSize(frames[0]);
        RtpFrameSize(rest[0]);
      }
    }
  }

  lemma RtpFrameSize(f: seq<byte>)
    requires WholeFrame(f)
    ensures |f| > 16
  {
  }

  lemma FlattenSize(parts: seq<seq<byte>>)
    requires parts != []
    ensures |Flatten(parts)| == |parts[0]| + |Flatten(parts[1..])|
  {
  }

  /** On a stream of RTP frames the scan finds every frame where it starts, up to the look-ahead. */
  lemma ScanWholeFrames(before: seq<byte>, frames: seq<seq<byte>>)
    requires forall i :: 0 <= i < |frames| ==> WholeFrame(frames[i])
    ensures Scan(before + Flatten(frames), |before|)
         == Located(Offsets(frames, |before|)[..Locatable(frames)], false)
  {
    hide Scan, Flatten, Offsets, Locatable, InReach, Complete;
    RtpFramesInReach(frames);
    ScanFrames(before, frames);
  }
}
