# Proofs about the hand-written stream code

This project models, in Dafny, the parts of the repository that handle byte streams and shared
state themselves instead of calling FFmpeg or SDL, and proves what those parts are for.
`dafny verify dfyconfig.toml` checks all of it.

The pieces, and the main result about each:

* **Framing** (`RtspFraming`). `RTSPReader::read` sees a TCP stream in pieces and keeps a skip count
  and a short tail between calls. `Scan` looks at the whole stream at once, up to the first length field
  that is negative as a signed number. One call reports exactly the frames that `Scan` finds in the
  longer stream and had not found before, resynchronisation included. The receive loop ignores a
  negative length and goes on; its reader then starts over with the next chunk. However a stream is
  cut, what the loop reports is what `Scan` finds if there is no negative length, and otherwise
  exactly if no '$' behind the chunk that completed it has more than 18 bytes after it.
* **Start codes** (`AnnexB`, `NalReading`). `ReadNalu`, with reads of any size, refines the one-shot
  `Split`, whose units concatenate to the file and hold no start code but their own.
* **Emulation prevention** (`Emulation`, `NalReading`). Escaping, writing with any mix of start codes,
  splitting, parsing the header and unescaping give every NAL unit back.
* **The byte automaton** (`NalSource`, `SplitterAgreement`). `copy_nal_from_file` loses no byte. On every
  stream, started behind the first start code, it returns the buffering reader's units except the last
  if and only if 2, or 3 modulo 4, zero bytes stand before the 01 of every start code between units.
* **Packets** (`FuA`, `Receiver`, `RtpSender`, `Delivery`, `RtspServer`). Packetizing, framing, cutting the
  connection anywhere, locating and reassembling is the identity on NAL units up to three stated lengths;
  `ServedFileArrives` follows a file from the disk to the receiver, and `ServedSays` gives every byte sent.
* **Interception** (`UnitFragments`, `Interception`, `FragmentReceiver`). The proxy's fragment cache hands
  out the fragmentation of the file's units, pass after pass; one renumbered packet leaves per located
  header, and the receiver restores exactly the units sent whole, for H.264 and H.265. Numbering starts at
  the first replaced packet's number exactly when the chunk holds that number.
* **Conversion** (`Extradata`, `Avcc`). Splitting the converted MP4 packets gives the units of all
  packets, with the parameter sets before each IDR unit.
* **Parameter sets** (`BitReading`, `Syntax`, `Sps`, `Pps`, `DecoderMain`). Every parameter set in range,
  serialized by the syntax tables of ITU-T H.264, is parsed back, and exactly its bits are consumed; the
  same from a whole file of escaped units. `Numerals` and `Samples` compare the codes and tables with
  plain numbers and with the bytes of a file.
* **Queues** (`BoundedQueue`, `CondQueue`, with `Counting`). Step systems with any number of threads:
  conservation, order, mutual exclusion, exactly when no thread has a step, no lost wake-up.
* **Checksum** (`Checksum`): acceptance of what is stored, for both forms.
* **Select loop** (`SelectLoop`): over every run of events, who is in the table and who is served.

Conventions. `Bytes` and `Memory` hold byte strings and memcpy. A file or socket is a byte sequence; a
read may deliver any part of it. Code that updates fields or buffers is a class or a method with loops,
tied by its `ensures` to a function on sequences; the theorems are about those functions. Writers that
the repository lacks (start codes, emulation prevention, Exp-Golomb and parameter-set serializers,
FU-A reassembly, the avcC record) are functions taken from ITU-T H.264 (sections 7.3, 7.4.1, 9.1,
Annexes B and E), RFC 6184 (section 5.8), RFC 7798 (section 4.4.3), RFC 2326 (section 10.12) and ISO/IEC 14496-15
(section 5.3.3.1).

Where the code and what it claims differ, the model follows the code:

* `fread1` copies from one element behind its position, so the first byte of a file is never delivered
  and the byte behind the file is. `Delivered` says so, and `SplittersAgree` shows what depends on it.
* A comment in `h264_mp4toannexb` says that only the first IDR unit of a picture gets the parameter
  sets, and only if none are there already; the code puts them in front of every type-5 unit, and so
  does `Converted`. `ConvertedAsCommented` says for which packets that is the same, and `TwoIdrSlices`
  is a packet for which it is not.
* `h264_mp4toannexb` says that lengths have 1, 2 or 4 bytes, and the record announces their size; the
  code ignores that and reads 4. `ReadOnlyWithFour` says that packets with other lengths are never
  read as their units.
* The single `&` in `CheckStartCode` and in `GetRBSP` is read as a conjunction, which it is in effect.
* A unit of 1401 bytes is sent by `h264nal2rtp_send` as one fragment without an end bit; it cannot be
  reassembled. `FuA.LOST` holds this length and the empty unit, the only ones lost.
* `h264nal2rtp_send` means to mark the last fragment and to count packets modulo 2^16. Its marker
  condition is always false, and it writes the count modulo 65535; `FrameBytes` and `NumbersCountOn`
  say what is sent. `init` is set for the second unit of a connection, not the first; `ServedSays` says so.
* `SizesAreTrue` says for which lengths the proxy overstates the size of a fragment.
* The interceptor reads the first header at its place in the current chunk even when it began in an
  earlier one. `HeaderIsTheFrames`, `NumberIsTheFrames` and `NumberLost` say when that is wrong.
* Offsets of 2^30 or more in absolute value, which an SPS may hold, are misread by `ReadSE`;
  `PocUnchanged` says that these are the only ones.
* `checksum_generic` sign-extends an odd last byte; `StoredChecksumIsAccepted` says when that breaks
  acceptance.

## Model

| member | source | states |
|---|---|---|
| RtspFraming.NextDollar | webrtc/rtsp_server/proxy.cpp:473-478 | resynchronisation: the first '$' from a position on, and none before it |
| RtspFraming.ScanFindsFrames | webrtc/rtsp_server/proxy.cpp:469-497 | every frame located on a stream starts with '$', has more than 18 bytes after that, and is located once, in order |
| RtspFraming.ScanExtends | webrtc/rtsp_server/proxy.cpp:444-513 | what has been located stays located when more bytes arrive, and a broken stream stays broken |
| RtspFraming.SkipByte | webrtc/rtsp_server/proxy.cpp:473-478 | stepping over a byte that is not '$' loses no frame |
| RtspFraming.ProgressFrame | webrtc/rtsp_server/proxy.cpp:488-496 | reporting a frame and jumping over it by its length keeps the promise about every continuation of the stream |
| RtspFraming.ProgressBroken | webrtc/rtsp_server/proxy.cpp:490-494 | a length of 2^15 or more ends the location with exactly the frames reported so far |
| RtspFraming.NothingLocated | webrtc/rtsp_server/proxy.cpp:479-487 | with at most 18 bytes ahead, what has been reported is all there is to find |
| RtspFraming.RtspReader.constructor | webrtc/rtsp_server/proxy.cpp:442 | a fresh reader waits for a chunk that starts with '$' |
| RtspFraming.RtspReader.Resynchronise | webrtc/rtsp_server/proxy.cpp:473-478 | moves to the next '$' or the last byte of the window without passing a frame |
| RtspFraming.RtspReader.PassFrame | webrtc/rtsp_server/proxy.cpp:488-496 | reports one frame and moves behind it, or stops at a negative length |
| RtspFraming.RtspReader.LocateFrames | webrtc/rtsp_server/proxy.cpp:469-497 | the positions found in a window are the frames reported, and at most 18 bytes are left |
| RtspFraming.RtspReader.SaveTail | webrtc/rtsp_server/proxy.cpp:500-509 | the saved tail is the unread end of the stream and fits the 19-byte buffer |
| RtspFraming.RtspReader.Search | webrtc/rtsp_server/proxy.cpp:469-512 | after a window is searched, all frames of the stream so far have been reported |
| RtspFraming.RtspReader.Read | webrtc/rtsp_server/proxy.cpp:444-513 | for every state and chunk: the positions returned, made absolute, are the frames the one-shot scan finds in the longer stream and had not found before |
| RtspFraming.AwaitStart | webrtc/rtsp_server/proxy.cpp:449-456 | chunks before the first one that starts with '$' are ignored |
| RtspFraming.IgnoredChunks | webrtc/rtsp_server/proxy.cpp:449-456 | the chunks ignored are exactly those before the first one that starts with '$' |
| RtspFraming.RtspReader.StartsAhead | webrtc/rtsp_server/proxy.cpp:500-509 | every frame still to be reported starts in the saved tail or behind it |
| RtspFraming.ReceiveAll | webrtc/rtsp_server/proxy.cpp:691-709 | over every cut of a stream into non-empty chunks: the frames reported are the one-shot scan's, up to a negative length, and then those of a reader that starts over with the next chunk |
| RtspFraming.ScanFindsNothing | webrtc/rtsp_server/proxy.cpp:469-497 | a scan finds nothing if and only if no '$' has more than 18 bytes after it, and a scan that ends at a negative length has found something |
| RtspFraming.NothingReportedAgain | webrtc/rtsp_server/proxy.cpp:555-557 | however the rest of a stream is cut, a reader that starts over reports nothing if and only if no '$' in it has more than 18 bytes after it |
| RtspFraming.ReportsAreScan | webrtc/rtsp_server/proxy.cpp:555-557 | the frames reported are the one-shot scan's if and only if, behind the chunk with the first negative length, no '$' has more than 18 bytes after it; so always if there is no such length |
| RtspFraming.CutShows | webrtc/rtsp_server/proxy.cpp:491-494 | a stream with a negative length for which two cuts report different frames |
| RtspFraming.WholeFrameAt | webrtc/rtsp_server/proxy.cpp:488-496 | a frame of any length, RTP or not, is located at its start if more than 18 bytes follow its '$', and the scan goes on behind it by its big-endian length |
| RtspFraming.NegativeFrameAt | webrtc/rtsp_server/proxy.cpp:490-494 | a frame whose length field has its top bit set is located, and nothing behind it is |
| RtspFraming.ScanFrames | webrtc/rtsp_server/proxy.cpp:469-497 | on a stream of frames of any lengths, those of RTCP and those of 0 to 12 bytes included, exactly the frames with more than 18 bytes behind their '$' are located, where they start |
| RtspFraming.InReachExactly | webrtc/rtsp_server/proxy.cpp:469-487 | the number of frames located is that of the frames that start more than 18 bytes before the end |
| RtspFraming.OffsetOfFrame | webrtc/rtsp_server/proxy.cpp:496 | a frame starts behind all the bytes of the frames before it |
| RtspFraming.ScanWholeFrames | webrtc/rtsp_server/proxy.cpp:469-497 | on a stream of RTP frames every frame is located where it starts, except a last one too short for the look-ahead |
| AnnexB.CodeLen | code/basic/h264/AnnexBReader.hpp:86-105 | a start code has three or four bytes and lies inside the buffer |
| AnnexB.NextCode | code/basic/h264/AnnexBReader.hpp:44-53 | the earliest start code from a position on |
| AnnexB.UnitEndExtends | code/basic/h264/AnnexBReader.hpp:54-71 | a unit end found in a buffer is the unit end in the whole file |
| AnnexB.SplitKeepsBytes | code/basic/h264/AnnexBReader.hpp:32-82 | the units of a file concatenate to the file |
| AnnexB.SplitUnits | code/basic/h264/AnnexBReader.hpp:32-82 | no unit holds a start code besides its own, and all but the first have one |
| AnnexB.UnitThenCode | code/basic/h264/AnnexBReader.hpp:38-53 | a unit that cannot be confused with start codes ends exactly where the next start code begins |
| AnnexB.SplitWritten | code/basic/h264/AnnexBReader.hpp:32-82 | units written with any mix of start codes are split into the same units |
| Emulation.GetRBSP | code/basic/h264/EBSP.hpp:41-57 | the bytes kept are those of the specification, packed at the front, and len counts them |
| Emulation.UnescapeEscape | code/basic/h264/EBSP.hpp:41-57 | unescaping what the standard's writer produces gives the bytes back, with the final 03 where one was appended |
| Emulation.RoundTripExactly | code/basic/h264/EBSP.hpp:41-57 | unescaping inverts escaping if and only if the bytes do not end in zero |
| Emulation.EscapeIsClean | code/basic/h264/EBSP.hpp:8-14 | escaped bytes hold no start code and no zero byte at the end |
| NalReading.Nalu.SetBuf | code/basic/h264/Nalu.hpp:45-56 | the unit's bytes are replaced by a copy |
| NalReading.Nalu.ParseHeader | code/basic/h264/Nalu.hpp:65-71 | the three fields are the bits of the header byte, and nothing of it is lost |
| NalReading.HeaderFields | code/basic/h264/Nalu.hpp:65-71 | the forbidden bit is the first bit of the header byte, nal_ref_idc the next two, the type the last five; 0x67 is 0, 3 and 7 |
| NalReading.Nalu.ParseRBSP | code/basic/h264/Nalu.hpp:60-64 | the payload behind the header byte is unescaped |
| NalReading.Nalu.GetEBSP | code/basic/h264/Nalu.hpp:97-105 | exactly the bytes behind start code and header |
| NalReading.AnnexBReader.ReadFromFile | code/basic/h264/AnnexBReader.hpp:109-131 | appends what is read, and reads nothing only at the end of the file |
| NalReading.AnnexBReader.FindNextCode | code/basic/h264/AnnexBReader.hpp:44-53 | the earliest start code in the buffer, or -1 |
| NalReading.AnnexBReader.ReadNalu | code/basic/h264/AnnexBReader.hpp:32-82 | for all read sizes: the first unit of what is left of the file, its start code length, the rest, and whether it was the last; refilling terminates |
| NalReading.DecodeOne | code/basic/h264/h264_decoder_main.cpp:10-20 | one round reads and parses the next unit |
| NalReading.DecodeFile | code/basic/h264/h264_decoder_main.cpp:10-20 | the loop parses every unit of the file once, in order |
| NalReading.DecodeInvertsEncode | code/basic/h264/h264_decoder_main.cpp:10-20 | every list of headers and payloads, escaped and written with any start codes, is what the loop parses |
| NalSource.Emitted | webrtc/rtsp_server/rtp.h:148-197 | held zero bytes and the byte read equal the bytes written and the zero bytes still held |
| NalSource.CopyConserves | webrtc/rtsp_server/rtp.h:143-199 | on every stream: bytes read equal bytes written, then a start code, or then at most three held zero bytes at the end |
| NalSource.Delivered | webrtc/rtsp_server/rtp.h:119-128 | what is delivered at each place is the next byte of the file, and at the end the byte behind the file |
| NalSource.RtspSource.constructor | webrtc/rtsp_server/rtp.h:91-111 | the whole file is loaded and the position is 0 |
| NalSource.RtspSource.Fread1 | webrtc/rtsp_server/rtp.h:119-128 | delivers the byte behind the one at the position, or -1 at the end |
| NalSource.RtspSource.Reset | webrtc/rtsp_server/rtp.h:204-206 | everything is delivered again |
| NalSource.RtspSource.Emit | webrtc/rtsp_server/rtp.h:161-165 | up to three zero bytes and the byte behind them are appended |
| NalSource.RtspSource.CopyNalFromFile | webrtc/rtsp_server/rtp.h:133-202 | the loop computes the automaton: unit, bytes consumed, or -1 and the partial output at the end |
| NalSource.CopyStep | webrtc/rtsp_server/rtp.h:148-197 | one step of the automaton for each value of flag and kind of byte |
| SplitterAgreement.CopyThrough | webrtc/rtsp_server/rtp.h:143-199 | bytes that cannot be confused with start codes pass through unchanged, whatever follows |
| SplitterAgreement.LongRun | webrtc/rtsp_server/rtp.h:157-196 | where the automaton stops in a run of zero bytes of any length before 01 |
| SplitterAgreement.FirstCut | webrtc/rtsp_server/rtp.h:133-202 | the bytes before the first start code are returned if and only if 2, or 3 modulo 4, zero bytes precede its 01 |
| SplitterAgreement.FirstUnitAgrees | webrtc/rtsp_server/rtp.h:133-202 | on every stream, behind the first unit's own start code: the automaton returns the buffering reader's unit and stops behind the next start code if 2, or 3 modulo 4, zero bytes precede the 01 that ends the unit, and returns something else otherwise |
| SplitterAgreement.StreamsAgree | webrtc/rtsp_server/rtp.h:133-202 | on every stream, successive results are the buffering reader's units without the last if and only if that holds for every start code between two units |
| SplitterAgreement.LeadingCode | webrtc/rtsp_server/rtp.h:131-131 | the start code at the beginning of a stream is returned as an empty unit |
| SplitterAgreement.ResultsOfUnits | webrtc/rtsp_server/rtp.h:133-202 | successive calls return every written unit except the last |
| SplitterAgreement.SplittersAgree | webrtc/rtsp_server/rtp.h:119-202 | the automaton returns the buffering reader's units, after an empty one and without the last, if and only if the file starts with 00 00 00 01 |
| FuA.Indicator | webrtc/rtsp_server/rtsp_tcp_server.cpp:180-182 | the FU indicator keeps F and NRI and has type 28 |
| FuA.FuHeader | webrtc/rtsp_server/rtsp_tcp_server.cpp:186-195 | the FU header keeps the unit's type; S and E are the fragment's place |
| FuA.FragmentCount | webrtc/rtsp_server/rtsp_tcp_server.cpp:256 | the least number of fragments that hold the unit |
| FuA.LastFragmentSize | webrtc/rtsp_server/rtsp_tcp_server.cpp:258 | what is left for the last fragment |
| FuA.PiecesCover | webrtc/rtsp_server/rtsp_tcp_server.cpp:273-274 | consecutive fragments continue each other and the last one ends the unit |
| FuA.FragmentMarks | webrtc/rtsp_server/rtsp_tcp_server.cpp:261-275 | S on exactly the first fragment, E on exactly the last of several, at most 1400 bytes of the unit in each |
| FuA.ReceiveFragments | webrtc/rtsp_server/rtsp_tcp_server.cpp:250-288 | the receiver of RFC 6184 restores one fragmented unit, unless it has 1401 bytes |
| FuA.ReassembleInvertsPayloads | webrtc/rtsp_server/rtsp_tcp_server.cpp:230-288 | reassembly of the payloads of any list of units gives the units back, except those of 0 and 1401 bytes |
| Receiver.RestoredAll | webrtc/rtsp_server/rtsp_tcp_server.cpp:219-288 | all units come back if and only if none has one of the lost lengths: 0 and 1401 bytes for the server, the single-FU lengths for the proxy |
| Receiver.NothingComplete | webrtc/rtsp_server/rtsp_tcp_server.cpp:261-275 | fragments without an end bit complete no unit |
| RtpSender.Packetizer.StartPacket | webrtc/rtsp_server/rtsp_tcp_server.cpp:262-264 | the sequence number is counted on, and the buffer is zero but for the interleaved prefix, left as it is, and the RTP header behind it |
| RtpSender.Packetizer.FinishPacket | webrtc/rtsp_server/rtsp_tcp_server.cpp:278-283 | writes the length field and sends exactly header and payload |
| RtpSender.Packetizer.SendSingle | webrtc/rtsp_server/rtsp_tcp_server.cpp:230-247 | a small unit goes out as one frame |
| RtpSender.Packetizer.SendFragment | webrtc/rtsp_server/rtsp_tcp_server.cpp:261-286 | one fragment goes out as one frame with the next sequence number |
| RtpSender.Packetizer.SendFragments | webrtc/rtsp_server/rtsp_tcp_server.cpp:250-288 | all fragments in order, or those before the first refused send |
| RtpSender.Packetizer.SendPayloads | webrtc/rtsp_server/rtsp_tcp_server.cpp:219-288 | exactly the frames of the unit's payloads in order, none for an empty unit, or as many as the connection takes before it refuses one |
| RtpSender.Packetizer.SendNal | webrtc/rtsp_server/rtsp_tcp_server.cpp:202-290 | clock, reset, result, sequence counter, and exactly the frames of the unit's payloads in order, or those before a refusal |
| RtpSender.FrameBytes | webrtc/rtsp_server/rtsp_tcp_server.cpp:153-173 | every byte of a frame: its length, version 2 without padding, extension or sources, type 96 without marker, big-endian number and time, source ff ef 24 e7, payload |
| RtpSender.ClockRate | webrtc/rtsp_server/rtsp_tcp_server.cpp:205 | a frame takes the whole part of 90000 / framerate ticks |
| RtpSender.PacketBuilt | webrtc/rtsp_server/rtsp_tcp_server.cpp:263-279 | the parts written into the buffer in any order form prefix, length, header and payload |
| Delivery.FrameIsWhole | webrtc/rtsp_server/rtsp_tcp_server.cpp:275-281 | a sent frame's length field matches its contents and its payload is found again |
| Delivery.ExtractPayloads | webrtc/rtsp_server/proxy.cpp:488-496 | the payloads at the located offsets are the payloads sent |
| Delivery.LocatablePayloads | webrtc/rtsp_server/proxy.cpp:469-487 | only a last unit of one or two bytes falls behind the look-ahead |
| Delivery.DeliveryRestores | webrtc/rtsp_server/rtsp_tcp_server.cpp:202-290 | frames of any list of units, located and reassembled, give the units back but for the stated lengths, and the stream is never taken for broken |
| Delivery.DeliveryIsIdentity | webrtc/rtsp_server/rtsp_tcp_server.cpp:202-290 | every unit comes back if and only if none has 0 or 1401 bytes and the last one has more than 2 |
| Delivery.LocatedPayloads | webrtc/rtsp_server/proxy.cpp:469-497 | on a stream of whole frames the payloads at the located frames are those sent, up to the look-ahead |
| Delivery.ReceiveNals | webrtc/rtsp_server/proxy.cpp:444-513 | the same for the incremental reader and every cut of the stream |
| RtspServer.SendOne | webrtc/rtsp_server/rtsp_tcp_server.cpp:443-446 | one unit: all its frames, with the clock and the counter of its place, or as many as the connection still takes |
| RtspServer.StreamFile | webrtc/rtsp_server/rtsp_tcp_server.cpp:431-448 | exactly the frames of everything the automaton returns, in order, header bytes included: all of them if the connection takes that many, and otherwise as many as it takes |
| RtspServer.ServedCarries | webrtc/rtsp_server/rtsp_tcp_server.cpp:431-448 | these frames carry the payloads of the units, in order |
| RtspServer.ServedSays | webrtc/rtsp_server/rtsp_tcp_server.cpp:202-215 | every byte of every frame of a run: the second unit starts number and time over, the frames of a unit have one time, and that is 3600 ticks after the time of the unit before, modulo 2^32 |
| RtspServer.ServedFileSays | webrtc/rtsp_server/rtsp_tcp_server.cpp:431-448 | the frames sent for a file that starts with 00 00 00 01: the n-th has number n + 1, as far as the field can say, and those of the i-th unit have time 3600 i |
| RtspServer.NumbersCountOn | webrtc/rtsp_server/rtsp_tcp_server.cpp:168 | the number written is one more than the one before if and only if the count modulo 2^16 is below 65534; 65535 is written as 0 |
| RtspServer.ServedFileArrives | webrtc/rtsp_server/rtsp_tcp_server.cpp:431-448 | a file of units starting with 00 00 00 01 arrives as its units without the last, but for the stated lengths |
| UnitFragments.Indicator265 | webrtc/rtsp_server/proxy.cpp:81-84 | the first H.265 payload header byte keeps F and the layer bit |
| UnitFragments.FuHeader265 | webrtc/rtsp_server/proxy.cpp:87-100 | the H.265 FU header keeps the unit's type; S and E are the fragment's place |
| UnitFragments.OneFragment | webrtc/rtsp_server/proxy.cpp:377-420 | each fragment carries its piece of the unit, and the unit header can be rebuilt from its FU bytes |
| UnitFragments.FragmentsCarryUnit | webrtc/rtsp_server/proxy.cpp:360-421 | for H.264 and H.265: each fragment's FU bytes are a prefix the receiver knows, and the unit header they hold and the payloads of one unit's fragments, in order, are the unit |
| UnitFragments.SamplePrefixes | webrtc/rtsp_server/proxy.cpp:57-101 | the FU bytes of an H.264 and an H.265 slice as literal bytes |
| UnitFragments.OnlyEmptyOnesSkipped | webrtc/rtsp_server/proxy.cpp:343-351 | of the results of the automaton exactly the empty ones are skipped |
| UnitFragments.UnitsOfWritten | webrtc/rtsp_server/proxy.cpp:338-351 | from a written file that starts with 00 00 00 01 the units handed out are all but the last |
| UnitFragments.SizesAreTrue | webrtc/rtsp_server/proxy.cpp:399-411 | every fragment's size is its content's if and only if the unit is not one of the single-FU edge lengths |
| UnitFragments.OverstatedSize | webrtc/rtsp_server/proxy.cpp:399-411 | for those lengths: one fragment with one byte more than the unit and a stated size of 1402 or 1403 |
| UnitFragments.FragmentCache.constructor | webrtc/rtsp_server/proxy.cpp:329-331 | nothing cached, nothing handed out |
| UnitFragments.FragmentCache.Reset | webrtc/rtsp_server/proxy.cpp:428-432 | starts over at the first unit of the file |
| UnitFragments.FragmentCache.ReadUnit | webrtc/rtsp_server/proxy.cpp:338-351 | skips empty units, starts over at the end of the file, and ends with the next unit |
| UnitFragments.FragmentCache.CutUnit | webrtc/rtsp_server/proxy.cpp:354-421 | the loop produces the fragmentation of the unit |
| UnitFragments.FragmentCache.Refill | webrtc/rtsp_server/proxy.cpp:334-423 | the cache holds the fragments of the next unit, and nothing has been lost or repeated |
| UnitFragments.FragmentCache.GetFragment | webrtc/rtsp_server/proxy.cpp:333-426 | over any number of calls, fragments handed out plus cached are the fragmentations of the file's units in order, pass after pass |
| FragmentReceiver.FragmentBits | webrtc/rtsp_server/proxy.cpp:377-420 | S is on the first fragment only, E on the last of several only, and no fragment can be taken for a unit of its own |
| FragmentReceiver.MarkerIsEnd | webrtc/rtsp_server/proxy.cpp:399-405 | the marker is set on exactly the last of several fragments, the one with the end bit, and not on a small unit |
| FragmentReceiver.ReceiveUnit | webrtc/rtsp_server/proxy.cpp:354-421 | the receiver restores a unit from its fragments, reading S and E, unless the unit has a single-FU length |
| FragmentReceiver.PartRestoresNothing | webrtc/rtsp_server/proxy.cpp:354-421 | fewer than all fragments of a unit restore nothing |
| FragmentReceiver.StreamRestores | webrtc/rtsp_server/proxy.cpp:333-426 | from the first fragments handed out, however many, the receiver restores exactly the file's units, pass after pass, all of whose fragments are among them, but for the single-FU lengths |
| FragmentReceiver.ClientReceives | webrtc/rtsp_server/proxy.cpp:623-655 | the same from the packets on the connection, up to a last one inside the look-ahead: located, payloads taken, reassembled |
| FragmentReceiver.ClientOfInceptor | webrtc/rtsp_server/proxy.cpp:555-603 | in every state in which packets are replaced, what has been sent since the start restores to exactly the file's units, in order, all of whose fragments have been sent and are located, but for the single-FU lengths |
| FragmentReceiver.PacketsOfInceptor | webrtc/rtsp_server/proxy.cpp:579-652 | in every such state, the j-th packet sent since the start: its length, the first header's flags, type and source, its number plus j modulo 2^16, its time plus 3000 (j + 1) modulo 2^32, and the marker bit exactly if its payload has the end bit |
| Interception.HeaderByte | webrtc/rtsp_server/proxy.cpp:563-567 | header bytes inside the chunk are the frame's, the others are memory before the chunk |
| Interception.HeaderIsTheFrames | webrtc/rtsp_server/proxy.cpp:563-575 | the header found is the frame's, whatever lies before the chunk, if and only if it begins in the chunk |
| Interception.NumberIsTheFrames | webrtc/rtsp_server/proxy.cpp:571-573 | the sequence number found is the frame's, whatever lies before the chunk, if and only if the chunk holds it |
| Interception.NumberLost | webrtc/rtsp_server/proxy.cpp:563-573 | a frame cut behind its tenth byte whose number is misread |
| Interception.FirstPosition | webrtc/rtsp_server/proxy.cpp:563-567 | the first position is that of the first frame not reported before, and its header is in reach |
| Interception.ReplacedHeader | webrtc/rtsp_server/proxy.cpp:571-583 | a replaced packet keeps flags, payload type and source of the first one, the first replacement also its number |
| Interception.HeaderRoundTrip | webrtc/rtsp_server/proxy.cpp:571-575 | an RTP header converted to host order and back is the same twelve bytes |
| Interception.HeaderNumbers | webrtc/rtsp_server/proxy.cpp:571-575 | where the fields stand in the twelve bytes, as big-endian numbers |
| Interception.PacketBytes | webrtc/rtsp_server/proxy.cpp:579-652 | every byte of the i-th packet in terms of the bytes of the first header |
| Interception.CountOn | webrtc/rtsp_server/proxy.cpp:573-583 | counting on from the first packet gives sequence numbers rising by one modulo 2^16 from the first packet's, and timestamps rising by 3000 modulo 2^32 |
| Interception.StreamIsSound | webrtc/rtsp_server/proxy.cpp:399-411 | over well-sized units every fragment handed out states its true size |
| Interception.Inceptor.constructor | webrtc/rtsp_server/proxy.cpp:541-545 | not replacing |
| Interception.Inceptor.WriteRtpPacket | webrtc/rtsp_server/proxy.cpp:623-655 | exactly one packet: prefix, true length, the given header with the fragment's marker, the fragment |
| Interception.Inceptor.ReplaceOne | webrtc/rtsp_server/proxy.cpp:580-584 | one more fragment, and what has been sent since the start is still the renumbered packets of all fragments handed out |
| Interception.Inceptor.Start | webrtc/rtsp_server/proxy.cpp:569-577 | the first header is remembered and the fragments start over |
| Interception.Inceptor.ReplaceAll | webrtc/rtsp_server/proxy.cpp:579-585 | one packet for every position |
| Interception.Inceptor.Handle | webrtc/rtsp_server/proxy.cpp:555-603 | for every chunk: located frames, switching on and off, the first header as that of the stream's first unreported frame under the two conditions above, forwarding of the chunk unchanged, or one replacement per located header; what was sent before stays, and everything sent since the start is the renumbered packets of the fragments handed out |
| Extradata.ExtradataToAnnexB | code/basic/remux/utils.c:67-141 | for every record and both ways into the loop: length size and units behind start codes with the total size, or refusal; it terminates |
| Extradata.RecordConverts | code/basic/remux/utils.c:67-141 | every well-formed record, with any counts including none and any extension behind the picture parameter sets, converts to exactly its units behind 00 00 00 01, or is refused if they are too long for an int |
| Extradata.SampleRecord | code/basic/remux/utils.c:67-118 | a record byte by byte |
| Avcc.AllocAndCopy | code/basic/remux/utils.c:29-63 | parameter sets, start code and unit are appended, the start code having four bytes only behind parameter sets |
| Avcc.ReadPiece | code/basic/remux/utils.c:178-199 | the next unit by its big-endian length, or refusal if it does not fit or is negative |
| Avcc.ConvertUnit | code/basic/remux/utils.c:214-228 | parameter sets go in front of type-5 units only |
| Avcc.OneUnit | code/basic/remux/utils.c:214-228 | a unit of type 5 comes behind all parameter sets, with four-byte start codes; any other unit has a three-byte one |
| Avcc.ReadSpsPps | code/basic/remux/utils.c:214-219 | the converted record, or what the packet variable held if the record is refused |
| Avcc.H264Mp4ToAnnexB | code/basic/remux/utils.c:158-249 | for every packet: all units converted, or an error and nothing written |
| Avcc.ExtractVideo | code/basic/remux/extractVideo.c:84-91 | the file is the conversions of all packets in order |
| Avcc.PiecesOfPacket | code/basic/remux/utils.c:177-233 | a packet of length-prefixed units is read as those units |
| Avcc.ReadOnlyWithFour | code/basic/remux/utils.c:178-190 | a packet whose lengths have 1 to 4 bytes is read as its units if and only if they have 4 |
| Avcc.ShortLengthRefused | code/basic/remux/utils.c:178-205 | a packet with shorter lengths is refused as a whole if it has fewer than 256 times the bytes of its first unit and 4 more |
| Avcc.ConversionKeepsUnits | code/basic/remux/utils.c:158-249 | for every well-formed record, extension and any announced length size included: splitting the file converted from packets with 4-byte lengths gives the units of all packets in order, all SPS then all PPS before each type-5 unit; packets with shorter lengths that are hardly larger than their first unit, such as those of one unit (`SingleIsLarge`), give an empty file |
| Avcc.ConvertedAsCommented | code/basic/remux/utils.c:211-231 | the converted file is what the comment promises, sets only before the first type-5 unit of each picture and only if it has none yet, if and only if there are no sets or in no packet a type-5 unit stands behind a unit of type 5, 7 or 8 |
| Avcc.TwoIdrSlices | code/basic/remux/utils.c:211-228 | a packet of two type-5 units, the second of which gets the parameter sets too |
| BitReading.BitStream.constructor | code/basic/h264/BitStream.hpp:12-17 | all bits of the buffer are ahead |
| BitReading.BitStream.ReadU1 | code/basic/h264/BitStream.hpp:21-30 | the next bit, most significant first |
| BitReading.BitStream.ReadU | code/basic/h264/BitStream.hpp:32-39 | the next n bits as a number, in its 32-bit view |
| BitReading.BitStream.CountZeros | code/basic/h264/BitStream.hpp:43-46 | leading zero bits, 32 at most, and the bit behind them |
| BitReading.BitStream.ReadUE | code/basic/h264/BitStream.hpp:41-54 | value and length of the code ahead, -1 for 32 zero bits |
| BitReading.BitStream.ReadSE | code/basic/h264/BitStream.hpp:56-65 | the signed mapping of the code ahead |
| BitReading.ShiftedOut | code/basic/h264/BitStream.hpp:36 | a number shifted right by n bits is positive exactly from 2^n on |
| Syntax.UeDecodes | code/basic/h264/BitStream.hpp:41-54 | every ue code decodes to the 32-bit view of its number, so to the number if and only if it is below 2^31, and is consumed exactly |
| Syntax.SeDecodes | code/basic/h264/BitStream.hpp:56-65 | every se code is consumed exactly, and decodes to its number if that is below 2^30 in absolute value, and otherwise to its number off by 2^31 |
| Syntax.ReadAllDecodes | code/basic/h264/BitStream.hpp:21-65 | a concatenation of codes of any size decodes to exactly the list of their readings, at any bit offset |
| Syntax.ReadUnchanged | code/basic/h264/BitStream.hpp:32-65 | an element is read as its own value if and only if that is below 2^31, or for se below 2^30 in absolute value |
| Syntax.BitsOfPack | code/basic/h264/BitStream.hpp:12-30 | the bits read from packed bytes are the bits packed |
| Numerals.UeIsFixed | code/basic/h264/BitStream.hpp:41-54 | the code of v is v + 1 in 2 z + 1 bits, for 2^z <= v + 1 < 2^(z+1) |
| Numerals.FixedAppend | code/basic/h264/BitStream.hpp:32-39 | fixed-length codes in a row are one number |
| Numerals.PackNumber | code/basic/h264/BitStream.hpp:12-30 | a big-endian number in whole bytes packs to its bytes |
| Sps.ReadHrdParameters | code/basic/h264/NaluSPS.cpp:217-233 | every HRD in range is recovered from its syntax table and exactly its bits are consumed |
| Sps.ReadVuiParameters | code/basic/h264/NaluSPS.cpp:144-215 | every VUI in range, with both HRDs, is recovered and exactly its bits are consumed |
| Sps.ReadScalingList | code/basic/h264/NaluSPS.cpp:124-142 | every coded list is expanded in place, early end and default included, and exactly its bits are consumed |
| Sps.ReadLists | code/basic/h264/NaluSPS.cpp:41-52 | 8 or 12 lists, present or not, of 16 or 64 entries |
| Sps.EveryListIsCoded | code/basic/h264/NaluSPS.cpp:124-142 | every list of values 1..255 has a code that reads back as it |
| Sps.DeltaScale | code/basic/h264/NaluSPS.cpp:130-132 | the difference the standard writes is in range and is undone by the parser's modulus |
| Sps.ReadPoc | code/basic/h264/NaluSPS.cpp:77-91 | all picture order count types with their cycle of offsets, each as `ReadSE` sees it |
| Sps.PocUnchanged | code/basic/h264/NaluSPS.cpp:83-90 | the picture order count fields are recovered if and only if every offset is below 2^30 in absolute value |
| Sps.ReadFrame | code/basic/h264/NaluSPS.cpp:94-119 | frame size, field coding, cropping and VUI |
| Sps.Parse | code/basic/h264/NaluSPS.cpp:10-122 | every SPS in range is recovered from its syntax table, field by field with the offsets as `ReadSE` sees them, and exactly its bits are consumed |
| Sps.ParseRbsp | code/basic/h264/NaluSPS.cpp:10-122 | the same from the bytes of the RBSP |
| Pps.CeilLog2Unique | code/basic/h264/NaluPPS.cpp:78-89 | the ceiling of the logarithm is the only width with 2^(c-1) < n <= 2^c |
| Pps.IntLog2 | code/basic/h264/NaluPPS.cpp:78-89 | Ceil(Log2(x)) for every x >= 1, and 0 otherwise |
| Pps.ReadMap | code/basic/h264/NaluPPS.cpp:25-50 | every slice group map type, ids with the standard's width |
| Pps.Parse | code/basic/h264/NaluPPS.cpp:11-76 | every PPS in range is recovered from its syntax table and exactly its bits are consumed |
| Pps.ParseRbsp | code/basic/h264/NaluPPS.cpp:11-76 | the same from the bytes of the RBSP |
| Syntax.PackedTrailing | code/basic/h264/BitStream.hpp:12-30 | an RBSP that ends in trailing bits does not end in a zero byte |
| DecoderMain.ParseUnit | code/basic/h264/h264_decoder_main.cpp:22-56 | the unit type selects the parser, and the parameter set is recovered |
| DecoderMain.DecodeParameterSets | code/basic/h264/h264_decoder_main.cpp:5-60 | from a file of units, escaped and with any start codes, every parameter set is found and recovered in order, except one in the last unit |
| Samples.SpsPacks | code/basic/h264/NaluSPS.cpp:10-233 | a sequence parameter set with nearly every optional part is exactly these bytes |
| Samples.PpsPacks | code/basic/h264/NaluPPS.cpp:11-76 | so is a picture parameter set |
| Samples.DecodeSample | code/basic/h264/h264_decoder_main.cpp:5-60 | from the literal bytes of a file with both, start codes and an emulation prevention byte included, the decoder finds exactly these fields |
| Samples.HighProfiles | code/basic/h264/NaluSPS.cpp:25-29 | the profiles with the fields of the high profiles |
| Samples.PlainHighRows | code/basic/h264/NaluSPS.cpp:30-52 | the rows for another chroma format: no separate planes, eight lists |
| Samples.NoListsRows | code/basic/h264/NaluSPS.cpp:34-38 | the rows without scaling lists |
| Samples.PlainFrameRows | code/basic/h264/NaluSPS.cpp:94-119 | the rows without field coding and cropping, and with a VUI of which nearly all is absent |
| Samples.PlainPocRows | code/basic/h264/NaluSPS.cpp:77-81 | the rows of the other picture order count types |
| Samples.BaselineRows | code/basic/h264/NaluSPS.cpp:10-24 | the rows of a profile that is not a high one |
| Samples.MapRows | code/basic/h264/NaluPPS.cpp:22-43 | the rows of the other slice group map types |
| BoundedQueue.ClaimedIsThere | code/sdl/thread_player.cpp:161-175 | a consumer past its semaphore finds a packet |
| BoundedQueue.StepConserves | code/sdl/thread_player.cpp:135-181 | every step keeps: free, reserved, occupied and returned slots add up to the capacity, and packets are announced, claimed or about to be announced |
| BoundedQueue.StepKeepsMutex | code/sdl/thread_player.cpp:147-149 | at most one thread is between lock and unlock |
| BoundedQueue.StepKeepsOrder | code/sdl/thread_player.cpp:148-175 | packets leave in the order in which they were appended |
| BoundedQueue.RunInv | code/sdl/thread_player.cpp:119-181 | all of this in every state of every interleaving of any number of threads |
| BoundedQueue.CanMoveExactly | code/sdl/thread_player.cpp:145-181 | a thread has a step that changes something if and only if its semaphore is positive, the mutex it wants is free, or it waits for neither |
| BoundedQueue.EnqueueAlone | code/sdl/thread_player.cpp:135-154 | an enqueue that is not interrupted takes a slot, appends its packet and announces it, and changes nothing else |
| BoundedQueue.DequeueAlone | code/sdl/thread_player.cpp:158-181 | a dequeue that is not interrupted takes the oldest packet and gives its slot back |
| BoundedQueue.StuckExactly | code/sdl/thread_player.cpp:145-164 | no thread has a step that changes anything if and only if all wait for semaphores, the queue is full if there is a producer and empty if there is a consumer |
| BoundedQueue.SomeoneCanMove | code/sdl/thread_player.cpp:119-181 | with capacity > 0, a producer and a consumer, some thread always has such a step |
| CondQueue.StepTotals | code/sdl/simple_player2.cpp:51-71 | m_size and m_duration stay the sums over the queued packets, and order stays FIFO |
| CondQueue.StepMutex | code/sdl/simple_player2.cpp:51-83 | at most one thread holds the mutex, and a sleeper has given it up |
| CondQueue.SignalWakeup | code/sdl/simple_player2.cpp:56 | a signal keeps every packet matched by a woken consumer or a pending signal |
| CondQueue.OtherWakeup | code/sdl/simple_player2.cpp:60-98 | so does every other step, including flush and wake-ups without a signal |
| CondQueue.RunInv | code/sdl/simple_player2.cpp:41-98 | totals, order, mutual exclusion and no lost wake-up in every reachable state |
| CondQueue.BlockingGetsPacket | code/sdl/simple_player2.cpp:60-84 | over every run, a dequeue called with block set ends only by taking the first packet out of the queue |
| CondQueue.StuckExactly | code/sdl/simple_player2.cpp:41-98 | no thread has a step, unasked wake-ups aside, if and only if all of them sleep, and then the queue is empty |
| CondQueue.Begins | code/sdl/simple_player2.cpp:41-98 | an idle thread can begin every operation as soon as the mutex is free, and a sleeper can wake up unasked |
| CondQueue.SleepersAreSafe | code/sdl/thread_player.cpp:211-241 | while a consumer sleeps and the mutex is free, at most as many packets are queued as consumers have been woken |
| Checksum.SumWords | webrtc/basic/socket/raw_udp_socket.cpp:23-28 | the sum of the words and of the sign-extended odd byte modulo 2^64 |
| Checksum.ChecksumGeneric | webrtc/basic/socket/raw_udp_socket.cpp:22-34 | the complement of the twice folded sum, which for packets of fewer than 65536 words and a non-negative sum is the complement of the one's complement sum |
| Checksum.TestChecksumGeneric | webrtc/basic/socket/raw_udp_socket.cpp:72-84 | accepts exactly when the twice folded sum is 0xffff, which for the same packets means that the one's complement sum is 0xffff |
| Checksum.FoldTwiceIsOnesSum | webrtc/basic/socket/raw_udp_socket.cpp:30-31 | for every 32-bit sum, two folds give the one's complement sum |
| Checksum.FoldLoop | webrtc/basic/socket/raw_udp_socket.cpp:66-67 | the loop terminates with the one's complement sum |
| Checksum.ChecksumTcpUdp | webrtc/basic/socket/raw_udp_socket.cpp:44-70 | the complement of the one's complement sum of packet and pseudo header, in 32-bit arithmetic |
| Checksum.StoredTcpUdp | webrtc/basic/socket/raw_udp_socket.cpp:37-70 | stored in its zero word, it makes the one's complement sum of source, destination, zero, protocol and length bytes, packet and padded last byte 0xffff |
| Checksum.StoredChecksumIsAccepted | webrtc/basic/socket/raw_udp_socket.cpp:22-84 | a stored checksum is accepted if and only if the signed sum is not negative, so for every even-length packet, and for an odd one unless its last byte is 128 or more and, added to the other words, stays below 256 |
| SelectLoop.IoSet.constructor | webrtc/basic/async/tcp_server_select.cpp:99-111 | only the server is watched, all slots are free |
| SelectLoop.IoSet.Occupy | webrtc/basic/async/tcp_server_select.cpp:117-131 | one slot taken: table, set, count and both maxima agree |
| SelectLoop.IoSet.AddClient | webrtc/basic/async/tcp_server_select.cpp:113-136 | the first free slot is taken, or the full table is left as it is and -1 returned |
| SelectLoop.FirstFree | webrtc/basic/async/tcp_server_select.cpp:116-118 | a free slot with none before it, or the size of the table |
| SelectLoop.IoSet.ServeSlot | webrtc/basic/async/tcp_server_select.cpp:145-166 | a ready client is served once; if gone, it leaves table, set and count |
| SelectLoop.IoSet.ServeReady | webrtc/basic/async/tcp_server_select.cpp:144-167 | every ready client is served once, in slot order, and nReady ends at 0 |
| SelectLoop.IoSet.FindMaxFd | webrtc/basic/async/tcp_server_select.cpp:173-181 | the exact maximum of the watched descriptors |
| SelectLoop.IoSet.Update | webrtc/basic/async/tcp_server_select.cpp:168-181 | after removals max_fd is again the exact maximum and max_pos bounds every used slot |
| SelectLoop.IoSet.CheckClients | webrtc/basic/async/tcp_server_select.cpp:139-182 | served clients, remaining table, bounds, and nReady = 0 |
| SelectLoop.ReadyInCount | webrtc/basic/async/tcp_server_select.cpp:144-148 | the clients served are exactly the ready ones, each once |
| SelectLoop.IoSet.Round | webrtc/basic/async/tcp_server_select.cpp:210-238 | one round of accept and serve keeps all bookkeeping, whatever is ready |
| SelectLoop.IoSet.Serve | webrtc/basic/async/tcp_server_select.cpp:210-238 | over every run of events the table and the clients served are those of the specification, and the bookkeeping is kept |
| SelectLoop.SlotAfterRound | webrtc/basic/async/tcp_server_select.cpp:113-182 | every slot after a round: freed if its client was signalled and has gone, and given to a waiting connection if it was the first free one |
| SelectLoop.ClientsAfterRound | webrtc/basic/async/tcp_server_select.cpp:210-238 | who is in the table after a round: those before it who were not found gone, and a waiting connection if there was a free slot |
| SelectLoop.ClientsServed | webrtc/basic/async/tcp_server_select.cpp:144-148 | exactly the signalled clients of the table are served, once each |
| SelectLoop.ClientsOfRun | webrtc/basic/async/tcp_server_select.cpp:210-238 | over every run of events, a client is in the table if and only if it was there at first or has been accepted while a slot was free, and has not been found gone since |
| SelectLoop.ServedOfRun | webrtc/basic/async/tcp_server_select.cpp:210-238 | in every round of a run exactly the clients signalled are served, once each |

## Left out

- RtpSender.Packetizer.SendNal: a send takes the whole packet or fails; partial sends of the socket are not modelled.
- Interception.Inceptor.Handle: the check whether replacing may start reads the address of its own argument, so it is an arbitrary boolean; the memory before a chunk is a parameter; sends to the client are complete.
- Interception.Inceptor.constructor: the replacement file has no unit of the single-FU edge lengths, for which the original sends bytes it never wrote (`SizesAreTrue` gives them exactly).
- UnitFragments.FragmentCache.constructor: the file has at least one non-empty unit, without which the original loops for ever, and no unit larger than the buffer.
- RtspServer.StreamFile: no unit is larger than the server's 375000-byte buffer, which the original does not check.
- NalReading.DecodeFile: every unit has a header byte; the original reads outside its buffer otherwise.
- NalReading.Nalu.SetBuf: the unit's bytes and the reader's buffer are sequences that are replaced as a whole, as malloc and memcpy do it; ownership of memory is not modelled.
- Avcc.ReadSpsPps: when the record is refused the original uses an uninitialised packet variable; its contents are a parameter, one for every packet.
- Avcc.ConversionKeepsUnits: for packets with lengths of 1 to 3 bytes that are 256 times as large as their first unit or larger, it does not say what is written; `Avcc.ReadOnlyWithFour` says that they are not read as their units either.
- DecoderMain.DecodeParameterSets: printing and the cropping arithmetic are not modelled; a header byte of 0 is excluded, as it could be taken for part of a start code.
- Extradata.ExtradataToAnnexB: the output grows as a sequence; padding bytes behind it and failing reallocation are not modelled. Bytes read behind the record are zero, as FFmpeg guarantees.
- Syntax.SeDecodes: the overflow of `r + 1` at 2^31 - 1, undefined in C++, wraps around.
- Sps.Parse: ue values below 2^31, which is beyond every field's range but those of the HRD rates; these and the u(32) fields take all values and are recovered as their signed 32-bit view. At most 32 HRD entries and 255 offsets, as the arrays hold and the standard allows. Malformed streams make the original read and write outside its arrays. Fields are collected in a value and not assigned one by one to the object.
- Pps.Parse: ue values and malformed streams as for `Sps.Parse`; se values below 2^30 in absolute value, far beyond the fields' ranges; the trailing transform_8x8_mode fields are not parsed by the original either. Explicit slice group ids are limited to the array's 256.
- BoundedQueue.RunInv: `flush`, which does not restore the semaphores and is only called on destruction, is not a step.
- CondQueue.RunInv: `FrameQueue` of code/sdl/thread_player.cpp is the same step system without the totals; it has no model of its own.
- Checksum.StoredChecksumIsAccepted: packets of fewer than 65536 words, as an IP packet has at most.
- SelectLoop.IoSet.Round: accept succeeds and returns a descriptor that is not in use (the original would put -1 into the watched set, which is undefined); the echo to the client is a parameter saying which connections have ended.
- Sockets, clocks, files, logging, signals, processes and running out of memory.
- FFmpeg, SDL, x264, librtmp, libevent, JNI and browser code.
- The packetizers of webrtc/rtsp_server/rtsp_server.cpp and webrtc/rtsp_server/rtsp_tcp_server_h265.cpp, which add the header length where they should remove it.
- The cropping arithmetic of code/basic/h264/h264_decoder_main.cpp, which multiplies only one of two offsets.
- code/basic/remux/mp4parser.cpp, which never descends into a first child box.
- ADTS headers, plane reordering, string splitting and the drawbox filter.
