/** The H.264 RTP depacketizer (H264RTPParser,
    BaseClass/RTPParser/H264RTPParser.cpp): RTP packets in, Annex B units
    out. A single-NAL packet is emitted at once behind a four-byte start
    code; FU-A fragments are gathered in the packet buffer behind one start
    code and the reconstructed unit header and emitted on the marker; a new
    timestamp first flushes whatever is pending. The buffer is modelled as
    the sequence of its bytes and the callback as the sequence of media
    packets it has been handed. */
module H264RtpParser {
  import opened Bytes
  import opened RtpPacket
  import H264Packetizer

  const DefaultPayloadType: byte := 96
  /** The start code put in front of every unit. */
  const StartCode: seq<byte> := [0, 0, 0, 1]
  /** NAL unit type 28, an FU-A fragment. */
  const FuaType: byte := 28

  /** A media packet handed to the callback: DTS and PTS are the same
      timestamp, and the data. */
  datatype MediaFrame = MediaFrame(dts: bv32, data: seq<byte>)

  /** m_nPaylodaType, m_nSSRC, m_nLastPackTime, the bytes in m_PacketBuff,
      and the media packets handed on so far. */
  datatype ParserState = ParserState(pt: byte, ssrc: bv32, lastTime: bv32, pending: seq<byte>, frames: seq<MediaFrame>)

  /** What RecvPacket returns and the state it leaves. */
  datatype Step = Step(ret: int, st: ParserState)

  /** What OutputMediaPacket returns (H264RTPParser.cpp:44-86): 0 with no
      callback or nothing pending, -1 when the copy cannot be allocated. */
  function OutputResult(st: ParserState, cb: bool, copyOk: bool): int
  {
    if !cb || |st.pending| == 0 then 0 else if !copyOk then -1 else 0
  }

  /** The media packets after OutputMediaPacket: the pending bytes with the
      last timestamp as DTS and PTS, if there is a callback, something
      pending and the copy can be allocated. */
  function Output(st: ParserState, cb: bool, copyOk: bool): (fs: seq<MediaFrame>)
    ensures fs == st.frames || (cb && copyOk && fs == st.frames + [MediaFrame(st.lastTime, st.pending)])
    ensures |fs| == |st.frames| + 1 <==> cb && copyOk && |st.pending| > 0
  {
    if cb && |st.pending| > 0 && copyOk then st.frames + [MediaFrame(st.lastTime, st.pending)] else st.frames
  }

  /** OutputMediaPacket followed by ClearBuff. */
  function Flush(st: ParserState, cb: bool, copyOk: bool): ParserState
  {
    st.(frames := Output(st, cb, copyOk), pending := [])
  }

  /** The length guard as written (H264RTPParser.cpp:93): any packet of
      at least 12 bytes passes. */
  predicate AcceptedAsWritten(d: seq<byte>)
  {
    |d| >= 12
  }

  /** The uint32_t byte count size - 14 appended for an FU-A packet of
      size bytes (H264RTPParser.cpp:140). */
  function FuRemainder(size: int): int
  {
    (size - 14) % U32
  }

  /** As written, a 12-byte packet passes the guard although the unit
      header it reads next, byte 12, lies past its end; and a 13-byte
      FU-A packet passes with byte 13 past its end and a byte count of
      2^32 - 1 to append. */
  lemma ShortPacketsPass(d: seq<byte>)
    requires |d| == 12 || |d| == 13
    ensures AcceptedAsWritten(d)
    ensures |d| == 12 ==> !(12 < |d|)
    ensures |d| == 13 ==> !(13 < |d|) && FuRemainder(|d|) == U32 - 1
  {
  }

  /** The corrected guard: too short for the bytes read next, 13 for the
      unit header and 14 for an FU-A packet's FU header. */
  predicate TooShort(d: seq<byte>)
  {
    |d| < 13 || (|d| == 13 && d[12] & 0x1f == FuaType)
  }

  /** The corrected guard lets through exactly the packets whose bytes
      the code goes on to read are there. */
  lemma TooShortExact(d: seq<byte>)
    ensures !TooShort(d) <==> 12 < |d| && (d[12] & 0x1f == FuaType ==> 14 <= |d|)
  {
  }

  /** The header fields read from an accepted packet (H264RTPParser.cpp:105-116):
      the payload type and the SSRC are kept; a timestamp other than the
      last one flushes what is pending and becomes the last one. */
  function Accept(st: ParserState, d: seq<byte>, cb: bool, copyOk: bool): (r: ParserState)
    requires |d| >= 12
  {
    var time := Be32(d[4..8]);
    var st1 := st.(pt := d[1] & 0x7f, ssrc := Be32(d[8..12]));
    if time != st1.lastTime then Flush(st1, cb, copyOk).(lastTime := time) else st1
  }

  /** A single-NAL packet (H264RTPParser.cpp:118-125): the start code and
      the packet from byte 12 on appended, then handed on and cleared. */
  function PutUnit(st: ParserState, d: seq<byte>, cb: bool, copyOk: bool): ParserState
    requires |d| >= 13
  {
    Flush(st.(pending := st.pending + StartCode + d[12..]), cb, copyOk)
  }

  /** An FU-A fragment (H264RTPParser.cpp:126-146): on the S bit or with
      nothing pending, the start code and the unit header rebuilt from the
      NRI of byte 12 and the type of byte 13; then the payload from byte 14
      on; on the marker, handed on and cleared. */
  function PutFragment(st: ParserState, d: seq<byte>, cb: bool, copyOk: bool): ParserState
    requires |d| >= 14
  {
    var head := if d[13] & 0x80 == 0x80 || |st.pending| == 0
                then StartCode + [(d[12] & 0x60) | (d[13] & 0x1f)] else [];
    var st3 := st.(pending := st.pending + head + d[14..]);
    if d[1] & 0x80 != 0 then Flush(st3, cb, copyOk) else st3
  }

  /** What follows the header fields, by the unit type in byte 12: a
      single NAL for 0-23, a fragment for 28, -3 otherwise. */
  function Dispatch(st: ParserState, d: seq<byte>, cb: bool, copyOk: bool): Step
    requires !TooShort(d)
  {
    var t := d[12] & 0x1f;
    if t <= 23 then Step(0, PutUnit(st, d, cb, copyOk))
    else if t == FuaType then Step(0, PutFragment(st, d, cb, copyOk))
    else Step(-3, st)
  }

  /** RecvPacket (H264RTPParser.cpp:88-154) with the corrected length
      guard, in the source's order: -1 for a missing packet or one shorter
      than the fixed 12-byte header, then -2 for a version other than 2,
      then -1 for a version-2 packet too short for the bytes read next; all
      three change nothing. Otherwise the header fields are taken and the
      unit type decides. */
  function Recv(st: ParserState, packet: Option<seq<byte>>, cb: bool, copyOk: bool): Step
  {
    if packet.None? || |packet.value| < 12 then Step(-1, st)
    else if packet.value[0] & 0xc0 != 0x80 then Step(-2, st)
    else if TooShort(packet.value) then Step(-1, st)
    else Dispatch(Accept(st, packet.value, cb, copyOk), packet.value, cb, copyOk)
  }

  /** The result codes: -1 exactly for a missing packet, one under 12
      bytes, or a version-2 packet too short for the bytes read next; -2
      exactly for a packet of at least 12 bytes with a wrong version, even
      when it is too short for the rest; -3 exactly for a unit type other than
      0-23 and 28; -1 and -2 leave the state as it was, and every other
      outcome takes the packet's payload type, SSRC and timestamp. */
  lemma RecvCodes(st: ParserState, packet: Option<seq<byte>>, cb: bool, copyOk: bool)
    ensures var r := Recv(st, packet, cb, copyOk);
            (r.ret == -1 <==> packet.None? || |packet.value| < 12 ||
                              (packet.value[0] & 0xc0 == 0x80 && TooShort(packet.value))) &&
            (r.ret == -2 <==> packet.Some? && |packet.value| >= 12 && packet.value[0] & 0xc0 != 0x80) &&
            (r.ret == -3 <==> packet.Some? && !TooShort(packet.value) && packet.value[0] & 0xc0 == 0x80 &&
                              packet.value[12] & 0x1f > 23 && packet.value[12] & 0x1f != FuaType) &&
            (r.ret == 0 || r.ret == -1 || r.ret == -2 || r.ret == -3) &&
            (r.ret == -1 || r.ret == -2 ==> r.st == st) &&
            (r.ret == 0 || r.ret == -3 ==>
               r.st.pt == packet.value[1] & 0x7f && r.st.ssrc == Be32(packet.value[8..12]) &&
               r.st.lastTime == Be32(packet.value[4..8]))
  {
  }

  /** Nothing handed on is ever taken back: the media packets before a
      packet are a prefix of those after it, and a new timestamp hands on
      what was pending with the old one first. */
  lemma RecvFlushesFirst(st: ParserState, packet: Option<seq<byte>>, cb: bool, copyOk: bool)
    ensures st.frames <= Recv(st, packet, cb, copyOk).st.frames
    ensures var r := Recv(st, packet, cb, copyOk);
            (r.ret == 0 || r.ret == -3) && Be32(packet.value[4..8]) != st.lastTime ==>
              Output(st, cb, copyOk) <= r.st.frames
  {
    if packet.Some? && !TooShort(packet.value) && packet.value[0] & 0xc0 == 0x80 {
      var d := packet.value;
      var a := Accept(st, d, cb, copyOk);
      if Be32(d[4..8]) != st.lastTime {
        assert a.frames == Output(st.(pt := d[1] & 0x7f, ssrc := Be32(d[8..12])), cb, copyOk) == Output(st, cb, copyOk);
      }
      assert st.frames <= a.frames;
      DispatchKeeps(a, d, cb, copyOk);
    }
  }

  /** Dispatching never takes back a media packet already handed on. */
  lemma DispatchKeeps(st: ParserState, d: seq<byte>, cb: bool, copyOk: bool)
    requires !TooShort(d)
    ensures st.frames <= Dispatch(st, d, cb, copyOk).st.frames
  {
    var t := d[12] & 0x1f;
    if t <= 23 {
      var x := st.(pending := st.pending + StartCode + d[12..]);
      assert Dispatch(st, d, cb, copyOk).st.frames == Output(x, cb, copyOk);
    } else if t == FuaType {
      var head := if d[13] & 0x80 == 0x80 || |st.pending| == 0
                  then StartCode + [(d[12] & 0x60) | (d[13] & 0x1f)] else [];
      var x := st.(pending := st.pending + head + d[14..]);
      if d[1] & 0x80 != 0 {
        assert Dispatch(st, d, cb, copyOk).st.frames == Output(x, cb, copyOk);
      }
    }
  }

  /** The packets ps received one after another, results ignored. */
  function Feed(st: ParserState, ps: seq<Packet>, cb: bool, copyOk: bool): ParserState
    decreases |ps|
  {
    if |ps| == 0 then st
    else Recv(Feed(st, ps[..|ps| - 1], cb, copyOk), Some(ps[|ps| - 1]), cb, copyOk).st
  }

  /** The header fields the parser reads from a packet: version 2, the
      second byte b1 (marker and payload type), the timestamp and the SSRC. */
  predicate Carries(p: Packet, b1: byte, time: bv32, ssrc: bv32)
  {
    |p| >= 12 && p[0] & 0xc0 == 0x80 && p[1] == b1 && Be32(p[4..8]) == time && Be32(p[8..12]) == ssrc
  }

  /** A packet that starts with an RTP header as the packetizers write it
      carries the header's fields. */
  lemma HeaderFields(p: Packet, b1: byte, s: bv16, time: bv32, ssrc: bv32)
    requires |p| >= 12 && p[..12] == RtpHeader(b1, s, time, ssrc)
    ensures Carries(p, b1, time, ssrc)
  {
    var h := RtpHeader(b1, s, time, ssrc);
    assert p[4..8] == h[4..8] == Be32Bytes(time);
    assert p[8..12] == h[8..12] == Be32Bytes(ssrc);
    Be32Back(time);
    Be32Back(ssrc);
  }

  /** The header fields, taken by a parser that has nothing pending or
      already has their timestamp: nothing is handed on. */
  lemma AcceptHeader(st: ParserState, p: Packet, b1: byte, time: bv32, ssrc: bv32, cb: bool, copyOk: bool)
    requires Carries(p, b1, time, ssrc)
    requires st.pending == [] || st.lastTime == time
    ensures Accept(st, p, cb, copyOk) == st.(pt := b1 & 0x7f, ssrc := ssrc, lastTime := time)
  {
    var st1 := st.(pt := b1 & 0x7f, ssrc := ssrc);
    if time != st.lastTime {
      assert Output(st1, cb, copyOk) == st.frames;
      assert Accept(st, p, cb, copyOk) == st1.(pending := [], lastTime := time);
    } else {
      assert Accept(st, p, cb, copyOk) == st1;
    }
  }

  /** A long enough packet with those fields is received by taking them and
      dispatching on its unit type. */
  lemma RecvHeader(st: ParserState, p: Packet, b1: byte, time: bv32, ssrc: bv32, cb: bool, copyOk: bool)
    requires !TooShort(p) && Carries(p, b1, time, ssrc)
    requires st.pending == [] || st.lastTime == time
    ensures Recv(st, Some(p), cb, copyOk) == Dispatch(st.(pt := b1 & 0x7f, ssrc := ssrc, lastTime := time), p, cb, copyOk)
  {
    AcceptHeader(st, p, b1, time, ssrc, cb, copyOk);
  }

  /** The bytes of a single-NAL packet the parser looks at. */
  lemma SingleFields(pt: byte, s: bv16, time: bv32, ssrc: bv32, d: seq<byte>)
    requires pt <= 0x7f && 1 <= |d| && d[0] & 0x1f <= 23
    ensures var p := H264Packetizer.SingleNalu(pt, s, time, ssrc, d);
            Carries(p, 0x80 | pt, time, ssrc) && !TooShort(p) &&
            p[12] & 0x1f <= 23 && p[12..] == d && (0x80 | pt) & 0x7f == pt
  {
    var p := H264Packetizer.SingleNalu(pt, s, time, ssrc, d);
    HeaderFields(p, 0x80 | pt, s, time, ssrc);
    assert p[12] == p[12..][0] == d[0];
  }

  /** A single-NAL packet from the packetizer, received with nothing
      pending, is handed on at once as the start code and the unit. */
  lemma ParseSingle(st: ParserState, pt: byte, s: bv16, time: bv32, ssrc: bv32, d: seq<byte>, cb: bool, copyOk: bool)
    requires pt <= 0x7f && st.pending == [] && 1 <= |d| && d[0] & 0x1f <= 23
    ensures Recv(st, Some(H264Packetizer.SingleNalu(pt, s, time, ssrc, d)), cb, copyOk) ==
            Step(0, ParserState(pt, ssrc, time, [], st.frames + (if cb && copyOk then [MediaFrame(time, StartCode + d)] else [])))
  {
    var p := H264Packetizer.SingleNalu(pt, s, time, ssrc, d);
    SingleFields(pt, s, time, ssrc, d);
    RecvHeader(st, p, 0x80 | pt, time, ssrc, cb, copyOk);
    var st2 := st.(pt := pt, ssrc := ssrc, lastTime := time);
    assert st2.pending + StartCode + p[12..] == StartCode + d;
  }

  /** The header byte an FU-A pair rebuilds: the NRI from the indicator
      and the type from the header, all but the top bit of the unit's
      first byte. */
  lemma FuHeaderRebuilt(t: byte, kind: FuKind)
    ensures FuIndicator(t) & 0x1f == FuaType
    ensures (FuIndicator(t) & 0x60) | (FuHeader(kind, t) & 0x1f) == t & 0x7f
    ensures FuHeader(kind, t) & 0x80 == 0x80 <==> kind == FuStart
  {
  }

  /** The bytes of an FU-A packet the parser looks at, as the packetizer
      writes them for unit header byte t and the given chunk. */
  predicate FuBytes(p: Packet, pt: byte, time: bv32, ssrc: bv32, t: byte, kind: FuKind, chunk: seq<byte>)
  {
    |p| >= 14 && Carries(p, FuMarker(kind, pt), time, ssrc) &&
    p[12] & 0x1f == FuaType && (p[12] & 0x60) | (p[13] & 0x1f) == t & 0x7f &&
    (p[13] & 0x80 == 0x80 <==> kind == FuStart) && p[14..] == chunk
  }

  /** A fragment from the packetizer has those bytes. */
  lemma FragmentFields(pt: byte, s: bv16, time: bv32, ssrc: bv32, t: byte, kind: FuKind, chunk: seq<byte>)
    ensures FuBytes(Fragment(pt, s, time, ssrc, t, kind, chunk), pt, time, ssrc, t, kind, chunk)
  {
    var p := Fragment(pt, s, time, ssrc, t, kind, chunk);
    HeaderFields(p, FuMarker(kind, pt), s, time, ssrc);
    assert p[12] == FuIndicator(t) && p[13] == FuHeader(kind, t);
    FuHeaderRebuilt(t, kind);
  }

  /** The second header byte of a fragment: the payload type, with the
      marker on the last fragment only. */
  lemma FuMarkerBits(kind: FuKind, pt: byte)
    requires pt <= 0x7f
    ensures FuMarker(kind, pt) & 0x7f == pt && (FuMarker(kind, pt) & 0x80 != 0 <==> kind == FuEnd)
  {
  }

  /** What an FU-A fragment leaves once its header fields are taken: the
      rebuilt header behind a start code on the S bit or with nothing
      pending, then the chunk; handed on on the marker. */
  lemma PutFragmentOf(st: ParserState, p: Packet, pt: byte, time: bv32, ssrc: bv32, t: byte, kind: FuKind,
                      chunk: seq<byte>, cb: bool, copyOk: bool)
    requires pt <= 0x7f && |p| >= 14 && p[1] == FuMarker(kind, pt) && p[12] & 0x1f == FuaType
    requires (p[12] & 0x60) | (p[13] & 0x1f) == t & 0x7f && (p[13] & 0x80 == 0x80 <==> kind == FuStart) && p[14..] == chunk
    ensures var head := if kind == FuStart || |st.pending| == 0 then StartCode + [t & 0x7f] else [];
            var st3 := st.(pt := pt, ssrc := ssrc, lastTime := time, pending := st.pending + head + chunk);
            Dispatch(st.(pt := pt, ssrc := ssrc, lastTime := time), p, cb, copyOk) ==
            Step(0, if kind == FuEnd then Flush(st3, cb, copyOk) else st3)
  {
    FuMarkerBits(kind, pt);
    var st1 := st.(pt := pt, ssrc := ssrc, lastTime := time);
    DispatchFragment(st1, p, cb, copyOk);
    PutFragmentBits(st1, p, kind == FuStart, t & 0x7f, kind == FuEnd, chunk, cb, copyOk);
  }

  /** A long enough FU-A packet is dispatched to PutFragment. */
  lemma DispatchFragment(st: ParserState, p: Packet, cb: bool, copyOk: bool)
    requires |p| >= 14 && p[12] & 0x1f == FuaType
    ensures Dispatch(st, p, cb, copyOk) == Step(0, PutFragment(st, p, cb, copyOk))
  {
  }

  /** PutFragment in terms of the three things it reads from the packet:
      the S bit, the rebuilt unit header and the marker. */
  lemma PutFragmentBits(st: ParserState, p: Packet, start: bool, h: byte, mark: bool, chunk: seq<byte>,
                        cb: bool, copyOk: bool)
    requires |p| >= 14 && p[14..] == chunk
    requires (p[13] & 0x80 == 0x80) == start && (p[12] & 0x60) | (p[13] & 0x1f) == h && (p[1] & 0x80 != 0) == mark
    ensures var head := if start || |st.pending| == 0 then StartCode + [h] else [];
            var st3 := st.(pending := st.pending + head + chunk);
            PutFragment(st, p, cb, copyOk) == if mark then Flush(st3, cb, copyOk) else st3
  {
  }

  /** A packet with the bytes of an FU-A fragment, received with nothing
      pending or with its timestamp already the last. */
  lemma RecvFragment(st: ParserState, p: Packet, pt: byte, time: bv32, ssrc: bv32, t: byte, kind: FuKind,
                     chunk: seq<byte>, cb: bool, copyOk: bool)
    requires pt <= 0x7f && (st.pending == [] || st.lastTime == time)
    requires FuBytes(p, pt, time, ssrc, t, kind, chunk)
    ensures var head := if kind == FuStart || |st.pending| == 0 then StartCode + [t & 0x7f] else [];
            var st3 := st.(pt := pt, ssrc := ssrc, lastTime := time, pending := st.pending + head + chunk);
            Recv(st, Some(p), cb, copyOk) == Step(0, if kind == FuEnd then Flush(st3, cb, copyOk) else st3)
  {
    FuMarkerBits(kind, pt);
    RecvHeader(st, p, FuMarker(kind, pt), time, ssrc, cb, copyOk);
    PutFragmentOf(st, p, pt, time, ssrc, t, kind, chunk, cb, copyOk);
  }

  /** An FU-A fragment from the packetizer, received with nothing pending
      or with its timestamp already the last: the header byte without its
      top bit behind a start code when it starts a unit or nothing is
      pending, then its chunk; handed on after the last fragment. */
  lemma ParseFragment(st: ParserState, pt: byte, s: bv16, time: bv32, ssrc: bv32, t: byte, kind: FuKind,
                      chunk: seq<byte>, cb: bool, copyOk: bool)
    requires pt <= 0x7f && (st.pending == [] || st.lastTime == time)
    ensures var head := if kind == FuStart || |st.pending| == 0 then StartCode + [t & 0x7f] else [];
            var st3 := st.(pt := pt, ssrc := ssrc, lastTime := time, pending := st.pending + head + chunk);
            Recv(st, Some(Fragment(pt, s, time, ssrc, t, kind, chunk)), cb, copyOk) ==
            Step(0, if kind == FuEnd then Flush(st3, cb, copyOk) else st3)
  {
    FragmentFields(pt, s, time, ssrc, t, kind, chunk);
    RecvFragment(st, Fragment(pt, s, time, ssrc, t, kind, chunk), pt, time, ssrc, t, kind, chunk, cb, copyOk);
  }

  /** Feeding one more packet is receiving it after the others. */
  lemma FeedSnoc(st: ParserState, ps: seq<Packet>, p: Packet, cb: bool, copyOk: bool)
    ensures Feed(st, ps + [p], cb, copyOk) == Recv(Feed(st, ps, cb, copyOk), Some(p), cb, copyOk).st
  {
    assert (ps + [p])[..|ps|] == ps;
  }

  /** The state after one more packet, from the state before it. */
  lemma FeedStep(st: ParserState, ps: seq<Packet>, p: Packet, prev: ParserState, next: ParserState, cb: bool, copyOk: bool)
    requires Feed(st, ps, cb, copyOk) == prev && Recv(prev, Some(p), cb, copyOk).st == next
    ensures Feed(st, ps + [p], cb, copyOk) == next
  {
    FeedSnoc(st, ps, p, cb, copyOk);
  }

  /** Fragment k - 1 of unit d, as the packet that extends the first
      k - 1, with the bytes of it that the parser looks at. */
  lemma NextFragment(pt: byte, s: bv16, time: bv32, ssrc: bv32, d: seq<byte>, k: int) returns (frag: Packet)
    requires pt <= 0x7f && |d| > MaxRtpLen && 1 <= k <= FuCount(|d|)
    ensures FuaPackets(pt, s, time, ssrc, d, k) == FuaPackets(pt, s, time, ssrc, d, k - 1) + [frag]
    ensures FuBytes(frag, pt, time, ssrc, d[0], KindAt(k - 1, FuCount(|d|)), FuChunk(d, k - 1))
  {
    var kind := KindAt(k - 1, FuCount(|d|));
    frag := Fragment(pt, Advance(s, k - 1), time, ssrc, d[0], kind, FuChunk(d, k - 1));
    FragmentFields(pt, Advance(s, k - 1), time, ssrc, d[0], kind, FuChunk(d, k - 1));
  }

  /** The first k chunks of a unit, after its header byte, are its first
      1 + 1398 k bytes, and all of them are the whole unit. */
  lemma ChunksJoin(d: seq<byte>, k: int)
    requires |d| > MaxRtpLen && 1 <= k <= FuCount(|d|)
    ensures k == 1 ==> [d[0]] + FuChunk(d, 0) == d[..1 + FuChunkLen]
    ensures k < FuCount(|d|) ==> d[..1 + FuChunkLen * (k - 1)] + FuChunk(d, k - 1) == d[..1 + FuChunkLen * k]
    ensures k == FuCount(|d|) ==> d[..1 + FuChunkLen * (k - 1)] + FuChunk(d, k - 1) == d
  {
    var lo := 1 + FuChunkLen * (k - 1);
    if k < FuCount(|d|) {
      assert d[..lo] + d[lo..lo + FuChunkLen] == d[..lo + FuChunkLen];
    } else {
      assert d[..lo] + d[lo..] == d;
    }
    if k == 1 {
      assert d[..1] == [d[0]];
    }
  }

  /** A byte whose top bit is clear is its own low seven bits. */
  lemma TopBitClear(b: byte)
    requires b & 0x80 == 0
    ensures b & 0x7f == b
  {
  }

  /** What the first fragment leaves pending: the start code and the
      unit's first 1 + 1398 bytes. */
  lemma FirstPending(pending: seq<byte>, d: seq<byte>)
    requires pending == [] && |d| > MaxRtpLen && d[0] & 0x80 == 0
    ensures pending + (StartCode + [d[0] & 0x7f]) + FuChunk(d, 0) == StartCode + d[..1 + FuChunkLen]
  {
    ChunksJoin(d, 1);
    TopBitClear(d[0]);
    assert [d[0] & 0x7f] == [d[0]];
  }

  /** The state the first fragment of unit d leaves, received with
      nothing pending. */
  lemma FirstFragmentState(prev: ParserState, frag: Packet, pt: byte, time: bv32, ssrc: bv32, d: seq<byte>,
                           cb: bool, copyOk: bool)
    requires pt <= 0x7f && |d| > MaxRtpLen && d[0] & 0x80 == 0
    requires FuBytes(frag, pt, time, ssrc, d[0], FuStart, FuChunk(d, 0))
    requires prev.pending == []
    ensures Recv(prev, Some(frag), cb, copyOk).st ==
            ParserState(pt, ssrc, time, StartCode + d[..1 + FuChunkLen], prev.frames)
  {
    RecvFragment(prev, frag, pt, time, ssrc, d[0], FuStart, FuChunk(d, 0), cb, copyOk);
    FirstPending(prev.pending, d);
  }

  /** The state a middle fragment k - 1 of unit d leaves, received after
      the first k - 1. */
  lemma MiddleFragmentState(prev: ParserState, frag: Packet, pt: byte, time: bv32, ssrc: bv32, d: seq<byte>,
                            cb: bool, copyOk: bool, k: int)
    requires pt <= 0x7f && |d| > MaxRtpLen && 1 < k < FuCount(|d|)
    requires FuBytes(frag, pt, time, ssrc, d[0], FuMiddle, FuChunk(d, k - 1))
    requires prev == ParserState(pt, ssrc, time, StartCode + d[..1 + FuChunkLen * (k - 1)], prev.frames)
    ensures Recv(prev, Some(frag), cb, copyOk).st ==
            ParserState(pt, ssrc, time, StartCode + d[..1 + FuChunkLen * k], prev.frames)
  {
    var chunk := FuChunk(d, k - 1);
    RecvFragment(prev, frag, pt, time, ssrc, d[0], FuMiddle, chunk, cb, copyOk);
    ChunksJoin(d, k);
    assert prev.pending + [] + chunk == StartCode + (d[..1 + FuChunkLen * (k - 1)] + chunk);
  }

  /** The state the last fragment of unit d leaves, received after the
      others: the whole unit handed on behind the start code, if it can be,
      and nothing pending. */
  lemma LastFragmentState(prev: ParserState, frag: Packet, pt: byte, time: bv32, ssrc: bv32, d: seq<byte>,
                          cb: bool, copyOk: bool, frames: seq<MediaFrame>)
    requires pt <= 0x7f && |d| > MaxRtpLen
    requires FuBytes(frag, pt, time, ssrc, d[0], FuEnd, FuChunk(d, FuCount(|d|) - 1))
    requires prev == ParserState(pt, ssrc, time, StartCode + d[..1 + FuChunkLen * (FuCount(|d|) - 1)], frames)
    ensures Recv(prev, Some(frag), cb, copyOk).st ==
            ParserState(pt, ssrc, time, [], frames + (if cb && copyOk then [MediaFrame(time, StartCode + d)] else []))
  {
    var chunk := FuChunk(d, FuCount(|d|) - 1);
    RecvFragment(prev, frag, pt, time, ssrc, d[0], FuEnd, chunk, cb, copyOk);
    LastFlush(prev, pt, time, ssrc, d, cb, copyOk, frames);
  }

  /** The last chunk completes the unit behind the start code, and
      flushing hands it on. */
  lemma LastFlush(prev: ParserState, pt: byte, time: bv32, ssrc: bv32, d: seq<byte>,
                  cb: bool, copyOk: bool, frames: seq<MediaFrame>)
    requires |d| > MaxRtpLen
    requires prev == ParserState(pt, ssrc, time, StartCode + d[..1 + FuChunkLen * (FuCount(|d|) - 1)], frames)
    ensures Flush(prev.(pt := pt, ssrc := ssrc, lastTime := time, pending := prev.pending + [] + FuChunk(d, FuCount(|d|) - 1)), cb, copyOk) ==
            ParserState(pt, ssrc, time, [], frames + (if cb && copyOk then [MediaFrame(time, StartCode + d)] else []))
  {
    var n := FuCount(|d|);
    var chunk := FuChunk(d, n - 1);
    var pend := prev.pending + [] + chunk;
    assert pend == StartCode + d by {
      ChunksJoin(d, n);
      assert pend == StartCode + (d[..1 + FuChunkLen * (n - 1)] + chunk);
    }
    var st3 := prev.(pending := pend);
    assert Output(st3, cb, copyOk) == frames + (if cb && copyOk then [MediaFrame(time, StartCode + d)] else []);
  }

  /** The first fragment, received with nothing pending. */
  lemma GatherFirst(st: ParserState, pt: byte, s: bv16, time: bv32, ssrc: bv32, d: seq<byte>, cb: bool, copyOk: bool)
    requires pt <= 0x7f && st.pending == [] && |d| > MaxRtpLen && d[0] & 0x80 == 0
    ensures Feed(st, FuaPackets(pt, s, time, ssrc, d, 1), cb, copyOk) ==
            ParserState(pt, ssrc, time, StartCode + d[..1 + FuChunkLen], st.frames)
  {
    var frag := NextFragment(pt, s, time, ssrc, d, 1);
    assert FuaPackets(pt, s, time, ssrc, d, 0) == [];
    FirstFragmentState(st, frag, pt, time, ssrc, d, cb, copyOk);
    FeedStep(st, [], frag, st, ParserState(pt, ssrc, time, StartCode + d[..1 + FuChunkLen], st.frames), cb, copyOk);
  }

  /** One middle fragment more, from the state the first k - 1 left. */
  lemma GatherNext(st: ParserState, pt: byte, s: bv16, time: bv32, ssrc: bv32, d: seq<byte>,
                   cb: bool, copyOk: bool, k: int, frames: seq<MediaFrame>)
    requires pt <= 0x7f && |d| > MaxRtpLen && 1 < k < FuCount(|d|)
    requires Feed(st, FuaPackets(pt, s, time, ssrc, d, k - 1), cb, copyOk) ==
             ParserState(pt, ssrc, time, StartCode + d[..1 + FuChunkLen * (k - 1)], frames)
    ensures Feed(st, FuaPackets(pt, s, time, ssrc, d, k), cb, copyOk) ==
            ParserState(pt, ssrc, time, StartCode + d[..1 + FuChunkLen * k], frames)
  {
    var frag := NextFragment(pt, s, time, ssrc, d, k);
    var prev := ParserState(pt, ssrc, time, StartCode + d[..1 + FuChunkLen * (k - 1)], frames);
    assert KindAt(k - 1, FuCount(|d|)) == FuMiddle;
    MiddleFragmentState(prev, frag, pt, time, ssrc, d, cb, copyOk, k);
    FeedStep(st, FuaPackets(pt, s, time, ssrc, d, k - 1), frag, prev,
             ParserState(pt, ssrc, time, StartCode + d[..1 + FuChunkLen * k], frames), cb, copyOk);
  }

  /** The last fragment, from the state the others left. */
  lemma GatherLast(st: ParserState, pt: byte, s: bv16, time: bv32, ssrc: bv32, d: seq<byte>,
                   cb: bool, copyOk: bool, k: int, frames: seq<MediaFrame>)
    requires pt <= 0x7f && |d| > MaxRtpLen && k == FuCount(|d|)
    requires Feed(st, FuaPackets(pt, s, time, ssrc, d, k - 1), cb, copyOk) ==
             ParserState(pt, ssrc, time, StartCode + d[..1 + FuChunkLen * (k - 1)], frames)
    ensures Feed(st, FuaPackets(pt, s, time, ssrc, d, k), cb, copyOk) ==
            ParserState(pt, ssrc, time, [], frames + (if cb && copyOk then [MediaFrame(time, StartCode + d)] else []))
  {
    var frag := NextFragment(pt, s, time, ssrc, d, k);
    var prev := ParserState(pt, ssrc, time, StartCode + d[..1 + FuChunkLen * (k - 1)], frames);
    assert KindAt(k - 1, FuCount(|d|)) == FuEnd;
    LastFragmentState(prev, frag, pt, time, ssrc, d, cb, copyOk, frames);
    FeedStep(st, FuaPackets(pt, s, time, ssrc, d, k - 1), frag, prev,
             ParserState(pt, ssrc, time, [], frames + (if cb && copyOk then [MediaFrame(time, StartCode + d)] else [])), cb, copyOk);
  }

  /** What is pending after the first k fragments of a unit d, from
      nothing pending: the start code, d's header byte and the first k
      chunks. */
  lemma {:induction false} ParseFragments(st: ParserState, pt: byte, s: bv16, time: bv32, ssrc: bv32, d: seq<byte>,
                                          cb: bool, copyOk: bool, k: int)
    requires pt <= 0x7f && st.pending == [] && |d| > MaxRtpLen && d[0] & 0x80 == 0
    requires 1 <= k < FuCount(|d|)
    ensures Feed(st, FuaPackets(pt, s, time, ssrc, d, k), cb, copyOk) ==
            ParserState(pt, ssrc, time, StartCode + d[..1 + FuChunkLen * k], st.frames)
    decreases k, 1
  {
    if k == 1 {
      ParseFirstFragment(st, pt, s, time, ssrc, d, cb, copyOk, k);
    } else {
      ParseMoreFragments(st, pt, s, time, ssrc, d, cb, copyOk, k);
    }
  }
  /** ParseFragments for the first fragment alone. */
  lemma ParseFirstFragment(st: ParserState, pt: byte, s: bv16, time: bv32, ssrc: bv32, d: seq<byte>,
                                          cb: bool, copyOk: bool, k: int)
    requires pt <= 0x7f && st.pending == [] && |d| > MaxRtpLen && d[0] & 0x80 == 0
    requires 1 == k < FuCount(|d|)
    ensures Feed(st, FuaPackets(pt, s, time, ssrc, d, k), cb, copyOk) ==
            ParserState(pt, ssrc, time, StartCode + d[..1 + FuChunkLen * k], st.frames)
  {
      GatherFirst(st, pt, s, time, ssrc, d, cb, copyOk);
  }
  /** ParseFragments for k > 1: the first k - 1, then one more. */
  lemma {:induction false} ParseMoreFragments(st: ParserState, pt: byte, s: bv16, time: bv32, ssrc: bv32, d: seq<byte>,
                                          cb: bool, copyOk: bool, k: int)
    requires pt <= 0x7f && st.pending == [] && |d| > MaxRtpLen && d[0] & 0x80 == 0
    requires 1 < k < FuCount(|d|)
    ensures Feed(st, FuaPackets(pt, s, time, ssrc, d, k), cb, copyOk) ==
            ParserState(pt, ssrc, time, StartCode + d[..1 + FuChunkLen * k], st.frames)
    decreases k, 0
  {
      ParseFragments(st, pt, s, time, ssrc, d, cb, copyOk, k - 1);
      GatherNext(st, pt, s, time, ssrc, d, cb, copyOk, k, st.frames);
  }


  /** A unit that fits one packet, fed with nothing pending. */
  lemma FeedSingle(st: ParserState, pt: byte, s: bv16, time: bv32, ssrc: bv32, d: seq<byte>, cb: bool, copyOk: bool)
    requires pt <= 0x7f && st.pending == [] && 1 <= |d| <= MaxRtpLen && d[0] & 0x1f <= 23
    ensures Feed(st, H264Packetizer.NalPackets(pt, s, time, ssrc, d), cb, copyOk) ==
            ParserState(pt, ssrc, time, [], st.frames + (if cb && copyOk then [MediaFrame(time, StartCode + d)] else []))
  {
    var p := H264Packetizer.SingleNalu(pt, s, time, ssrc, d);
    assert H264Packetizer.NalPackets(pt, s, time, ssrc, d) == [] + [p];
    ParseSingle(st, pt, s, time, ssrc, d, cb, copyOk);
    FeedStep(st, [], p, st, ParserState(pt, ssrc, time, [], st.frames + (if cb && copyOk then [MediaFrame(time, StartCode + d)] else [])), cb, copyOk);
  }

  /** A unit split into fragments, fed with nothing pending. */
  lemma FeedFragmented(st: ParserState, pt: byte, s: bv16, time: bv32, ssrc: bv32, d: seq<byte>, cb: bool, copyOk: bool)
    requires pt <= 0x7f && st.pending == [] && |d| > MaxRtpLen && d[0] & 0x80 == 0
    ensures Feed(st, FuaPackets(pt, s, time, ssrc, d, FuCount(|d|)), cb, copyOk) ==
            ParserState(pt, ssrc, time, [], st.frames + (if cb && copyOk then [MediaFrame(time, StartCode + d)] else []))
  {
    var n := FuCount(|d|);
    ParseFragments(st, pt, s, time, ssrc, d, cb, copyOk, n - 1);
    GatherLast(st, pt, s, time, ssrc, d, cb, copyOk, n, st.frames);
  }

  /** The round trip: a unit whose forbidden bit is clear and whose type is
      at most 23, packetized (H264RTPpacketizer.cpp:177-187) and received
      in order with nothing pending, is handed on exactly once, as the
      start code followed by the unit, with the packetizer's payload type,
      SSRC and timestamp taken and nothing left pending. */
  lemma ParseUnit(st: ParserState, pt: byte, s: bv16, time: bv32, ssrc: bv32, d: seq<byte>, cb: bool, copyOk: bool)
    requires pt <= 0x7f && st.pending == [] && 1 <= |d| && d[0] & 0x80 == 0 && d[0] & 0x1f <= 23
    ensures Feed(st, H264Packetizer.NalPackets(pt, s, time, ssrc, d), cb, copyOk) ==
            ParserState(pt, ssrc, time, [], st.frames + (if cb && copyOk then [MediaFrame(time, StartCode + d)] else []))
  {
    if |d| <= MaxRtpLen {
      FeedSingle(st, pt, s, time, ssrc, d, cb, copyOk);
    } else {
      FeedFragmented(st, pt, s, time, ssrc, d, cb, copyOk);
    }
  }

  class H264RTPParser {
    var payloadType: byte
    var ssrc: bv32
    var lastTime: bv32
    /** The bytes in m_PacketBuff. */
    var pending: seq<byte>
    /** Whether a callback is set, and the media packets it has been handed. */
    var hasCallback: bool
    var frames: seq<MediaFrame>

    ghost function State(): ParserState
      reads this
    {
      ParserState(payloadType, ssrc, lastTime, pending, frames)
    }

    /** The constructor (H264RTPParser.cpp:4-10). */
    constructor ()
      ensures State() == ParserState(DefaultPayloadType, 0, 0, [], []) && !hasCallback
    {
      payloadType, ssrc, lastTime, pending := DefaultPayloadType, 0, 0, [];
      hasCallback, frames := false, [];
    }

    /** ReleaseAll (H264RTPParser.cpp:17-26): the buffer emptied, the
        callback dropped and the header fields reset. */
    method ReleaseAll() returns (ret: int)
      modifies this
      ensures ret == 0 && !hasCallback
      ensures State() == ParserState(DefaultPayloadType, 0, 0, [], old(frames))
    {
      pending := [];
      hasCallback := false;
      payloadType, ssrc, lastTime := DefaultPayloadType, 0, 0;
      ret := 0;
    }

    /** GetPaylodaType (H264RTPParser.cpp:28-31). */
    method GetPaylodaType() returns (t: byte)
      ensures t == payloadType
    {
      t := payloadType;
    }

    /** GetSSRC (H264RTPParser.cpp:39-42). */
    method GetSSRC() returns (v: bv32)
      ensures v == ssrc
    {
      v := ssrc;
    }

    /** SetPacketCallbaclk (H264RTPParser.cpp:33-37), with present saying
        whether the callback is set. */
    method SetPacketCallbaclk(present: bool) returns (ok: bool)
      modifies this`hasCallback
      ensures ok && hasCallback == present
    {
      hasCallback := present;
      ok := true;
    }

    /** OutputMediaPacket (H264RTPParser.cpp:44-86); copyOk is whether the
        copy of the pending bytes can be allocated. The buffer is left as
        it is. */
    method OutputMediaPacket(copyOk: bool) returns (ret: int)
      modifies this`frames
      ensures ret == OutputResult(old(State()), hasCallback, copyOk)
      ensures frames == Output(old(State()), hasCallback, copyOk)
    {
      if !hasCallback {
        return 0;
      }
      if |pending| == 0 {
        return 0;
      }
      if !copyOk {
        return -1;
      }
      frames := frames + [MediaFrame(lastTime, pending)];
      ret := 0;
    }

    /** The header fields of RecvPacket (H264RTPParser.cpp:105-116): the
        payload type and the SSRC kept, and on a new timestamp what is
        pending handed on and cleared first. */
    method TakeHeader(d: seq<byte>, copyOk: bool)
      requires |d| >= 12
      modifies this`payloadType, this`ssrc, this`lastTime, this`pending, this`frames
      ensures State() == Accept(old(State()), d, hasCallback, copyOk)
    {
      payloadType := d[1] & 0x7f;
      var time := Be32(d[4..8]);
      ssrc := Be32(d[8..12]);
      if time != lastTime {
        var r := OutputMediaPacket(copyOk);
        pending := [];
        lastTime := time;
      }
    }

    /** A single-NAL packet (H264RTPParser.cpp:118-125). */
    method TakeUnit(d: seq<byte>, copyOk: bool)
      requires |d| >= 13
      modifies this`pending, this`frames
      ensures State() == PutUnit(old(State()), d, hasCallback, copyOk)
    {
      pending := pending + StartCode;
      pending := pending + d[12..];
      var r := OutputMediaPacket(copyOk);
      pending := [];
    }

    /** An FU-A fragment (H264RTPParser.cpp:126-146). */
    method TakeFragment(d: seq<byte>, copyOk: bool)
      requires |d| >= 14
      modifies this`pending, this`frames
      ensures State() == PutFragment(old(State()), d, hasCallback, copyOk)
    {
      var head := if d[13] & 0x80 == 0x80 || |pending| == 0
                  then StartCode + [(d[12] & 0x60) | (d[13] & 0x1f)] else [];
      pending := pending + head + d[14..];
      if d[1] & 0x80 != 0 {
        var r := OutputMediaPacket(copyOk);
        pending := [];
      }
    }

    /** RecvPacket (H264RTPParser.cpp:88-154), with the length guard
        corrected to the bytes read; copyOk is what every OutputMediaPacket
        allocation on the way does. */
    method RecvPacket(packet: Option<seq<byte>>, copyOk: bool) returns (ret: int)
      modifies this`payloadType, this`ssrc, this`lastTime, this`pending, this`frames
      ensures Step(ret, State()) == Recv(old(State()), packet, hasCallback, copyOk)
    {
      if packet.None? || |packet.value| < 12 {
        return -1;
      }
      var d := packet.value;
      if d[0] & 0xc0 != 0x80 {
        return -2;
      }
      if TooShort(d) {
        return -1;
      }
      TakeHeader(d, copyOk);
      var t := d[12] & 0x1f;
      if t <= 23 {
        TakeUnit(d, copyOk);
      } else if t == FuaType {
        TakeFragment(d, copyOk);
      } else {
        return -3;
      }
      ret := 0;
    }
  }
}
