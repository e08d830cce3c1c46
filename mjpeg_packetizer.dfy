/** The Motion JPEG RTP packetizer (MJPEGRTPpacketizer,
    BaseClass/RTPPacketizer/MJPEGRTPpacketizer.cpp): a frame of at most
    MAX_RTP_LEN bytes goes out as one packet of the RTP header, one byte and
    the frame; a larger one as the same FU-A fragments the H.264
    packetizer uses, its first byte taken as the unit header. Packets are
    written into the packet buffer and handed to the callback, modelled as
    the sequence of packets it has been given; time is the frame's DTS as a
    uint32_t. */
module MjpegPacketizer {
  import opened Bytes
  import opened ExBuffer
  import opened RtpPacket

  const DefaultPayloadType: byte := 97
  const DefaultSsrc: bv32 := 0x12345678

  /** The byte written in front of a single-packet frame. */
  const JpegMark: byte := 0x0a

  /** The single packet as PacketAsSingleNalu (MJPEGRTPpacketizer.cpp:149-176)
      hands it on: 13 + |d| bytes, of which byte 12 is never written and
      keeps whatever the buffer held (stale), and the frame from byte 13 on,
      over the 0x0a written there first. */
  function JpegSingleAsWritten(pt: byte, s: bv16, time: bv32, ssrc: bv32, stale: byte, d: seq<byte>): (p: Packet)
    ensures |p| == 13 + |d| && p[12] == stale && p[13..] == d
  {
    RtpHeader(0x80 | pt, s, time, ssrc) + [stale] + d
  }

  /** As written, byte 12 of a single packet sent after a fragmented frame
      is that frame's FU indicator, never the 0x0a the code writes, and the
      same frame goes out differently depending on what was sent before. */
  lemma StaleByteShows(pt: byte, s: bv16, time: bv32, ssrc: bv32, big: seq<byte>, d: seq<byte>)
    requires |big| > MaxRtpLen
    ensures JpegSingleAsWritten(pt, s, time, ssrc, FuIndicator(big[0]), d)[12] != JpegMark
    ensures JpegSingleAsWritten(pt, s, time, ssrc, FuIndicator(big[0]), d) !=
            JpegSingleAsWritten(pt, s, time, ssrc, JpegMark, d)
  {
    var p := JpegSingleAsWritten(pt, s, time, ssrc, FuIndicator(big[0]), d);
    assert FuIndicator(big[0]) & 0x1c == 0x1c;
    assert p[12] != JpegMark;
  }

  /** The single packet with the 0x0a in byte 12, in front of the frame. */
  function JpegSingle(pt: byte, s: bv16, time: bv32, ssrc: bv32, d: seq<byte>): (p: Packet)
  {
    RtpHeader(0x80 | pt, s, time, ssrc) + [JpegMark] + d
  }

  /** The corrected single packet: the header with the marker set, 0x0a,
      then the frame, 13 + |d| bytes as the code hands on, whatever the
      buffer held before. */
  lemma JpegSingleShape(pt: byte, s: bv16, time: bv32, ssrc: bv32, d: seq<byte>)
    ensures var p := JpegSingle(pt, s, time, ssrc, d);
            |p| == 13 + |d| && p[..12] == RtpHeader(0x80 | pt, s, time, ssrc) &&
            p[12] == JpegMark && p[13..] == d && SeqOf(p) == s as int && p[1] & 0x80 != 0
  {
    var p := JpegSingle(pt, s, time, ssrc, d);
    assert p[..12] == RtpHeader(0x80 | pt, s, time, ssrc);
    HeaderSeq(0x80 | pt, s, time, ssrc);
    assert p[1] == 0x80 | pt;
  }

  /** The packets of one frame, the counter starting at s (the choice at
      MJPEGRTPpacketizer.cpp:104-111). */
  function JpegPackets(pt: byte, s: bv16, time: bv32, ssrc: bv32, d: seq<byte>): (ps: seq<Packet>)
    ensures |ps| >= 1
  {
    if |d| <= MaxRtpLen then [JpegSingle(pt, s, time, ssrc, d)]
    else FuaPackets(pt, s, time, ssrc, d, FuCount(|d|))
  }

  /** Every packet of a frame: version 2, at most 1413 bytes and so within
      the 1528-byte buffer, the counter advanced once per packet as its
      sequence number, the marker on the last packet only. */
  lemma JpegPacketsShape(pt: byte, s: bv16, time: bv32, ssrc: bv32, d: seq<byte>, k: int)
    requires 0 <= k < |JpegPackets(pt, s, time, ssrc, d)|
    ensures var p := JpegPackets(pt, s, time, ssrc, d)[k];
            13 <= |p| <= 13 + MaxRtpLen < RtpBuffLen && p[0] == 0x80 &&
            SeqOf(p) == Advance(s, k) as int &&
            (p[1] & 0x80 != 0 <==> k == |JpegPackets(pt, s, time, ssrc, d)| - 1)
  {
    if |d| <= MaxRtpLen {
      JpegSingleShape(pt, s, time, ssrc, d);
    } else {
      FuaShape(pt, s, time, ssrc, d, k);
    }
  }

  /** A receiver gets the frame back: from byte 13 of a single packet, or
      as the first byte followed by the fragments' payloads. The top bit of
      that first byte, always set in a JPEG's 0xff marker, is carried by
      neither the FU indicator nor the FU header, which keep only its other
      seven bits. */
  lemma JpegRecovers(pt: byte, s: bv16, time: bv32, ssrc: bv32, d: seq<byte>)
    ensures var ps := JpegPackets(pt, s, time, ssrc, d);
            |d| <= MaxRtpLen ==> |ps| == 1 && ps[0][13..] == d
    ensures var ps := JpegPackets(pt, s, time, ssrc, d);
            |d| > MaxRtpLen ==>
              (forall i :: 0 <= i < |ps| ==> |ps[i]| >= 14) &&
              [d[0]] + Payloads(ps, 14) == d &&
              (ps[0][12] & 0xe0) | (ps[0][13] & 0x1f) == d[0] & 0x7f
  {
    if |d| <= MaxRtpLen {
      JpegSingleShape(pt, s, time, ssrc, d);
    } else {
      FuaReassembles(pt, s, time, ssrc, d);
      FuaShape(pt, s, time, ssrc, d, 0);
    }
  }

  /** The single packet written into the buffer, with 0x0a in byte 12; the
      packet handed on is its first 13 + |d| bytes. */
  method WriteSingle(buf: array<byte>, pt: byte, s: bv16, time: bv32, ssrc: bv32, d: seq<byte>) returns (p: Packet)
    requires 13 + |d| <= buf.Length
    modifies buf
    ensures p == JpegSingle(pt, s, time, ssrc, d)
  {
    WriteHeader(buf, 0x80 | pt, s, time, ssrc);
    ghost var h := buf[..12];
    buf[12] := JpegMark;
    assert buf[..12] == h;
    CopyIn(buf, 13, d);
    assert buf[..13] == h + [JpegMark];
    p := buf[..13 + |d|];
    assert p == buf[..13] + buf[13..13 + |d|];
  }

  /** One frame written out as one packet or as FU-A fragments: its
      packets, and the counter after them. */
  method SendFrame(buf: array<byte>, pt: byte, s: bv16, time: bv32, ssrc: bv32, d: seq<byte>)
    returns (ps: seq<Packet>, next: bv16)
    requires buf.Length >= RtpBuffLen
    modifies buf
    ensures ps == JpegPackets(pt, s, time, ssrc, d) && next == Advance(s, |ps|)
  {
    if |d| <= MaxRtpLen {
      var p := WriteSingle(buf, pt, s, time, ssrc, d);
      ps, next := [p], s + 1;
      assert ps == JpegPackets(pt, s, time, ssrc, d);
      assert Advance(s, 0) == s;
    } else {
      ps, next := PacketAsFua(buf, pt, s, time, ssrc, d);
    }
  }

  class MJPEGRTPpacketizer {
    /** m_nPayloadType, m_nSSRC and the uint16_t m_nSeqNum. */
    var payloadType: byte
    var ssrc: bv32
    var seqNum: bv16
    /** m_pRtpBuff and whether Init has allocated it. */
    var buf: array<byte>
    var ready: bool
    /** Whether a callback is set, and the packets it has been handed. */
    var hasCallback: bool
    var out: seq<Packet>

    ghost predicate Valid()
      reads this`buf, this`ready, this`payloadType
    {
      (ready ==> buf.Length == RtpBuffLen) && payloadType <= 0x7f
    }

    /** The constructor (MJPEGRTPpacketizer.cpp:5-12); r is what rand()
        returned. */
    constructor (r: nat)
      ensures Valid() && !ready && !hasCallback && out == []
      ensures payloadType == DefaultPayloadType && ssrc == DefaultSsrc && seqNum == (r % 65535) as bv16
    {
      payloadType, ssrc, seqNum := DefaultPayloadType, DefaultSsrc, (r % 65535) as bv16;
      buf, ready := new byte[0], false;
      hasCallback, out := false, [];
    }

    /** Init (MJPEGRTPpacketizer.cpp:19-42): allocates the packet buffer if
        there is none; a failed allocation releases everything and gives -2. */
    method Init(mallocOk: bool) returns (ret: int)
      requires Valid()
      modifies this`buf, this`ready, this`hasCallback
      ensures Valid()
      ensures ret == 0 || ret == -2
      ensures ret == -2 <==> !old(ready) && !mallocOk
      ensures ret == 0 ==> ready && (old(ready) ==> buf == old(buf)) && hasCallback == old(hasCallback)
      ensures ret == -2 ==> !ready && !hasCallback
    {
      ret := 0;
      if !ready {
        if !mallocOk {
          ret := ReleaseAll();
          return -2;
        }
        buf, ready := new byte[RtpBuffLen], true;
      }
    }

    /** ReleaseAll (MJPEGRTPpacketizer.cpp:44-54): the buffer and the
        callback go. */
    method ReleaseAll() returns (ret: int)
      requires Valid()
      modifies this`buf, this`ready, this`hasCallback
      ensures Valid() && ret == 0 && !ready && !hasCallback
    {
      buf, ready := new byte[0], false;
      hasCallback := false;
      ret := 0;
    }

    /** SetPaylodaType (MJPEGRTPpacketizer.cpp:56-72): a payload type above
        0x7f is refused and the old one kept. */
    method SetPaylodaType(t: byte) returns (ok: bool)
      requires Valid()
      modifies this`payloadType
      ensures Valid()
      ensures ok <==> t <= 0x7f
      ensures payloadType == if ok then t else old(payloadType)
    {
      if t > 0x7f {
        return false;
      }
      payloadType := t;
      ok := true;
    }

    /** SetRtpPacketCallbaclk (MJPEGRTPpacketizer.cpp:74-80), with present
        saying whether the callback is set. */
    method SetRtpPacketCallbaclk(present: bool) returns (ok: bool)
      modifies this`hasCallback
      ensures ok && hasCallback == present
    {
      hasCallback := present;
      ok := true;
    }

    /** SetSSRC (MJPEGRTPpacketizer.cpp:142-147). */
    method SetSSRC(v: bv32) returns (ok: bool)
      modifies this`ssrc
      ensures ok && ssrc == v
    {
      ssrc := v;
      ok := true;
    }

    /** RecvPacket (MJPEGRTPpacketizer.cpp:82-115): missing or empty data
        gives -1 and sends nothing; otherwise the frame's packets are handed
        to the callback, if one is set, and the counter moves past them. */
    method RecvPacket(data: Option<seq<byte>>, time: bv32) returns (ret: int)
      requires Valid() && ready && (data.Some? ==> |data.value| < U32)
      modifies buf, this`seqNum, this`out
      ensures Valid()
      ensures ret == 0 || ret == -1
      ensures ret == -1 <==> data.None? || |data.value| == 0
      ensures ret == -1 ==> seqNum == old(seqNum) && out == old(out)
      ensures ret == 0 ==>
                var ps := JpegPackets(old(payloadType), old(seqNum), time, old(ssrc), data.value);
                seqNum == Advance(old(seqNum), |ps|) && out == old(out) + (if hasCallback then ps else [])
    {
      if data.None? || |data.value| == 0 {
        return -1;
      }
      var ps, next := SendFrame(buf, payloadType, seqNum, time, ssrc, data.value);
      seqNum := next;
      if hasCallback {
        out := out + ps;
      }
      ret := 0;
    }
  }
}
