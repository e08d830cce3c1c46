/** The H.264 RTP packetizer (H264RTPpacketizer,
    BaseClass/RTPPacketizer/H264RTPpacketizer.cpp): each NAL unit becomes one
    single-NAL packet (section 5.6 of RFC 6184) when it has at most
    MAX_RTP_LEN bytes and FU-A fragments otherwise; the stored SPS and PPS
    are sent once before an IDR picture. Packets are written into the
    packet buffer and handed to the callback, modelled as the sequence of
    packets it has been given; time is the unit's DTS as a uint32_t. */
module H264Packetizer {
  import opened Bytes
  import opened ExBuffer
  import opened RtpPacket
  import opened AnnexB

  const DefaultPayloadType: byte := 96
  const DefaultSsrc: bv32 := 0x12345678

  /** NAL unit type 5, a slice of an IDR picture. */
  const IdrType: byte := 0x05

  /** A single-NAL packet (PacketAsSingleNalu, H264RTPpacketizer.cpp:267-292):
      the header with the marker set, then the unit. */
  function SingleNalu(pt: byte, s: bv16, time: bv32, ssrc: bv32, d: seq<byte>): (p: Packet)
    ensures |p| == 12 + |d| && p[12..] == d
  {
    RtpHeader(0x80 | pt, s, time, ssrc) + d
  }

  /** The packets of one unit, the counter starting at s (the choice at
      H264RTPpacketizer.cpp:179-186 and :227-234). */
  function NalPackets(pt: byte, s: bv16, time: bv32, ssrc: bv32, d: seq<byte>): (ps: seq<Packet>)
    ensures |ps| >= 1
  {
    if |d| <= MaxRtpLen then [SingleNalu(pt, s, time, ssrc, d)]
    else FuaPackets(pt, s, time, ssrc, d, FuCount(|d|))
  }

  /** The packets of the units ds sent one after another. */
  function Stream(pt: byte, s: bv16, time: bv32, ssrc: bv32, ds: seq<seq<byte>>): seq<Packet>
    decreases |ds|
  {
    if ds == [] then []
    else
      var first := NalPackets(pt, s, time, ssrc, ds[0]);
      first + Stream(pt, Advance(s, |first|), time, ssrc, ds[1..])
  }

  lemma SeqAssoc(x: seq<Packet>, y: seq<Packet>, z: seq<Packet>)
    ensures x + (y + z) == (x + y) + z
  {
  }

  /** Two lists of units sent one after the other make one stream, and
      the counter ends where the whole stream leaves it. */
  lemma {:induction false} StreamAppend(pt: byte, s: bv16, time: bv32, ssrc: bv32, xs: seq<seq<byte>>, ys: seq<seq<byte>>)
    ensures var a := Stream(pt, s, time, ssrc, xs);
            Stream(pt, s, time, ssrc, xs + ys) == a + Stream(pt, Advance(s, |a|), time, ssrc, ys)
    decreases |xs|, 1
  {
    if xs == [] {
      assert xs + ys == ys;
    } else {
      StreamAppendCons(pt, s, time, ssrc, xs, ys);
    }
  }

  /** StreamAppend for a non-empty first list: its first unit, then the
      rest of it followed by the second list. */
  lemma {:induction false} StreamAppendCons(pt: byte, s: bv16, time: bv32, ssrc: bv32, xs: seq<seq<byte>>, ys: seq<seq<byte>>)
    requires xs != []
    ensures var a := Stream(pt, s, time, ssrc, xs);
            Stream(pt, s, time, ssrc, xs + ys) == a + Stream(pt, Advance(s, |a|), time, ssrc, ys)
    decreases |xs|, 0
  {
    var a := Stream(pt, s, time, ssrc, xs);
    var b := Stream(pt, Advance(s, |a|), time, ssrc, ys);
    var first := NalPackets(pt, s, time, ssrc, xs[0]);
    var s1 := Advance(s, |first|);
    var a1 := Stream(pt, s1, time, ssrc, xs[1..]);
    assert (xs + ys)[0] == xs[0] && (xs + ys)[1..] == xs[1..] + ys;
    StreamAppend(pt, s1, time, ssrc, xs[1..], ys);
    assert a == first + a1;
    AdvanceAdd(s, |first|, |a1|);
    assert Advance(s1, |a1|) == Advance(s, |a|);
    calc {
      Stream(pt, s, time, ssrc, xs + ys);
      first + Stream(pt, s1, time, ssrc, xs[1..] + ys);
      first + (a1 + b);
      { SeqAssoc(first, a1, b); }
      (first + a1) + b;
    }
  }

  /** A stored parameter set still to be sent: the unit itself if it is
      stored and not yet marked sent. */
  function Unsent(sent: bool, v: Option<seq<byte>>): seq<seq<byte>>
  {
    if !sent && v.Some? then [v.value] else []
  }

  /** The stored parameter sets sent before a unit of type t: before an IDR
      slice, the SPS and then the PPS, each only if it has not been sent
      since the last other unit and is stored. */
  function Prelude(t: byte, sentSps: bool, sentPps: bool, sps: Option<seq<byte>>, pps: Option<seq<byte>>): seq<seq<byte>>
  {
    if t != IdrType then [] else Unsent(sentSps, sps) + Unsent(sentPps, pps)
  }

  /** The packets of a stored parameter set, none when nothing is stored. */
  function Stored(pt: byte, s: bv16, time: bv32, ssrc: bv32, v: Option<seq<byte>>): seq<Packet>
  {
    if v.Some? then NalPackets(pt, s, time, ssrc, v.value) else []
  }

  /** A stored parameter set to be sent before a unit of type t: only
      before an IDR slice, and only if not marked sent. */
  function ToSend(t: byte, sent: bool, v: Option<seq<byte>>): (r: Option<seq<byte>>)
    ensures r.Some? <==> t == IdrType && !sent && v.Some?
    ensures r.Some? ==> r == v
  {
    if t == IdrType && !sent then v else None
  }

  /** The packets RecvPacket sends for a unit d of type t: the stored SPS
      and then the stored PPS if they are to be sent, then d, the counter
      running on from one to the next. */
  function RecvPackets(pt: byte, s: bv16, time: bv32, ssrc: bv32, t: byte, sentSps: bool, sentPps: bool,
                       sps: Option<seq<byte>>, pps: Option<seq<byte>>, d: seq<byte>): seq<Packet>
  {
    var a := Stored(pt, s, time, ssrc, ToSend(t, sentSps, sps));
    var b := Stored(pt, Advance(s, |a|), time, ssrc, ToSend(t, sentPps, pps));
    a + b + NalPackets(pt, Advance(Advance(s, |a|), |b|), time, ssrc, d)
  }

  lemma AdvanceZero(c: bv16)
    ensures Advance(c, 0) == c
  {
  }

  lemma AdvanceOne(c: bv16)
    ensures Advance(c, 1) == c + 1
  {
    assert Advance(c, 0) == c;
  }

  /** A stream of one unit is that unit's packets. */
  lemma StreamOne(pt: byte, s: bv16, time: bv32, ssrc: bv32, d: seq<byte>)
    ensures Stream(pt, s, time, ssrc, [d]) == NalPackets(pt, s, time, ssrc, d)
  {
    assert [d][1..] == [];
  }

  /** The prelude before an IDR slice is the unsent SPS's packets followed
      by the unsent PPS's. */
  lemma PreludeStream(pt: byte, s: bv16, time: bv32, ssrc: bv32, sentSps: bool, sentPps: bool,
                      sps: Option<seq<byte>>, pps: Option<seq<byte>>)
    ensures var a := Stored(pt, s, time, ssrc, if sentSps then None else sps);
            var b := Stored(pt, Advance(s, |a|), time, ssrc, if sentPps then None else pps);
            var pre := Prelude(IdrType, sentSps, sentPps, sps, pps);
            Stream(pt, s, time, ssrc, pre) == a + b
  {
    var xs, ys := Unsent(sentSps, sps), Unsent(sentPps, pps);
    var a := Stream(pt, s, time, ssrc, xs);
    if xs != [] { StreamOne(pt, s, time, ssrc, xs[0]); }
    if ys != [] { StreamOne(pt, Advance(s, |a|), time, ssrc, ys[0]); }
    StreamAppend(pt, s, time, ssrc, xs, ys);
  }

  /** A unit sent after a stream continues it. */
  lemma StreamSnoc(pt: byte, s: bv16, time: bv32, ssrc: bv32, pre: seq<seq<byte>>, d: seq<byte>)
    ensures var a := Stream(pt, s, time, ssrc, pre);
            var b := NalPackets(pt, Advance(s, |a|), time, ssrc, d);
            Stream(pt, s, time, ssrc, pre + [d]) == a + b
  {
    var a := Stream(pt, s, time, ssrc, pre);
    StreamOne(pt, Advance(s, |a|), time, ssrc, d);
    StreamAppend(pt, s, time, ssrc, pre, [d]);
  }

  /** What RecvPacket sends for a unit d is the stream of the units
      Prelude lists followed by d. */
  lemma RecvStream(pt: byte, s: bv16, time: bv32, ssrc: bv32, t: byte, sentSps: bool, sentPps: bool,
                   sps: Option<seq<byte>>, pps: Option<seq<byte>>, d: seq<byte>)
    ensures RecvPackets(pt, s, time, ssrc, t, sentSps, sentPps, sps, pps, d) ==
            Stream(pt, s, time, ssrc, Prelude(t, sentSps, sentPps, sps, pps) + [d])
  {
    var a := Stored(pt, s, time, ssrc, ToSend(t, sentSps, sps));
    var b := Stored(pt, Advance(s, |a|), time, ssrc, ToSend(t, sentPps, pps));
    var pre := Prelude(t, sentSps, sentPps, sps, pps);
    PreludeSent(pt, s, time, ssrc, t, sentSps, sentPps, sps, pps);
    AdvanceAdd(s, |a|, |b|);
    StreamSnoc(pt, s, time, ssrc, pre, d);
  }

  /** The parameter-set packets RecvPacket sends are the stream of the
      units Prelude lists. */
  lemma PreludeSent(pt: byte, s: bv16, time: bv32, ssrc: bv32, t: byte, sentSps: bool, sentPps: bool,
                    sps: Option<seq<byte>>, pps: Option<seq<byte>>)
    ensures var a := Stored(pt, s, time, ssrc, ToSend(t, sentSps, sps));
            var b := Stored(pt, Advance(s, |a|), time, ssrc, ToSend(t, sentPps, pps));
            Stream(pt, s, time, ssrc, Prelude(t, sentSps, sentPps, sps, pps)) == a + b
  {
    if t == IdrType {
      PreludeStream(pt, s, time, ssrc, sentSps, sentPps, sps, pps);
    } else {
      AdvanceZero(s);
      assert Prelude(t, sentSps, sentPps, sps, pps) == [];
    }
  }

  /** A parameter set as UpdateSPSAndPPS stores it from an Annex B buffer d
      (H264RTPpacketizer.cpp:442-458): the first unit of type t behind a
      start code, up to the next start code; without one, the old value. */
  function Learned(old_: Option<seq<byte>>, d: seq<byte>, t: byte): (r: Option<seq<byte>>)
    requires |d| >= 4
    ensures r.Some? && old_ != r ==> |r.value| >= 1
  {
    var p := FirstNal(d, t, 4);
    NalLengthSpan(d, p);
    if p < |d| then Some(d[p..p + NalLength(d, p)]) else old_
  }

  /** Whether the SPS counts as sent after a unit of type t: an IDR slice
      sends it; a first SPS unit (none stored) is itself the SPS sent; a PPS
      unit leaves the mark; any other unit clears it. */
  predicate SpsMarked(t: byte, sps: Option<seq<byte>>, sentSps: bool)
  {
    t == IdrType || (t == SpsType && (sps.None? || sentSps)) || (t == PpsType && sentSps)
  }

  /** The same for the PPS. */
  predicate PpsMarked(t: byte, pps: Option<seq<byte>>, sentPps: bool)
  {
    t == IdrType || (t == PpsType && (pps.None? || sentPps)) || (t == SpsType && sentPps)
  }

  /** Whether a unit of type t has both parameter sets looked up in it: an
      SPS unit with no SPS stored, or a PPS unit with no PPS stored, whose
      copy behind a start code could be allocated. */
  predicate Learns(mallocOk: bool, t: byte, sps: Option<seq<byte>>, pps: Option<seq<byte>>)
  {
    mallocOk && ((t == SpsType && sps.None?) || (t == PpsType && pps.None?))
  }

  /** A stored parameter set after the unit d: looked up behind a start
      code when learn holds, else kept. */
  function Relearned(learn: bool, old_: Option<seq<byte>>, d: seq<byte>, t: byte): Option<seq<byte>>
  {
    if learn then Learned(old_, [0, 0, 0, 1] + d, t) else old_
  }

  /** Every packet of a unit: at most 1412 bytes, so within the 1528-byte
      buffer; version 2; the counter advanced once per packet as its
      sequence number; the marker on the last packet only. */
  lemma NalPacketsShape(pt: byte, s: bv16, time: bv32, ssrc: bv32, d: seq<byte>, k: int)
    requires 0 <= k < |NalPackets(pt, s, time, ssrc, d)|
    ensures var p := NalPackets(pt, s, time, ssrc, d)[k];
            12 + Min(|d|, 1) <= |p| <= 12 + MaxRtpLen < RtpBuffLen && p[0] == 0x80 &&
            SeqOf(p) == Advance(s, k) as int &&
            (p[1] & 0x80 != 0 <==> k == |NalPackets(pt, s, time, ssrc, d)| - 1)
  {
    if |d| <= MaxRtpLen {
      var p := SingleNalu(pt, s, time, ssrc, d);
      assert p[..12] == RtpHeader(0x80 | pt, s, time, ssrc);
      HeaderSeq(0x80 | pt, s, time, ssrc);
      assert p[1] == 0x80 | pt;
    } else {
      FuaShape(pt, s, time, ssrc, d, k);
    }
  }

  /** Across a stream the sequence numbers run on without a gap: packet k
      carries the counter advanced k times. */
  lemma {:induction false} StreamSeqs(pt: byte, s: bv16, time: bv32, ssrc: bv32, ds: seq<seq<byte>>, k: int)
    requires 0 <= k < |Stream(pt, s, time, ssrc, ds)|
    ensures |Stream(pt, s, time, ssrc, ds)[k]| >= 4
    ensures SeqOf(Stream(pt, s, time, ssrc, ds)[k]) == Advance(s, k) as int
    decreases |ds|
  {
    var first := NalPackets(pt, s, time, ssrc, ds[0]);
    var rest := Stream(pt, Advance(s, |first|), time, ssrc, ds[1..]);
    assert Stream(pt, s, time, ssrc, ds) == first + rest;
    if k < |first| {
      NalPacketsShape(pt, s, time, ssrc, ds[0], k);
    } else {
      StreamSeqs(pt, Advance(s, |first|), time, ssrc, ds[1..], k - |first|);
      AdvanceAdd(s, |first|, k - |first|);
    }
  }

  /** Behind the added start code, a start code at q is one in u at q - 4. */
  lemma NoStartBehind(u: seq<byte>, q: int)
    requires q >= 4 && !StartAt(u, q - 4)
    ensures !StartAt([0, 0, 0, 1] + u, q)
  {
    var d: seq<byte> := [0, 0, 0, 1] + u;
    if q + 3 < |d| {
      assert d[q] == u[q - 4] && d[q + 1] == u[q - 3] && d[q + 2] == u[q - 2] && d[q + 3] == u[q - 1];
    }
  }

  /** An SPS unit u with no start code inside it, received with no SPS
      stored, is stored whole. */
  lemma LearnedWhole(u: seq<byte>, old_: Option<seq<byte>>)
    requires |u| >= 1 && u[0] & 0x1f == SpsType
    requires forall q :: 0 <= q < |u| ==> !StartAt(u, q)
    ensures Learned(old_, [0, 0, 0, 1] + u, SpsType) == Some(u)
  {
    var d: seq<byte> := [0, 0, 0, 1] + u;
    assert NalAt(d, 4, SpsType);
    assert FirstNal(d, SpsType, 4) == 4;
    forall q | 5 <= q
      ensures !StartAt(d, q)
    {
      NoStartBehind(u, q);
    }
    var e := NextStart(d, 5);
    assert e >= |d| - 3 by {
      assert !StartAt(d, e);
    }
    assert NalLength(d, 4) == |u|;
    assert d[4..4 + |u|] == u;
  }

  /** PacketAsSingleNalu (H264RTPpacketizer.cpp:267-292): the single-NAL
      packet written into the buffer; the packet handed on is its first
      12 + |d| bytes. */
  method WriteSingle(buf: array<byte>, pt: byte, s: bv16, time: bv32, ssrc: bv32, d: seq<byte>) returns (p: Packet)
    requires 12 + |d| <= buf.Length
    modifies buf
    ensures p == SingleNalu(pt, s, time, ssrc, d)
  {
    WriteHeader(buf, 0x80 | pt, s, time, ssrc);
    ghost var h := buf[..12];
    CopyIn(buf, 12, d);
    assert buf[..12] == h;
    p := buf[..12 + |d|];
    assert p == buf[..12] + buf[12..12 + |d|];
  }

  /** One unit written out as a single-NAL packet or as FU-A fragments
      (the choice at H264RTPpacketizer.cpp:179-186): its packets, and the
      counter after them. */
  method SendNal(buf: array<byte>, pt: byte, s: bv16, time: bv32, ssrc: bv32, d: seq<byte>)
    returns (ps: seq<Packet>, next: bv16)
    requires buf.Length >= RtpBuffLen
    modifies buf
    ensures ps == NalPackets(pt, s, time, ssrc, d) && next == Advance(s, |ps|)
  {
    if |d| <= MaxRtpLen {
      var p := WriteSingle(buf, pt, s, time, ssrc, d);
      ps, next := [p], s + 1;
      assert ps == NalPackets(pt, s, time, ssrc, d);
      AdvanceOne(s);
    } else {
      ps, next := PacketAsFua(buf, pt, s, time, ssrc, d);
    }
  }

  /** A stored parameter set written out (PacketSPS and PacketPPS,
      H264RTPpacketizer.cpp:218-258); with none stored, nothing. */
  method SendStored(buf: array<byte>, pt: byte, s: bv16, time: bv32, ssrc: bv32, v: Option<seq<byte>>)
    returns (ps: seq<Packet>, next: bv16)
    requires buf.Length >= RtpBuffLen
    modifies buf
    ensures ps == Stored(pt, s, time, ssrc, v) && next == Advance(s, |ps|)
  {
    if v.None? {
      return [], s;
    }
    ps, next := SendNal(buf, pt, s, time, ssrc, v.value);
  }

  /** The sending half of RecvPacket (H264RTPpacketizer.cpp:122-136 and
      :177-187): the stored SPS and PPS still to be sent before an IDR
      slice, then the unit d; the packets, and the counter after them. */
  method SendUnit(buf: array<byte>, pt: byte, s: bv16, time: bv32, ssrc: bv32, t: byte,
                  sentSps: bool, sentPps: bool, sps: Option<seq<byte>>, pps: Option<seq<byte>>, d: seq<byte>)
    returns (ps: seq<Packet>, next: bv16)
    requires buf.Length >= RtpBuffLen
    modifies buf
    ensures ps == RecvPackets(pt, s, time, ssrc, t, sentSps, sentPps, sps, pps, d)
    ensures next == Advance(s, |ps|)
  {
    var a, s1 := SendStored(buf, pt, s, time, ssrc, ToSend(t, sentSps, sps));
    var b, s2 := SendStored(buf, pt, s1, time, ssrc, ToSend(t, sentPps, pps));
    var c;
    c, next := SendNal(buf, pt, s2, time, ssrc, d);
    AdvanceAdd(s, |a|, |b|);
    AdvanceAdd(s, |a| + |b|, |c|);
    ps := a + b + c;
  }

  class H264RTPpacketizer {
    /** m_nPayloadType, m_nSSRC and the uint16_t m_nSeqNum. */
    var payloadType: byte
    var ssrc: bv32
    var seqNum: bv16
    /** m_pRtpBuff and whether Init has allocated it. */
    var buf: array<byte>
    var ready: bool
    /** m_pSPS/m_nSPSLen and m_pPPS/m_nPPSLen. */
    var sps: Option<seq<byte>>
    var pps: Option<seq<byte>>
    /** m_bHasSendSPSBeforeIFrame and m_bHasSendPPSBeforeIFrame. */
    var sentSps: bool
    var sentPps: bool
    /** Whether a callback is set, and the packets it has been handed. */
    var hasCallback: bool
    var out: seq<Packet>

    ghost predicate Valid()
      reads this`buf, this`ready, this`sps, this`pps, this`payloadType
    {
      (ready ==> buf.Length == RtpBuffLen) && payloadType <= 0x7f &&
      (sps.Some? ==> 1 <= |sps.value| < U32) && (pps.Some? ==> 1 <= |pps.value| < U32)
    }

    /** The constructor (H264RTPpacketizer.cpp:10-26); r is what rand()
        returned. */
    constructor (r: nat)
      ensures Valid() && !ready && sps == None && pps == None && !sentSps && !sentPps
      ensures payloadType == DefaultPayloadType && ssrc == DefaultSsrc && seqNum == (r % 65535) as bv16
      ensures !hasCallback && out == []
    {
      payloadType, ssrc, seqNum := DefaultPayloadType, DefaultSsrc, (r % 65535) as bv16;
      buf, ready := new byte[0], false;
      sps, pps, sentSps, sentPps := None, None, false, false;
      hasCallback, out := false, [];
    }

    /** Init (H264RTPpacketizer.cpp:33-56): allocates the packet buffer if
        there is none; a failed allocation releases everything and gives -2. */
    method Init(mallocOk: bool) returns (ret: int)
      requires Valid()
      modifies this`buf, this`ready, this`sps, this`pps, this`sentSps, this`sentPps, this`hasCallback
      ensures Valid()
      ensures ret == 0 || ret == -2
      ensures ret == -2 <==> !old(ready) && !mallocOk
      ensures ret == 0 ==> (ready && (old(ready) ==> buf == old(buf)) &&
                            sps == old(sps) && pps == old(pps) && sentSps == old(sentSps) && sentPps == old(sentPps) &&
                            hasCallback == old(hasCallback))
      ensures ret == -2 ==> !ready && sps == None && pps == None && !sentSps && !sentPps && !hasCallback
    {
      ret := 0;
      if !ready {
        if !mallocOk {
          ret := ReleaseAll();
          return -2;
        }
        buf, ready := new byte[RtpBuffLen], true;
      }
    }

    /** ReleaseAll (H264RTPpacketizer.cpp:58-79): the buffer, both stored
        parameter sets, both flags and the callback go. */
    method ReleaseAll() returns (ret: int)
      requires Valid()
      modifies this`buf, this`ready, this`sps, this`pps, this`sentSps, this`sentPps, this`hasCallback
      ensures Valid() && ret == 0
      ensures !ready && sps == None && pps == None && !sentSps && !sentPps && !hasCallback
    {
      buf, ready := new byte[0], false;
      sps, pps, sentSps, sentPps := None, None, false, false;
      hasCallback := false;
      ret := 0;
    }

    /** SetPaylodaType (H264RTPpacketizer.cpp:81-97): a payload type above
        0x7f is refused and the old one kept. */
    method SetPaylodaType(t: byte) returns (ok: bool)
      requires Valid()
      modifies this`payloadType
      ensures Valid()
      ensures ok <==> t <= 0x7f
      ensures payloadType == if ok then t else old(payloadType)
    {
      if t > 0x7f {
        return false;
      }
      payloadType := t;
      ok := true;
    }

    /** SetRtpPacketCallbaclk (H264RTPpacketizer.cpp:99-105), with present
        saying whether the callback is set. */
    method SetRtpPacketCallbaclk(present: bool) returns (ok: bool)
      modifies this`hasCallback
      ensures ok && hasCallback == present
    {
      hasCallback := present;
      ok := true;
    }

    /** SetSSRC (H264RTPpacketizer.cpp:260-265). */
    method SetSSRC(v: bv32) returns (ok: bool)
      modifies this`ssrc
      ensures ok && ssrc == v
    {
      ssrc := v;
      ok := true;
    }

    /** SetSPS (H264RTPpacketizer.cpp:390-414): no data or none gives -1, a
        failed allocation -2; otherwise the SPS is replaced by a copy. */
    method SetSPS(v: Option<seq<byte>>, mallocOk: bool) returns (ret: int)
      requires Valid() && (v.Some? ==> |v.value| < U32)
      modifies this`sps
      ensures Valid()
      ensures ret == -1 <==> v.None? || |v.value| == 0
      ensures ret == -2 <==> v.Some? && |v.value| > 0 && !mallocOk
      ensures ret == 0 || ret == -1 || ret == -2
      ensures sps == if ret == 0 then v else old(sps)
    {
      if v.None? || |v.value| == 0 {
        return -1;
      }
      if !mallocOk {
        return -2;
      }
      sps := v;
      ret := 0;
    }

    /** SetPPS (H264RTPpacketizer.cpp:416-440), the same for the PPS. */
    method SetPPS(v: Option<seq<byte>>, mallocOk: bool) returns (ret: int)
      requires Valid() && (v.Some? ==> |v.value| < U32)
      modifies this`pps
      ensures Valid()
      ensures ret == -1 <==> v.None? || |v.value| == 0
      ensures ret == -2 <==> v.Some? && |v.value| > 0 && !mallocOk
      ensures ret == 0 || ret == -1 || ret == -2
      ensures pps == if ret == 0 then v else old(pps)
    {
      if v.None? || |v.value| == 0 {
        return -1;
      }
      if !mallocOk {
        return -2;
      }
      pps := v;
      ret := 0;
    }

    /** UpdateSPSAndPPS (H264RTPpacketizer.cpp:442-458): the SPS and the PPS
        found in the Annex B buffer d replace the stored ones. */
    method UpdateSPSAndPPS(d: seq<byte>, mallocOk: bool) returns (ret: int)
      requires Valid() && 4 <= |d| && |d| + 1 < U32
      modifies this`sps, this`pps
      ensures Valid() && ret == 0
      ensures sps == (if mallocOk then Learned(old(sps), d, SpsType) else old(sps))
      ensures pps == (if mallocOk then Learned(old(pps), d, PpsType) else old(pps))
    {
      StoreSps(d, mallocOk);
      StorePps(d, mallocOk);
      ret := 0;
    }

    /** FindSPS on d, then SetSPS with what it found. */
    method StoreSps(d: seq<byte>, mallocOk: bool)
      requires Valid() && 4 <= |d| && |d| + 1 < U32
      modifies this`sps
      ensures Valid()
      ensures sps == (if mallocOk then Learned(old(sps), d, SpsType) else old(sps))
    {
      var found, at, size := FindSPS(Some(d));
      if found {
        NalLengthSpan(d, at.value);
        var r := SetSPS(Some(d[at.value..at.value + size]), mallocOk);
      }
    }

    /** FindPPS on d, then SetPPS with what it found. */
    method StorePps(d: seq<byte>, mallocOk: bool)
      requires Valid() && 4 <= |d| && |d| + 1 < U32
      modifies this`pps
      ensures Valid()
      ensures pps == (if mallocOk then Learned(old(pps), d, PpsType) else old(pps))
    {
      var found, at, size := FindPPS(Some(d));
      if found {
        NalLengthSpan(d, at.value);
        var r := SetPPS(Some(d[at.value..at.value + size]), mallocOk);
      }
    }

    /** PacketSPS and PacketPPS (H264RTPpacketizer.cpp:218-258): a stored
        parameter set is packetized; with none, nothing is sent and the
        result is still 0. */
    method PacketStored(v: Option<seq<byte>>, time: bv32) returns (ret: int)
      requires Valid() && ready
      modifies buf, this`seqNum, this`out
      ensures ret == 0
      ensures seqNum == Advance(old(seqNum), |Stored(old(payloadType), old(seqNum), time, old(ssrc), v)|)
      ensures out == old(out) + (if hasCallback then Stored(old(payloadType), old(seqNum), time, old(ssrc), v) else [])
    {
      var ps, next := SendStored(buf, payloadType, seqNum, time, ssrc, v);
      seqNum := next;
      if hasCallback {
        out := out + ps;
      }
      ret := 0;
    }

    /** The parameter-set bookkeeping for a unit other than an IDR slice
        (H264RTPpacketizer.cpp:137-175): a first SPS (PPS) unit marks the SPS
        (PPS) sent and, if the copy behind a start code can be allocated,
        has both parameter sets looked up in it; a type other than 7 and 8
        clears both marks. */
    method Remember(d: seq<byte>, mallocOk: bool)
      requires Valid() && |d| >= 1 && |d| + 5 < U32 && d[0] & 0x1f != IdrType
      modifies this`sps, this`pps, this`sentSps, this`sentPps
      ensures Valid()
      ensures var t := d[0] & 0x1f;
              var learn := Learns(mallocOk, t, old(sps), old(pps));
              sentSps == SpsMarked(t, old(sps), old(sentSps)) && sentPps == PpsMarked(t, old(pps), old(sentPps)) &&
              sps == Relearned(learn, old(sps), d, SpsType) && pps == Relearned(learn, old(pps), d, PpsType)
    {
      var t := d[0] & 0x1f;
      if t == SpsType {
        if sps.None? {
          sentSps := true;
          if mallocOk {
            var r := UpdateSPSAndPPS([0, 0, 0, 1] + d, mallocOk);
          }
        }
      } else if t == PpsType {
        if pps.None? {
          sentPps := true;
          if mallocOk {
            var r := UpdateSPSAndPPS([0, 0, 0, 1] + d, mallocOk);
          }
        }
      } else {
        sentSps, sentPps := false, false;
      }
    }

    /** The packets for a unit d of type t, given the marks and parameter
        sets RecvPacket saw on entry, handed on and counted. */
    method Emit(time: bv32, t: byte, sentS: bool, sentP: bool, sps0: Option<seq<byte>>, pps0: Option<seq<byte>>,
                d: seq<byte>)
      requires Valid() && ready
      modifies buf, this`seqNum, this`out
      ensures var ps := RecvPackets(old(payloadType), old(seqNum), time, old(ssrc), t, sentS, sentP, sps0, pps0, d);
              seqNum == Advance(old(seqNum), |ps|) && out == old(out) + (if hasCallback then ps else [])
    {
      var ps, next := SendUnit(buf, payloadType, seqNum, time, ssrc, t, sentS, sentP, sps0, pps0, d);
      seqNum := next;
      if hasCallback {
        out := out + ps;
      }
    }

    /** RecvPacket on a unit d of at least one byte. The packets depend only
        on the marks and parameter sets seen on entry, so they are sent
        before the bookkeeping of a non-IDR unit rather than after it. */
    method RecvUnit(d: seq<byte>, time: bv32, mallocOk: bool)
      requires Valid() && ready && |d| >= 1 && |d| + 5 < U32
      modifies buf, this`seqNum, this`out, this`sps, this`pps, this`sentSps, this`sentPps
      ensures Valid()
      ensures var ps := RecvPackets(old(payloadType), old(seqNum), time, old(ssrc), d[0] & 0x1f,
                                    old(sentSps), old(sentPps), old(sps), old(pps), d);
              seqNum == Advance(old(seqNum), |ps|) && out == old(out) + (if hasCallback then ps else [])
      ensures var t := d[0] & 0x1f;
              var learn := Learns(mallocOk, t, old(sps), old(pps));
              sentSps == SpsMarked(t, old(sps), old(sentSps)) && sentPps == PpsMarked(t, old(pps), old(sentPps)) &&
              sps == Relearned(learn, old(sps), d, SpsType) && pps == Relearned(learn, old(pps), d, PpsType)
    {
      var t := d[0] & 0x1f;
      var sentS, sentP, sps0, pps0 := sentSps, sentPps, sps, pps;
      Emit(time, t, sentS, sentP, sps0, pps0, d);
      if t != IdrType {
        Remember(d, mallocOk);
      } else {
        sentSps, sentPps := true, true;
      }
    }

    /** RecvPacket (H264RTPpacketizer.cpp:107-191). Missing or empty data
        gives -1. Before an IDR slice the stored SPS and PPS not yet sent are
        sent and marked sent; a first SPS or PPS unit is marked sent and,
        behind a start code, scanned for the parameter sets to store; any
        other type clears both marks. Then the unit itself is packetized.
        mallocOk is what every allocation on the way does. */
    method RecvPacket(data: Option<seq<byte>>, time: bv32, mallocOk: bool) returns (ret: int)
      requires Valid() && ready && (data.Some? ==> |data.value| + 5 < U32)
      modifies buf, this`seqNum, this`out, this`sps, this`pps, this`sentSps, this`sentPps
      ensures Valid()
      ensures ret == -1 <==> data.None? || |data.value| == 0
      ensures ret == 0 || ret == -1
      ensures ret == -1 ==> seqNum == old(seqNum) && out == old(out) && sps == old(sps) && pps == old(pps) &&
                            sentSps == old(sentSps) && sentPps == old(sentPps)
      ensures ret == 0 ==>
                var d := data.value;
                var ps := RecvPackets(old(payloadType), old(seqNum), time, old(ssrc), d[0] & 0x1f,
                                      old(sentSps), old(sentPps), old(sps), old(pps), d);
                seqNum == Advance(old(seqNum), |ps|) && out == old(out) + (if hasCallback then ps else [])
      ensures ret == 0 ==>
                var d := data.value;
                var t := d[0] & 0x1f;
                var learn := Learns(mallocOk, t, old(sps), old(pps));
                sentSps == SpsMarked(t, old(sps), old(sentSps)) && sentPps == PpsMarked(t, old(pps), old(sentPps)) &&
                sps == Relearned(learn, old(sps), d, SpsType) && pps == Relearned(learn, old(pps), d, PpsType)
    {
      if data.None? || |data.value| == 0 {
        return -1;
      }
      RecvUnit(data.value, time, mallocOk);
      ret := 0;
    }
  }
}
