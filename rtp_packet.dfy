/** What the two RTP packetizers (BaseClass/RTPPacketizer) share: the
    12-byte RTP header of section 5.1 of RFC 3550 as they write it, and the
    FU-A fragmentation of section 5.8 of RFC 6184 that both use for units
    larger than MAX_RTP_LEN: a first fragment of 1398 bytes, middle fragments
    of 1398 bytes while more than 1398 remain, and a last fragment with the
    rest, each behind a two-byte FU indicator and FU header. */
module RtpPacket {
  import opened Bytes
  import opened ExBuffer

  /** MAX_RTP_LEN (BaseClass/RTPPacketizer/RTPPacketizer.h:6). */
  const MaxRtpLen: int := 1400
  /** The payload of one FU-A fragment, MAX_RTP_LEN - 2. */
  const FuChunkLen: int := 1398
  /** The packet buffer allocated by Init, MAX_RTP_LEN + 128. */
  const RtpBuffLen: int := 1528

  /** The header bytes 0-11: version 2, byte 1 (marker and payload type),
      the sequence number, the timestamp and the SSRC, all big-endian. */
  function RtpHeader(b1: byte, s: bv16, time: bv32, ssrc: bv32): (h: seq<byte>)
    ensures |h| == 12 && h[0] == 0x80 && h[1] == b1
  {
    [0x80, b1, Hi16(s), Lo16(s)] + Be32Bytes(time) + Be32Bytes(ssrc)
  }

  /** The header carries the counter as its sequence number. */
  lemma HeaderSeq(b1: byte, s: bv16, time: bv32, ssrc: bv32)
    ensures SeqOf(RtpHeader(b1, s, time, ssrc)) == s as int
  {
    CounterBytes(s);
  }

  datatype FuKind = FuStart | FuMiddle | FuEnd

  /** The FU indicator: the NRI bits of the unit's header and type 28. */
  function FuIndicator(t: byte): byte { (t & 0x60) | 0x1c }

  /** The FU header: the S bit on the first fragment, the E bit on the last,
      and the unit's type. */
  function FuHeader(kind: FuKind, t: byte): byte
  {
    match kind
    case FuStart => 0x80 | (t & 0x1f)
    case FuMiddle => t & 0x1f
    case FuEnd => 0x40 | (t & 0x1f)
  }

  /** Byte 1 of a fragment: the marker is set on the last fragment only. */
  function FuMarker(kind: FuKind, pt: byte): byte
  {
    if kind == FuEnd then 0x80 | pt else 0x7f & pt
  }

  /** One FU-A packet (PacketAsFUAStart/Middle/End,
      BaseClass/RTPPacketizer/H264RTPpacketizer.cpp:294-388). */
  function Fragment(pt: byte, s: bv16, time: bv32, ssrc: bv32, t: byte, kind: FuKind, chunk: seq<byte>): (p: Packet)
    ensures |p| == 14 + |chunk| && p[14..] == chunk
  {
    RtpHeader(FuMarker(kind, pt), s, time, ssrc) + [FuIndicator(t), FuHeader(kind, t)] + chunk
  }

  /** The number of fragments of an n-byte unit: its n - 1 bytes after the
      header byte in pieces of 1398, the last one holding 1..1398. */
  function FuCount(n: int): (k: int)
    requires n > MaxRtpLen
    ensures k >= 2 && 1 + FuChunkLen * (k - 1) < n <= 1 + FuChunkLen * k
  {
    (n + FuChunkLen - 2) / FuChunkLen
  }

  /** Fragment j carries these bytes of the unit. */
  function FuChunk(d: seq<byte>, j: int): (c: seq<byte>)
    requires |d| > MaxRtpLen && 0 <= j < FuCount(|d|)
    ensures 1 <= |c| <= FuChunkLen
    ensures j < FuCount(|d|) - 1 ==> |c| == FuChunkLen
  {
    d[1 + FuChunkLen * j .. Min(1 + FuChunkLen * (j + 1), |d|)]
  }

  function KindAt(j: int, count: int): FuKind
  {
    if j == 0 then FuStart else if j == count - 1 then FuEnd else FuMiddle
  }

  /** The first k fragments of unit d, the counter starting at s. */
  function FuaPackets(pt: byte, s: bv16, time: bv32, ssrc: bv32, d: seq<byte>, k: int): (ps: seq<Packet>)
    requires |d| > MaxRtpLen && 0 <= k <= FuCount(|d|)
    ensures |ps| == k && forall i :: 0 <= i < k ==> |ps[i]| >= 14
  {
    if k == 0 then []
    else FuaPackets(pt, s, time, ssrc, d, k - 1) +
         [Fragment(pt, Advance(s, k - 1), time, ssrc, d[0], KindAt(k - 1, FuCount(|d|)), FuChunk(d, k - 1))]
  }

  /** Fragment j of the stream, whatever the prefix it is read from. */
  lemma {:induction false} FuaPacketAt(pt: byte, s: bv16, time: bv32, ssrc: bv32, d: seq<byte>, k: int, j: int)
    requires |d| > MaxRtpLen && 0 <= j < k <= FuCount(|d|)
    ensures FuaPackets(pt, s, time, ssrc, d, k)[j] ==
            Fragment(pt, Advance(s, j), time, ssrc, d[0], KindAt(j, FuCount(|d|)), FuChunk(d, j))
  {
    if j < k - 1 {
      FuaPacketAt(pt, s, time, ssrc, d, k - 1, j);
    }
  }

  /** The payload bytes of a packet list, each packet's first skip bytes
      dropped. */
  function Payloads(ps: seq<Packet>, skip: int): seq<byte>
    requires 0 <= skip && forall i :: 0 <= i < |ps| ==> |ps[i]| >= skip
  {
    if ps == [] then [] else Payloads(ps[..|ps| - 1], skip) + ps[|ps| - 1][skip..]
  }

  lemma SliceSplit(d: seq<byte>, i: int, j: int, k: int)
    requires 0 <= i <= j <= k <= |d|
    ensures d[i..k] == d[i..j] + d[j..k]
  {
  }

  lemma PayloadsSnoc(ps: seq<Packet>, p: Packet, skip: int)
    requires 0 <= skip <= |p| && forall i :: 0 <= i < |ps| ==> |ps[i]| >= skip
    ensures Payloads(ps + [p], skip) == Payloads(ps, skip) + p[skip..]
  {
    assert (ps + [p])[..|ps|] == ps;
  }

  /** Packets whose bytes from 14 on are the first k fragment chunks of d
      carry, put together, d from index 1 up to where chunk k would start. */
  lemma {:induction false} ChunksPrefix(ps: seq<Packet>, d: seq<byte>, k: int)
    requires |d| > MaxRtpLen && 0 <= k <= FuCount(|d|) && |ps| == k
    requires forall i :: 0 <= i < k ==> |ps[i]| >= 14 && ps[i][14..] == FuChunk(d, i)
    ensures Payloads(ps, 14) == d[1..Min(1 + FuChunkLen * k, |d|)]
  {
    if k > 0 {
      var prev := ps[..k - 1];
      ChunksPrefix(prev, d, k - 1);
      assert ps == prev + [ps[k - 1]];
      PayloadsSnoc(prev, ps[k - 1], 14);
      var a := 1 + FuChunkLen * (k - 1);
      var b := Min(1 + FuChunkLen * k, |d|);
      assert a < |d| && Min(a, |d|) == a && FuChunk(d, k - 1) == d[a..b];
      SliceSplit(d, 1, a, b);
    }
  }

  /** The payloads of the first k fragments are the unit's bytes from index
      1 up to where fragment k would start. */
  lemma FuaPrefix(pt: byte, s: bv16, time: bv32, ssrc: bv32, d: seq<byte>, k: int)
    requires |d| > MaxRtpLen && 0 <= k <= FuCount(|d|)
    ensures Payloads(FuaPackets(pt, s, time, ssrc, d, k), 14) == d[1..Min(1 + FuChunkLen * k, |d|)]
  {
    var ps := FuaPackets(pt, s, time, ssrc, d, k);
    forall i | 0 <= i < k
      ensures ps[i][14..] == FuChunk(d, i)
    {
      FuaPacketAt(pt, s, time, ssrc, d, k, i);
    }
    ChunksPrefix(ps, d, k);
  }

  /** The fragments of a unit put together again: their payloads are the
      unit without its header byte, so the unit is that byte followed by
      them. */
  lemma FuaReassembles(pt: byte, s: bv16, time: bv32, ssrc: bv32, d: seq<byte>)
    requires |d| > MaxRtpLen
    ensures forall i :: 0 <= i < FuCount(|d|) ==> |FuaPackets(pt, s, time, ssrc, d, FuCount(|d|))[i]| >= 14
    ensures Payloads(FuaPackets(pt, s, time, ssrc, d, FuCount(|d|)), 14) == d[1..]
    ensures [d[0]] + Payloads(FuaPackets(pt, s, time, ssrc, d, FuCount(|d|)), 14) == d
  {
    FuaPrefix(pt, s, time, ssrc, d, FuCount(|d|));
  }

  /** Every fragment: at most 1412 bytes, the FU indicator and header of
      its place, the marker on the last fragment only, and the counter
      advanced once per fragment as its sequence number. */
  lemma FuaShape(pt: byte, s: bv16, time: bv32, ssrc: bv32, d: seq<byte>, j: int)
    requires |d| > MaxRtpLen && 0 <= j < FuCount(|d|)
    ensures var p := FuaPackets(pt, s, time, ssrc, d, FuCount(|d|))[j];
            15 <= |p| <= 14 + FuChunkLen && p[0] == 0x80 &&
            SeqOf(p) == Advance(s, j) as int &&
            p[12] == FuIndicator(d[0]) &&
            p[13] == FuHeader(if j == 0 then FuStart else if j == FuCount(|d|) - 1 then FuEnd else FuMiddle, d[0]) &&
            (p[1] & 0x80 != 0 <==> j == FuCount(|d|) - 1)
  {
    var n := FuCount(|d|);
    FuaPacketAt(pt, s, time, ssrc, d, n, j);
    var kind := KindAt(j, n);
    var h := RtpHeader(FuMarker(kind, pt), Advance(s, j), time, ssrc);
    var p := Fragment(pt, Advance(s, j), time, ssrc, d[0], kind, FuChunk(d, j));
    assert p[..12] == h;
    HeaderSeq(FuMarker(kind, pt), Advance(s, j), time, ssrc);
    assert p[12] == FuIndicator(d[0]) && p[13] == FuHeader(kind, d[0]);
    assert p[1] == FuMarker(kind, pt);
  }

  /** Writes the RTP header into bytes 0-11 of buf; the rest of buf stays. */
  method WriteHeader(buf: array<byte>, b1: byte, s: bv16, time: bv32, ssrc: bv32)
    requires buf.Length >= 12
    modifies buf
    ensures buf[..12] == RtpHeader(b1, s, time, ssrc) && buf[12..] == old(buf[12..])
  {
    var h := RtpHeader(b1, s, time, ssrc);
    forall i | 0 <= i < 12 {
      buf[i] := h[i];
    }
  }

  /** One of PacketAsFUAStart, PacketAsFUAMiddle and PacketAsFUAEnd
      (H264RTPpacketizer.cpp:294-388, MJPEGRTPpacketizer.cpp:178-272, which
      differ only in the FU header bit and the marker): the fragment written
      into the buffer; the packet handed on is its first 14 + |chunk| bytes. */
  method WriteFragment(buf: array<byte>, pt: byte, s: bv16, time: bv32, ssrc: bv32, t: byte, kind: FuKind, chunk: seq<byte>)
      returns (p: Packet)
    requires 14 + |chunk| <= buf.Length
    modifies buf
    ensures p == Fragment(pt, s, time, ssrc, t, kind, chunk)
  {
    WriteHeader(buf, FuMarker(kind, pt), s, time, ssrc);
    ghost var h := buf[..12];
    buf[12] := (t & 0x60) | 0x1c;
    buf[13] := FuHeader(kind, t);
    assert buf[..12] == h;
    CopyIn(buf, 14, chunk);
    assert buf[..14] == h + [FuIndicator(t), FuHeader(kind, t)];
    p := buf[..14 + |chunk|];
    assert p == buf[..14] + buf[14..14 + |chunk|];
  }

  /** PacketAsFUANalu (H264RTPpacketizer.cpp:193-216,
      MJPEGRTPpacketizer.cpp:117-140): the unit's type byte, then a first
      fragment of 1398 bytes, middle fragments while more than 1398 bytes
      remain and a last fragment with the rest; the counter goes up once per
      fragment. The packets handed on are returned in order. */
  method PacketAsFua(buf: array<byte>, pt: byte, s: bv16, time: bv32, ssrc: bv32, d: seq<byte>)
      returns (ps: seq<Packet>, next: bv16)
    requires |d| > MaxRtpLen && buf.Length >= RtpBuffLen
    modifies buf
    ensures ps == FuaPackets(pt, s, time, ssrc, d, FuCount(|d|))
    ensures next == Advance(s, |ps|)
  {
    var n := FuCount(|d|);
    var t := d[0];
    ps, next := FuaNext(buf, pt, s, time, ssrc, d, [], s, 0, FuStart, d[1..1 + FuChunkLen]);
    var at := 1 + FuChunkLen;
    var remain := |d| - at;
    var k := 1;
    while remain > FuChunkLen
      invariant 1 <= k < n && at == 1 + FuChunkLen * k && remain == |d| - at
      invariant ps == FuaPackets(pt, s, time, ssrc, d, k) && next == Advance(s, k)
    {
      ps, next := FuaNext(buf, pt, s, time, ssrc, d, ps, next, k, FuMiddle, d[at..at + FuChunkLen]);
      at, remain, k := at + FuChunkLen, remain - FuChunkLen, k + 1;
    }
    ps, next := FuaNext(buf, pt, s, time, ssrc, d, ps, next, k, FuEnd, d[at..]);
  }

  /** Fragment k of unit d handed on after the first k. */
  method FuaNext(buf: array<byte>, pt: byte, ghost s: bv16, time: bv32, ssrc: bv32, d: seq<byte>,
                 ps: seq<Packet>, next: bv16, k: int, kind: FuKind, chunk: seq<byte>)
      returns (ps': seq<Packet>, next': bv16)
    requires |d| > MaxRtpLen && buf.Length >= RtpBuffLen && 0 <= k < FuCount(|d|)
    requires ps == FuaPackets(pt, s, time, ssrc, d, k) && next == Advance(s, k)
    requires kind == KindAt(k, FuCount(|d|)) && chunk == FuChunk(d, k)
    modifies buf
    ensures ps' == FuaPackets(pt, s, time, ssrc, d, k + 1) && next' == Advance(s, k + 1)
  {
    var p := WriteFragment(buf, pt, next, time, ssrc, d[0], kind, chunk);
    ps', next' := ps + [p], next + 1;
  }
}
