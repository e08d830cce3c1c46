/** The XOR parity arithmetic of the two-dimensional FEC scheme (the fixed
    L/D variant of section 4.2 of RFC 8627): what a repair packet built over
    one row or column of source packets contains, and what the receiver
    rebuilds from that repair packet and the surviving packets of the line. */
module FecRepair {
  import opened Bytes

  /** Byte j of a packet, or 0 past its end: the contribution of a packet too
      short to reach column j of an XOR. */
  function ByteAt(p: Packet, j: nat): byte
  {
    if j < |p| then p[j] else 0
  }

  /** The XOR of byte j over a line of packets (shorter packets count as 0). */
  function XorAt(ps: seq<Packet>, j: nat): byte
    decreases |ps|
  {
    if |ps| == 0 then 0 else XorAt(ps[..|ps| - 1], j) ^ ByteAt(ps[|ps| - 1], j)
  }

  /** A source packet the table can hold: a full RTP header, and a length
      that fits the 16-bit size fields the line builders use. */
  predicate MediaSized(p: Packet)
  {
    12 <= |p| < SeqSpace
  }

  predicate AllMediaSized(ps: seq<Packet>)
  {
    forall i :: 0 <= i < |ps| ==> MediaSized(ps[i])
  }

  /** One more packet of a line folds its byte j into the XOR. */
  lemma XorAtStep(ps: seq<Packet>, i: nat, j: nat)
    requires i < |ps|
    ensures XorAt(ps[..i + 1], j) == XorAt(ps[..i], j) ^ ByteAt(ps[i], j)
  {
    assert ps[..i + 1][..i] == ps[..i];
  }

  lemma MaxLenStep(ps: seq<Packet>, i: nat)
    requires i < |ps|
    ensures MaxLen(ps[..i + 1]) == Max(MaxLen(ps[..i]), |ps[i]|)
  {
    assert ps[..i + 1][..i] == ps[..i];
  }

  /** The length of the longest packet of a line. */
  function MaxLen(ps: seq<Packet>): (m: nat)
    ensures forall i :: 0 <= i < |ps| ==> |ps[i]| <= m
    ensures |ps| > 0 ==> exists i :: 0 <= i < |ps| && |ps[i]| == m
    decreases |ps|
  {
    if |ps| == 0 then 0 else Max(MaxLen(ps[..|ps| - 1]), |ps[|ps| - 1]|)
  }

  /** The XOR over a line of the header fields a repair packet protects:
      bytes 0, 1 and 4-7 of the RTP header, and the two bytes of the 16-bit
      length (XOR works bit by bit, so the high byte of the XOR of the
      lengths is the XOR of their high bytes, and likewise the low byte). */
  datatype HeaderSums = HeaderSums(b0: byte, b1: byte, b4: byte, b5: byte, b6: byte, b7: byte,
                                   lenHi: byte, lenLo: byte)

  const NoSums := HeaderSums(0, 0, 0, 0, 0, 0, 0, 0)

  /** The header fields of one packet, as sums of a line of one. */
  function Own(p: Packet): HeaderSums
    requires MediaSized(p)
  {
    HeaderSums(p[0], p[1], p[4], p[5], p[6], p[7], HiByte(|p|), LoByte(|p|))
  }

  function Xor(a: byte, b: byte): byte
  {
    a ^ b
  }

  /** Field-wise XOR of two sums. */
  function Plus(x: HeaderSums, y: HeaderSums): HeaderSums
  {
    HeaderSums(Xor(x.b0, y.b0), Xor(x.b1, y.b1), Xor(x.b4, y.b4), Xor(x.b5, y.b5),
               Xor(x.b6, y.b6), Xor(x.b7, y.b7), Xor(x.lenHi, y.lenHi), Xor(x.lenLo, y.lenLo))
  }

  /** The sums with one more packet folded in. */
  function Fold(x: HeaderSums, p: Packet): HeaderSums
    requires MediaSized(p)
  {
    Plus(x, Own(p))
  }

  /** The header sums of a line. */
  function SumsOf(ps: seq<Packet>): HeaderSums
    requires AllMediaSized(ps)
    decreases |ps|
  {
    if |ps| == 0 then NoSums
    else
      Fold(SumsOf(ps[..|ps| - 1]), ps[|ps| - 1])
  }

  lemma SumsStep(ps: seq<Packet>, i: nat)
    requires i < |ps| && AllMediaSized(ps)
    ensures AllMediaSized(ps[..i]) && AllMediaSized(ps[..i + 1])
    ensures SumsOf(ps[..i + 1]) == Fold(SumsOf(ps[..i]), ps[i])
  {
    assert ps[..i + 1][..i] == ps[..i];
    assert forall j :: 0 <= j < i + 1 ==> ps[..i + 1][j] == ps[j];
  }

  /** The 24 header bytes of a repair packet, before the line tags (bytes
      22-23) are filled in, from the last packet of the line, the line's
      header sums and the table's base sequence number:
        - an RTP header with version 2 and bytes 4-7 copied from the last packet;
        - the FEC header: byte 12 = 0x40 | (XOR of byte 0 & 0x3f), byte 13 =
          XOR of byte 1, bytes 14-15 = XOR of the lengths, bytes 16-19 = XOR
          of the timestamps, bytes 20-21 = the base sequence number. */
  function RepairHeader(last: Packet, x: HeaderSums, base: int): (h: seq<byte>)
    requires |last| >= 12 && IsSeq(base)
    ensures |h| == 24
  {
    [0x80, 0, 0, 0, last[4], last[5], last[6], last[7], 0, 0, 0, 0,
     0x40 | (x.b0 & 0x3f), x.b1, x.lenHi, x.lenLo, x.b4, x.b5, x.b6, x.b7,
     HiByte(base), LoByte(base), 0, 0]
  }

  /** The repair payload of a line: byte t is the XOR of byte t + 12 over the
      line, up to the end of the longest packet. */
  function RepairPayloadOf(ps: seq<Packet>): (pay: seq<byte>)
    requires |ps| > 0 && AllMediaSized(ps)
    ensures |pay| == MaxLen(ps) - 12
  {
    assert MediaSized(ps[0]);
    seq(MaxLen(ps) - 12, t requires 0 <= t => XorAt(ps, t + 12))
  }

  /** The repair packet for a line: 12 bytes longer than its longest packet. */
  function RepairPacketOf(ps: seq<Packet>, base: int): (r: Packet)
    requires |ps| > 0 && AllMediaSized(ps) && IsSeq(base)
    ensures |r| == MaxLen(ps) + 12
  {
    assert MediaSized(ps[|ps| - 1]);
    RepairHeader(ps[|ps| - 1], SumsOf(ps), base) + RepairPayloadOf(ps)
  }

  /** The length of the missing packet, as the receiver derives it: the XOR of
      the surviving lengths with the length field of the repair packet. */
  function RecoveredLength(sibs: seq<Packet>, repair: Packet): int
    requires AllMediaSized(sibs) && |repair| >= 24
  {
    LengthFrom(SumsOf(sibs), repair)
  }

  /** The length the header sums x and the repair packet's length field give. */
  function LengthFrom(x: HeaderSums, repair: Packet): int
    requires |repair| >= 24
  {
    Be16(x.lenHi ^ repair[14], x.lenLo ^ repair[15])
  }

  /** The SSRC the receiver gives a rebuilt packet: that of the first
      surviving packet, or zero when none survives (where the source reads
      through a null pointer). */
  function SsrcOf(sibs: seq<Packet>): (r: seq<byte>)
    ensures |r| == 4
    ensures AllMediaSized(sibs) && |sibs| > 0 ==> r == sibs[0][8..12]
    ensures |sibs| == 0 ==> r == [0, 0, 0, 0]
  {
    if |sibs| > 0 && |sibs[0]| >= 12 then sibs[0][8..12] else [0, 0, 0, 0]
  }

  /** The 12 header bytes of a rebuilt packet, from the survivors' header
      sums x, the SSRC and the repair packet: the protected bytes are the
      XOR of the sums with the repair packet's FEC header, the version is
      forced to 2, and bytes 2-3 (the sequence number) are left zero for the
      caller, which knows which cell was empty. */
  function RecoveredHeader(x: HeaderSums, ssrc: seq<byte>, repair: Packet): (h: seq<byte>)
    requires |ssrc| == 4 && |repair| >= 24
    ensures |h| == 12
  {
    HeaderOf(0x80 | ((x.b0 ^ repair[12]) & 0x3f), x.b1 ^ repair[13],
             x.b4 ^ repair[16], x.b5 ^ repair[17], x.b6 ^ repair[18], x.b7 ^ repair[19], ssrc)
  }

  /** A 12-byte RTP header with the given bytes 0-1 and 4-7, a zero sequence
      number and the given SSRC. */
  function HeaderOf(b0: byte, b1: byte, b4: byte, b5: byte, b6: byte, b7: byte, ssrc: seq<byte>): (h: seq<byte>)
    requires |ssrc| == 4
    ensures |h| == 12
  {
    [b0, b1, 0, 0, b4, b5, b6, b7] + ssrc
  }

  /** The payload of a rebuilt packet of length n: byte t is the survivors'
      XOR of byte t + 12 with byte t + 24 of the repair packet. */
  function RecoveredPayload(sibs: seq<Packet>, repair: Packet, n: int): (pay: seq<byte>)
    requires 12 <= n && n + 12 <= |repair|
    ensures |pay| == n - 12
  {
    seq(n - 12, t requires 0 <= t < n - 12 && n + 12 <= |repair| => XorAt(sibs, t + 12) ^ repair[t + 24])
  }

  /** The packet rebuilt from the surviving packets of a line and its repair
      packet; None when the derived length does not fit the repair packet
      (BaseClass/FEC/FEC2DTable.cpp:705) or is shorter than an RTP header. */
  function RecoverPacket(sibs: seq<Packet>, repair: Packet): (r: Option<Packet>)
    requires AllMediaSized(sibs) && |repair| >= 24
    ensures r.Some? ==> |r.value| == RecoveredLength(sibs, repair) && 12 <= |r.value| <= |repair| - 12
  {
    var n := RecoveredLength(sibs, repair);
    if n + 12 > |repair| || n < 12 then None
    else Some(RecoveredHeader(SumsOf(sibs), SsrcOf(sibs), repair) + RecoveredPayload(sibs, repair, n))
  }

  /** The line with its k-th packet taken out: the packets that survive when
      that one is lost. */
  function Without(ps: seq<Packet>, k: nat): seq<Packet>
    requires k < |ps|
  {
    ps[..k] + ps[k + 1..]
  }

  lemma {:induction false} XorAtWithout(ps: seq<Packet>, k: nat, j: nat)
    requires k < |ps|
    ensures XorAt(ps, j) == XorAt(Without(ps, k), j) ^ ByteAt(ps[k], j)
    decreases |ps|
  {
    var n := |ps| - 1;
    if k == n {
      assert Without(ps, k) == ps[..n];
    } else {
      var front := ps[..n];
      XorAtWithout(front, k, j);
      assert Without(ps, k)[..|Without(ps, k)| - 1] == Without(front, k);
      assert Without(ps, k)[|Without(ps, k)| - 1] == ps[n];
    }
  }

  lemma AllMediaSizedWithout(ps: seq<Packet>, k: nat)
    requires k < |ps| && AllMediaSized(ps)
    ensures AllMediaSized(Without(ps, k))
  {
    forall i | 0 <= i < |Without(ps, k)| ensures MediaSized(Without(ps, k)[i]) {
      if i < k { assert Without(ps, k)[i] == ps[i]; } else { assert Without(ps, k)[i] == ps[i + 1]; }
    }
  }

  /** Folding two packets in either order gives the same sums. */
  lemma PlusSwap(x: HeaderSums, a: HeaderSums, b: HeaderSums)
    ensures Plus(Plus(x, a), b) == Plus(Plus(x, b), a)
  {
    XorSwap(x.b0, a.b0, b.b0);
    XorSwap(x.b1, a.b1, b.b1);
    XorSwap(x.b4, a.b4, b.b4);
    XorSwap(x.b5, a.b5, b.b5);
    XorSwap(x.b6, a.b6, b.b6);
    XorSwap(x.b7, a.b7, b.b7);
    XorSwap(x.lenHi, a.lenHi, b.lenHi);
    XorSwap(x.lenLo, a.lenLo, b.lenLo);
  }

  lemma FoldSwap(x: HeaderSums, a: Packet, b: Packet)
    requires MediaSized(a) && MediaSized(b)
    ensures Fold(Fold(x, a), b) == Fold(Fold(x, b), a)
  {
    PlusSwap(x, Own(a), Own(b));
  }

  lemma XorSwap(x: byte, a: byte, b: byte)
    ensures Xor(Xor(x, a), b) == Xor(Xor(x, b), a)
  {
  }

  /** The sums of a line are those of the line without packet k, with packet
      k folded in. */
  lemma {:induction false} SumsWithout(ps: seq<Packet>, k: nat)
    requires k < |ps| && AllMediaSized(ps)
    ensures AllMediaSized(Without(ps, k))
    ensures SumsOf(ps) == Fold(SumsOf(Without(ps, k)), ps[k])
    decreases |ps|
  {
    var n := |ps| - 1;
    if k == n {
      SumsWithoutEnd(ps);
    } else {
      SumsLast(ps);
      SumsWithout(ps[..n], k);
      AllMediaSizedWithout(ps, k);
      SumsWithoutLast(ps, k);
      FoldSwap(SumsOf(Without(ps[..n], k)), ps[k], ps[n]);
    }
  }

  lemma SumsWithoutEnd(ps: seq<Packet>)
    requires |ps| > 0 && AllMediaSized(ps)
    ensures AllMediaSized(Without(ps, |ps| - 1))
    ensures SumsOf(ps) == Fold(SumsOf(Without(ps, |ps| - 1)), ps[|ps| - 1])
  {
    assert Without(ps, |ps| - 1) == ps[..|ps| - 1];
    SumsLast(ps);
  }

  lemma SumsLast(ps: seq<Packet>)
    requires |ps| > 0 && AllMediaSized(ps)
    ensures AllMediaSized(ps[..|ps| - 1])
    ensures SumsOf(ps) == Fold(SumsOf(ps[..|ps| - 1]), ps[|ps| - 1])
  {
  }

  /** Taking out a packet other than the last keeps the last one last. */
  lemma SumsWithoutLast(ps: seq<Packet>, k: nat)
    requires k < |ps| - 1 && AllMediaSized(Without(ps, k)) && AllMediaSized(Without(ps[..|ps| - 1], k))
    ensures SumsOf(Without(ps, k)) == Fold(SumsOf(Without(ps[..|ps| - 1], k)), ps[|ps| - 1])
  {
    WithoutLast(ps, k);
    SumsLast(Without(ps, k));
  }

  /** The same, as a fact about sequences. */
  lemma WithoutLast(ps: seq<Packet>, k: nat)
    requires k < |ps| - 1
    ensures |Without(ps, k)| == |ps| - 1
    ensures Without(ps, k)[..|ps| - 2] == Without(ps[..|ps| - 1], k)
    ensures Without(ps, k)[|ps| - 2] == ps[|ps| - 1]
  {
    assert Without(ps, k)[..|ps| - 2] == Without(ps[..|ps| - 1], k);
  }

  /** The header of the packet the receiver rebuilds for a lost packet m. */
  function RestoredHeader(m: Packet, sibs: seq<Packet>): (h: seq<byte>)
    requires |m| >= 12
    ensures |h| == 12
  {
    HeaderOf(0x80 | (m[0] & 0x3f), m[1], m[4], m[5], m[6], m[7], SsrcOf(sibs))
  }

  /** What the receiver rebuilds for a lost packet m: m itself, except that
      the version bits of byte 0 are forced to 2, the sequence number is left
      for the caller, and the SSRC (bytes 8-11) is taken from the first
      surviving packet. */
  function Restored(m: Packet, sibs: seq<Packet>): (r: Packet)
    requires |m| >= 12
    ensures |r| == |m|
  {
    RestoredHeader(m, sibs) + m[12..]
  }

  /** A repair packet for the line ps: it agrees with the one built for ps at
      every byte the receiver reads, the FEC header bytes 12-19 and the
      payload. The RTP header (bytes 0-11) may have been restamped by the
      sender, and bytes 20-23 (the base and the line tags) are the
      builder's. */
  predicate RepairFor(repair: Packet, ps: seq<Packet>)
    requires |ps| > 0 && AllMediaSized(ps)
  {
    var x := SumsOf(ps);
    |repair| == MaxLen(ps) + 12 &&
    repair[12] == 0x40 | (x.b0 & 0x3f) && repair[13] == x.b1 &&
    repair[14] == x.lenHi && repair[15] == x.lenLo &&
    repair[16] == x.b4 && repair[17] == x.b5 && repair[18] == x.b6 && repair[19] == x.b7 &&
    repair[24..] == RepairPayloadOf(ps)
  }

  /** The repair packet built for a line is a repair packet for it. */
  lemma RepairPacketFor(ps: seq<Packet>, base: int)
    requires |ps| > 0 && AllMediaSized(ps) && IsSeq(base)
    ensures |RepairPacketOf(ps, base)| >= 24
    ensures RepairFor(RepairPacketOf(ps, base), ps)
  {
    assert MediaSized(ps[|ps| - 1]);
    var h := RepairHeader(ps[|ps| - 1], SumsOf(ps), base);
    var r := h + RepairPayloadOf(ps);
    assert r[12] == h[12] && r[13] == h[13] && r[14] == h[14] && r[15] == h[15];
    assert r[16] == h[16] && r[17] == h[17] && r[18] == h[18] && r[19] == h[19];
    assert r[24..] == RepairPayloadOf(ps);
  }

  /** Byte i of a repair packet's payload is the XOR of byte i - 12 over the line. */
  lemma RepairPayloadAt(ps: seq<Packet>, repair: Packet, i: int)
    requires |ps| > 0 && AllMediaSized(ps)
    requires 24 <= i < |repair| && repair[24..] == RepairPayloadOf(ps)
    ensures repair[i] == XorAt(ps, i - 12)
  {
    assert repair[i] == repair[24..][i - 24];
  }

  lemma XorCancel(x: byte, h: byte)
    ensures x ^ (x ^ h) == h && x ^ Xor(x, h) == h
  {
  }

  /** The receiver derives the length of the lost packet: the length field
      of the repair packet, XORed with the lengths of all packets of the line
      but one, gives the length of that one. */
  lemma RecoverLength(ps: seq<Packet>, k: nat, repair: Packet)
    requires k < |ps| && AllMediaSized(ps)
    requires RepairFor(repair, ps)
    ensures AllMediaSized(Without(ps, k)) && |repair| >= 24
    ensures RecoveredLength(Without(ps, k), repair) == |ps[k]|
  {
    SumsWithout(ps, k);
    var x := SumsOf(Without(ps, k));
    XorCancel(x.lenHi, HiByte(|ps[k]|));
    XorCancel(x.lenLo, LoByte(|ps[k]|));
    Be16Split(|ps[k]|);
  }

  /** Byte 0 comes back with the version forced to 2. */
  lemma FirstByteBits(x: byte, m0: byte)
    ensures 0x80 | ((x ^ (0x40 | (Xor(x, m0) & 0x3f))) & 0x3f) == 0x80 | (m0 & 0x3f)
  {
  }

  /** The rebuilt header is the restored header of the lost packet. */
  lemma RecoverHeader(ps: seq<Packet>, k: nat, repair: Packet)
    requires k < |ps| && AllMediaSized(ps)
    requires RepairFor(repair, ps)
    ensures AllMediaSized(Without(ps, k)) && |repair| >= 24
    ensures RecoveredHeader(SumsOf(Without(ps, k)), SsrcOf(Without(ps, k)), repair) ==
            RestoredHeader(ps[k], Without(ps, k))
  {
    SumsWithout(ps, k);
    HeaderBack(SumsOf(Without(ps, k)), ps[k], SsrcOf(Without(ps, k)), repair);
  }

  /** A FEC header over the survivors' sums x with m folded in gives back the
      protected header bytes of m. */
  lemma HeaderBack(x: HeaderSums, m: Packet, ssrc: seq<byte>, repair: Packet)
    requires MediaSized(m) && |ssrc| == 4 && |repair| >= 24
    requires repair[12] == 0x40 | (Fold(x, m).b0 & 0x3f) && repair[13] == Fold(x, m).b1
    requires repair[16] == Fold(x, m).b4 && repair[17] == Fold(x, m).b5
    requires repair[18] == Fold(x, m).b6 && repair[19] == Fold(x, m).b7
    ensures RecoveredHeader(x, ssrc, repair) == HeaderOf(0x80 | (m[0] & 0x3f), m[1], m[4], m[5], m[6], m[7], ssrc)
  {
    FirstByteBits(x.b0, m[0]);
    XorCancel(x.b1, m[1]);
    XorCancel(x.b4, m[4]);
    XorCancel(x.b5, m[5]);
    XorCancel(x.b6, m[6]);
    XorCancel(x.b7, m[7]);
  }

  /** The rebuilt payload is the payload of the lost packet. */
  lemma RecoverPayload(ps: seq<Packet>, k: nat, repair: Packet)
    requires k < |ps| && AllMediaSized(ps)
    requires RepairFor(repair, ps)
    ensures |ps[k]| >= 12 && |ps[k]| + 12 <= |repair|
    ensures RecoveredPayload(Without(ps, k), repair, |ps[k]|) == ps[k][12..]
  {
    var sibs, m := Without(ps, k), ps[k];
    assert MediaSized(m);
    var got := RecoveredPayload(sibs, repair, |m|);
    forall t | 0 <= t < |m| - 12 ensures got[t] == m[12..][t] {
      XorAtWithout(ps, k, t + 12);
      RepairPayloadAt(ps, repair, t + 24);
      XorCancel(XorAt(sibs, t + 12), m[t + 12]);
    }
  }

  /** The XOR round trip: from the repair packet of a line and all its packets
      but the k-th, the receiver rebuilds the k-th packet (up to the header
      fields that are not protected). */
  lemma RecoverLost(ps: seq<Packet>, k: nat, repair: Packet)
    requires k < |ps| && AllMediaSized(ps)
    requires RepairFor(repair, ps)
    ensures AllMediaSized(Without(ps, k))
    ensures RecoverPacket(Without(ps, k), repair) == Some(Restored(ps[k], Without(ps, k)))
  {
    RecoverLength(ps, k, repair);
    RecoverHeader(ps, k, repair);
    RecoverPayload(ps, k, repair);
  }

  /** On a line one packet wide nothing survives the loss of its packet:
      the packet still comes back from the repair packet alone, but with
      SSRC zero, so it differs from the lost one whenever that SSRC is not
      zero. */
  lemma LoneLossSsrcZero(p: Packet, repair: Packet)
    requires AllMediaSized([p]) && RepairFor(repair, [p])
    ensures RecoverPacket([], repair).Some?
    ensures RecoverPacket([], repair).value[8..12] == [0, 0, 0, 0]
    ensures p[8..12] != [0, 0, 0, 0] ==> RecoverPacket([], repair).value != p
  {
    RecoverLost([p], 0, repair);
    assert Without([p], 0) == [];
  }

  /** A lost packet of version 2 whose SSRC is that of the first surviving
      packet comes back exactly once its sequence number is written in. */
  lemma RecoverLostExactly(ps: seq<Packet>, k: nat, repair: Packet)
    requires k < |ps| && |ps| > 1 && AllMediaSized(ps)
    requires RepairFor(repair, ps)
    requires ps[k][0] & 0xc0 == 0x80
    requires ps[k][8..12] == Without(ps, k)[0][8..12]
    ensures AllMediaSized(Without(ps, k))
    ensures var r := RecoverPacket(Without(ps, k), repair);
            r.Some? && r.value[2 := ps[k][2]][3 := ps[k][3]] == ps[k]
  {
    RecoverLost(ps, k, repair);
    assert MediaSized(Without(ps, k)[0]);
    RestoredExact(ps[k], Without(ps, k));
  }

  /** Restoring changes nothing in a version-2 packet whose SSRC is that of
      the first survivor, once its sequence number is written back. */
  lemma RestoredExact(m: Packet, sibs: seq<Packet>)
    requires |m| >= 12 && |sibs| > 0 && |sibs[0]| >= 12
    requires m[0] & 0xc0 == 0x80 && m[8..12] == sibs[0][8..12]
    ensures Restored(m, sibs)[2 := m[2]][3 := m[3]] == m
  {
    VersionBits(m[0]);
    var head := [0x80 | (m[0] & 0x3f), m[1], m[2], m[3], m[4], m[5], m[6], m[7]] + m[8..12];
    assert Restored(m, sibs)[2 := m[2]][3 := m[3]] == head + m[12..];
    assert head == m[..12];
    assert m[..12] + m[12..] == m;
  }

  lemma VersionBits(b: byte)
    requires b & 0xc0 == 0x80
    ensures b == 0x80 | (b & 0x3f)
  {
  }
}
