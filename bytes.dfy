/** Byte-level vocabulary shared by every module: bytes, packets, big-endian
    16-bit fields, the 16-bit RTP sequence space and an Option type. */
module Bytes {

  type byte = bv8

  /** A packet is its bytes; the length of the sequence is the packet length. */
  type Packet = seq<byte>

  datatype Option<+T> = None | Some(value: T)

  /** The modulus of a uint32_t: sizes, positions and counters of 32 bits
      stay below it. */
  const U32: int := 0x1_0000_0000

  /** Sequence numbers live in the 16-bit space 0..65535. */
  const SeqSpace: int := 65536

  predicate IsSeq(s: int) { 0 <= s < SeqSpace }

  /** Reduction into the 16-bit sequence space, as a store into a uint16_t does. */
  function Wrap16(x: int): (s: int)
    ensures IsSeq(s)
    ensures IsSeq(x) ==> s == x
  {
    x % SeqSpace
  }

  /** A big-endian 16-bit field made of two bytes, as an integer 0..65535. */
  function Be16(hi: byte, lo: byte): (v: int)
    ensures IsSeq(v)
  {
    hi as int * 256 + lo as int
  }

  /** The high byte of a 16-bit value (a store of v >> 8 into a uint8_t). */
  function HiByte(v: int): byte
    requires IsSeq(v)
  {
    (v / 256) as byte
  }

  /** The low byte of a 16-bit value (a store of v & 0xff into a uint8_t). */
  function LoByte(v: int): byte
    requires IsSeq(v)
  {
    (v % 256) as byte
  }

  /** The sequence number carried in bytes 2-3 of an RTP header. */
  function SeqOf(p: Packet): (s: int)
    requires |p| >= 4
    ensures IsSeq(s)
  {
    Be16(p[2], p[3])
  }

  /** The 7-bit payload-type field in byte 1 of an RTP header. */
  function PayloadTypeOf(p: Packet): byte
    requires |p| >= 2
  {
    p[1] & 0x7f
  }

  /** Wrapping an intermediate sum changes nothing: counting on from a
      wrapped counter is wrapping the whole count. */
  lemma WrapAdd(x: int, k: int)
    ensures Wrap16(Wrap16(x) + k) == Wrap16(x + k)
  {
    var q := x / SeqSpace;
    assert x == q * SeqSpace + Wrap16(x);
    assert x + k == q * SeqSpace + (Wrap16(x) + k);
    ModShift(Wrap16(x) + k, q);
  }

  lemma ModShift(y: int, q: int)
    ensures (q * SeqSpace + y) % SeqSpace == y % SeqSpace
  {
    var r := y % SeqSpace;
    var d := y / SeqSpace;
    assert y == d * SeqSpace + r;
    assert q * SeqSpace + y == (q + d) * SeqSpace + r;
  }

  lemma Be16Split(v: int)
    requires IsSeq(v)
    ensures Be16(HiByte(v), LoByte(v)) == v
  {
    ByteValue(v / 256);
    ByteValue(v % 256);
  }

  /** An integer 0..255 stored into a byte keeps its value. The case split
      keeps each conversion on a short interval. */
  lemma ByteValue(x: int)
    requires 0 <= x < 256
    ensures (x as byte) as int == x
  {
    if x < 16 {
    } else if x < 32 {
    } else if x < 48 {
    } else if x < 64 {
    } else if x < 80 {
    } else if x < 96 {
    } else if x < 112 {
    } else if x < 128 {
    } else if x < 144 {
    } else if x < 160 {
    } else if x < 176 {
    } else if x < 192 {
    } else if x < 208 {
    } else if x < 224 {
    } else if x < 240 {
    } else {
    }
  }

  /** The bytes of a 16-bit counter, high byte first (c >> 8 and c & 0xff
      stored into uint8_t). */
  function Hi16(c: bv16): byte { (c >> 8) as byte }
  function Lo16(c: bv16): byte { (c & 0xff) as byte }

  /** Writing a 16-bit counter into bytes 2-3 makes it the sequence number. */
  lemma SeqOfCounter(p: Packet, c: bv16)
    requires |p| >= 4
    ensures SeqOf(p[2 := Hi16(c)][3 := Lo16(c)]) == c as int
  {
    var q := p[2 := Hi16(c)][3 := Lo16(c)];
    assert q[2] == Hi16(c) && q[3] == Lo16(c);
    CounterBytes(c);
  }

  /** The two bytes of a counter read back as the counter. */
  lemma CounterBytes(c: bv16)
    ensures Be16(Hi16(c), Lo16(c)) == c as int
  {
  }

  lemma SeqOfWritten(p: Packet, s: int)
    requires |p| >= 4 && IsSeq(s)
    ensures SeqOf(p[2 := HiByte(s)][3 := LoByte(s)]) == s
  {
    Be16Split(s);
  }

  /** A 32-bit value as four big-endian bytes (the shifts and masks that
      store an SSRC into a header). */
  function Be32Bytes(v: bv32): (b: seq<byte>)
    ensures |b| == 4
  {
    [(v >> 24) as byte, ((v >> 16) & 0xff) as byte, ((v >> 8) & 0xff) as byte, (v & 0xff) as byte]
  }

  /** Four big-endian bytes read back as a 32-bit value. */
  function Be32(b: seq<byte>): bv32
    requires |b| == 4
  {
    ((b[0] as bv32) << 24) | ((b[1] as bv32) << 16) | ((b[2] as bv32) << 8) | (b[3] as bv32)
  }

  /** Writing a 32-bit value as bytes and reading it back is the identity. */
  lemma Be32Back(v: bv32)
    ensures Be32(Be32Bytes(v)) == v
  {
  }

  /** The uint16_t counter after k increments; wrap-around is the
      bit-vector's own. */
  function Advance(c: bv16, k: nat): bv16
  {
    if k == 0 then c else Advance(c, k - 1) + 1
  }

  /** One increment first is one increment more. */
  lemma {:induction false} AdvanceShift(c: bv16, k: nat)
    ensures Advance(c + 1, k) == Advance(c, k + 1)
  {
    if k > 0 {
      AdvanceShift(c, k - 1);
    }
  }

  /** a increments and then b more are a + b increments. */
  lemma {:induction false} AdvanceAdd(c: bv16, a: nat, b: nat)
    ensures Advance(Advance(c, a), b) == Advance(c, a + b)
  {
    if b > 0 {
      AdvanceAdd(c, a, b - 1);
    }
  }

  function Min(a: int, b: int): int { if a <= b then a else b }

  function Max(a: int, b: int): int { if a >= b then a else b }
}
