/** The Annex B parameter-set scanner of the video encoder (the free
    functions FindSPS and FindPPS, BaseClass/MediaEncoder/VideoEncoder.cpp):
    the first NAL unit of a given type that follows a four-byte start code
    00 00 00 01, and its length up to the next four-byte start code or the
    end of the data. The returned pointer is modelled as an index into the
    data. */
module AnnexB {
  import opened Bytes

  /** NAL unit types 7 (sequence parameter set) and 8 (picture parameter set). */
  const SpsType: byte := 0x07
  const PpsType: byte := 0x08

  /** A four-byte start code 00 00 00 01 begins at index p. */
  predicate StartAt(d: seq<byte>, p: int)
  {
    0 <= p && p + 3 < |d| && d[p] == 0 && d[p + 1] == 0 && d[p + 2] == 0 && d[p + 3] == 1
  }

  /** Index p holds a NAL header of type t right after a four-byte start code. */
  predicate NalAt(d: seq<byte>, p: int, t: byte)
  {
    4 <= p < |d| && d[p] & 0x1f == t && StartAt(d, p - 4)
  }

  /** The first index from p on holding a NAL of type t, or |d| when there
      is none. */
  function FirstNal(d: seq<byte>, t: byte, p: int): (r: int)
    requires 4 <= p <= |d|
    decreases |d| - p
    ensures p <= r <= |d|
    ensures r < |d| ==> NalAt(d, r, t)
  {
    if p == |d| then p else if NalAt(d, p, t) then p else FirstNal(d, t, p + 1)
  }

  /** FirstNal finds the first such index: none lies before it. */
  lemma {:induction false} FirstNalFirst(d: seq<byte>, t: byte, p: int)
    requires 4 <= p <= |d|
    decreases |d| - p
    ensures forall q :: p <= q < FirstNal(d, t, p) ==> !NalAt(d, q, t)
  {
    if p < |d| && !NalAt(d, p, t) {
      FirstNalFirst(d, t, p + 1);
    }
  }

  /** Where the end scan stops from e on: the first index below |d| - 3
      holding a start code, or e itself once e has reached |d| - 3. */
  function NextStart(d: seq<byte>, e: int): (r: int)
    requires 0 <= e
    decreases |d| - e
    ensures e <= r
    ensures r < |d| - 3 ==> StartAt(d, r)
    ensures r >= |d| - 3 ==> r == e || r == |d| - 3
  {
    if e >= |d| - 3 then e else if StartAt(d, e) then e else NextStart(d, e + 1)
  }

  /** NextStart stops at the first start code: none lies before it. */
  lemma {:induction false} NextStartFirst(d: seq<byte>, e: int)
    requires 0 <= e
    decreases |d| - e
    ensures forall q :: e <= q < NextStart(d, e) ==> !StartAt(d, q)
  {
    if e < |d| - 3 && !StartAt(d, e) {
      NextStartFirst(d, e + 1);
    }
  }

  /** The length reported for a NAL found at pos: up to the next start code
      found after pos, else to the end of the data. */
  function NalLength(d: seq<byte>, pos: int): (n: int)
    requires 4 <= pos <= |d|
  {
    var e := NextStart(d, pos + 1);
    if e < |d| - 3 then e - pos else |d| - pos
  }

  /** The reported span is the whole NAL: it is non-empty, it ends at a
      start code or at the end of the data, and no start code begins
      inside it. With nothing found the length is 0. */
  lemma NalLengthSpan(d: seq<byte>, pos: int)
    requires 4 <= pos <= |d|
    ensures pos == |d| ==> NalLength(d, pos) == 0
    ensures pos < |d| ==> 1 <= NalLength(d, pos) <= |d| - pos
    ensures pos + NalLength(d, pos) == |d| || StartAt(d, pos + NalLength(d, pos))
    ensures forall q :: pos < q < pos + NalLength(d, pos) ==> !StartAt(d, q)
  {
    var e := NextStart(d, pos + 1);
    NextStartFirst(d, pos + 1);
    if e >= |d| - 3 {
      forall q | pos < q < |d|
        ensures !StartAt(d, q)
      {
        if q < e {
        } else {
          assert q + 3 >= |d|;
        }
      }
    }
  }

  /** The two scanning loops shared by FindSPS and FindPPS
      (VideoEncoder.cpp:494-530 and :545-581): the first NAL of type t from
      index 4 on, and its length. */
  method Scan(d: seq<byte>, t: byte) returns (pos: int, len: int)
    requires 4 <= |d|
    ensures pos == FirstNal(d, t, 4) && len == NalLength(d, pos)
  {
    pos := 4;
    while pos < |d|
      invariant 4 <= pos <= |d|
      invariant FirstNal(d, t, pos) == FirstNal(d, t, 4)
    {
      if d[pos] & 0x1f == t {
        if d[pos - 1] == 1 && d[pos - 2] == 0 && d[pos - 3] == 0 && d[pos - 4] == 0 {
          break;
        }
      }
      pos := pos + 1;
    }
    var endpos := pos + 1;
    var hasFindStart := false;
    while endpos < |d| - 3
      invariant pos + 1 <= endpos
      invariant NextStart(d, endpos) == NextStart(d, pos + 1)
    {
      if d[endpos] == 0 {
        if d[endpos + 1] == 0 && d[endpos + 2] == 0 && d[endpos + 3] == 1 {
          hasFindStart := true;
          break;
        }
      }
      endpos := endpos + 1;
    }
    if hasFindStart {
      len := endpos - pos;
    } else {
      len := |d| - pos;
    }
  }

  /** FindSPS (VideoEncoder.cpp:484-533): no data or fewer than 4 bytes give
      false, no pointer and size 0; otherwise the first SPS after a start
      code and its length, or false, no pointer and size 0 when there is
      none. */
  method FindSPS(data: Option<seq<byte>>) returns (found: bool, sps: Option<int>, spsSize: int)
    requires data.Some? ==> |data.value| + 1 < U32
    ensures data.None? || |data.value| < 4 ==> !found && sps == None && spsSize == 0
    ensures data.Some? && |data.value| >= 4 ==>
              var p := FirstNal(data.value, SpsType, 4);
              (found <==> p < |data.value|) &&
              sps == (if found then Some(p) else None) &&
              spsSize == NalLength(data.value, p)
    ensures !found ==> spsSize == 0
  {
    if data.None? || |data.value| < 4 {
      return false, None, 0;
    }
    var pos, len := Scan(data.value, SpsType);
    NalLengthSpan(data.value, pos);
    found := pos < |data.value|;
    sps := if found then Some(pos) else None;
    spsSize := len;
  }

  /** FindPPS (VideoEncoder.cpp:535-584): the same scan for a PPS. Its guard
      rejects only missing or empty data; the 1..3-byte inputs, for which
      size - 3 wraps around and the end scan reads past the data, are
      excluded. */
  method FindPPS(data: Option<seq<byte>>) returns (found: bool, pps: Option<int>, ppsSize: int)
    requires data.Some? ==> |data.value| + 1 < U32
    requires data.Some? ==> |data.value| == 0 || |data.value| >= 4
    ensures data.None? || |data.value| == 0 ==> !found && pps == None && ppsSize == 0
    ensures data.Some? && |data.value| >= 4 ==>
              var p := FirstNal(data.value, PpsType, 4);
              (found <==> p < |data.value|) &&
              pps == (if found then Some(p) else None) &&
              ppsSize == NalLength(data.value, p)
    ensures !found ==> ppsSize == 0
  {
    if data.None? || |data.value| == 0 {
      return false, None, 0;
    }
    var pos, len := Scan(data.value, PpsType);
    NalLengthSpan(data.value, pos);
    found := pos < |data.value|;
    pps := if found then Some(pos) else None;
    ppsSize := len;
  }

  /** Only four-byte start codes are recognised: an SPS behind the
      three-byte start code 00 00 01 that Annex B also allows is not found. */
  lemma ThreeByteStartMissed()
    ensures FirstNal([0xaa, 0x00, 0x00, 0x01, 0x67, 0x42], SpsType, 4) == 6
  {
    var d: seq<byte> := [0xaa, 0x00, 0x00, 0x01, 0x67, 0x42];
    assert !NalAt(d, 4, SpsType) by { assert d[0] != 0; }
    assert !NalAt(d, 5, SpsType) by { assert d[5] & 0x1f == 0x02; }
  }

  /** A stream of an SPS and a PPS, each behind a four-byte start code:
      the SPS is found at index 4 with its 3 bytes, the PPS at 11 with the
      2 bytes to the end. */
  lemma FindsBoth()
    ensures FirstNal([0, 0, 0, 1, 0x67, 0x42, 0x1f, 0, 0, 0, 1, 0x68, 0xce], SpsType, 4) == 4
    ensures NalLength([0, 0, 0, 1, 0x67, 0x42, 0x1f, 0, 0, 0, 1, 0x68, 0xce], 4) == 3
    ensures FirstNal([0, 0, 0, 1, 0x67, 0x42, 0x1f, 0, 0, 0, 1, 0x68, 0xce], PpsType, 4) == 11
    ensures NalLength([0, 0, 0, 1, 0x67, 0x42, 0x1f, 0, 0, 0, 1, 0x68, 0xce], 11) == 2
  {
    var d: seq<byte> := [0, 0, 0, 1, 0x67, 0x42, 0x1f, 0, 0, 0, 1, 0x68, 0xce];
    assert NalAt(d, 4, SpsType);
    assert !StartAt(d, 5) && !StartAt(d, 6) && StartAt(d, 7);
    assert NextStart(d, 7) == 7;
    assert NextStart(d, 5) == 7;
    assert !NalAt(d, 4, PpsType) && !NalAt(d, 5, PpsType) && !NalAt(d, 6, PpsType);
    assert !NalAt(d, 7, PpsType) && !NalAt(d, 8, PpsType) && !NalAt(d, 9, PpsType);
    assert !NalAt(d, 10, PpsType) && NalAt(d, 11, PpsType);
    assert FirstNal(d, PpsType, 11) == 11;
    assert NextStart(d, 12) == 12;
  }
}
