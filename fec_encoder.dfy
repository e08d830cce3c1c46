/** The sending side of the FEC layer, RFC8627FECEncoder
    (BaseClass/FEC/FECEncoder.cpp): every media packet is forwarded
    unchanged, kept in a bounded retransmission cache and fed to one
    FEC2DTable; the repair packets the table builds are stamped with the
    encoder's own payload type, sequence counter and SSRC and forwarded
    too; a NACK re-sends the cached originals of the sequence numbers it
    lists. The packet callback is the output sequence `out`. */
module FecEncoder {
  import opened Bytes
  import opened FecRepair
  import opened FecTableSpec
  import opened FecTable

  /** MAX_CACHE_NAM (BaseClass/FEC/FECEncoder.cpp:5). */
  const MaxCache: int := 200

  // ---------------------------------------------------------------------
  // The retransmission cache: a FIFO list of sequence numbers plus a map
  // from sequence number to packet.
  // ---------------------------------------------------------------------

  predicate NoDup(l: seq<int>)
  {
    forall i, j :: 0 <= i < j < |l| ==> l[i] != l[j]
  }

  /** The cache is bounded, its list has no repeats, and the list holds
      exactly the map's keys. */
  ghost predicate CacheInv(l: seq<int>, m: map<int, Packet>)
  {
    |l| <= MaxCache && NoDup(l) && (forall s :: s in m <==> s in l)
  }

  /** How many of the oldest entries of l lie beyond the capacity. */
  function Overflow(l: seq<int>): nat
  {
    if |l| > MaxCache then |l| - MaxCache else 0
  }

  /** The map without the keys listed in ks. */
  function Forget(m: map<int, Packet>, ks: seq<int>): (m': map<int, Packet>)
    ensures forall x :: x in m' <==> x in m && x !in ks
    ensures forall x :: x in m' ==> m'[x] == m[x]
  {
    map x | x in m && x !in ks :: m[x]
  }

  /** CacheRTPPacket on values: a sequence number already cached keeps its
      first packet; a new one is appended, and the oldest entries beyond
      the capacity leave the list and the map. */
  function Cached(l: seq<int>, m: map<int, Packet>, p: Packet): (res: (seq<int>, map<int, Packet>))
    requires |p| >= 4
  {
    var s := SeqOf(p);
    if s in m then (l, m)
    else
      var l1 := l + [s];
      var k := Overflow(l1);
      (l1[k..], Forget(m[s := p], l1[..k]))
  }

  /** Caching keeps the cache's invariant. */
  lemma CachedInv(l: seq<int>, m: map<int, Packet>, p: Packet)
    requires CacheInv(l, m) && |p| >= 4
    ensures CacheInv(Cached(l, m, p).0, Cached(l, m, p).1)
  {
    var s := SeqOf(p);
    if s !in m {
      var l1 := l + [s];
      NoDupAppend(l, s);
      if |l| == MaxCache {
        assert l1[1..] == l[1..] + [s] && l1[..1] == [l[0]];
        NoDupTail(l1);
        assert l1[0] == l[0];
      } else {
        assert l1[0..] == l1 && l1[..0] == [];
      }
    }
  }

  /** Appending a new value keeps a list free of repeats. */
  lemma NoDupAppend(l: seq<int>, s: int)
    requires NoDup(l) && s !in l
    ensures NoDup(l + [s])
  {
    var l1 := l + [s];
    forall i, j | 0 <= i < j < |l1| ensures l1[i] != l1[j] {
      if j == |l| {
        assert l1[i] == l[i];
      } else {
        assert l1[i] == l[i] && l1[j] == l[j];
      }
    }
  }

  /** Dropping the head of a list free of repeats drops exactly that value. */
  lemma NoDupTail(l: seq<int>)
    requires NoDup(l) && |l| > 0
    ensures NoDup(l[1..])
    ensures forall x :: x in l[1..] <==> x in l && x != l[0]
  {
    forall x | x in l && x != l[0] ensures x in l[1..] {
      var i :| 0 <= i < |l| && l[i] == x;
      assert l[1..][i - 1] == x;
    }
    forall x | x in l[1..] ensures x != l[0] {
      var i :| 0 <= i < |l| - 1 && l[1..][i] == x;
      assert l[i + 1] == x;
    }
    forall i, j | 0 <= i < j < |l| - 1 ensures l[1..][i] != l[1..][j] {
      assert l[1..][i] == l[i + 1] && l[1..][j] == l[j + 1];
    }
  }

  /** After caching p its sequence number is cached, with p unless an
      earlier packet of that number was already there. */
  lemma CachedHolds(l: seq<int>, m: map<int, Packet>, p: Packet)
    requires CacheInv(l, m) && |p| >= 4
    ensures SeqOf(p) in Cached(l, m, p).1
    ensures Cached(l, m, p).1[SeqOf(p)] == if SeqOf(p) in m then m[SeqOf(p)] else p
  {
    var s := SeqOf(p);
    if s !in m {
      var l1 := l + [s];
      var k := Overflow(l1);
      assert k <= 1;
      if k == 1 {
        assert l1[..k] == [l1[0]];
        assert l1[0] != s by { assert l1[0] == l[0]; }
      }
    }
  }

  /** The eviction order is first in, first out: caching a new number into a
      full cache drops exactly the oldest entry, and every other entry keeps
      its packet. */
  lemma CachedFifo(l: seq<int>, m: map<int, Packet>, p: Packet)
    requires CacheInv(l, m) && |p| >= 4 && SeqOf(p) !in m
    ensures |l| == MaxCache ==>
              Cached(l, m, p).0 == l[1..] + [SeqOf(p)] && l[0] !in Cached(l, m, p).1
    ensures |l| < MaxCache ==> Cached(l, m, p).0 == l + [SeqOf(p)]
    ensures forall x :: x in Cached(l, m, p).1 && x != SeqOf(p) ==> x in m && Cached(l, m, p).1[x] == m[x]
  {
    var s := SeqOf(p);
    var l1 := l + [s];
    if |l| == MaxCache {
      assert l1[..1] == [l[0]];
      assert l1[1..] == l[1..] + [s];
    }
  }

  /** No entry is dropped while the cache has room. */
  lemma CachedKeepsAll(l: seq<int>, m: map<int, Packet>, p: Packet)
    requires CacheInv(l, m) && |p| >= 4 && |l| < MaxCache
    ensures forall x :: x in m ==> x in Cached(l, m, p).1 && Cached(l, m, p).1[x] == m[x]
  {
  }

  // ---------------------------------------------------------------------
  // Stamping repair packets.
  // ---------------------------------------------------------------------

  /** OnFECPacket's header writes (BaseClass/FEC/FECEncoder.cpp:162-169):
      byte 1 = 0x80 | PT, bytes 2-3 = the counter, bytes 8-11 = the SSRC. */
  function Stamp(p: Packet, pt: byte, c: bv16, ssrc: bv32): (q: Packet)
    requires |p| >= 12
    ensures |q| == |p|
  {
    var b := Be32Bytes(ssrc);
    p[1 := 0x80 | pt][2 := Hi16(c)][3 := Lo16(c)][8 := b[0]][9 := b[1]][10 := b[2]][11 := b[3]]
  }

  /** A stamped packet reads back as the encoder's: marker bit set, the
      payload type (of a PT that SetPayloadType accepted), the counter as
      sequence number and the SSRC; every other byte is the table's. */
  lemma StampReads(p: Packet, pt: byte, c: bv16, ssrc: bv32)
    requires |p| >= 12 && pt <= 0x7f
    ensures var q := Stamp(p, pt, c, ssrc);
            q[1] & 0x80 == 0x80 && PayloadTypeOf(q) == pt && SeqOf(q) == c as int && Be32(q[8..12]) == ssrc &&
            q[0] == p[0] && q[4..8] == p[4..8] && q[12..] == p[12..]
  {
    var q := Stamp(p, pt, c, ssrc);
    SeqOfCounter(p[1 := 0x80 | pt], c);
    assert q[8..12] == Be32Bytes(ssrc);
    Be32Back(ssrc);
  }

  /** The repair packets ps stamped in order, the counter starting at c. */
  function StampAll(ps: seq<Packet>, pt: byte, c: bv16, ssrc: bv32): (qs: seq<Packet>)
    requires forall i :: 0 <= i < |ps| ==> |ps[i]| >= 12
    ensures |qs| == |ps|
  {
    if ps == [] then [] else [Stamp(ps[0], pt, c, ssrc)] + StampAll(ps[1..], pt, c + 1, ssrc)
  }

  /** The i-th stamped packet is the i-th repair packet carrying the counter
      advanced i times as its sequence number. */
  lemma {:induction false} StampAllAt(ps: seq<Packet>, pt: byte, c: bv16, ssrc: bv32, i: int)
    requires forall j :: 0 <= j < |ps| ==> |ps[j]| >= 12
    requires 0 <= i < |ps|
    ensures StampAll(ps, pt, c, ssrc)[i] == Stamp(ps[i], pt, Advance(c, i), ssrc)
    ensures SeqOf(StampAll(ps, pt, c, ssrc)[i]) == Advance(c, i) as int
  {
    if i > 0 {
      StampAllAt(ps[1..], pt, c + 1, ssrc, i - 1);
      AdvanceShift(c, i - 1);
    }
    SeqOfCounter(ps[i][1 := 0x80 | pt], Advance(c, i));
  }

  /** Two batches stamped in a row are numbered like one: the second
      starts where the first left the counter. */
  lemma {:induction false} StampAllSplit(a: seq<Packet>, b: seq<Packet>, pt: byte, c: bv16, ssrc: bv32)
    requires forall i :: 0 <= i < |a| ==> |a[i]| >= 12
    requires forall i :: 0 <= i < |b| ==> |b[i]| >= 12
    ensures forall i :: 0 <= i < |a + b| ==> |(a + b)[i]| >= 12
    ensures StampAll(a + b, pt, c, ssrc) == StampAll(a, pt, c, ssrc) + StampAll(b, pt, Advance(c, |a|), ssrc)
  {
    if a == [] {
      assert a + b == b;
    } else {
      assert (a + b)[0] == a[0] && (a + b)[1..] == a[1..] + b;
      StampAllSplit(a[1..], b, pt, c + 1, ssrc);
      AdvanceShift(c, |a| - 1);
      var h := [Stamp(a[0], pt, c, ssrc)];
      calc {
        StampAll(a + b, pt, c, ssrc);
        h + StampAll(a[1..] + b, pt, c + 1, ssrc);
        h + (StampAll(a[1..], pt, c + 1, ssrc) + StampAll(b, pt, Advance(c, |a|), ssrc));
        (h + StampAll(a[1..], pt, c + 1, ssrc)) + StampAll(b, pt, Advance(c, |a|), ssrc);
      }
    }
  }

  // ---------------------------------------------------------------------
  // NACK parsing.
  // ---------------------------------------------------------------------

  /** The PID of item i, bytes 12 + 4i and 13 + 4i. */
  function PidAt(nack: Packet, i: nat): (pid: int)
    requires 16 + 4 * i <= |nack|
    ensures IsSeq(pid)
  {
    Be16(nack[12 + 4 * i], nack[13 + 4 * i])
  }

  /** The BLP of item i, bytes 14 + 4i and 15 + 4i. */
  function BlpAt(nack: Packet, i: nat): bv16
    requires 16 + 4 * i <= |nack|
  {
    ((nack[14 + 4 * i] as bv16) << 8) | (nack[15 + 4 * i] as bv16)
  }

  /** The BLP after i steps of the inner loop, each shifting it left by one
      in 16 bits. */
  function ShiftedBy(blp: bv16, i: nat): bv16
  {
    if i == 0 then blp else ShiftedBy(blp, i - 1) << 1
  }

  /** PID + i + 1 when the flag is set. */
  function Flag(on: bool, pid: int, i: nat): seq<int>
  {
    if on then [Wrap16(pid + i + 1)] else []
  }

  /** What the first i steps of the inner loop of RecvNackPacket push: at
      step j, PID + j + 1 when bit 7 of the shifted BLP is set. */
  function BitsLost(pid: int, blp: bv16, i: nat): seq<int>
  {
    if i == 0 then []
    else BitsLost(pid, blp, i - 1) + Flag(ShiftedBy(blp, i - 1) & 0x80 == 0x80, pid, i - 1)
  }

  /** The numbers the encoder takes one item to list: the PID, then what
      the sixteen steps of the inner loop push. */
  lemma BitsLostStep(pid: int, blp: bv16, i: nat)
    ensures BitsLost(pid, blp, i + 1) == BitsLost(pid, blp, i) + Flag(ShiftedBy(blp, i) & 0x80 == 0x80, pid, i)
    ensures ShiftedBy(blp, i + 1) == ShiftedBy(blp, i) << 1
  { }

  function ItemLost(pid: int, blp: bv16): seq<int>
  {
    [pid] + BitsLost(pid, blp, 16)
  }

  /** The lost list of the first n items, in order. */
  function LostList(nack: Packet, n: nat): seq<int>
    requires 12 + 4 * n <= |nack|
  {
    if n == 0 then [] else LostList(nack, n - 1) + ItemLost(PidAt(nack, n - 1), BlpAt(nack, n - 1))
  }

  /** Bit 7 - j of a 16-bit value, for j in 0..7. */
  function Mask(j: nat): bv16
    requires j < 8
  {
    [0x80, 0x40, 0x20, 0x10, 0x08, 0x04, 0x02, 0x01][j]
  }

  /** An independent reading of the inner loop: only the low byte of the
      BLP counts, its most significant bit naming PID + 1 and its least
      significant bit PID + 8 (the first i of them here); bits 15..8 are
      never consulted. */
  function LowByteLost(pid: int, blp: bv16, i: nat): seq<int>
    requires i <= 8
  {
    if i == 0 then [] else LowByteLost(pid, blp, i - 1) + Flag(blp & Mask(i - 1) != 0, pid, i - 1)
  }

  /** The low byte of the BLP shifted left i times (constant shifts). */
  function LowAfter(blp: bv16, i: nat): bv16
    requires i <= 8
  {
    if i == 0 then blp & 0xff
    else if i == 1 then (blp << 1) & 0xff
    else if i == 2 then (blp << 2) & 0xff
    else if i == 3 then (blp << 3) & 0xff
    else if i == 4 then (blp << 4) & 0xff
    else if i == 5 then (blp << 5) & 0xff
    else if i == 6 then (blp << 6) & 0xff
    else if i == 7 then (blp << 7) & 0xff
    else (blp << 8) & 0xff
  }

  /** One more shift moves the next bit of the low byte up to bit 7. */
  lemma ShiftStep(b: bv16, blp: bv16, i: nat)
    requires i < 8 && b & 0xff == LowAfter(blp, i)
    ensures (b << 1) & 0xff == LowAfter(blp, i + 1)
    ensures b & 0x80 == 0x80 <==> blp & Mask(i) != 0
  {
    if i == 0 {
    } else if i == 1 {
    } else if i == 2 {
    } else if i == 3 {
    } else if i == 4 {
    } else if i == 5 {
    } else if i == 6 {
    } else {
    }
  }

  /** After i steps bit 7 holds bit 7 - i of the original BLP. */
  lemma {:induction false} ShiftedLow(blp: bv16, i: nat)
    requires i <= 8
    ensures ShiftedBy(blp, i) & 0xff == LowAfter(blp, i)
  {
    if i > 0 {
      ShiftedLow(blp, i - 1);
      ShiftStep(ShiftedBy(blp, i - 1), blp, i - 1);
    }
  }

  /** The first i <= 8 steps push exactly what LowByteLost says. */
  lemma {:induction false} BitsLostLowByte(pid: int, blp: bv16, i: nat)
    requires i <= 8
    ensures BitsLost(pid, blp, i) == LowByteLost(pid, blp, i)
  {
    if i > 0 {
      BitsLostLowByte(pid, blp, i - 1);
      ShiftedLow(blp, i - 1);
      ShiftStep(ShiftedBy(blp, i - 1), blp, i - 1);
    }
  }

  /** From step 8 on the low byte has been shifted out and nothing is pushed. */
  lemma {:induction false} NoLowByte(pid: int, blp: bv16, i: nat)
    requires 8 <= i
    ensures ShiftedBy(blp, i) & 0xff == 0
    ensures BitsLost(pid, blp, i) == BitsLost(pid, blp, 8)
  {
    if i == 8 {
      ShiftedLow(blp, 8);
    } else {
      NoLowByte(pid, blp, i - 1);
      var b := ShiftedBy(blp, i - 1);
      assert (b << 1) & 0xff == 0 && b & 0x80 == 0;
    }
  }

  /** What one NACK item makes the encoder re-send: the PID, then at most
      eight numbers, the ones the low byte of the BLP flags. */
  lemma ItemLostMeaning(pid: int, blp: bv16)
    ensures ItemLost(pid, blp) == [pid] + LowByteLost(pid, blp, 8)
    ensures |ItemLost(pid, blp)| <= 9
  {
    NoLowByte(pid, blp, 16);
    BitsLostLowByte(pid, blp, 8);
    LowByteLostLength(pid, blp, 8);
  }

  lemma {:induction false} LowByteLostLength(pid: int, blp: bv16, i: nat)
    requires i <= 8
    ensures |LowByteLost(pid, blp, i)| <= i
  {
    if i > 0 {
      LowByteLostLength(pid, blp, i - 1);
    }
  }

  /** The high byte of the BLP never changes what is listed. */
  lemma HighByteIgnored(pid: int, blp: bv16)
    ensures ItemLost(pid, blp) == ItemLost(pid, blp & 0xff)
  {
    ItemLostMeaning(pid, blp);
    ItemLostMeaning(pid, blp & 0xff);
    LowByteOnly(pid, blp, 8);
  }

  lemma {:induction false} LowByteOnly(pid: int, blp: bv16, i: nat)
    requires i <= 8
    ensures LowByteLost(pid, blp, i) == LowByteLost(pid, blp & 0xff, i)
  {
    if i > 0 {
      assert blp & Mask(i - 1) == (blp & 0xff) & Mask(i - 1);
      LowByteOnly(pid, blp, i - 1);
    }
  }

  /** The cached originals of the listed numbers, once per occurrence;
      numbers not in the cache are skipped. */
  function Resend(m: map<int, Packet>, lost: seq<int>): seq<Packet>
  {
    if |lost| == 0 then []
    else Resend(m, lost[..|lost| - 1]) + (if lost[|lost| - 1] in m then [m[lost[|lost| - 1]]] else [])
  }

  /** A re-send is the cached packets themselves, one for each listed
      occurrence of a cached number. */
  lemma {:induction false} ResendCached(m: map<int, Packet>, lost: seq<int>)
    ensures forall q :: q in Resend(m, lost) ==> exists s :: s in m && m[s] == q
    ensures (forall i :: 0 <= i < |lost| ==> lost[i] in m) ==> |Resend(m, lost)| == |lost|
    ensures (forall i :: 0 <= i < |lost| ==> lost[i] !in m) ==> Resend(m, lost) == []
    decreases |lost|
  {
    if |lost| > 0 {
      var front, last := lost[..|lost| - 1], lost[|lost| - 1];
      ResendCached(m, front);
      forall q | q in Resend(m, lost) ensures exists s :: s in m && m[s] == q {
        if q !in Resend(m, front) {
          assert last in m && q == m[last];
        }
      }
    }
  }

  /** Re-sending the lost list of a concatenation re-sends each part in turn. */
  lemma {:induction false} ResendAppend(m: map<int, Packet>, a: seq<int>, b: seq<int>)
    ensures Resend(m, a + b) == Resend(m, a) + Resend(m, b)
    decreases |b|
  {
    if |b| == 0 {
      assert a + b == a;
    } else {
      var b' := b[..|b| - 1];
      assert (a + b)[..|a + b| - 1] == a + b';
      assert (a + b)[|a + b| - 1] == b[|b| - 1];
      ResendAppend(m, a, b');
    }
  }

  /** A NACK naming one packet, with an empty BLP, re-sends that packet
      exactly once when it is cached. */
  lemma NackOneItem(m: map<int, Packet>, nack: Packet)
    requires |nack| >= 16 && Be16(nack[2], nack[3]) == 1
    requires nack[14] == 0 && nack[15] == 0 && PidAt(nack, 0) in m
    ensures (1 + 3) * 4 <= |nack|
    ensures Resend(m, LostList(nack, 1)) == [m[PidAt(nack, 0)]]
  {
    var pid := PidAt(nack, 0);
    assert BlpAt(nack, 0) == 0;
    ItemLostMeaning(pid, 0);
    NoneFlagged(pid, 8);
    assert LostList(nack, 1) == [pid];
  }

  lemma {:induction false} NoneFlagged(pid: int, i: nat)
    requires i <= 8
    ensures LowByteLost(pid, 0, i) == []
  {
    if i > 0 {
      NoneFlagged(pid, i - 1);
    }
  }

  // ---------------------------------------------------------------------
  // The encoder object.
  // ---------------------------------------------------------------------

  class Encoder {
    var payloadType: byte
    /** m_nSeq, the uint16_t counter of repair packets. */
    var seqNo: bv16
    var ssrc: bv32
    /** m_pFEC2DTable; null until Init succeeds. */
    var table: Table?
    var cacheList: seq<int>
    var cacheMap: map<int, Packet>
    /** Packets handed to the encoder's packet callback, in order. */
    var out: seq<Packet>

    /** The table and its storage, when there is one. */
    ghost function Parts(): (r: set<object?>)
      reads this`table, table
      ensures this !in r
    {
      if table == null then {}
      else {table, table.cells, table.rowCounter, table.colCounter, table.rowRepair, table.colRepair}
    }

    ghost predicate Valid()
      reads this`seqNo, this`table, this`cacheList, this`cacheMap, Parts()
    {
      CacheInv(cacheList, cacheMap) &&
      (table != null ==> table.Valid() && table.ready)
    }

    /** The constructor (BaseClass/FEC/FECEncoder.cpp:7-14): PT 99, counter
        0, SSRC 0x55667788, no table, an empty cache. */
    constructor ()
      ensures Valid() && table == null && out == [] && cacheList == [] && cacheMap == map[]
      ensures payloadType == 99 && seqNo == 0 && ssrc == 0x55667788
    {
      payloadType := 99;
      seqNo := 0;
      ssrc := 0x55667788;
      table := null;
      cacheList := [];
      cacheMap := map[];
      out := [];
    }

    /** Init(row, col) (BaseClass/FEC/FECEncoder.cpp:35-64): -1 when a table
        exists; otherwise a table with the current payload type is created
        and initialised. A failing table Init (failAt as in Table.Init)
        releases everything and returns the table's own code, since line
        63 returns ret, not the -2 stored in nFailRet. */
    method Init(row: int, col: int, failAt: nat) returns (ret: int)
      requires Valid() && 0 <= row < 256 && 0 <= col < 256
      modifies this`table, this`cacheList, this`cacheMap
      ensures Valid()
      ensures old(table) != null ==>
                ret == -1 && table == old(table) && cacheList == old(cacheList) && cacheMap == old(cacheMap)
      ensures old(table) == null && ret == 0 ==>
                table != null && fresh(table) && table.payloadType == payloadType &&
                table.rows == row && table.cols == col && table.Snapshot() == Cleared(row, col) &&
                table.fecOut == [] && cacheList == old(cacheList) && cacheMap == old(cacheMap)
      ensures old(table) == null && ret != 0 ==> table == null && cacheList == [] && cacheMap == map[]
      ensures old(table) == null ==> (ret == 0 <==> Dims(row, col) && !(1 <= failAt <= 6))
      ensures old(table) == null && !Dims(row, col) ==> ret == -1
    {
      if table != null {
        return -1;
      }
      var t := new Table(payloadType);
      ret := t.Init(row, col, failAt);
      if ret != 0 {
        ReleaseAll();
        return ret;
      }
      table := t;
    }

    /** ReleaseAll (BaseClass/FEC/FECEncoder.cpp:21-33): no table and an
        empty cache. */
    method ReleaseAll()
      modifies this`table, this`cacheList, this`cacheMap
      ensures Valid() && table == null && cacheList == [] && cacheMap == map[]
    {
      table := null;
      cacheList, cacheMap := [], map[];
    }

    /** SetPayloadType (BaseClass/FEC/FECEncoder.cpp:142-152): a payload type
        above 0x7f is refused and nothing changes. */
    method SetPayloadType(pt: byte) returns (ok: bool)
      modifies this`payloadType
      ensures ok <==> pt <= 0x7f
      ensures payloadType == if ok then pt else old(payloadType)
    {
      if pt > 0x7f {
        return false;
      }
      payloadType := pt;
      ok := true;
    }

    /** SetSSRC (BaseClass/FEC/FECEncoder.cpp:154-158). */
    method SetSSRC(v: bv32) returns (ok: bool)
      modifies this`ssrc
      ensures ok && ssrc == v
    {
      ssrc := v;
      ok := true;
    }

    /** OnRTPPacket (BaseClass/FEC/FECEncoder.cpp:178-184): the packet goes
        to the callback unchanged. */
    method OnRTPPacket(p: Packet)
      modifies this`out
      ensures out == old(out) + [p]
    {
      out := out + [p];
    }

    /** OnFECPacket (BaseClass/FEC/FECEncoder.cpp:160-176): the repair packet
        is stamped with the counter and handed on, and the counter moves on
        by one in 16 bits. */
    method OnFECPacket(p: Packet)
      requires |p| >= 12
      modifies this`out, this`seqNo
      ensures out == old(out) + [Stamp(p, payloadType, old(seqNo), ssrc)]
      ensures seqNo == old(seqNo) + 1
    {
      out := out + [Stamp(p, payloadType, seqNo, ssrc)];
      seqNo := seqNo + 1;
    }

    /** The repair packets the table handed to its FEC callback during one
        insertion, each passed to OnFECPacket in turn. */
    method ForwardRepairs(ps: seq<Packet>)
      requires forall i :: 0 <= i < |ps| ==> |ps[i]| >= 12
      modifies this`out, this`seqNo
      ensures out == old(out) + StampAll(ps, payloadType, old(seqNo), ssrc)
      ensures seqNo == Advance(old(seqNo), |ps|)
    {
      var i := 0;
      while i < |ps|
        invariant 0 <= i <= |ps|
        invariant seqNo == Advance(old(seqNo), i)
        invariant out == old(out) + StampAll(ps[..i], payloadType, old(seqNo), ssrc)
      {
        OnFECPacket(ps[i]);
        assert ps[..i + 1] == ps[..i] + [ps[i]] && [ps[i]][1..] == [];
        StampAllSplit(ps[..i], [ps[i]], payloadType, old(seqNo), ssrc);
        i := i + 1;
      }
      assert ps[..i] == ps;
    }

    /** CacheRTPPacket (BaseClass/FEC/FECEncoder.cpp:186-204), with its
        eviction loop. */
    method CacheRTPPacket(p: Packet)
      requires |p| >= 4
      modifies this`cacheList, this`cacheMap
      ensures (cacheList, cacheMap) == Cached(old(cacheList), old(cacheMap), p)
    {
      var s := Be16(p[2], p[3]);
      if s in cacheMap {
        return;
      }
      cacheMap := cacheMap[s := p];
      cacheList := cacheList + [s];
      ghost var l1, m1 := cacheList, cacheMap;
      ghost var i := 0;
      while |cacheList| > MaxCache
        invariant 0 <= i <= |l1| && cacheList == l1[i..]
        invariant i > 0 ==> |cacheList| >= MaxCache
        invariant cacheMap == Forget(m1, l1[..i])
        decreases |cacheList|
      {
        var front := cacheList[0];
        cacheList := cacheList[1..];
        assert l1[..i + 1] == l1[..i] + [front];
        cacheMap := cacheMap - {front};
        i := i + 1;
      }
      assert i == Overflow(l1);
    }

    /** RecvRTPPacket (BaseClass/FEC/FECEncoder.cpp:79-99): the packet is
        forwarded first; without a table the result is -1 and nothing else
        happens; otherwise the packet is cached and inserted into the table,
        and the repair packets the insertion builds follow it, stamped. The
        table's insertion always returns 0, so the -2 branch of line 92 is
        never taken. */
    method RecvRTPPacket(p: Packet) returns (ret: int)
      requires Valid() && MediaSized(p)
      modifies this`out, this`seqNo, this`cacheList, this`cacheMap, Parts()
      ensures Valid() && table == old(table) && payloadType == old(payloadType) && ssrc == old(ssrc)
      ensures table == null ==>
                ret == -1 && out == old(out) + [p] && seqNo == old(seqNo) &&
                cacheList == old(cacheList) && cacheMap == old(cacheMap)
      ensures table != null ==>
                ret == 0 && (cacheList, cacheMap) == Cached(old(cacheList), old(cacheMap), p) &&
                table.rows == old(table.rows) && table.cols == old(table.cols) &&
                table.Snapshot() == MakeRepairStep(old(table.Snapshot()), table.rows, table.cols, p).0
      ensures table != null ==>
                var reps := MakeRepairStep(old(table.Snapshot()), table.rows, table.cols, p).1;
                (forall i :: 0 <= i < |reps| ==> |reps[i]| >= 12) &&
                out == old(out) + [p] + StampAll(reps, payloadType, old(seqNo), ssrc) &&
                seqNo == Advance(old(seqNo), |reps|)
    {
      OnRTPPacket(p);
      if table == null {
        return -1;
      }
      CacheRTPPacket(p);
      CachedInv(old(cacheList), old(cacheMap), p);
      var _ := Protect(p);
      ret := 0;
    }

    /** The table's insertion, whose FEC callback stamps and hands on each
        repair packet as it is made. */
    method Protect(p: Packet) returns (reps: seq<Packet>)
      requires table != null && table.Valid() && table.ready && MediaSized(p)
      modifies this`out, this`seqNo, Parts()
      ensures table.Valid() && table.ready
      ensures table.rows == old(table.rows) && table.cols == old(table.cols)
      ensures table.Snapshot() == MakeRepairStep(old(table.Snapshot()), table.rows, table.cols, p).0
      ensures reps == MakeRepairStep(old(table.Snapshot()), table.rows, table.cols, p).1
      ensures forall i :: 0 <= i < |reps| ==> |reps[i]| >= 24
      ensures out == old(out) + StampAll(reps, payloadType, old(seqNo), ssrc)
      ensures seqNo == Advance(old(seqNo), |reps|)
      ensures table == old(table) && payloadType == old(payloadType) && ssrc == old(ssrc)
      ensures cacheList == old(cacheList) && cacheMap == old(cacheMap)
    {
      reps := MakeRepairs(p);
      Forward(reps);
    }

    /** ForwardRepairs, seen from the table: it is left as it was. */
    method Forward(ps: seq<Packet>)
      requires forall i :: 0 <= i < |ps| ==> |ps[i]| >= 12
      modifies this`out, this`seqNo
      ensures out == old(out) + StampAll(ps, payloadType, old(seqNo), ssrc)
      ensures seqNo == Advance(old(seqNo), |ps|)
      ensures table != null ==>
                table.Valid() == old(table.Valid()) && table.ready == old(table.ready) &&
                table.rows == old(table.rows) && table.cols == old(table.cols) &&
                table.Snapshot() == old(table.Snapshot())
      ensures cacheList == old(cacheList) && cacheMap == old(cacheMap)
    {
      ForwardRepairs(ps);
    }

    /** The table's insertion, with the repair packets it hands to its FEC
        callback during that call collected as they come. */
    method MakeRepairs(p: Packet) returns (reps: seq<Packet>)
      requires table != null && table.Valid() && table.ready && MediaSized(p)
      modifies Parts()
      ensures table.Valid() && table.ready
      ensures table.rows == old(table.rows) && table.cols == old(table.cols)
      ensures table.Snapshot() == MakeRepairStep(old(table.Snapshot()), table.rows, table.cols, p).0
      ensures reps == MakeRepairStep(old(table.Snapshot()), table.rows, table.cols, p).1
      ensures forall i :: 0 <= i < |reps| ==> |reps[i]| >= 24
      ensures table == old(table) && out == old(out) && seqNo == old(seqNo)
      ensures payloadType == old(payloadType) && ssrc == old(ssrc)
      ensures cacheList == old(cacheList) && cacheMap == old(cacheMap)
    {
      ghost var st := table.Snapshot();
      var before := |table.fecOut|;
      var _ := table.RecvPacketAndMakeRepair(p);
      reps := table.fecOut[before..];
      MakeRepairOutputSized(st, table.rows, table.cols, p);
    }

    /** RecvNackPacket (BaseClass/FEC/FECEncoder.cpp:101-140): -1 when the
        item count of bytes 2-3 does not fit the length; otherwise the lost
        list of every item is built and the cached original of each listed
        number is handed on again. The cache is left as it was. */
    method RecvNackPacket(nack: Packet) returns (ret: int)
      requires |nack| >= 4
      modifies this`out
      ensures var n := Be16(nack[2], nack[3]);
              ((n + 3) * 4 > |nack| ==> ret == -1 && out == old(out)) &&
              ((n + 3) * 4 <= |nack| ==> ret == 0 && out == old(out) + Resend(cacheMap, LostList(nack, n)))
    {
      var itemCount := Be16(nack[2], nack[3]);
      if (itemCount + 3) * 4 > |nack| {
        return -1;
      }
      var lost := LostItems(nack, itemCount);
      ResendAll(lost);
      ret := 0;
    }

    /** The resend loop of RecvNackPacket (FECEncoder.cpp:128-137): each
        listed number found in the cache has its packet handed on again. */
    method ResendAll(lost: seq<int>)
      modifies this`out
      ensures out == old(out) + Resend(cacheMap, lost)
    {
      var i := 0;
      while i < |lost|
        invariant 0 <= i <= |lost|
        invariant out == old(out) + Resend(cacheMap, lost[..i])
      {
        assert lost[..i + 1][..i] == lost[..i];
        if lost[i] in cacheMap {
          OnRTPPacket(cacheMap[lost[i]]);
        }
        i := i + 1;
      }
      assert lost[..i] == lost;
    }

    /** The outer loop of RecvNackPacket that builds the lost list
        (BaseClass/FEC/FECEncoder.cpp:111-126). */
    static method LostItems(nack: Packet, n: nat) returns (lost: seq<int>)
      requires 12 + 4 * n <= |nack|
      ensures lost == LostList(nack, n)
    {
      lost := [];
      var k := 0;
      while k < n
        invariant 0 <= k <= n && lost == LostList(nack, k)
      {
        var pid := PidAt(nack, k);
        var blp := BlpAt(nack, k);
        lost := PushItem(lost, pid, blp);
        k := k + 1;
      }
    }

    /** One item: the PID, then the inner loop over the 16 BLP steps
        (BaseClass/FEC/FECEncoder.cpp:117-125). */
    static method PushItem(lost0: seq<int>, pid: int, blp0: bv16) returns (lost: seq<int>)
      ensures lost == lost0 + ItemLost(pid, blp0)
    {
      lost := lost0 + [pid];
      ghost var head := lost;
      var blp := blp0;
      var i := 0;
      while i < 16
        invariant 0 <= i <= 16 && blp == ShiftedBy(blp0, i)
        invariant lost == head + BitsLost(pid, blp0, i)
      {
        lost, blp := BlpStep(lost, pid, blp, i);
        BitsLostStep(pid, blp0, i);
        assert lost == head + (BitsLost(pid, blp0, i) + Flag(ShiftedBy(blp0, i) & 0x80 == 0x80, pid, i));
        i := i + 1;
      }
    }

    /** One step of the inner loop: a set top bit of the low byte flags
        PID+i+1, then the mask shifts left (FECEncoder.cpp:120-124). */
    static method BlpStep(lost0: seq<int>, pid: int, blp0: bv16, i: nat)
      returns (lost: seq<int>, blp: bv16)
      ensures lost == lost0 + Flag(blp0 & 0x80 == 0x80, pid, i)
      ensures blp == blp0 << 1
    {
      lost := lost0;
      if blp0 & 0x80 == 0x80 {
        lost := lost + [Wrap16(pid + i + 1)];
      }
      blp := blp0 << 1;
    }
  }
}
