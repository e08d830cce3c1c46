/** RFC8627FECDecoder (BaseClass/FEC/FECDecoder.cpp) as a class: the pool
    of FEC2DTables, the cache of packets no table could take, the sort
    array with its two counters, and one pass of the output loop. Every
    method is proved to follow the functions of FecDecoderSpec. The two
    callbacks are output sequences; the thread, the timers and the locks
    are not modelled (a pass of the output loop takes the timers' verdicts
    as inputs). */
module FecDecoder {
  import opened Bytes
  import opened FecRepair
  import opened FecTableSpec
  import opened FecTable
  import opened FecDecoderSpec
  import opened FecPool


  class Decoder {
    var payloadType: byte
    var ssrc: bv32
    /** Whether the decoder packet callback and the NACK callback are set. */
    var hasOutput: bool
    var hasNack: bool
    /** Init succeeded and the output thread runs (m_bStopOutPacket clear). */
    var running: bool
    /** m_pTableList, front first. */
    var tables: seq<Table>
    /** m_pCachePacketList, front first. */
    var cache: seq<Packet>
    /** m_pRTPSortArray, null outside a successful Init. */
    var slots: array?<Option<Packet>>
    var first: bool
    var lastOut: int
    var lastRecv: int
    /** Packets handed to the decoder packet callback, in order. */
    var out: seq<Packet>
    /** Packets handed to the NACK callback, in order. */
    var nackOut: seq<Packet>
    /** The dimensions and the payload type the tables were given at Init. */
    ghost var rows: int
    ghost var cols: int
    ghost var tablePt: byte
    /** The tables and their storage. */
    ghost var Repr: set<object>

    /** The sort array and the counters exist. */
    ghost predicate Sorting()
      reads this`slots, this`lastOut, this`lastRecv
    {
      slots != null && slots.Length == SeqSpace && IsSeq(lastOut) && IsSeq(lastRecv)
    }

    /** The sort array and the counters as a value. */
    ghost function SortState(): (o: Order)
      requires Sorting()
      reads this`slots, this`lastOut, this`lastRecv, this`first, slots
      ensures OrderOk(o)
    {
      Order(slots[..], lastOut, lastRecv, first)
    }

    /** The tables' states, front first. */
    ghost function Pool(): (r: seq<Store>)
      requires Owns(tables, Repr)
      reads this`tables, this`Repr, Repr
      ensures r == States(tables, Repr)
    {
      States(tables, Repr)
    }

    /** The pool, of which the decoder itself is no part. */
    ghost predicate PoolOk()
      reads this`tables, this`Repr, this`rows, this`cols, this`tablePt, Repr
    {
      this !in Repr && PoolOf(tables, rows, cols, tablePt, Repr)
    }

    ghost predicate Valid()
      reads this`running, this`tables, this`cache, this`slots, this`first, this`lastOut, this`lastRecv
      reads this`rows, this`cols, this`tablePt, this`Repr, Repr, slots
    {
      if running then
        Sorting() && slots !in Repr && Tagged(SortState()) && PoolOk() &&
        CacheOk(cache, tablePt) && |cache| <= MaxCacheNum + 1
      else
        Repr == {} && tables == [] && cache == [] && slots == null && !first && lastOut == 0 && lastRecv == 0
    }

    /** The constructor (BaseClass/FEC/FECDecoder.cpp:12-23): payload type
        99, SSRC 0x33445566, no callbacks, no tables, no sort array, both
        counters 0, the output loop stopped. */
    constructor ()
      ensures Valid() && !running && !hasOutput && !hasNack
      ensures payloadType == 99 && ssrc == 0x33445566 && out == [] && nackOut == []
    {
      payloadType, ssrc := 99, 0x33445566;
      hasOutput, hasNack, running := false, false, false;
      tables, cache, slots := [], [], null;
      first, lastOut, lastRecv := false, 0, 0;
      out, nackOut := [], [];
      Repr := {};
    }

    /** ReleaseAll (BaseClass/FEC/FECDecoder.cpp:30-77): the output loop
        stops, the tables, the cache and the sort array go, and the first
        packet flag and both counters are reset. */
    method ReleaseAll()
      modifies this`running, this`tables, this`cache, this`slots, this`first, this`lastOut, this`lastRecv
      modifies this`Repr
      ensures Valid() && !running
    {
      running := false;
      tables, cache, slots := [], [], null;
      first, lastOut, lastRecv := false, 0, 0;
      Repr := {};
    }

    /** Init (BaseClass/FEC/FECDecoder.cpp:79-136) on a decoder that is not
        running. No tables asked for gives -1; a table whose Init fails gives
        -2 (failTable names that table and failAt the allocation in it, as
        in FecTable.Table.Init); a missing callback gives -4; each after
        ReleaseAll. Otherwise the decoder holds tableNum new cleared tables
        with its payload type, an empty cache and an empty sort array, and
        the output loop runs. */
    method Init(row: byte, col: byte, tableNum: byte, failTable: nat, failAt: nat) returns (ret: int)
      requires Valid() && !running
      modifies this`running, this`tables, this`cache, this`slots, this`first, this`lastOut, this`lastRecv
      modifies this`Repr, this`rows, this`cols, this`tablePt
      ensures Valid()
      ensures tableNum == 0 ==> ret == -1
      ensures tableNum != 0 && !(Dims(row as int, col as int) && !(failTable < tableNum as int && 1 <= failAt <= 6)) ==>
                ret == -2
      ensures (tableNum != 0 && Dims(row as int, col as int) && !(failTable < tableNum as int && 1 <= failAt <= 6) &&
               !(hasOutput && hasNack)) ==> ret == -4
      ensures ret == 0 <==> running
      ensures running ==>
                fresh(Repr) && rows == row as int && cols == col as int && tablePt == payloadType &&
                Pool() == seq(tableNum as int, _ => Cleared(row as int, col as int)) && cache == [] &&
                SortState() == EmptyOrder()
    {
      if tableNum == 0 {
        ReleaseAll();
        return -1;
      }
      var ts, own, ok := MakeTables(payloadType, row as int, col as int, tableNum as int, failTable, failAt);
      if !ok {
        ReleaseAll();
        return -2;
      }
      ret := Launch(ts, own, row as int, col as int);
    }

    /** The end of a successful table loop (BaseClass/FEC/FECDecoder.cpp:105-131):
        the sort array is allocated, then a missing callback gives -4 after
        ReleaseAll; otherwise the output loop starts. */
    method Launch(ts: seq<Table>, ghost own: set<object>, row: int, col: int) returns (ret: int)
      requires Valid() && !running && this !in own
      requires PoolOf(ts, row, col, payloadType, own)
      modifies this`running, this`tables, this`cache, this`slots, this`first, this`lastOut, this`lastRecv
      modifies this`Repr, this`rows, this`cols, this`tablePt
      ensures Valid()
      ensures ret == 0 || ret == -4
      ensures ret == -4 <==> !(hasOutput && hasNack)
      ensures ret == 0 <==> running
      ensures running ==>
                Repr == own && rows == row && cols == col && tablePt == payloadType &&
                Pool() == old(States(ts, own)) && cache == [] && SortState() == EmptyOrder()
    {
      var a := new Option<Packet>[SeqSpace](_ => None);
      if !hasOutput || !hasNack {
        ReleaseAll();
        return -4;
      }
      Start(ts, own, a, row, col);
      ret := 0;
    }

    /** Takes the tables and the sort array of a successful Init and starts
        the output loop. */
    method Start(ts: seq<Table>, ghost own: set<object>, a: array<Option<Packet>>, ghost row: int, ghost col: int)
      requires Valid() && !running && this !in own && a !in own
      requires PoolOf(ts, row, col, payloadType, own) && a.Length == SeqSpace && forall i :: 0 <= i < SeqSpace ==> a[i].None?
      modifies this`running, this`tables, this`slots, this`Repr, this`rows, this`cols, this`tablePt
      ensures Valid() && running && Repr == own && rows == row && cols == col && tablePt == payloadType
      ensures Pool() == old(States(ts, own)) && cache == [] && SortState() == EmptyOrder()
    {
      tables, slots, Repr := ts, a, own;
      rows, cols, tablePt := row, col, payloadType;
      running := true;
      assert a[..] == EmptyOrder().slots;
    }

    /** SetDecoderPacketCallback (BaseClass/FEC/FECDecoder.cpp:165-169). */
    method SetDecoderPacketCallback(present: bool) returns (ok: bool)
      modifies this`hasOutput
      ensures ok && hasOutput == present
    {
      hasOutput := present;
      ok := true;
    }

    /** SetNackPacketCallback (BaseClass/FEC/FECDecoder.cpp:171-175). */
    method SetNackPacketCallback(present: bool) returns (ok: bool)
      modifies this`hasNack
      ensures ok && hasNack == present
    {
      hasNack := present;
      ok := true;
    }

    /** SetPayloadType (BaseClass/FEC/FECDecoder.cpp:177-187): a payload
        type above 0x7f is refused and nothing changes. Tables made by an
        earlier Init keep the payload type they were given. */
    method SetPayloadType(pt: byte) returns (ok: bool)
      modifies this`payloadType
      ensures ok <==> pt <= 0x7f
      ensures payloadType == if ok then pt else old(payloadType)
    {
      if pt > 0x7f {
        return false;
      }
      payloadType := pt;
      ok := true;
    }

    /** SetSSRC (BaseClass/FEC/FECDecoder.cpp:189-193). */
    method SetSSRC(v: bv32) returns (ok: bool)
      modifies this`ssrc
      ensures ok && ssrc == v
    {
      ssrc := v;
      ok := true;
    }

    /** OnRTPPacket (BaseClass/FEC/FECDecoder.cpp:140-163) with the jump
        measured on the ring (the as-written int difference is
        FecDecoderSpec.AdmitAsWritten): the packet goes into the slot of
        its number, which becomes the last received one; the first packet,
        or one more than MAX_TOLERATED_JUMP away from the output point,
        moves the output point to it. */
    method OnRTPPacket(p: Packet)
      requires Sorting() && |p| >= 4
      modifies slots, this`lastOut, this`lastRecv, this`first
      ensures Sorting() && SortState() == Admit(old(SortState()), p)
    {
      var s := Be16(p[2], p[3]);
      slots[s] := Some(p);
      lastRecv := s;
      if first {
        if RingGap(s, lastOut) > MaxToleratedJump {
          lastOut := s;
        }
      } else {
        first := true;
        lastOut := s;
      }
    }

    /** The RTP callback of the tables: OnRTPPacket for each rebuilt packet
        in turn. */
    method AdmitEach(ps: seq<Packet>)
      requires Sorting() && AllMediaSized(ps)
      modifies slots, this`lastOut, this`lastRecv, this`first
      ensures Sorting() && SortState() == AdmitAll(old(SortState()), ps)
    {
      var i := 0;
      while i < |ps|
        invariant 0 <= i <= |ps| && Sorting()
        invariant AdmitAll(SortState(), ps[i..]) == AdmitAll(old(SortState()), ps)
      {
        assert ps[i..][0] == ps[i] && ps[i..][1..] == ps[i + 1..];
        OnRTPPacket(ps[i]);
        i := i + 1;
      }
    }

    /** The table work of RecvPacket (BaseClass/FEC/FECDecoder.cpp:204-267):
        the pool, the cache and the rebuilt packets follow
        FecDecoderSpec.Receive. */
    method Place(p: Packet, fuel: nat) returns (rebuilt: seq<Packet>)
      requires Valid() && running && Acceptable(p, tablePt) && MediaSized(p)
      modifies this`tables, this`cache, Repr
      ensures Valid() && running && SortState() == old(SortState())
      ensures (Pool(), cache, rebuilt) == Receive(old(Pool()), old(cache), rows, cols, tablePt, payloadType, p, fuel)
    {
      assert SortOk();
      var ts, c;
      ts, c, rebuilt := PlaceIn(tables, cache, rows, cols, tablePt, Repr, payloadType, p, fuel);
      Install(ts, c);
    }

    /** The sort array exists, lies outside the tables' storage and keeps
        every packet in the slot of its number. */
    ghost predicate SortOk()
      reads this`slots, this`lastOut, this`lastRecv, this`first, this`Repr, slots
    {
      Sorting() && slots !in Repr && Tagged(SortState())
    }

    /** Stores a new table list and cache; the tables themselves and the
        sort array are not touched. */
    method Install(ts: seq<Table>, c: seq<Packet>)
      requires running && SortOk()
      requires this !in Repr && PoolOf(ts, rows, cols, tablePt, Repr) && CacheOk(c, tablePt) && |c| <= MaxCacheNum + 1
      modifies this`tables, this`cache
      ensures Valid() && running && tables == ts && cache == c
      ensures Pool() == old(States(ts, Repr)) && SortState() == old(SortState())
    {
      tables, cache := ts, c;
    }

    /** The packets handed to OnRTPPacket by RecvPacket, in turn: the
        pool and the cache are untouched and the decoder stays valid. */
    method AdmitRunning(ps: seq<Packet>)
      requires Valid() && running && AllMediaSized(ps)
      modifies slots, this`lastOut, this`lastRecv, this`first
      ensures Valid() && running && Pool() == old(Pool()) && cache == old(cache)
      ensures SortState() == AdmitAll(old(SortState()), ps)
    {
      AdmitAllTagged(SortState(), ps);
      AdmitEach(ps);
    }

    /** RecvPacket (BaseClass/FEC/FECDecoder.cpp:195-270): the pool and
        the cache follow FecDecoderSpec.Receive, and OnRTPPacket sees the
        packet itself when it is not of the decoder's payload type, then
        every packet the tables rebuild, in that order. Always 0. The fuel
        covers every cell of a table, which FecFuel.ReceiveFuelSuffices
        shows is enough whenever no rebuilt packet carries the tables'
        payload type. */
    method RecvPacket(p: Packet, fuel: nat) returns (ret: int)
      requires Valid() && running && Acceptable(p, tablePt) && MediaSized(p)
      requires rows * cols <= fuel
      modifies this`tables, this`cache, this`lastOut, this`lastRecv, this`first, slots, Repr
      ensures Valid() && running && ret == 0
      ensures var r := Receive(old(Pool()), old(cache), rows, cols, tablePt, payloadType, p, fuel);
              Pool() == r.0 && cache == r.1 &&
              SortState() == AdmitAll(old(SortState()), Handed(p, payloadType, r.2))
    {
      var rebuilt := Place(p, fuel);
      AdmitRunning(Handed(p, payloadType, rebuilt));
      ret := 0;
    }
  

    /** The first half of a pass of the output loop
        (BaseClass/FEC/FECDecoder.cpp:310-318): the packet at the output
        point, when there is one, leaves its slot and the output point moves
        on. */
    method PopOut() returns (handed: seq<Packet>)
      requires Sorting()
      modifies slots, this`lastOut
      ensures Sorting() && (SortState(), handed) == Pop(old(SortState()))
    {
      var q := slots[lastOut];
      if q.Some? {
        slots[lastOut] := None;
        lastOut := Next(lastOut);
        handed := [q.value];
      } else {
        handed := [];
      }
    }

    /** SkipPackets (BaseClass/FEC/FECDecoder.cpp:341-370) with its stop
        corrected as in FecDecoderSpec.Skip, the packet it finds returned
        rather than handed to the callback. */
    method SkipPackets() returns (handed: seq<Packet>)
      requires Sorting()
      modifies slots, this`lastOut
      ensures Sorting() && (SortState(), handed) == Skip(old(SortState()), 0)
    {
      handed := [];
      var i := 0;
      while i < MaxSkipNum
        invariant 0 <= i <= MaxSkipNum && Sorting() && slots == old(slots)
        invariant Skip(SortState(), i) == Skip(old(SortState()), 0)
      {
        if !Behind(lastOut, lastRecv) {
          return;
        }
        lastOut := Next(lastOut);
        var q := slots[lastOut];
        if q.Some? {
          slots[lastOut] := None;
          lastOut := Next(lastOut);
          handed := [q.value];
          return;
        }
        i := i + 1;
      }
    }

    /** MakeNackPacket (BaseClass/FEC/FECDecoder.cpp:385-459) with the scan
        corrected: no packet when the scan finds nothing, otherwise the
        generic NACK of the items it lists. As written, the NACK is written
        through a freshly made shared pointer that owns no packet
        (FECDecoder.cpp:453-455), which is undefined behaviour, so no NACK
        would ever be delivered; the model builds the packet the code
        evidently means to. */
    method MakeNackPacket() returns (nack: Option<Packet>)
      requires Sorting()
      ensures nack.None? <==> NackItems(SortState()) == []
      ensures nack.Some? ==> nack.value == NackBytes(ssrc, NackItems(SortState()))
    {
      var items := ScanSlots(slots, lastOut, lastRecv);
      if |items| == 0 {
        return None;
      }
      var b := NackData(ssrc, items);
      nack := Some(b);
    }

    /** One pass of the loop of OutPacketThread (BaseClass/FEC/
        FECDecoder.cpp:272-338), the two timers' verdicts as inputs: it
        follows FecDecoderSpec.Tick, the packets handed on go to the decoder
        packet callback and the NACKs to the NACK callback; the pool and the
        cache are untouched and the decoder stays valid. */
    method OutPacketStep(waitExpired: bool, nackDue: bool)
      requires Valid() && running
      modifies slots, this`lastOut, this`out, this`nackOut
      ensures Valid() && running && Pool() == old(Pool()) && cache == old(cache)
      ensures var r := FecDecoderSpec.Tick(old(SortState()), ssrc, waitExpired, nackDue);
              SortState() == r.0 && out == old(out) + r.1 && nackOut == old(nackOut) + r.2
    {
      TickInOrder(SortState(), ssrc, waitExpired, nackDue);
      var handed, nacks := Pass(waitExpired, nackDue);
      out, nackOut := out + handed, nackOut + nacks;
    }

    /** The pass itself on the sort array and the counters. */
    method Pass(waitExpired: bool, nackDue: bool) returns (handed: seq<Packet>, nacks: seq<Packet>)
      requires Sorting()
      modifies slots, this`lastOut
      ensures Sorting() && (SortState(), handed, nacks) == FecDecoderSpec.Tick(old(SortState()), ssrc, waitExpired, nackDue)
    {
      handed, nacks := [], [];
      if !first {
        return;
      }
      if slots[lastOut].Some? {
        handed := PopOut();
        return;
      }
      if waitExpired {
        handed := SkipPackets();
      }
      if nackDue {
        // OutNackPacketIfNeed (FECDecoder.cpp:373-383) clears *nack even
        // when MakeNackPacket gave no packet, a null dereference
        // (FECDecoder.cpp:379); here an empty scan simply sends nothing.
        var n := MakeNackPacket();
        if n.Some? {
          nacks := [n.value];
        }
      }
    }
}
  /** The inner loop of MakeNackPacket (BaseClass/FEC/FECDecoder.cpp:
      402-413) on the sort array a from the PID t: the position it stops at
      and which of the sixteen places after t are empty. */
  method ScanAfter(a: array<Option<Packet>>, last: int, t: int) returns (e: int, lost: seq<bool>)
    requires a.Length == SeqSpace && IsSeq(last) && IsSeq(t)
    ensures (e, lost) == Bits(a[..], last, t, 0, NoLoss())
  {
    ghost var sl := a[..];
    e, lost := t, NoLoss();
    var i := 0;
    while i < 16
      invariant 0 <= i <= 16 && IsSeq(e) && |lost| == 16
      invariant Bits(sl, last, e, i, lost) == Bits(sl, last, t, 0, NoLoss())
    {
      e := Next(e);
      if e == last {
        return;
      }
      if a[e].None? {
        lost := lost[i := true];
      }
      i := i + 1;
    }
  }

  /** The outer loop of MakeNackPacket (BaseClass/FEC/FECDecoder.cpp:
      390-416) as corrected: it starts just before the output point and
      stops on the last received number. */
  method ScanSlots(a: array<Option<Packet>>, lastOut: int, last: int) returns (items: seq<NackItem>)
    requires a.Length == SeqSpace && IsSeq(lastOut) && IsSeq(last)
    ensures items == Scan(a[..], last, Prev(lastOut))
  {
    ghost var sl := a[..];
    var s := Prev(lastOut);
    items := [];
    while s != last
      invariant IsSeq(s) && ItemsOk(items)
      invariant items + Scan(sl, last, s) == Scan(sl, last, Prev(lastOut))
      decreases Dist(s, last)
    {
      var t := Next(s);
      DistNext(s, last);
      if t == last || a[t].Some? {
        s := t;
      } else {
        var e, lost := ScanAfter(a, last, t);
        ScanStep(sl, last, s, items, NackItem(t, lost), e);
        items := items + [NackItem(t, lost)];
        s := e;
      }
    }
  }

  /** The scan past an empty place t after s adds its item. */
  lemma ScanStep(sl: seq<Option<Packet>>, last: int, s: int, items: seq<NackItem>, item: NackItem, e: int)
    requires |sl| == SeqSpace && IsSeq(s) && IsSeq(last) && s != last && ItemsOk(items)
    requires Next(s) != last && sl[Next(s)].None?
    requires (e, item.lost) == Bits(sl, last, Next(s), 0, NoLoss()) && item.pid == Next(s)
    ensures items + Scan(sl, last, s) == items + [item] + Scan(sl, last, e)
  {
    assert Scan(sl, last, s) == [item] + Scan(sl, last, e);
  }

  /** The NACK bytes of MakeNackPacket (BaseClass/FEC/FECDecoder.cpp:
      419-453): the header, then PID and BLP of each item, big-endian, in
      a buffer of 12 + 4 * count bytes. */
  method NackData(ssrc: bv32, items: seq<NackItem>) returns (b: Packet)
    requires ItemsOk(items)
    ensures b == NackBytes(ssrc, items)
  {
    var a := new byte[|items| * 4 + 12];
    PutHeader(a, ssrc, |items|);
    var i, k := 0, 12;
    while i < |items|
      invariant 0 <= i <= |items| && k == 12 + 4 * i
      invariant a[..k] == NackHeader(ssrc, |items|) + ItemBytes(items[..i])
    {
      ghost var done := a[..k];
      PutItem(a, k, items[i]);
      ItemsNext(ssrc, items, i, done);
      i, k := i + 1, k + 4;
    }
    assert items[..i] == items;
    b := a[..];
  }

  /** One more item written. */
  lemma ItemsNext(ssrc: bv32, items: seq<NackItem>, i: nat, done: seq<byte>)
    requires ItemsOk(items) && i < |items|
    requires done == NackHeader(ssrc, |items|) + ItemBytes(items[..i])
    ensures done + ItemBytes([items[i]]) == NackHeader(ssrc, |items|) + ItemBytes(items[..i + 1])
  {
    assert items[..i + 1] == items[..i] + [items[i]];
    ItemBytesAppend(items[..i], [items[i]]);
  }

  /** Bytes 0-11 of a NACK (FecDecoderSpec.NackHeader): version and FMT,
      packet type, length, sender SSRC, a zero media SSRC. */
  method PutHeader(a: array<byte>, ssrc: bv32, count: nat)
    requires a.Length >= 12
    modifies a
    ensures a[..12] == NackHeader(ssrc, count)
  {
    var h := NackHeader(ssrc, count);
    forall j | 0 <= j < 12 {
      a[j] := h[j];
    }
  }

  /** The four bytes of one item at offset k. */
  method PutItem(a: array<byte>, k: nat, item: NackItem)
    requires k + 4 <= a.Length && IsSeq(item.pid) && |item.lost| == 16
    modifies a
    ensures a[..k + 4] == old(a[..k]) + ItemBytes([item])
  {
    var blp := BlpOf(item.lost);
    a[k], a[k + 1] := HiByte(item.pid), LoByte(item.pid);
    a[k + 2], a[k + 3] := Hi16(blp), Lo16(blp);
  }
}
