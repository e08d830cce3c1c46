/** The receiving side of the FEC layer as values (RFC8627FECDecoder,
    BaseClass/FEC/FECDecoder.cpp): the sort array that puts packets back in
    sequence order, the output loop that hands them on and skips lost ones,
    the NACK scan, and the pool of FEC2DTables reused in least-recently-used
    order with a bounded cache of packets no table could take. The class in
    module FecDecoder is proved to follow these functions. */
module FecDecoderSpec {
  import opened Bytes
  import opened FecRepair
  import opened FecGrid
  import opened FecTableSpec
  import FecEncoder

  /** MAX_CACHE_NUM, MAX_SKIP_NUM and MAX_TOLERATED_JUMP
      (BaseClass/FEC/FECDecoder.cpp:5-9). */
  const MaxCacheNum: int := 50
  const MaxSkipNum: int := 10
  const MaxToleratedJump: int := 100

  // ---------------------------------------------------------------------
  // The 16-bit ring of sequence numbers.
  // ---------------------------------------------------------------------

  /** s + 1 stored into a uint16_t. */
  function Next(s: int): (t: int)
    requires IsSeq(s)
    ensures IsSeq(t)
  {
    if s == SeqSpace - 1 then 0 else s + 1
  }

  /** The increment is the uint16_t one. */
  lemma NextWraps(s: int)
    requires IsSeq(s)
    ensures Next(s) == Wrap16(s + 1)
  {
  }

  /** s - 1 stored into a uint16_t. */
  function Prev(s: int): (t: int)
    requires IsSeq(s)
    ensures IsSeq(t) && Next(t) == s
  {
    if s == 0 then SeqSpace - 1 else s - 1
  }

  /** How far t lies ahead of s on the ring: the number of increments that
      take s to t. */
  function Dist(s: int, t: int): (d: int)
    requires IsSeq(s) && IsSeq(t)
    ensures 0 <= d < SeqSpace && (d == 0 <==> s == t)
  {
    if t >= s then t - s else t - s + SeqSpace
  }

  /** The distance between two numbers the short way round the ring. */
  function RingGap(s: int, t: int): (d: int)
    requires IsSeq(s) && IsSeq(t)
    ensures 0 <= d <= SeqSpace / 2 && (d == 0 <==> s == t)
  {
    Min(Dist(s, t), Dist(t, s))
  }

  lemma PrevNext(s: int)
    requires IsSeq(s)
    ensures Prev(Next(s)) == s
  {
  }

  lemma DistNext(s: int, t: int)
    requires IsSeq(s) && IsSeq(t)
    ensures s != t ==> Dist(Next(s), t) == Dist(s, t) - 1
    ensures Dist(s, Next(s)) == 1
  {
  }

  /** Going from a to c by way of b: b is passed on the way exactly when it
      lies no further ahead of a than c does. */
  lemma DistSplit(a: int, b: int, c: int)
    requires IsSeq(a) && IsSeq(b) && IsSeq(c)
    ensures Dist(a, b) <= Dist(a, c) ==> Dist(b, c) == Dist(a, c) - Dist(a, b)
    ensures Dist(a, b) > Dist(a, c) ==> Dist(b, c) == Dist(a, c) - Dist(a, b) + SeqSpace
  {
  }

  // ---------------------------------------------------------------------
  // The sort array and the two counters.
  // ---------------------------------------------------------------------

  /** m_pRTPSortArray (one slot per sequence number), m_nLastOutSeq (the
      next number to hand out), m_nLastRecvSeq (the last number received)
      and m_bRecvFirstPacket. */
  datatype Order = Order(slots: seq<Option<Packet>>, lastOut: int, lastRecv: int, first: bool)

  predicate OrderOk(o: Order)
  {
    |o.slots| == SeqSpace && IsSeq(o.lastOut) && IsSeq(o.lastRecv)
  }

  /** The state the constructor, Init and ReleaseAll leave: every slot empty,
      both counters 0, no packet received. */
  function EmptyOrder(): (o: Order)
    ensures OrderOk(o)
  {
    Order(seq(SeqSpace, _ => None), 0, 0, false)
  }

  /** Every stored packet sits in the slot of its own sequence number. */
  predicate Tagged(o: Order)
    requires OrderOk(o)
  {
    forall s :: 0 <= s < SeqSpace && o.slots[s].Some? ==>
      MediaSized(o.slots[s].value) && SeqOf(o.slots[s].value) == s
  }

  function Abs(x: int): nat
  {
    if x < 0 then -x else x
  }

  /** OnRTPPacket as written (BaseClass/FEC/FECDecoder.cpp:140-163): the
      packet goes into its slot and becomes the last received; the first
      packet, or one whose number differs from the output point by more
      than MAX_TOLERATED_JUMP, moves the output point to it. The difference
      is taken on the two uint16_t values promoted to int, so it is not
      reduced modulo 2^16. */
  function AdmitAsWritten(o: Order, p: Packet): (o': Order)
    requires OrderOk(o) && |p| >= 4
    ensures OrderOk(o')
  {
    var s := SeqOf(p);
    var out := if o.first && Abs(s - o.lastOut) <= MaxToleratedJump then o.lastOut else s;
    Order(o.slots[s := Some(p)], out, s, true)
  }

  /** At the turn of the 16-bit counter the as-written test sees a jump:
      while the output waits for 65535, the arrival of 0 moves the output
      point to 0, which is handed on at once; when 65535 arrives later the
      output point jumps back to it, so the two leave in the order 0, 65535.
      With the jump measured on the ring the output keeps waiting and hands
      them on as 65535, 0. */
  lemma AdmitAsWrittenJumpsAtWrap(o: Order, p: Packet, q: Packet)
    requires OrderOk(o) && o.first && o.lastOut == SeqSpace - 1 && o.slots[SeqSpace - 1].None?
    requires |p| >= 4 && SeqOf(p) == 0 && |q| >= 4 && SeqOf(q) == SeqSpace - 1
    ensures AdmitAsWritten(o, p).lastOut == 0
    ensures Admit(o, p).lastOut == SeqSpace - 1
    ensures var a1 := Pop(AdmitAsWritten(o, p));
            var a2 := Pop(AdmitAsWritten(a1.0, q));
            a1.1 + a2.1 == [p, q]
    ensures var c1 := Pop(Admit(o, p));
            var c2 := Pop(Admit(c1.0, q));
            var c3 := Pop(c2.0);
            c1.1 + c2.1 + c3.1 == [q, p]
  {
  }

  /** OnRTPPacket with the jump measured on the ring: the packet is stored
      in its slot and becomes the last received, the first packet sets the
      output point, and afterwards the output point is never more than
      MAX_TOLERATED_JUMP from the packet's number; a packet within that
      distance leaves it where it was. */
  function Admit(o: Order, p: Packet): (o': Order)
    requires OrderOk(o) && |p| >= 4
    ensures OrderOk(o') && o'.first && o'.lastRecv == SeqOf(p)
    ensures o'.slots == o.slots[SeqOf(p) := Some(p)]
    ensures RingGap(SeqOf(p), o'.lastOut) <= MaxToleratedJump
    ensures !o.first ==> o'.lastOut == SeqOf(p)
    ensures o.first && RingGap(SeqOf(p), o.lastOut) <= MaxToleratedJump ==> o'.lastOut == o.lastOut
    ensures o.first && RingGap(SeqOf(p), o.lastOut) > MaxToleratedJump ==> o'.lastOut == SeqOf(p)
  {
    var s := SeqOf(p);
    var out := if o.first && RingGap(s, o.lastOut) <= MaxToleratedJump then o.lastOut else s;
    Order(o.slots[s := Some(p)], out, s, true)
  }

  /** OnRTPPacket for each packet in turn (the RTP callback of the tables). */
  function AdmitAll(o: Order, ps: seq<Packet>): (o': Order)
    requires OrderOk(o) && AllMediaSized(ps)
    ensures OrderOk(o')
    decreases |ps|
  {
    if ps == [] then o else AdmitAll(Admit(o, ps[0]), ps[1..])
  }

  /** The packets RecvPacket hands to OnRTPPacket: the packet itself
      unless it carries the decoder's payload type, then the packets the
      tables rebuilt. */
  function Handed(p: Packet, dpt: byte, rebuilt: seq<Packet>): (r: seq<Packet>)
    requires MediaSized(p) && AllMediaSized(rebuilt)
    ensures AllMediaSized(r)
  {
    if PayloadTypeOf(p) == dpt then rebuilt else [p] + rebuilt
  }

  /** Storing packets keeps every packet in the slot of its number. */
  lemma {:induction false} AdmitAllTagged(o: Order, ps: seq<Packet>)
    requires OrderOk(o) && Tagged(o) && AllMediaSized(ps)
    ensures Tagged(AdmitAll(o, ps))
    ensures ps != [] ==> AdmitAll(o, ps).first && AdmitAll(o, ps).lastRecv == SeqOf(ps[|ps| - 1])
    ensures ps == [] ==> AdmitAll(o, ps) == o
    decreases |ps|
  {
    if ps != [] {
      var o1 := Admit(o, ps[0]);
      assert Tagged(o1);
      AdmitAllTagged(o1, ps[1..]);
      if |ps| > 1 {
        assert ps[1..][|ps[1..]| - 1] == ps[|ps| - 1];
      }
    }
  }

  // ---------------------------------------------------------------------
  // The output loop.
  // ---------------------------------------------------------------------

  /** The packet at the output point, when there is one, is taken out of its
      slot and handed on, and the output point moves past it
      (BaseClass/FEC/FECDecoder.cpp:297-314). */
  function Pop(o: Order): (r: (Order, seq<Packet>))
    requires OrderOk(o)
    ensures OrderOk(r.0)
  {
    match o.slots[o.lastOut]
    case Some(q) => (o.(slots := o.slots[o.lastOut := None], lastOut := Next(o.lastOut)), [q])
    case None => (o, [])
  }

  /** The n slots after s are empty. */
  predicate Gap(slots: seq<Option<Packet>>, s: int, n: nat)
    requires |slots| == SeqSpace && IsSeq(s)
    decreases n
  {
    n == 0 || (slots[Next(s)].None? && Gap(slots, Next(s), n - 1))
  }

  /** s comes before t, the short way round the ring. */
  predicate Behind(s: int, t: int)
    requires IsSeq(s) && IsSeq(t)
  {
    0 < Dist(s, t) <= SeqSpace / 2
  }

  /** SkipPackets as written (BaseClass/FEC/FECDecoder.cpp:341-370) from
      step i: at most MAX_SKIP_NUM times, unless the output point equals the
      last received number, the output point moves on one; the first packet
      it lands on is taken out, handed on and passed. */
  function SkipAsWritten(o: Order, i: nat): (r: (Order, seq<Packet>))
    requires OrderOk(o) && i <= MaxSkipNum
    ensures OrderOk(r.0)
    decreases MaxSkipNum - i
  {
    if i == MaxSkipNum || o.lastRecv == o.lastOut then (o, [])
    else
      var s := Next(o.lastOut);
      match o.slots[s]
      case Some(q) => (o.(slots := o.slots[s := None], lastOut := Next(s)), [q])
      case None => SkipAsWritten(o.(lastOut := s), i + 1)
  }

  /** Over empty slots that stay short of the last received number the
      as-written loop runs its full course and hands nothing on. */
  lemma {:induction false} SkipAsWrittenRunsOn(o: Order, i: nat)
    requires OrderOk(o) && i <= MaxSkipNum
    requires Gap(o.slots, o.lastOut, MaxSkipNum - i) && Dist(o.lastOut, o.lastRecv) > MaxSkipNum - i
    ensures var r := SkipAsWritten(o, i);
            r.1 == [] && r.0.slots == o.slots && Dist(o.lastOut, r.0.lastOut) == MaxSkipNum - i
    decreases MaxSkipNum - i
  {
    if i < MaxSkipNum {
      var s := Next(o.lastOut);
      DistNext(o.lastOut, o.lastRecv);
      var o1 := o.(lastOut := s);
      assert SkipAsWritten(o, i) == SkipAsWritten(o1, i + 1);
      SkipAsWrittenRunsOn(o1, i + 1);
      var e := SkipAsWritten(o1, i + 1).0.lastOut;
      DistNext(o.lastOut, s);
      DistSplit(o.lastOut, s, e);
    }
  }

  /** Every slot empty: any run of slots is a gap. */
  lemma {:induction false} GapEmpty(slots: seq<Option<Packet>>, s: int, n: nat)
    requires |slots| == SeqSpace && IsSeq(s) && forall t :: 0 <= t < SeqSpace ==> slots[t].None?
    ensures Gap(slots, s, n)
    decreases n
  {
    if n > 0 {
      GapEmpty(slots, Next(s), n - 1);
    }
  }

  /** The as-written loop only stops on equality, so once everything
      received has been handed on (the output point just past the last
      received number) it moves the output point MAX_SKIP_NUM places beyond
      the last received packet. With every slot empty, an output point of 6
      and a last received number of 5, it ends at 16; the corrected Skip
      stays at 6. */
  lemma SkipAsWrittenOvershoots(o: Order)
    requires OrderOk(o) && o.lastOut == Next(o.lastRecv)
    requires forall t :: 0 <= t < SeqSpace ==> o.slots[t].None?
    ensures SkipAsWritten(o, 0).1 == [] && Dist(o.lastRecv, SkipAsWritten(o, 0).0.lastOut) == MaxSkipNum + 1
    ensures Skip(o, 0) == (o, [])
  {
    GapEmpty(o.slots, o.lastOut, MaxSkipNum);
    DistNext(o.lastRecv, o.lastRecv);
    DistSplit(o.lastRecv, o.lastOut, o.lastRecv);
    SkipAsWrittenRunsOn(o, 0);
    DistSplit(o.lastRecv, o.lastOut, SkipAsWritten(o, 0).0.lastOut);
  }

  /** The probe itself. */
  lemma SkipAsWrittenProbe()
    ensures var o := EmptyOrder().(lastOut := 6, lastRecv := 5);
            SkipAsWritten(o, 0).0.lastOut == 16 && Skip(o, 0).0.lastOut == 6
  {
    var o := EmptyOrder().(lastOut := 6, lastRecv := 5);
    SkipAsWrittenOvershoots(o);
  }

  /** SkipPackets as evidently intended ("skip at most to the last packet
      received"): the output point moves on only while it lies behind the
      last received number, so it never passes it. Otherwise as written. */
  function Skip(o: Order, i: nat): (r: (Order, seq<Packet>))
    requires OrderOk(o) && i <= MaxSkipNum
    ensures OrderOk(r.0)
    decreases MaxSkipNum - i
  {
    if i == MaxSkipNum || !Behind(o.lastOut, o.lastRecv) then (o, [])
    else
      var s := Next(o.lastOut);
      match o.slots[s]
      case Some(q) => (o.(slots := o.slots[s := None], lastOut := Next(s)), [q])
      case None => Skip(o.(lastOut := s), i + 1)
  }

  /** While the output point lies behind the last received number the two
      agree; the corrected one only refuses to run past it. */
  lemma {:induction false} SkipAgrees(o: Order, i: nat)
    requires OrderOk(o) && i <= MaxSkipNum
    ensures Behind(o.lastOut, o.lastRecv) ==> Skip(o, i) == SkipAsWritten(o, i)
    ensures !Behind(o.lastOut, o.lastRecv) ==> Skip(o, i) == (o, [])
    decreases MaxSkipNum - i
  {
    if i < MaxSkipNum && Behind(o.lastOut, o.lastRecv) {
      var s := Next(o.lastOut);
      DistNext(o.lastOut, o.lastRecv);
      if o.slots[s].None? {
        SkipAgrees(o.(lastOut := s), i + 1);
      }
    }
  }

  /** SkipPackets hands on at most one packet and changes neither the last
      received number nor the first-packet flag. */
  lemma {:induction false} SkipKeeps(o: Order, i: nat)
    requires OrderOk(o) && i <= MaxSkipNum
    ensures Skip(o, i).0.lastRecv == o.lastRecv && Skip(o, i).0.first == o.first && |Skip(o, i).1| <= 1
    decreases MaxSkipNum - i
  {
    if i < MaxSkipNum && Behind(o.lastOut, o.lastRecv) && o.slots[Next(o.lastOut)].None? {
      SkipKeeps(o.(lastOut := Next(o.lastOut)), i + 1);
    }
  }

  /** When SkipPackets finds nothing, the slots are unchanged, every slot
      the output point passed is empty, and it stopped on the last received
      number or after MAX_SKIP_NUM places. */
  lemma {:induction false} SkipQuiet(o: Order, i: nat)
    requires OrderOk(o) && i <= MaxSkipNum && Skip(o, i).1 == []
    ensures var o' := Skip(o, i).0;
            var d := Dist(o.lastOut, o'.lastOut);
            o'.slots == o.slots && d <= MaxSkipNum - i && d <= Dist(o.lastOut, o.lastRecv) &&
            Gap(o.slots, o.lastOut, d) &&
            (o'.lastOut == o.lastRecv || d == MaxSkipNum - i || (d == 0 && !Behind(o.lastOut, o.lastRecv)))
    decreases MaxSkipNum - i, 1
  {
    if i < MaxSkipNum && Behind(o.lastOut, o.lastRecv) {
      SkipQuietOn(o, i);
    }
  }

  /** SkipQuiet when the loop passes one more empty slot. */
  lemma {:induction false} SkipQuietOn(o: Order, i: nat)
    requires OrderOk(o) && i < MaxSkipNum && Behind(o.lastOut, o.lastRecv) && Skip(o, i).1 == []
    ensures var o' := Skip(o, i).0;
            var d := Dist(o.lastOut, o'.lastOut);
            o'.slots == o.slots && d <= MaxSkipNum - i && d <= Dist(o.lastOut, o.lastRecv) &&
            Gap(o.slots, o.lastOut, d) &&
            (o'.lastOut == o.lastRecv || d == MaxSkipNum - i || (d == 0 && !Behind(o.lastOut, o.lastRecv)))
    decreases MaxSkipNum - i, 0
  {
    var s := Next(o.lastOut);
    assert o.slots[s].None?;
    var o1 := o.(lastOut := s);
    assert Skip(o, i) == Skip(o1, i + 1);
    SkipQuiet(o1, i + 1);
    SkipKeeps(o1, i + 1);
    var e := Skip(o1, i + 1).0.lastOut;
    DistNext(o.lastOut, o.lastRecv);
    DistNext(o.lastOut, s);
    DistSplit(o.lastOut, s, e);
    var d1 := Dist(s, e);
    assert Dist(o.lastOut, e) == d1 + 1;
    assert Gap(o.slots, s, d1);
    assert Gap(o.slots, o.lastOut, d1 + 1);
  }

  /** When SkipPackets hands a packet on, it is the packet in the first
      full slot after the output point (every slot before it empty, none
      beyond the last received number or more than MAX_SKIP_NUM places on),
      only that slot is emptied, and the output point moves just past it. */
  lemma {:induction false} SkipHands(o: Order, i: nat)
    requires OrderOk(o) && i <= MaxSkipNum && Skip(o, i).1 != []
    ensures var r := Skip(o, i);
            var s := Prev(r.0.lastOut);
            var e := Dist(o.lastOut, s);
            1 <= e <= MaxSkipNum - i && e <= Dist(o.lastOut, o.lastRecv) && Gap(o.slots, o.lastOut, e - 1) &&
            o.slots[s] == Some(r.1[0]) && r.0.slots == o.slots[s := None]
    decreases MaxSkipNum - i
  {
    var s := Next(o.lastOut);
    DistNext(o.lastOut, o.lastRecv);
    DistNext(o.lastOut, s);
    if o.slots[s].Some? {
      PrevNext(s);
    } else {
      var o1 := o.(lastOut := s);
      assert Skip(o, i) == Skip(o1, i + 1);
      SkipHands(o1, i + 1);
      var r := Skip(o1, i + 1);
      var t := Prev(r.0.lastOut);
      DistSplit(o.lastOut, s, t);
      assert Dist(o.lastOut, t) == Dist(s, t) + 1;
    }
  }

  /** One pass of OutPacketThread's loop (BaseClass/FEC/FECDecoder.cpp:
      292-338), with the two timers as inputs: nothing before the first
      packet; the packet at the output point if it is there (and then no
      NACK); otherwise SkipPackets once the wait has expired, then a NACK
      when one is due and the scan finds something. Results: the new
      state, the packets handed on, the NACK packets sent. */
  function Tick(o: Order, ssrc: bv32, waitExpired: bool, nackDue: bool): (r: (Order, seq<Packet>, seq<Packet>))
    requires OrderOk(o)
    ensures OrderOk(r.0)
  {
    if !o.first then (o, [], [])
    else if o.slots[o.lastOut].Some? then
      var p := Pop(o);
      (p.0, p.1, [])
    else
      var s := if waitExpired then Skip(o, 0) else (o, []);
      (s.0, s.1, if nackDue then NackList(ssrc, NackItems(s.0)) else [])
  }

  /** The output loop hands packets on in sequence order: a pass hands on at
      most one packet, and it is the packet of the number just behind the
      new output point; every stored packet stays in its own slot. */
  lemma TickInOrder(o: Order, ssrc: bv32, waitExpired: bool, nackDue: bool)
    requires OrderOk(o) && Tagged(o)
    ensures var r := Tick(o, ssrc, waitExpired, nackDue);
            Tagged(r.0) && |r.1| <= 1 && r.0.lastRecv == o.lastRecv && r.0.first == o.first &&
            (r.1 != [] ==> o.slots[Prev(r.0.lastOut)] == Some(r.1[0]) && SeqOf(r.1[0]) == Prev(r.0.lastOut))
    ensures !o.first ==> Tick(o, ssrc, waitExpired, nackDue) == (o, [], [])
  {
    if o.first && o.slots[o.lastOut].None? && waitExpired {
      SkipKeeps(o, 0);
      if Skip(o, 0).1 != [] {
        SkipHands(o, 0);
      } else {
        SkipQuiet(o, 0);
      }
    } else if o.first && o.slots[o.lastOut].Some? {
      PrevNext(o.lastOut);
    }
  }

  // ---------------------------------------------------------------------
  // The table pool and the packet cache (RecvPacket).
  // ---------------------------------------------------------------------

  /** m_pTableList as the states of its tables, front first: at least one
      table, each well formed with the common dimensions. */
  predicate PoolGood(pool: seq<Store>, rows: int, cols: int)
  {
    Dims(rows, cols) && |pool| >= 1 && forall i :: 0 <= i < |pool| ==> Good(pool[i], rows, cols)
  }

  /** m_pCachePacketList: packets the tables can read. */
  predicate CacheOk(cache: seq<Packet>, pt: byte)
  {
    forall i :: 0 <= i < |cache| ==> Acceptable(cache[i], pt) && MediaSized(cache[i])
  }

  /** The search of RecvPacket (BaseClass/FEC/FECDecoder.cpp:204-218): the
      position of the first table, front to back, whose IsCanRecvPacket
      holds, or -1 when none does. */
  function FindTable(pool: seq<Store>, rows: int, cols: int, pt: byte, p: Packet): (k: int)
    requires Dims(rows, cols) && Acceptable(p, pt)
    ensures -1 <= k < |pool|
    ensures k >= 0 ==> CanRecv(pool[k], rows, cols, pt, p)
    ensures forall j :: 0 <= j < |pool| && (k == -1 || j < k) ==> !CanRecv(pool[j], rows, cols, pt, p)
    decreases |pool|
  {
    if pool == [] then -1
    else if CanRecv(pool[0], rows, cols, pt, p) then 0
    else
      var k := FindTable(pool[1..], rows, cols, pt, p);
      if k == -1 then -1 else k + 1
  }

  /** Erasing element k and pushing it at the front. */
  function MoveToFront<T>(l: seq<T>, k: int): (r: seq<T>)
    requires 0 <= k < |l|
  {
    [l[k]] + l[..k] + l[k + 1..]
  }

  /** Moving to the front only reorders: element k comes first, those
      before it move one place back, those after it stay. */
  lemma MoveToFrontOrder<T>(l: seq<T>, k: int)
    requires 0 <= k < |l|
    ensures var r := MoveToFront(l, k);
            |r| == |l| && r[0] == l[k] && multiset(r) == multiset(l) &&
            (forall j :: 0 <= j < k ==> r[j + 1] == l[j]) &&
            (forall j :: k < j < |l| ==> r[j] == l[j])
  {
    var r := MoveToFront(l, k);
    calc {
      multiset(r);
      multiset([l[k]]) + multiset(l[..k]) + multiset(l[k + 1..]);
      { assert l == l[..k] + [l[k]] + l[k + 1..]; }
      multiset(l);
    }
  }

  /** Replacing element k and moving it to the front puts the new value
      first and the others after it in their order. */
  lemma MoveToFrontUpd<T>(l: seq<T>, k: int, v: T)
    requires 0 <= k < |l|
    ensures var r := MoveToFront(l[k := v], k);
            r[0] == v && r[1..] == l[..k] + l[k + 1..]
  {
    var u := l[k := v];
    assert MoveToFront(u, k)[1..] == u[..k] + u[k + 1..];
    assert u[..k] == l[..k] && u[k + 1..] == l[k + 1..];
  }

  lemma MoveToFrontGood(pool: seq<Store>, k: int, rows: int, cols: int)
    requires PoolGood(pool, rows, cols) && 0 <= k < |pool|
    ensures PoolGood(MoveToFront(pool, k), rows, cols) && |MoveToFront(pool, k)| == |pool|
  {
    MoveToFrontOrder(pool, k);
  }

  /** The cache pass after a table is recycled (BaseClass/FEC/FECDecoder.cpp:
      236-249): front to back, each cached packet the table can take is
      given to RecvPacketAndMakeRepair and erased; the rest stay in order. */
  function Drain(st: Store, rows: int, cols: int, pt: byte, cache: seq<Packet>): (r: (Store, seq<Packet>))
    requires Good(st, rows, cols) && CacheOk(cache, pt)
    ensures Good(r.0, rows, cols) && CacheOk(r.1, pt) && |r.1| <= |cache|
    decreases |cache|
  {
    if cache == [] then (st, [])
    else if CanRecv(st, rows, cols, pt, cache[0]) then
      Drain(MakeRepairStep(st, rows, cols, cache[0]).0, rows, cols, pt, cache[1..])
    else
      var r := Drain(st, rows, cols, pt, cache[1..]);
      (r.0, [cache[0]] + r.1)
  }

  /** The cached packets a table cannot take, in order. */
  function KeepOut(st: Store, rows: int, cols: int, pt: byte, cache: seq<Packet>): seq<Packet>
    requires Dims(rows, cols) && CacheOk(cache, pt)
    decreases |cache|
  {
    if cache == [] then []
    else if CanRecv(st, rows, cols, pt, cache[0]) then KeepOut(st, rows, cols, pt, cache[1..])
    else [cache[0]] + KeepOut(st, rows, cols, pt, cache[1..])
  }

  /** With its window open (and no repair packets cached), draining the
      cache never moves the table's window: the cache keeps exactly the
      packets outside it, in order, and every packet inside it is stored
      in the cell of its sequence number. */
  lemma {:induction false} DrainKeepsOut(st: Store, rows: int, cols: int, pt: byte, cache: seq<Packet>)
    requires Good(st, rows, cols) && CacheOk(cache, pt) && st.base != -1
    requires forall i :: 0 <= i < |cache| ==> PayloadTypeOf(cache[i]) != pt
    ensures var r := Drain(st, rows, cols, pt, cache);
            r.0.base == st.base && r.1 == KeepOut(st, rows, cols, pt, cache)
    decreases |cache|
  {
    if cache != [] {
      if CanRecv(st, rows, cols, pt, cache[0]) {
        MakeRepairKeeps(st, rows, cols, cache[0]);
        var st1 := MakeRepairStep(st, rows, cols, cache[0]).0;
        DrainKeepsOut(st1, rows, cols, pt, cache[1..]);
        SameBaseSameTake(st, st1, rows, cols, pt, cache[1..]);
      } else {
        DrainKeepsOut(st, rows, cols, pt, cache[1..]);
      }
    }
  }

  /** What a table can take depends only on its base. */
  lemma {:induction false} SameBaseSameTake(st: Store, st': Store, rows: int, cols: int, pt: byte, cache: seq<Packet>)
    requires Dims(rows, cols) && CacheOk(cache, pt) && st.base == st'.base
    ensures KeepOut(st, rows, cols, pt, cache) == KeepOut(st', rows, cols, pt, cache)
    decreases |cache|
  {
    if cache != [] {
      SameBaseSameTake(st, st', rows, cols, pt, cache[1..]);
    }
  }

  /** The found branch of RecvPacket (BaseClass/FEC/FECDecoder.cpp:
      220-224): table k takes the packet through RecvPacketAndTryRepair and
      moves to the front. Results: the pool and the rebuilt packets. */
  function ReceiveAt(pool: seq<Store>, rows: int, cols: int, tpt: byte, p: Packet, fuel: nat, k: int)
      : (r: (seq<Store>, seq<Packet>))
    requires PoolGood(pool, rows, cols) && Acceptable(p, tpt) && 0 <= k < |pool|
    ensures PoolGood(r.0, rows, cols) && |r.0| == |pool| && AllMediaSized(r.1)
  {
    var t := TryRepairStep(pool[k], rows, cols, tpt, p, fuel);
    TryRepairSized(pool[k], rows, cols, tpt, p, fuel);
    MoveToFrontGood(pool[k := t.0], k, rows, cols);
    (MoveToFront(pool[k := t.0], k), t.1)
  }

  /** The recycling branch of RecvPacket (BaseClass/FEC/FECDecoder.cpp:
      227-250): the table at the back is cleared, moved to the front, given
      the packet and then the cache. Results: the pool, the cache and the
      rebuilt packets. */
  function Recycled(pool: seq<Store>, cache: seq<Packet>, rows: int, cols: int, tpt: byte, p: Packet, fuel: nat)
      : (r: (seq<Store>, seq<Packet>, seq<Packet>))
    requires PoolGood(pool, rows, cols) && CacheOk(cache, tpt) && Acceptable(p, tpt)
    ensures PoolGood(r.0, rows, cols) && |r.0| == |pool| && CacheOk(r.1, tpt) && |r.1| <= |cache|
    ensures AllMediaSized(r.2)
  {
    var b := |pool| - 1;
    var t := TryRepairStep(Cleared(rows, cols), rows, cols, tpt, p, fuel);
    TryRepairSized(Cleared(rows, cols), rows, cols, tpt, p, fuel);
    var d := Drain(t.0, rows, cols, tpt, cache);
    MoveToFrontGood(pool[b := d.0], b, rows, cols);
    (MoveToFront(pool[b := d.0], b), d.1, t.1)
  }

  /** RecvPacket's table work (BaseClass/FEC/FECDecoder.cpp:204-267) on
      the pool, the cache and the packet, with the tables' payload type tpt
      and the decoder's dpt: the first table that can take the packet gets
      it (ReceiveAt); otherwise a repair packet recycles the table at the
      back (Recycled); any other packet is cached at the front, after the
      cache is emptied once it holds more than MAX_CACHE_NUM packets.
      Results: the pool, the cache and the packets the tables rebuilt. */
  function Receive(pool: seq<Store>, cache: seq<Packet>, rows: int, cols: int, tpt: byte, dpt: byte,
                   p: Packet, fuel: nat): (r: (seq<Store>, seq<Packet>, seq<Packet>))
    requires PoolGood(pool, rows, cols) && CacheOk(cache, tpt) && Acceptable(p, tpt) && MediaSized(p)
    ensures PoolGood(r.0, rows, cols) && |r.0| == |pool| && CacheOk(r.1, tpt) && AllMediaSized(r.2)
    ensures |cache| <= MaxCacheNum + 1 ==> |r.1| <= MaxCacheNum + 1
  {
    var k := FindTable(pool, rows, cols, tpt, p);
    if k >= 0 then
      var r := ReceiveAt(pool, rows, cols, tpt, p, fuel, k);
      (r.0, cache, r.1)
    else if PayloadTypeOf(p) == dpt then Recycled(pool, cache, rows, cols, tpt, p, fuel)
    else (pool, [p] + (if |cache| > MaxCacheNum then [] else cache), [])
  }

  /** When a table can take the packet, the first such table gets it and
      moves to the front; the other tables keep their order and the cache
      is untouched. */
  lemma ReceiveFound(pool: seq<Store>, cache: seq<Packet>, rows: int, cols: int, tpt: byte, dpt: byte,
                     p: Packet, fuel: nat)
    requires PoolGood(pool, rows, cols) && CacheOk(cache, tpt) && Acceptable(p, tpt) && MediaSized(p)
    requires FindTable(pool, rows, cols, tpt, p) >= 0
    ensures var r := Receive(pool, cache, rows, cols, tpt, dpt, p, fuel);
            var k := FindTable(pool, rows, cols, tpt, p);
            var t := TryRepairStep(pool[k], rows, cols, tpt, p, fuel);
            r.1 == cache && r.2 == t.1 && r.0[0] == t.0 && r.0[1..] == pool[..k] + pool[k + 1..]
  {
    var k := FindTable(pool, rows, cols, tpt, p);
    var t := TryRepairStep(pool[k], rows, cols, tpt, p, fuel);
    MoveToFrontUpd(pool, k, t.0);
  }

  /** A repair packet no table can take recycles the least recently used
      table: the back one, cleared, is given the packet and then the cache,
      and moves to the front ahead of the others in their order. */
  lemma ReceiveRecycles(pool: seq<Store>, cache: seq<Packet>, rows: int, cols: int, tpt: byte, dpt: byte,
                        p: Packet, fuel: nat)
    requires PoolGood(pool, rows, cols) && CacheOk(cache, tpt) && Acceptable(p, tpt) && MediaSized(p)
    requires FindTable(pool, rows, cols, tpt, p) == -1 && PayloadTypeOf(p) == dpt
    ensures var r := Receive(pool, cache, rows, cols, tpt, dpt, p, fuel);
            var t := TryRepairStep(Cleared(rows, cols), rows, cols, tpt, p, fuel);
            var d := Drain(t.0, rows, cols, tpt, cache);
            r.0[0] == d.0 && r.0[1..] == pool[..|pool| - 1] && r.1 == d.1 && r.2 == t.1
  {
    var t := TryRepairStep(Cleared(rows, cols), rows, cols, tpt, p, fuel);
    MoveToFrontUpd(pool, |pool| - 1, Drain(t.0, rows, cols, tpt, cache).0);
  }

  /** Any other packet no table can take is cached at the front; the cache
      is first emptied when it holds more than MAX_CACHE_NUM packets. */
  lemma ReceiveCaches(pool: seq<Store>, cache: seq<Packet>, rows: int, cols: int, tpt: byte, dpt: byte,
                      p: Packet, fuel: nat)
    requires PoolGood(pool, rows, cols) && CacheOk(cache, tpt) && Acceptable(p, tpt) && MediaSized(p)
    requires FindTable(pool, rows, cols, tpt, p) == -1 && PayloadTypeOf(p) != dpt
    ensures var r := Receive(pool, cache, rows, cols, tpt, dpt, p, fuel);
            r.0 == pool && r.2 == [] && r.1[0] == p &&
            r.1[1..] == (if |cache| > MaxCacheNum then [] else cache)
  {
  }

  // ---------------------------------------------------------------------
  // The NACK scan (MakeNackPacket).
  // ---------------------------------------------------------------------

  /** A NACK item of RFC 4585 section 6.2.1: a lost packet, and for each of
      the sixteen packets after it whether it is lost too. */
  datatype NackItem = NackItem(pid: int, lost: seq<bool>)

  /** No packet after the PID lost. */
  function NoLoss(): (f: seq<bool>)
    ensures |f| == 16 && forall j :: 0 <= j < 16 ==> !f[j]
  {
    seq(16, j => false)
  }

  /** The BLP bit for the packet i + 1 places after the PID. */
  function Bit16(i: int): bv16
    requires 0 <= i < 16
  {
    1 << (15 - i)
  }

  /** Distinct places have distinct bits. */
  lemma BitsApart(i: int, j: int)
    requires 0 <= i < 16 && 0 <= j < 16
    ensures Bit16(i) & Bit16(j) != 0 <==> i == j
  {
  }

  /** A mask meets an OR when it meets either side. */
  lemma OrMask(a: bv16, b: bv16, m: bv16)
    ensures (a | b) & m != 0 <==> a & m != 0 || b & m != 0
  {
  }

  /** The bit flag i contributes. */
  function Flag(b: bool, i: int): bv16
    requires 0 <= i < 16
  {
    if b then Bit16(i) else 0
  }

  /** The BLP field of the first k flags, ORed in order as the inner loop
      does. */
  function BlpUpTo(f: seq<bool>, k: nat): bv16
    requires |f| == 16 && k <= 16
  {
    if k == 0 then 0 else BlpUpTo(f, k - 1) | Flag(f[k - 1], k - 1)
  }

  /** The BLP field of sixteen flags. */
  function BlpOf(f: seq<bool>): bv16
    requires |f| == 16
  {
    BlpUpTo(f, |f|)
  }

  lemma {:induction false} BlpUpToBit(f: seq<bool>, k: nat, i: int)
    requires |f| == 16 && k <= 16 && 0 <= i < 16
    ensures BlpUpTo(f, k) & Bit16(i) != 0 <==> i < k && f[i]
  {
    if k > 0 {
      BlpUpToBit(f, k - 1, i);
      OrMask(BlpUpTo(f, k - 1), Flag(f[k - 1], k - 1), Bit16(i));
      if f[k - 1] {
        BitsApart(k - 1, i);
      }
    }
  }

  /** On the wire, bit 15 - i of the BLP field is set exactly when the
      packet i + 1 places after the PID is reported lost. */
  lemma BlpBit(f: seq<bool>, i: int)
    requires |f| == 16 && 0 <= i < 16
    ensures BlpOf(f) & Bit16(i) != 0 <==> f[i]
  {
    BlpUpToBit(f, |f|, i);
    assert BlpOf(f) == BlpUpTo(f, |f|);
  }

  /** Raising a flag at or past k leaves the first k bits alone. */
  lemma {:induction false} BlpUpToUpd(f: seq<bool>, i: int, k: nat)
    requires |f| == 16 && k <= i < 16
    ensures BlpUpTo(f[i := true], k) == BlpUpTo(f, k)
  {
    if k > 0 {
      BlpUpToUpd(f, i, k - 1);
    }
  }

  /** Clear flags from i on add nothing. */
  lemma {:induction false} BlpUpToRest(f: seq<bool>, i: nat, k: nat)
    requires |f| == 16 && i <= k <= 16
    requires forall j :: i <= j < k ==> !f[j]
    ensures BlpUpTo(f, k) == BlpUpTo(f, i)
  {
    if k > i {
      BlpUpToRest(f, i, k - 1);
    }
  }

  /** The inner loop (BaseClass/FEC/FECDecoder.cpp:402-413) from position s
      at step i: it moves on one place per step, stops on the last received
      number, and sets bit 15 - i for an empty slot. Result: the position
      reached and the BLP. */
  function Bits(slots: seq<Option<Packet>>, last: int, s: int, i: nat, lost: seq<bool>): (r: (int, seq<bool>))
    requires |slots| == SeqSpace && IsSeq(s) && IsSeq(last) && i <= 16 && |lost| == 16
    ensures IsSeq(r.0) && |r.1| == 16
    ensures s != last ==> Dist(r.0, last) <= Dist(s, last)
    ensures s != last && i < 16 ==> Dist(r.0, last) < Dist(s, last)
    decreases 16 - i
  {
    if i == 16 then (s, lost)
    else
      var t := Next(s);
      DistNext(s, last);
      if t == last then (t, lost)
      else Bits(slots, last, t, i + 1, if slots[t].None? then lost[i := true] else lost)
  }

  /** The scan as corrected: from the position after s up to, but not
      including, the last received number, each empty slot not yet covered
      becomes the PID of an item whose BLP covers the next sixteen places. */
  function Scan(slots: seq<Option<Packet>>, last: int, s: int): (items: seq<NackItem>)
    requires |slots| == SeqSpace && IsSeq(s) && IsSeq(last)
    ensures ItemsOk(items)
    decreases Dist(s, last)
  {
    if s == last then []
    else
      var t := Next(s);
      DistNext(s, last);
      if t == last then []
      else if slots[t].Some? then Scan(slots, last, t)
      else
        var b := Bits(slots, last, t, 0, NoLoss());
        [NackItem(t, b.1)] + Scan(slots, last, b.0)
  }

  /** The items of the NACK the decoder sends in a given state: the scan
      starts at the output point itself, the next number the output loop
      waits for. */
  function NackItems(o: Order): seq<NackItem>
    requires OrderOk(o)
  {
    Scan(o.slots, o.lastRecv, Prev(o.lastOut))
  }

  /** An item reports x: x is its PID or a set BLP bit names x. */
  predicate Covers(item: NackItem, x: int)
    requires IsSeq(item.pid) && |item.lost| == 16 && IsSeq(x)
  {
    x == item.pid || (1 <= Dist(item.pid, x) <= 16 && item.lost[Dist(item.pid, x) - 1])
  }

  predicate ItemsOk(items: seq<NackItem>)
  {
    forall i :: 0 <= i < |items| ==> IsSeq(items[i].pid) && |items[i].lost| == 16
  }

  predicate Reports(items: seq<NackItem>, x: int)
    requires ItemsOk(items) && IsSeq(x)
    decreases |items|
  {
    items != [] && (Covers(items[0], x) || Reports(items[1..], x))
  }

  /** Where the inner loop stops: started i places after pid, with the
      last received number further on, it stops on the last received
      number or sixteen places after pid. */
  lemma {:induction false} BitsStop(slots: seq<Option<Packet>>, last: int, pid: int, s: int, i: nat, lost: seq<bool>)
    requires |slots| == SeqSpace && IsSeq(pid) && IsSeq(s) && IsSeq(last) && i <= 16 && |lost| == 16
    requires Dist(pid, s) == i && i < Dist(pid, last)
    ensures var r := Bits(slots, last, s, i, lost);
            var e := Dist(pid, r.0);
            i <= e <= 16 && e <= Dist(pid, last) && (r.0 == last || e == 16)
    decreases 16 - i
  {
    if i < 16 {
      var t := Next(s);
      DistSplit(pid, s, t);
      DistNext(s, t);
      if t != last {
        BitsStop(slots, last, pid, t, i + 1, if slots[t].None? then lost[i := true] else lost);
      }
    }
  }

  /** What the inner loop records: started i places after pid with the bits
      from i on clear, bit d - 1 of its BLP is set exactly when it was set
      before or the place d after pid was passed, is not the last received
      number and is empty. */
  lemma {:induction false} BitsRecord(slots: seq<Option<Packet>>, last: int, pid: int, s: int, i: nat, lost: seq<bool>, x: int)
    requires |slots| == SeqSpace && IsSeq(pid) && IsSeq(s) && IsSeq(last) && IsSeq(x) && i <= 16 && |lost| == 16
    requires Dist(pid, s) == i && i < Dist(pid, last) && 1 <= Dist(pid, x) <= 16
    requires forall j :: i <= j < 16 ==> !lost[j]
    ensures var r := Bits(slots, last, s, i, lost);
            var d := Dist(pid, x);
            r.1[d - 1] <==> lost[d - 1] || (i < d <= Dist(pid, r.0) && x != last && slots[x].None?)
    decreases 16 - i
  {
    BitsStop(slots, last, pid, s, i, lost);
    if i < 16 {
      var t := Next(s);
      DistSplit(pid, s, t);
      DistNext(s, t);
      if t != last {
        var lost' := if slots[t].None? then lost[i := true] else lost;
        BitsRecord(slots, last, pid, t, i + 1, lost', x);
        if Dist(pid, x) == i + 1 {
          assert x == t;
        }
      }
    }
  }

  /** The item the scan makes at an empty place t reports t itself and
      every empty place the inner loop passes that is not the last received
      number. */
  lemma ItemCovers(slots: seq<Option<Packet>>, last: int, t: int, x: int)
    requires |slots| == SeqSpace && IsSeq(t) && IsSeq(last) && IsSeq(x) && t != last && slots[t].None?
    ensures var b := Bits(slots, last, t, 0, NoLoss());
            Covers(NackItem(t, b.1), x) <==> Dist(t, x) <= Dist(t, b.0) && x != last && slots[x].None?
  {
    if Dist(t, x) == 0 || Dist(t, x) > 16 {
      ItemCoversOutside(slots, last, t, x);
    } else {
      ItemCoversInside(slots, last, t, x);
    }
  }

  /** ItemCovers for the PID itself and for places more than sixteen after it. */
  lemma ItemCoversOutside(slots: seq<Option<Packet>>, last: int, t: int, x: int)
    requires |slots| == SeqSpace && IsSeq(t) && IsSeq(last) && IsSeq(x) && t != last && slots[t].None?
    requires Dist(t, x) == 0 || Dist(t, x) > 16
    ensures var b := Bits(slots, last, t, 0, NoLoss());
            Covers(NackItem(t, b.1), x) <==> Dist(t, x) <= Dist(t, b.0) && x != last && slots[x].None?
  {
    BitsStop(slots, last, t, t, 0, NoLoss());
  }

  /** ItemCovers for the sixteen places the BLP names. */
  lemma ItemCoversInside(slots: seq<Option<Packet>>, last: int, t: int, x: int)
    requires |slots| == SeqSpace && IsSeq(t) && IsSeq(last) && IsSeq(x) && t != last && slots[t].None?
    requires 1 <= Dist(t, x) <= 16
    ensures var b := Bits(slots, last, t, 0, NoLoss());
            Covers(NackItem(t, b.1), x) <==> Dist(t, x) <= Dist(t, b.0) && x != last && slots[x].None?
  {
    BitsRecord(slots, last, t, t, 0, NoLoss(), x);
  }

  /** The corrected scan reports exactly the empty slots strictly between
      its starting point and the last received number: nothing it lists
      is present, and nothing missing in that stretch is left out. */
  lemma {:induction false} ScanReports(slots: seq<Option<Packet>>, last: int, s: int, x: int)
    requires |slots| == SeqSpace && IsSeq(s) && IsSeq(last) && IsSeq(x)
    ensures Reports(Scan(slots, last, s), x) <==> 0 < Dist(s, x) < Dist(s, last) && slots[x].None?
    decreases Dist(s, last)
  {
    if s != last {
      var t := Next(s);
      DistNext(s, last);
      DistSplit(s, t, x);
      if t == last {
      } else if slots[t].Some? {
        ScanReports(slots, last, t, x);
      } else {
        var b := Bits(slots, last, t, 0, NoLoss());
        ItemCovers(slots, last, t, x);
        DistNext(t, last);
        BitsStop(slots, last, t, t, 0, NoLoss());
        ScanReports(slots, last, b.0, x);
        DistSplit(t, b.0, x);
        DistSplit(t, b.0, last);
        var items := Scan(slots, last, s);
        assert items[0] == NackItem(t, b.1) && items[1..] == Scan(slots, last, b.0);
      }
    }
  }

  /** The scan lists at most one item per two places it passes, so the
      item count of a NACK always fits its 16-bit length field. */
  lemma {:induction false} ScanLength(slots: seq<Option<Packet>>, last: int, s: int)
    requires |slots| == SeqSpace && IsSeq(s) && IsSeq(last)
    ensures 2 * |Scan(slots, last, s)| <= Dist(s, last)
    decreases Dist(s, last)
  {
    if s != last {
      var t := Next(s);
      DistNext(s, last);
      if t != last {
        if slots[t].Some? {
          ScanLength(slots, last, t);
        } else {
          var b := Bits(slots, last, t, 0, NoLoss());
          ScanLength(slots, last, b.0);
        }
      }
    }
  }

  // ---------------------------------------------------------------------
  // The NACK packet (BaseClass/FEC/FECDecoder.cpp:419-455).
  // ---------------------------------------------------------------------

  /** Four bytes per item: PID and BLP, big-endian. */
  function ItemBytes(items: seq<NackItem>): (b: seq<byte>)
    requires ItemsOk(items)
    ensures |b| == 4 * |items|
    decreases |items|
  {
    if items == [] then []
    else
      var blp := BlpOf(items[0].lost);
      [HiByte(items[0].pid), LoByte(items[0].pid), Hi16(blp), Lo16(blp)] + ItemBytes(items[1..])
  }

  /** The fixed part of a generic NACK: version 2 with FMT 1, packet type
      205, the length field count + 2 (its two bytes, a size_t shifted and
      masked into uint8_t), the sender SSRC and a zero media SSRC. */
  function NackHeader(ssrc: bv32, count: nat): (h: seq<byte>)
    ensures |h| == 12
  {
    var n := Wrap16(count + 2);
    [0x81, 0xcd, HiByte(n), LoByte(n)] + Be32Bytes(ssrc) + [0, 0, 0, 0]
  }

  /** The generic NACK of RFC 4585 section 6.2.1 for a list of items. */
  function NackBytes(ssrc: bv32, items: seq<NackItem>): (b: Packet)
    requires ItemsOk(items)
    ensures |b| == 12 + 4 * |items|
  {
    NackHeader(ssrc, |items|) + ItemBytes(items)
  }

  /** The NACK packets a scan gives: none when it lists nothing. */
  function NackList(ssrc: bv32, items: seq<NackItem>): seq<Packet>
    requires ItemsOk(items)
  {
    if items == [] then [] else [NackBytes(ssrc, items)]
  }

  /** The bytes of two lists of items one after the other. */
  lemma {:induction false} ItemBytesAppend(x: seq<NackItem>, y: seq<NackItem>)
    requires ItemsOk(x) && ItemsOk(y)
    ensures ItemsOk(x + y) && ItemBytes(x + y) == ItemBytes(x) + ItemBytes(y)
    decreases |x|
  {
    if x != [] {
      assert (x + y)[1..] == x[1..] + y;
      ItemBytesAppend(x[1..], y);
    } else {
      assert x + y == y;
    }
  }

  /** Item i of the bytes is item i of the list. */
  lemma {:induction false} ItemBytesAt(items: seq<NackItem>, i: nat)
    requires ItemsOk(items) && i < |items|
    ensures var b := ItemBytes(items);
            var blp := BlpOf(items[i].lost);
            b[4 * i] == HiByte(items[i].pid) && b[4 * i + 1] == LoByte(items[i].pid) &&
            b[4 * i + 2] == Hi16(blp) && b[4 * i + 3] == Lo16(blp)
    decreases i
  {
    if i > 0 {
      ItemBytesAt(items[1..], i - 1);
    }
  }

  /** The header bytes of a NACK. */
  lemma NackHeaderAt(ssrc: bv32, count: nat)
    requires count + 2 < SeqSpace
    ensures var h := NackHeader(ssrc, count);
            h[0] == 0x81 && h[1] == 0xcd && h[2] == HiByte(count + 2) && h[3] == LoByte(count + 2) &&
            h[4..8] == Be32Bytes(ssrc) && h[8] == 0 && h[9] == 0 && h[10] == 0 && h[11] == 0
  {
  }

  /** Where the length field and item i sit in a NACK. */
  lemma NackBytesAt(ssrc: bv32, items: seq<NackItem>, i: nat)
    requires ItemsOk(items) && |items| + 2 < SeqSpace && i < |items|
    ensures var b := NackBytes(ssrc, items);
            var blp := BlpOf(items[i].lost);
            b[2] == HiByte(|items| + 2) && b[3] == LoByte(|items| + 2) &&
            b[12 + 4 * i] == HiByte(items[i].pid) && b[13 + 4 * i] == LoByte(items[i].pid) &&
            b[14 + 4 * i] == Hi16(blp) && b[15 + 4 * i] == Lo16(blp)
  {
    NackHeaderAt(ssrc, |items|);
    ItemBytesAt(items, i);
  }

  /** The two bytes of a BLP read back as the BLP. */
  lemma BlpBytes(b: bv16)
    ensures ((Hi16(b) as bv16) << 8) | (Lo16(b) as bv16) == b
  {
  }

  /** Reading a NACK the way the encoder's RecvNackPacket does gives back
      the PID and the BLP of every item the decoder wrote, and the length
      field holds the item count plus two. */
  lemma NackRoundTrip(ssrc: bv32, items: seq<NackItem>, i: nat)
    requires ItemsOk(items) && |items| + 2 < SeqSpace && i < |items|
    ensures var b := NackBytes(ssrc, items);
            Be16(b[2], b[3]) == |items| + 2 &&
            FecEncoder.PidAt(b, i) == items[i].pid && FecEncoder.BlpAt(b, i) == BlpOf(items[i].lost)
  {
    var b := NackBytes(ssrc, items);
    NackBytesAt(ssrc, items, i);
    Be16Split(|items| + 2);
    Be16Split(items[i].pid);
    BlpBytes(BlpOf(items[i].lost));
  }

  /** The two sides disagree on the length field: the decoder writes
      itemCount + 2, the encoder wants (itemCount + 3) * 4 bytes for the
      count it reads, so it rejects every NACK the decoder sends. */
  lemma NackRejectedByEncoder(ssrc: bv32, items: seq<NackItem>)
    requires ItemsOk(items) && |items| + 2 < SeqSpace
    ensures var b := NackBytes(ssrc, items);
            (Be16(b[2], b[3]) + 3) * 4 > |b|
  {
    Be16Split(|items| + 2);
  }

  // ---------------------------------------------------------------------
  // The NACK scan as written.
  // ---------------------------------------------------------------------

  /** One pass of the outer loop as written (BaseClass/FEC/FECDecoder.cpp:
      394-416): the position moves on one and, when that slot is empty,
      becomes a PID; the loop condition is only tested before the move. */
  function OuterAsWritten(slots: seq<Option<Packet>>, last: int, s: int): (r: (int, seq<NackItem>))
    requires |slots| == SeqSpace && IsSeq(s) && IsSeq(last)
    ensures IsSeq(r.0)
  {
    var t := Next(s);
    if slots[t].Some? then (t, [])
    else
      var b := Bits(slots, last, t, 0, NoLoss());
      (b.0, [NackItem(t, b.1)])
  }

  /** The outer loop as written, for at most fuel passes: None when it has
      not ended by then. */
  function ScanAsWritten(slots: seq<Option<Packet>>, last: int, s: int, fuel: nat): Option<seq<NackItem>>
    requires |slots| == SeqSpace && IsSeq(s) && IsSeq(last)
    decreases fuel
  {
    if s == last then Some([])
    else if fuel == 0 then None
    else
      var r := OuterAsWritten(slots, last, s);
      match ScanAsWritten(slots, last, r.0, fuel - 1)
      case None => None
      case Some(rest) => Some(r.1 + rest)
  }

  /** The n slots after s are full. */
  predicate Filled(slots: seq<Option<Packet>>, s: int, n: nat)
    requires |slots| == SeqSpace && IsSeq(s)
    decreases n
  {
    n == 0 || (slots[Next(s)].Some? && Filled(slots, Next(s), n - 1))
  }

  lemma {:induction false} AsWrittenOverFilled(slots: seq<Option<Packet>>, last: int, s: int, fuel: nat)
    requires |slots| == SeqSpace && IsSeq(s) && IsSeq(last)
    requires Filled(slots, s, Dist(s, last)) && fuel >= Dist(s, last)
    ensures ScanAsWritten(slots, last, s, fuel) == Some([])
    decreases Dist(s, last)
  {
    if s != last {
      DistNext(s, last);
      assert OuterAsWritten(slots, last, s) == (Next(s), []);
      AsWrittenOverFilled(slots, last, Next(s), fuel - 1);
      var none: seq<NackItem> := [];
      assert ScanAsWritten(slots, last, s, fuel) == Some(none + none);
      assert none + none == none;
    }
  }

  /** The scan as written starts one place after the output point, so the
      packet the output loop is waiting for is never asked for: with it
      missing and everything up to the last received number present, no
      NACK is sent, while the corrected scan asks for it. */
  lemma AsWrittenMissesNext(o: Order)
    requires OrderOk(o) && o.lastOut != o.lastRecv && o.lastOut != Next(o.lastRecv) && o.slots[o.lastOut].None?
    requires Filled(o.slots, o.lastOut, Dist(o.lastOut, o.lastRecv))
    ensures ScanAsWritten(o.slots, o.lastRecv, o.lastOut, Dist(o.lastOut, o.lastRecv)) == Some([])
    ensures ItemsOk(NackItems(o)) && Reports(NackItems(o), o.lastOut)
  {
    AsWrittenOverFilled(o.slots, o.lastRecv, o.lastOut, Dist(o.lastOut, o.lastRecv));
    var s := Prev(o.lastOut);
    ScanReports(o.slots, o.lastRecv, s, o.lastOut);
    DistNext(s, o.lastOut);
    DistSplit(s, o.lastOut, o.lastRecv);
  }

  /** Sixteen steps of the inner loop over full slots that start just after
      the last received number never come back to it. */
  lemma {:induction false} BitsAway(slots: seq<Option<Packet>>, last: int, s: int, i: nat, lost: seq<bool>)
    requires |slots| == SeqSpace && IsSeq(s) && IsSeq(last) && i <= 16 && |lost| == 16 && Dist(last, s) == i
    requires forall x :: 0 <= x < SeqSpace && x != last ==> slots[x].Some?
    ensures Bits(slots, last, s, i, lost).0 != last
    decreases 16 - i
  {
    if i == 0 {
      assert s == last;
    }
    if i < 16 {
      var t := Next(s);
      DistSplit(last, s, t);
      assert slots[t].Some?;
      BitsAway(slots, last, t, i + 1, lost);
    }
  }

  /** The scan as written can pass the last received number: when its slot
      is empty (its packet already handed on) and every other slot is full,
      each pass lands away from it, the number itself is asked for, and the
      loop never ends however many passes it is given. */
  lemma {:induction false} AsWrittenNeverEnds(slots: seq<Option<Packet>>, last: int, s: int, fuel: nat)
    requires |slots| == SeqSpace && IsSeq(s) && IsSeq(last) && s != last
    requires slots[last].None? && forall x :: 0 <= x < SeqSpace && x != last ==> slots[x].Some?
    ensures OuterAsWritten(slots, last, s).0 != last
    ensures Next(s) == last ==> OuterAsWritten(slots, last, s).1 == [NackItem(last, Bits(slots, last, last, 0, NoLoss()).1)]
    ensures ScanAsWritten(slots, last, s, fuel) == None
    decreases fuel
  {
    if Next(s) == last {
      BitsAway(slots, last, last, 0, NoLoss());
    }
    if fuel > 0 {
      AsWrittenNeverEnds(slots, last, OuterAsWritten(slots, last, s).0, fuel - 1);
    }
  }
}
