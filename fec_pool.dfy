/** The table pool of RFC8627FECDecoder (BaseClass/FEC/FECDecoder.cpp):
    a list of FEC2DTable objects that share no storage, the operations of
    RecvPacket on one table of it, and what they do to the list of the
    tables' states. */
module FecPool {
  import opened Bytes
  import opened FecRepair
  import opened FecTableSpec
  import opened FecTable
  import opened FecDecoderSpec

  /** A table of the pool: initialised with the common dimensions and the
      payload type the decoder had at Init. */
  ghost predicate TableOk(t: Table, rows: int, cols: int, pt: byte)
    reads t.Footprint()
  {
    t.Valid() && t.ready && t.rows == rows && t.cols == cols && t.payloadType == pt
  }

  /** Every table and its storage lie in own, and no two tables share
      storage. */
  ghost predicate Owns(ts: seq<Table>, own: set<object>)
    reads own
  {
    (forall i :: 0 <= i < |ts| ==> ts[i] in own && ts[i].Footprint() <= own) &&
    (forall i, j :: 0 <= i < |ts| && 0 <= j < |ts| && i != j ==> ts[i].Footprint() !! ts[j].Footprint())
  }

  /** The tables' states, front first. */
  ghost function States(ts: seq<Table>, own: set<object>): (r: seq<Store>)
    requires Owns(ts, own)
    reads own
    ensures |r| == |ts| && forall i :: 0 <= i < |ts| ==> r[i] == ts[i].Snapshot()
  {
    seq(|ts|, i requires 0 <= i < |ts| && ts[i] in own && ts[i].Footprint() <= own reads own =>
      ts[i].Snapshot())
  }

  /** The pool after a successful Init: at least one table, each well
      formed with the common dimensions, no two sharing storage. */
  ghost predicate PoolOf(ts: seq<Table>, rows: int, cols: int, pt: byte, own: set<object>)
    reads own
  {
    Dims(rows, cols) && |ts| >= 1 && Owns(ts, own) &&
    forall i :: 0 <= i < |ts| ==> TableOk(ts[i], rows, cols, pt)
  }

  /** Moving table k to the front keeps the pool well formed and moves
      its state to the front. */
  lemma FrontPool(ts: seq<Table>, k: int, rows: int, cols: int, pt: byte, own: set<object>)
    requires PoolOf(ts, rows, cols, pt, own) && 0 <= k < |ts|
    ensures PoolOf(MoveToFront(ts, k), rows, cols, pt, own)
    ensures States(MoveToFront(ts, k), own) == MoveToFront(States(ts, own), k)
  {
    var ts' := MoveToFront(ts, k);
    forall i | 0 <= i < |ts'|
      ensures 0 <= FrontIndex(k, i) < |ts| && ts'[i] == ts[FrontIndex(k, i)]
    {
      MoveToFrontAt(ts, k, i);
    }
    forall i | 0 <= i < |ts'|
      ensures States(ts, own)[FrontIndex(k, i)] == MoveToFront(States(ts, own), k)[i]
    {
      MoveToFrontAt(States(ts, own), k, i);
    }
  }

  /** RecvPacketAndTryRepair on one table, its rebuilt packets returned. */
  method TryRepairTable(t: Table, ghost rows: int, ghost cols: int, ghost pt: byte, p: Packet, fuel: nat)
      returns (rebuilt: seq<Packet>)
    requires TableOk(t, rows, cols, pt) && Acceptable(p, pt)
    modifies t.Footprint()
    ensures TableOk(t, rows, cols, pt) && t.SameArrays()
    ensures var r := TryRepairStep(old(t.Snapshot()), rows, cols, pt, p, fuel);
            t.Snapshot() == r.0 && rebuilt == r.1
  {
    var before := |t.rtpOut|;
    var _ := t.RecvPacketAndTryRepair(p, fuel);
    rebuilt := t.rtpOut[before..];
  }

  /** ClearTable, then RecvPacketAndTryRepair, on one table. */
  method ClearAndRepair(t: Table, ghost rows: int, ghost cols: int, ghost pt: byte, p: Packet, fuel: nat)
      returns (rebuilt: seq<Packet>)
    requires TableOk(t, rows, cols, pt) && Acceptable(p, pt)
    modifies t.Footprint()
    ensures TableOk(t, rows, cols, pt) && t.SameArrays()
    ensures var r := TryRepairStep(Cleared(rows, cols), rows, cols, pt, p, fuel);
            t.Snapshot() == r.0 && rebuilt == r.1
  {
    t.ClearTable();
    rebuilt := TryRepairTable(t, rows, cols, pt, p, fuel);
  }

  /** The cache pass of RecvPacket on one table: front to back, each packet
      the table can take goes to RecvPacketAndMakeRepair; the others are
      kept in order. */
  method DrainInto(t: Table, ghost rows: int, ghost cols: int, ghost pt: byte, c: seq<Packet>) returns (kept: seq<Packet>)
    requires TableOk(t, rows, cols, pt) && CacheOk(c, pt)
    modifies t.Footprint()
    ensures TableOk(t, rows, cols, pt) && t.SameArrays()
    ensures (t.Snapshot(), kept) == Drain(old(t.Snapshot()), rows, cols, pt, c)
  {
    ghost var goal := Drain(t.Snapshot(), rows, cols, pt, c);
    kept := [];
    var i := 0;
    assert c[i..] == c && kept + goal.1 == goal.1;
    while i < |c|
      invariant 0 <= i <= |c|
      invariant TableOk(t, rows, cols, pt) && t.SameArrays()
      invariant var d := Drain(t.Snapshot(), rows, cols, pt, c[i..]); d.0 == goal.0 && kept + d.1 == goal.1
    {
      assert c[i..][0] == c[i] && c[i..][1..] == c[i + 1..];
      ghost var st := t.Snapshot();
      var taken := DrainOne(t, rows, cols, pt, c[i]);
      if !taken {
        AppendAssoc(kept, [c[i]], Drain(st, rows, cols, pt, c[i + 1..]).1);
        kept := kept + [c[i]];
      }
      i := i + 1;
    }
    assert c[i..] == [] && kept + [] == kept;
  }

  /** One packet of the cache pass: taken when the table can take it. */
  method DrainOne(t: Table, ghost rows: int, ghost cols: int, ghost pt: byte, q: Packet) returns (taken: bool)
    requires TableOk(t, rows, cols, pt) && Acceptable(q, pt) && MediaSized(q)
    modifies t.Footprint()
    ensures TableOk(t, rows, cols, pt) && t.SameArrays()
    ensures taken == CanRecv(old(t.Snapshot()), rows, cols, pt, q)
    ensures t.Snapshot() == if taken then MakeRepairStep(old(t.Snapshot()), rows, cols, q).0 else old(t.Snapshot())
  {
    taken := t.IsCanRecvPacket(q);
    if taken {
      var _ := t.RecvPacketAndMakeRepair(q);
    }
  }

  /** A pool call that only changed table k's storage: the others keep
      their states. */
  method TryRepairIn(ts: seq<Table>, k: int, ghost rows: int, ghost cols: int, ghost pt: byte,
                     ghost own: set<object>, p: Packet, fuel: nat) returns (rebuilt: seq<Packet>)
    requires PoolOf(ts, rows, cols, pt, own) && 0 <= k < |ts| && Acceptable(p, pt)
    modifies ts[k].Footprint()
    ensures PoolOf(ts, rows, cols, pt, own)
    ensures var r := TryRepairStep(old(States(ts, own))[k], rows, cols, pt, p, fuel);
            States(ts, own) == old(States(ts, own))[k := r.0] && rebuilt == r.1
  {
    rebuilt := TryRepairTable(ts[k], rows, cols, pt, p, fuel);
    forall j | 0 <= j < |ts| && j != k
      ensures unchanged(ts[j].Footprint())
    {
      assert old(ts[j].Footprint() !! ts[k].Footprint() && ts[j].Footprint() <= own);
    }
  }

  /** The recycling of RecvPacket on table b of the pool: cleared, given
      the packet and then the cache; the others keep their states. */
  method RecycleIn(ts: seq<Table>, b: int, ghost rows: int, ghost cols: int, ghost pt: byte,
                   ghost own: set<object>, p: Packet, fuel: nat, c: seq<Packet>)
      returns (rebuilt: seq<Packet>, kept: seq<Packet>)
    requires PoolOf(ts, rows, cols, pt, own) && 0 <= b < |ts| && Acceptable(p, pt) && CacheOk(c, pt)
    modifies ts[b].Footprint()
    ensures PoolOf(ts, rows, cols, pt, own)
    ensures var t := TryRepairStep(Cleared(rows, cols), rows, cols, pt, p, fuel);
            var d := Drain(t.0, rows, cols, pt, c);
            States(ts, own) == old(States(ts, own))[b := d.0] && kept == d.1 && rebuilt == t.1
  {
    rebuilt := ClearAndRepair(ts[b], rows, cols, pt, p, fuel);
    kept := DrainInto(ts[b], rows, cols, pt, c);
    forall j | 0 <= j < |ts| && j != b
      ensures unchanged(ts[j].Footprint())
    {
      assert old(ts[j].Footprint() !! ts[b].Footprint() && ts[j].Footprint() <= own);
    }
  }

  /** The found branch of RecvPacket (BaseClass/FEC/FECDecoder.cpp:
      220-224): table k takes the packet through RecvPacketAndTryRepair
      and moves to the front. */
  method TakeAt(ts: seq<Table>, k: int, ghost rows: int, ghost cols: int, ghost pt: byte,
                ghost own: set<object>, p: Packet, fuel: nat) returns (ts': seq<Table>, rebuilt: seq<Packet>)
    requires PoolOf(ts, rows, cols, pt, own) && 0 <= k < |ts| && Acceptable(p, pt)
    modifies own
    ensures PoolOf(ts', rows, cols, pt, own)
    ensures (States(ts', own), rebuilt) == ReceiveAt(old(States(ts, own)), rows, cols, pt, p, fuel, k)
  {
    rebuilt := TryRepairIn(ts, k, rows, cols, pt, own, p, fuel);
    FrontPool(ts, k, rows, cols, pt, own);
    ts' := MoveToFront(ts, k);
  }

  /** The recycling branch of RecvPacket (BaseClass/FEC/FECDecoder.cpp:
      227-250): the table at the back is cleared, given the packet and then
      the cache, and moves to the front. */
  method RecycleBack(ts: seq<Table>, ghost rows: int, ghost cols: int, ghost pt: byte,
                     ghost own: set<object>, p: Packet, fuel: nat, c: seq<Packet>)
      returns (ts': seq<Table>, rebuilt: seq<Packet>, kept: seq<Packet>)
    requires PoolOf(ts, rows, cols, pt, own) && Acceptable(p, pt) && CacheOk(c, pt)
    modifies own
    ensures PoolOf(ts', rows, cols, pt, own)
    ensures (States(ts', own), kept, rebuilt) == Recycled(old(States(ts, own)), c, rows, cols, pt, p, fuel)
  {
    var b := |ts| - 1;
    rebuilt, kept := RecycleIn(ts, b, rows, cols, pt, own, p, fuel, c);
    FrontPool(ts, b, rows, cols, pt, own);
    ts' := MoveToFront(ts, b);
  }

  /** The search of RecvPacket (BaseClass/FEC/FECDecoder.cpp:204-218):
      the first table, front to back, whose IsCanRecvPacket holds, or -1. */
  method FindIn(ts: seq<Table>, ghost rows: int, ghost cols: int, ghost pt: byte, ghost own: set<object>,
                p: Packet) returns (k: int)
    requires PoolOf(ts, rows, cols, pt, own) && Acceptable(p, pt)
    ensures k == FindTable(States(ts, own), rows, cols, pt, p)
  {
    ghost var pool := States(ts, own);
    k := 0;
    while k < |ts|
      invariant 0 <= k <= |ts|
      invariant forall j :: 0 <= j < k ==> !CanRecv(pool[j], rows, cols, pt, p)
    {
      if ts[k].IsCanRecvPacket(p) {
        return;
      }
      k := k + 1;
    }
    k := -1;
  }

  /** The table work of RecvPacket (BaseClass/FEC/FECDecoder.cpp:204-267)
      on a pool ts and a cache c: the new list, the new cache and the
      packets the tables rebuild follow FecDecoderSpec.Receive. */
  method PlaceIn(ts: seq<Table>, c: seq<Packet>, ghost rows: int, ghost cols: int, ghost pt: byte,
                 ghost own: set<object>, dpt: byte, p: Packet, fuel: nat)
      returns (ts': seq<Table>, c': seq<Packet>, rebuilt: seq<Packet>)
    requires PoolOf(ts, rows, cols, pt, own) && CacheOk(c, pt) && Acceptable(p, pt) && MediaSized(p)
    modifies own
    ensures PoolOf(ts', rows, cols, pt, own) && CacheOk(c', pt)
    ensures |c| <= MaxCacheNum + 1 ==> |c'| <= MaxCacheNum + 1
    ensures (States(ts', own), c', rebuilt) == Receive(old(States(ts, own)), c, rows, cols, pt, dpt, p, fuel)
  {
    var k := FindIn(ts, rows, cols, pt, own, p);
    if k >= 0 {
      ts', rebuilt := TakeAt(ts, k, rows, cols, pt, own, p, fuel);
      c' := c;
    } else if PayloadTypeOf(p) == dpt {
      ts', rebuilt, c' := RecycleBack(ts, rows, cols, pt, own, p, fuel, c);
    } else {
      ts', rebuilt := ts, [];
      c' := [p] + (if |c| > MaxCacheNum then [] else c);
    }
  }

  /** Where element i of MoveToFront(l, k) comes from. */
  function FrontIndex(k: int, i: int): int
  {
    if i == 0 then k else if i <= k then i - 1 else i
  }

  lemma MoveToFrontAt<T>(l: seq<T>, k: int, i: int)
    requires 0 <= k < |l| && 0 <= i < |l|
    ensures 0 <= FrontIndex(k, i) < |l| && MoveToFront(l, k)[i] == l[FrontIndex(k, i)]
  {
  }
  /** The table loop of Init (BaseClass/FEC/FECDecoder.cpp:91-103): n new
      tables with payload type pt, each initialised with the given
      dimensions, stopping at the first whose Init fails. Allocation failAt
      of table failTable fails (none when it is outside 1..6, as in
      FecTable.Table.Init). On success the tables are new, cleared and
      share no storage. */
  method MakeTables(pt: byte, row: int, col: int, n: nat, failTable: nat, failAt: nat)
      returns (ts: seq<Table>, ghost own: set<object>, ok: bool)
    requires 1 <= n && 0 <= row < 256 && 0 <= col < 256
    ensures fresh(own)
    ensures ok <==> Dims(row, col) && !(failTable < n && 1 <= failAt <= 6)
    ensures ok ==> PoolOf(ts, row, col, pt, own) && States(ts, own) == seq(n, _ => Cleared(row, col))
  {
    ts, own := [], {};
    var i := 0;
    while i < n
      invariant 0 <= i <= n && |ts| == i && fresh(own)
      invariant Owns(ts, own) && forall j :: 0 <= j < i ==> TableOk(ts[j], row, col, pt)
      invariant States(ts, own) == seq(i, _ => Cleared(row, col))
      invariant i > 0 ==> Dims(row, col) && !(failTable < i && 1 <= failAt <= 6)
    {
      var t, made := NewTable(pt, row, col, if i == failTable then failAt else 0);
      if !made {
        return ts, own, false;
      }
      ts, own := Grow(ts, own, t, row, col, pt);
      i := i + 1;
    }
    ok := true;
  }

  /** new FEC2DTable(pt), then its Init. */
  method NewTable(pt: byte, row: int, col: int, failAt: nat) returns (t: Table, ok: bool)
    requires 0 <= row < 256 && 0 <= col < 256
    ensures fresh(t.Footprint())
    ensures ok <==> Dims(row, col) && !(1 <= failAt <= 6)
    ensures ok ==> TableOk(t, row, col, pt) && t.Snapshot() == Cleared(row, col)
  {
    t := new Table(pt);
    var r := t.Init(row, col, failAt);
    ok := r == 0;
  }

  /** Adds a new table to the pool. */
  method Grow(ts: seq<Table>, ghost own: set<object>, t: Table, ghost row: int, ghost col: int, ghost pt: byte)
      returns (ts': seq<Table>, ghost own': set<object>)
    requires Owns(ts, own) && forall j :: 0 <= j < |ts| ==> TableOk(ts[j], row, col, pt)
    requires TableOk(t, row, col, pt) && t.Footprint() !! own
    ensures ts' == ts + [t] && own' == own + t.Footprint()
    ensures Owns(ts', own') && forall j :: 0 <= j < |ts'| ==> TableOk(ts'[j], row, col, pt)
    ensures States(ts', own') == States(ts, own) + [t.Snapshot()]
  {
    ts', own' := ts + [t], own + t.Footprint();
  }
}
