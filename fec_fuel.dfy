/** How deep the receiver's repair recursion goes. RecvPacketAndTryRepair
    (BaseClass/FEC/FEC2DTable.cpp:494-581) receives every packet it rebuilds
    in turn; FecTableSpec.TryRepairStep cuts that recursion at a fuel
    bound. This module proves the bound harmless: each rebuilt source
    packet fills an empty cell, so once the fuel covers the empty cells,
    and no rebuilt packet carries the tables' payload type, more fuel
    changes nothing. It also shows why the payload-type condition is
    needed: a rebuilt packet read back as a repair packet can rebuild
    itself again and again. */
module FecFuel {
  import opened Bytes
  import opened FecRepair
  import opened FecGrid
  import opened FecTableSpec
  import opened FecDecoderSpec

  /** The number of empty cells of a grid. */
  function Holes(g: Grid): nat
    decreases |g|
  {
    if |g| == 0 then 0 else Holes(g[..|g| - 1]) + (|g[|g| - 1]| - Count(g[|g| - 1]))
  }

  /** None of the packets carries the payload type pt. */
  predicate NoFec(ps: seq<Packet>, pt: byte)
  {
    forall q :: q in ps ==> |q| >= 2 && PayloadTypeOf(q) != pt
  }

  /** Filling an empty cell leaves one hole fewer. */
  lemma {:induction false} HolesPlace(g: Grid, r: int, c: int, p: Packet)
    requires 0 <= r < |g| && 0 <= c < |g[r]| && g[r][c].None?
    ensures Holes(Place(g, r, c, p)) + 1 == Holes(g)
    decreases |g|
  {
    var n := |g| - 1;
    var g' := Place(g, r, c, p);
    if r == n {
      assert g'[..n] == g[..n];
      assert g'[n] == g[n][c := Some(p)];
      CountFill(g[n], c, p);
    } else {
      assert g'[..n] == Place(g[..n], r, c, p);
      assert g'[n] == g[n];
      HolesPlace(g[..n], r, c, p);
    }
  }

  /** A line whose filled cells stay filled has at least as many packets. */
  lemma {:induction false} CountMono(l: Line, l': Line)
    requires |l| == |l'| && forall i :: 0 <= i < |l| && l[i].Some? ==> l'[i].Some?
    ensures Count(l) <= Count(l')
    decreases |l|
  {
    if |l| > 0 {
      var n := |l| - 1;
      forall i | 0 <= i < n && l[..n][i].Some? ensures l'[..n][i].Some? {
        assert l[..n][i] == l[i] && l'[..n][i] == l'[i];
      }
      CountMono(l[..n], l'[..n]);
    }
  }

  /** A grid whose filled cells stay filled has no more holes. */
  lemma {:induction false} HolesMono(g: Grid, g': Grid, rows: int, cols: int)
    requires Rect(g, rows, cols) && Rect(g', rows, cols)
    requires forall r, c :: 0 <= r < rows && 0 <= c < cols && g[r][c].Some? ==> g'[r][c].Some?
    ensures Holes(g') <= Holes(g)
    decreases |g|
  {
    if |g| > 0 {
      var n := |g| - 1;
      HolesMono(g[..n], g'[..n], n, cols);
      CountMono(g[n], g'[n]);
    }
  }

  /** A rows-by-cols grid has at most rows * cols holes. */
  lemma {:induction false} HolesBound(g: Grid, rows: int, cols: int)
    requires Rect(g, rows, cols) && 0 <= cols
    ensures Holes(g) <= rows * cols
    decreases |g|
  {
    if |g| > 0 {
      var n := |g| - 1;
      HolesBound(g[..n], n, cols);
      assert n * cols + cols == rows * cols;
    }
  }

  /** A state that extends another has no more holes. */
  lemma ExtendsHoles(st: Store, st': Store, rows: int, cols: int)
    requires Extends(st, st', rows, cols)
    ensures Holes(st'.grid) <= Holes(st.grid)
  {
    HolesMono(st.grid, st'.grid, rows, cols);
  }

  /** f is a source packet the table files into one of its empty cells. */
  predicate Fills(st: Store, rows: int, cols: int, pt: byte, f: Packet)
  {
    Good(st, rows, cols) && MediaSized(f) && PayloadTypeOf(f) != pt && st.base != -1 &&
    InTable(st, rows, cols, SeqOf(f)) && CellOf(st.base, SeqOf(f), cols).0 < rows &&
    st.grid[CellOf(st.base, SeqOf(f), cols).0][CellOf(st.base, SeqOf(f), cols).1].None?
  }

  /** A state such a packet fills has a hole. */
  lemma FillsHole(st: Store, rows: int, cols: int, pt: byte, f: Packet)
    requires Fills(st, rows, cols, pt, f)
    ensures Holes(st.grid) >= 1
  {
    var rc := CellOf(st.base, SeqOf(f), cols);
    HolesPlace(st.grid, rc.0, rc.1, f);
  }

  /** A packet rebuilt from a row is a source packet for the row's empty
      cell, unless it carries the tables' payload type. */
  lemma RowRecoverFills(st: Store, rows: int, cols: int, pt: byte, r: int)
    requires Good(st, rows, cols) && 0 <= r < rows && RowRecover(st, rows, cols, r).Some?
    requires PayloadTypeOf(RowRecover(st, rows, cols, r).value) != pt
    ensures Fills(st, rows, cols, pt, RowRecover(st, rows, cols, r).value)
  {
    var f := RowRecover(st, rows, cols, r).value;
    var l := st.grid[r];
    OneHole(l);
    var e := LastEmpty(l);
    assert rows * cols <= 1024 by { MulMono(rows, 32, cols); MulMono(cols, 32, 32); }
    SeqAtCell(st.base, r, e, rows, cols);
    WindowMembership(st.base, rows * cols, SeqOf(f));
  }

  /** The same for a packet rebuilt from a column. */
  lemma ColumnRecoverFills(st: Store, rows: int, cols: int, pt: byte, c: int)
    requires Good(st, rows, cols) && 0 <= c < cols && ColumnRecover(st, rows, cols, c).Some?
    requires PayloadTypeOf(ColumnRecover(st, rows, cols, c).value) != pt
    ensures Fills(st, rows, cols, pt, ColumnRecover(st, rows, cols, c).value)
  {
    var f := ColumnRecover(st, rows, cols, c).value;
    var l := Column(st.grid, c);
    OneHole(l);
    var e := LastEmpty(l);
    assert rows * cols <= 1024 by { MulMono(rows, 32, cols); MulMono(cols, 32, 32); }
    SeqAtCell(st.base, e, c, rows, cols);
    WindowMembership(st.base, rows * cols, SeqOf(f));
  }

  /** The heart of fuel adequacy: with fuel at least the number of holes
      (or one short of it while p itself fills a hole), one more level of
      fuel (fuel' = fuel + 1) gives the same result. */
  lemma {:induction false} TryRepairFuel(st: Store, rows: int, cols: int, pt: byte, p: Packet, fuel: nat, fuel': nat)
    requires Good(st, rows, cols) && Acceptable(p, pt) && fuel' == fuel + 1
    requires Holes(st.grid) <= fuel || (Holes(st.grid) == fuel' && Fills(st, rows, cols, pt, p))
    requires NoFec(TryRepairStep(st, rows, cols, pt, p, fuel).1, pt)
    ensures TryRepairStep(st, rows, cols, pt, p, fuel') == TryRepairStep(st, rows, cols, pt, p, fuel)
    decreases fuel, 4
  {
    if CanRecv(st, rows, cols, pt, p) {
      if PayloadTypeOf(p) == pt {
        var st0 := AdoptBase(st, p);
        assert st0.grid == st.grid && !Fills(st, rows, cols, pt, p);
        assert TryRepairStep(st, rows, cols, pt, p, fuel) == FileRepair(st0, rows, cols, pt, p, fuel);
        assert TryRepairStep(st, rows, cols, pt, p, fuel') == FileRepair(st0, rows, cols, pt, p, fuel');
        FileRepairFuel(st0, rows, cols, pt, p, fuel, fuel');
      } else {
        var res := SourceArrives(st, rows, cols, pt, p, fuel);
        assert TryRepairStep(st, rows, cols, pt, p, fuel) == (res.0, res.1, 0);
        var res' := SourceArrives(st, rows, cols, pt, p, fuel');
        assert TryRepairStep(st, rows, cols, pt, p, fuel') == (res'.0, res'.1, 0);
        SourceFuel(st, rows, cols, pt, p, fuel, fuel');
      }
    }
  }

  lemma {:induction false} FileRepairFuel(st0: Store, rows: int, cols: int, pt: byte, p: Packet, fuel: nat, fuel': nat)
    requires Good(st0, rows, cols) && st0.base != -1 && |p| >= 24 && Holes(st0.grid) <= fuel && fuel' == fuel + 1
    requires NoFec(FileRepair(st0, rows, cols, pt, p, fuel).1, pt)
    ensures FileRepair(st0, rows, cols, pt, p, fuel') == FileRepair(st0, rows, cols, pt, p, fuel)
    decreases fuel, 2
  {
    var col := TagIndex(p[22]);
    var row := TagIndex(p[23]);
    if col == cols && row < rows {
      var st1 := st0.(rowSlots := st0.rowSlots[row := StoreRepair(st0.rowSlots[row], p)]);
      AfterRowFuel(st1, rows, cols, pt, row, fuel, fuel');
    } else if col != cols && row == rows && col < cols {
      var st1 := st0.(colSlots := st0.colSlots[col := StoreRepair(st0.colSlots[col], p)]);
      AfterColumnFuel(st1, rows, cols, pt, col, fuel, fuel');
    }
  }

  lemma {:induction false} SourceFuel(st: Store, rows: int, cols: int, pt: byte, p: Packet, fuel: nat, fuel': nat)
    requires Good(st, rows, cols) && Acceptable(p, pt) && PayloadTypeOf(p) != pt && fuel' == fuel + 1
    requires CanRecv(st, rows, cols, pt, p)
    requires Holes(st.grid) <= fuel || (Holes(st.grid) == fuel' && Fills(st, rows, cols, pt, p))
    requires NoFec(SourceArrives(st, rows, cols, pt, p, fuel).1, pt)
    ensures SourceArrives(st, rows, cols, pt, p, fuel') == SourceArrives(st, rows, cols, pt, p, fuel)
    decreases fuel, 2
  {
    var s := SeqOf(p);
    InTableCell(st, rows, cols, s);
    var rc := CellOf(st.base, s, cols);
    var st1 := if st.grid[rc.0][rc.1].None? then st.(grid := Place(st.grid, rc.0, rc.1, p)) else st;
    if st.grid[rc.0][rc.1].None? {
      HolesPlace(st.grid, rc.0, rc.1, p);
      PlaceGood(st, rows, cols, rc.0, rc.1, p);
    }
    assert Good(st1, rows, cols) && Holes(st1.grid) <= fuel;
    var res1 := AfterColumn(st1, rows, cols, pt, rc.1, fuel);
    var res2 := AfterRow(res1.0, rows, cols, pt, rc.0, fuel);
    assert SourceArrives(st, rows, cols, pt, p, fuel) == (res2.0, res1.1 + res2.1);
    NoFecSplit(res1.1, res2.1, pt);
    AfterColumnFuel(st1, rows, cols, pt, rc.1, fuel, fuel');
    AfterColumnExtends(st1, rows, cols, pt, rc.1, fuel);
    ExtendsHoles(st1, res1.0, rows, cols);
    AfterRowFuel(res1.0, rows, cols, pt, rc.0, fuel, fuel');
  }

  lemma {:induction false} AfterRowFuel(st: Store, rows: int, cols: int, pt: byte, r: int, fuel: nat, fuel': nat)
    requires Good(st, rows, cols) && 0 <= r < rows && Holes(st.grid) <= fuel && fuel' == fuel + 1
    requires NoFec(AfterRow(st, rows, cols, pt, r, fuel).1, pt)
    ensures AfterRow(st, rows, cols, pt, r, fuel') == AfterRow(st, rows, cols, pt, r, fuel)
    decreases fuel, 1
  {
    match RowRecover(st, rows, cols, r)
    case None =>
    case Some(f) =>
      assert Forward(st, rows, cols, pt, f, fuel).1[0] == f;
      RowRecoverFills(st, rows, cols, pt, r);
      ForwardFuel(st, rows, cols, pt, f, fuel, fuel');
  }

  lemma {:induction false} AfterColumnFuel(st: Store, rows: int, cols: int, pt: byte, c: int, fuel: nat, fuel': nat)
    requires Good(st, rows, cols) && 0 <= c < cols && Holes(st.grid) <= fuel && fuel' == fuel + 1
    requires NoFec(AfterColumn(st, rows, cols, pt, c, fuel).1, pt)
    ensures AfterColumn(st, rows, cols, pt, c, fuel') == AfterColumn(st, rows, cols, pt, c, fuel)
    decreases fuel, 1
  {
    match ColumnRecover(st, rows, cols, c)
    case None =>
    case Some(f) =>
      assert Forward(st, rows, cols, pt, f, fuel).1[0] == f;
      ColumnRecoverFills(st, rows, cols, pt, c);
      ForwardFuel(st, rows, cols, pt, f, fuel, fuel');
  }

  lemma {:induction false} ForwardFuel(st: Store, rows: int, cols: int, pt: byte, f: Packet, fuel: nat, fuel': nat)
    requires Fills(st, rows, cols, pt, f) && Holes(st.grid) <= fuel && fuel' == fuel + 1
    requires NoFec(Forward(st, rows, cols, pt, f, fuel).1, pt)
    ensures Forward(st, rows, cols, pt, f, fuel') == Forward(st, rows, cols, pt, f, fuel)
    decreases fuel, 0
  {
    FillsHole(st, rows, cols, pt, f);
    var m: nat := fuel - 1;
    ForwardUnfold(st, rows, cols, pt, f, m, fuel);
    ForwardUnfold(st, rows, cols, pt, f, fuel, fuel');
    NoFecSplit([f], TryRepairStep(st, rows, cols, pt, f, m).1, pt);
    TryRepairFuel(st, rows, cols, pt, f, m, fuel);
  }

  /** Forward with fuel left hands f out and receives it. */
  lemma ForwardUnfold(st: Store, rows: int, cols: int, pt: byte, f: Packet, n: nat, n': nat)
    requires Good(st, rows, cols) && Acceptable(f, pt) && n' == n + 1
    ensures var t := TryRepairStep(st, rows, cols, pt, f, n);
            Forward(st, rows, cols, pt, f, n') == (t.0, [f] + t.1)
  {
  }

  lemma NoFecSplit(a: seq<Packet>, b: seq<Packet>, pt: byte)
    requires NoFec(a + b, pt)
    ensures NoFec(a, pt) && NoFec(b, pt)
  {
    forall q | q in a ensures q in a + b { }
    forall q | q in b ensures q in a + b { }
  }

  /** Fuel adequacy for one table: with fuel at least rows * cols, and no
      rebuilt packet carrying the tables' payload type, any more fuel gives
      the same state, the same rebuilt packets and the same return code. */
  lemma FuelSuffices(st: Store, rows: int, cols: int, pt: byte, p: Packet, fuel: nat, more: nat)
    requires Good(st, rows, cols) && Acceptable(p, pt) && rows * cols <= fuel
    requires NoFec(TryRepairStep(st, rows, cols, pt, p, fuel).1, pt)
    ensures TryRepairStep(st, rows, cols, pt, p, fuel + more) == TryRepairStep(st, rows, cols, pt, p, fuel)
  {
    HolesBound(st.grid, rows, cols);
    FuelStable(st, rows, cols, pt, p, fuel, fuel + more);
  }

  /** The same with fuel at least the number of holes, for any n above it. */
  lemma {:induction false} FuelStable(st: Store, rows: int, cols: int, pt: byte, p: Packet, fuel: nat, n: nat)
    requires Good(st, rows, cols) && Acceptable(p, pt) && Holes(st.grid) <= fuel <= n
    requires NoFec(TryRepairStep(st, rows, cols, pt, p, fuel).1, pt)
    ensures TryRepairStep(st, rows, cols, pt, p, n) == TryRepairStep(st, rows, cols, pt, p, fuel)
    decreases n - fuel
  {
    if n > fuel {
      var m: nat := n - 1;
      FuelStable(st, rows, cols, pt, p, fuel, m);
      TryRepairFuel(st, rows, cols, pt, p, m, n);
    }
  }

  /** The same for RecvPacket's table work on the whole pool. */
  lemma ReceiveFuelSuffices(pool: seq<Store>, cache: seq<Packet>, rows: int, cols: int, tpt: byte, dpt: byte,
                            p: Packet, fuel: nat, more: nat)
    requires PoolGood(pool, rows, cols) && CacheOk(cache, tpt) && Acceptable(p, tpt) && MediaSized(p)
    requires rows * cols <= fuel
    requires NoFec(Receive(pool, cache, rows, cols, tpt, dpt, p, fuel).2, tpt)
    ensures Receive(pool, cache, rows, cols, tpt, dpt, p, fuel + more) == Receive(pool, cache, rows, cols, tpt, dpt, p, fuel)
  {
    var k := FindTable(pool, rows, cols, tpt, p);
    if k >= 0 {
      var r := ReceiveAt(pool, rows, cols, tpt, p, fuel, k);
      assert Receive(pool, cache, rows, cols, tpt, dpt, p, fuel) == (r.0, cache, r.1);
      FuelSuffices(pool[k], rows, cols, tpt, p, fuel, more);
      var r' := ReceiveAt(pool, rows, cols, tpt, p, fuel + more, k);
      assert r' == r;
      assert Receive(pool, cache, rows, cols, tpt, dpt, p, fuel + more) == (r'.0, cache, r'.1);
    } else if PayloadTypeOf(p) == dpt {
      assert Receive(pool, cache, rows, cols, tpt, dpt, p, fuel) == Recycled(pool, cache, rows, cols, tpt, p, fuel);
      FuelSuffices(Cleared(rows, cols), rows, cols, tpt, p, fuel, more);
      assert Receive(pool, cache, rows, cols, tpt, dpt, p, fuel + more) == Recycled(pool, cache, rows, cols, tpt, p, fuel + more);
    }
  }

  /** Why the payload-type condition is needed: when a row's rebuilt packet
      f carries the tables' payload type and its bytes 20-23 name the
      table's base and that same row, receiving f stores nothing new and
      rebuilds f again, so every level of fuel hands f out once more and
      the recursion of RecvPacketAndTryRepair has no bound. */
  lemma {:induction false} FecPayloadLoops(st: Store, rows: int, cols: int, pt: byte, r: int, f: Packet, fuel: nat)
    requires Good(st, rows, cols) && 0 <= r < rows && RowRecover(st, rows, cols, r) == Some(f)
    requires |f| >= 24 && PayloadTypeOf(f) == pt && Be16(f[20], f[21]) == st.base
    requires TagIndex(f[22]) == cols && TagIndex(f[23]) == r
    ensures var res := TryRepairStep(st, rows, cols, pt, f, fuel);
            res.0 == st && res.2 == 0 && |res.1| == fuel + 1 &&
            forall i :: 0 <= i < |res.1| ==> res.1[i] == f
    decreases fuel
  {
    RecoverNeedsSlot(st, rows, cols, r);
    RepairRefiles(st, rows, cols, pt, r, f, fuel);
    assert AfterRow(st, rows, cols, pt, r, fuel) == Forward(st, rows, cols, pt, f, fuel);
    if fuel > 0 {
      var m: nat := fuel - 1;
      ForwardUnfold(st, rows, cols, pt, f, m, fuel);
      FecPayloadLoops(st, rows, cols, pt, r, f, m);
    }
  }

  /** A row rebuilds a packet only once its table has a base and the row
      its repair packet. */
  lemma RecoverNeedsSlot(st: Store, rows: int, cols: int, r: int)
    requires Good(st, rows, cols) && 0 <= r < rows && RowRecover(st, rows, cols, r).Some?
    ensures st.base != -1 && st.rowSlots[r].Some?
  {
  }

  /** A repair packet naming the base and a row whose slot is taken
      changes nothing and tries the row again. */
  lemma RepairRefiles(st: Store, rows: int, cols: int, pt: byte, r: int, f: Packet, fuel: nat)
    requires Good(st, rows, cols) && st.base != -1 && 0 <= r < rows && st.rowSlots[r].Some?
    requires |f| >= 24 && PayloadTypeOf(f) == pt && Be16(f[20], f[21]) == st.base
    requires TagIndex(f[22]) == cols && TagIndex(f[23]) == r
    ensures var a := AfterRow(st, rows, cols, pt, r, fuel);
            TryRepairStep(st, rows, cols, pt, f, fuel) == (a.0, a.1, 0)
  {
    assert CanRecv(st, rows, cols, pt, f);
    assert AdoptBase(st, f) == st;
    assert StoreRepair(st.rowSlots[r], f) == st.rowSlots[r];
    assert st.rowSlots[r := st.rowSlots[r]] == st.rowSlots;
    assert TryRepairStep(st, rows, cols, pt, f, fuel) == FileRepair(st, rows, cols, pt, f, fuel);
  }
}
