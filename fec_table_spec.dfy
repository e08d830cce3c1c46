/** The state of a FEC2DTable as a value, and what its two insertion paths
    do to it: the sender's RecvPacketAndMakeRepair, which builds a repair
    packet whenever a row or column fills, and the receiver's
    RecvPacketAndTryRepair, which stores packets and repair packets and
    rebuilds a missing packet whenever a line lacks exactly one. The class in
    module FecTable is proved to follow these functions. */
module FecTableSpec {
  import opened Bytes
  import opened FecRepair
  import opened FecGrid

  /** The contents of a table: the base sequence number (-1 while the table
      is cleared), the cells row by row, and one repair slot per row and per
      column. The window ranges follow from the base. */
  datatype Store = Store(base: int, grid: Grid, rowSlots: Line, colSlots: Line)

  /** A stored repair packet always holds the 24 bytes of RTP and FEC header. */
  predicate SlotsSized(s: Line)
  {
    forall i :: 0 <= i < |s| && s[i].Some? ==> |s[i].value| >= 24
  }

  /** The state ClearTable leaves and Init creates. */
  function Cleared(rows: nat, cols: nat): Store
  {
    Store(-1, EmptyGrid(rows, cols), EmptyLine(rows), EmptyLine(cols))
  }

  /** The dimensions Init accepts (BaseClass/FEC/FEC2DTable.cpp:88). */
  predicate Dims(rows: int, cols: int)
  {
    1 <= rows <= MaxFecLine && 1 <= cols <= MaxFecLine
  }

  /** A well-formed state: a cleared table, or one with a base whose cells
      hold the source packets of their sequence numbers. */
  predicate Good(st: Store, rows: int, cols: int)
  {
    Dims(rows, cols) && Rect(st.grid, rows, cols) &&
    |st.rowSlots| == rows && |st.colSlots| == cols &&
    SlotsSized(st.rowSlots) && SlotsSized(st.colSlots) &&
    (if st.base == -1 then st == Cleared(rows, cols)
     else IsSeq(st.base) && Addressed(st.grid, st.base, cols))
  }

  /** The window ranges of a state: empty while cleared, otherwise the ones
      UpdataRange(base) opened on cleared ranges. */
  function Window(base: int, rows: int, cols: int): (Range, Range)
    requires Dims(rows, cols)
  {
    if !IsSeq(base) then (EmptyRange, EmptyRange)
    else WindowRanges(base, rows * cols, EmptyRange)
  }

  /** IsSeqInRange in a given state (BaseClass/FEC/FEC2DTable.cpp:219-228). */
  predicate InTable(st: Store, rows: int, cols: int, s: int)
    requires Dims(rows, cols)
  {
    InWindow(Window(st.base, rows, cols), s)
  }

  /** A sequence number the window accepts lands on a cell of the grid. */
  lemma InTableCell(st: Store, rows: int, cols: int, s: int)
    requires Good(st, rows, cols) && IsSeq(s) && InTable(st, rows, cols, s)
    ensures st.base != -1
    ensures CellOf(st.base, s, cols).0 < rows
    ensures SeqAt(st.base, CellOf(st.base, s, cols).0, CellOf(st.base, s, cols).1, cols) == s
  {
    if st.base == -1 {
      EmptyWindow(s);
      assert false;
    }
    assert rows * cols <= 1024 by { MulMono(rows, 32, cols); MulMono(cols, 32, 32); }
    WindowMembership(st.base, rows * cols, s);
    CellOfInverse(st.base, s, rows, cols);
  }

  /** Every line of an addressed grid holds source packets only. */
  lemma AddressedRow(g: Grid, base: int, cols: int, r: int)
    requires Addressed(g, base, cols) && 0 <= r < |g|
    ensures LineSized(g[r])
  {
  }

  lemma AddressedColumn(g: Grid, rows: int, base: int, cols: int, c: int)
    requires Rect(g, rows, cols) && Addressed(g, base, cols) && 0 <= c < cols
    ensures LineSized(Column(g, c))
  {
  }

  function OptList(o: Option<Packet>): seq<Packet>
  {
    if o.Some? then [o.value] else []
  }

  /** CreateRepairPacketByRow (BaseClass/FEC/FEC2DTable.cpp:392-433): nothing
      when the row's slot is already taken or the row is not full; otherwise
      the repair packet of the row, tagged (cols + 1, r + 1). */
  function BuildRow(st: Store, rows: int, cols: int, r: int): (b: Option<Packet>)
    requires Good(st, rows, cols) && 0 <= r < rows
    ensures b.Some? <==> st.rowSlots[r].None? && Full(st.grid[r]) && st.base != -1
    ensures b.Some? ==> |b.value| >= 24 && b.value[22] == (cols + 1) as byte && b.value[23] == (r + 1) as byte
  {
    if st.rowSlots[r].Some? || !Full(st.grid[r]) || st.base == -1 then None
    else
      var ps := Filled(st.grid[r]);
      AddressedRow(st.grid, st.base, cols, r);
      FullRepairable(st.grid[r]);
      Some(Tagged(RepairPacketOf(ps, st.base), (cols + 1) as byte, (r + 1) as byte))
  }

  /** CreateRepairPacketByColumn (BaseClass/FEC/FEC2DTable.cpp:435-476):
      likewise for column c, tagged (c + 1, rows + 1). */
  function BuildColumn(st: Store, rows: int, cols: int, c: int): (b: Option<Packet>)
    requires Good(st, rows, cols) && 0 <= c < cols
    ensures b.Some? <==> st.colSlots[c].None? && Full(Column(st.grid, c)) && st.base != -1
    ensures b.Some? ==> |b.value| >= 24 && b.value[22] == (c + 1) as byte && b.value[23] == (rows + 1) as byte
  {
    var l := Column(st.grid, c);
    if st.colSlots[c].Some? || !Full(l) || st.base == -1 then None
    else
      var ps := Filled(l);
      AddressedColumn(st.grid, rows, st.base, cols, c);
      FullRepairable(l);
      Some(Tagged(RepairPacketOf(ps, st.base), (c + 1) as byte, (rows + 1) as byte))
  }

  /** A cleared table never has a full line: the base is set before the
      first packet is stored. */
  lemma ClearedNotFull(rows: nat, cols: nat, r: int, c: int)
    requires Dims(rows, cols) && 0 <= r < rows && 0 <= c < cols
    ensures !Full(Cleared(rows, cols).grid[r])
    ensures !Full(Column(Cleared(rows, cols).grid, c))
  {
    assert Cleared(rows, cols).grid[r][0].None?;
    assert Column(Cleared(rows, cols).grid, c)[0].None?;
  }

  /** The state after a row's repair packet (if any) is put into its slot. */
  function WithRow(st: Store, r: int, rep: Option<Packet>): Store
    requires 0 <= r < |st.rowSlots|
  {
    if rep.Some? then st.(rowSlots := st.rowSlots[r := rep]) else st
  }

  function WithColumn(st: Store, c: int, rep: Option<Packet>): Store
    requires 0 <= c < |st.colSlots|
  {
    if rep.Some? then st.(colSlots := st.colSlots[c := rep]) else st
  }

  /** The state in which a source packet with sequence number s is stored:
      the same one while s is inside an open window; otherwise a cleared
      table whose window is opened at s (UpdataRange, after ClearTable when
      s fell outside the old window). */
  function Restart(st: Store, rows: int, cols: int, s: int): (st0: Store)
    requires Good(st, rows, cols) && IsSeq(s)
    ensures Good(st0, rows, cols) && st0.base != -1 && InTable(st0, rows, cols, s)
  {
    if st.base != -1 && InTable(st, rows, cols, s) then st
    else
      OpenedGood(rows, cols, s);
      Cleared(rows, cols).(base := s)
  }

  /** A cleared table whose window is opened at s is well formed and holds s. */
  lemma OpenedGood(rows: int, cols: int, s: int)
    requires Dims(rows, cols) && IsSeq(s)
    ensures Good(Cleared(rows, cols).(base := s), rows, cols)
    ensures InTable(Cleared(rows, cols).(base := s), rows, cols, s)
  {
    assert rows * cols <= 1024 by { MulMono(rows, 32, cols); MulMono(cols, 32, 32); }
    WindowMembership(s, rows * cols, s);
  }

  /** RecvPacketAndMakeRepair (BaseClass/FEC/FEC2DTable.cpp:259-319): the
      new state and the repair packets handed to the FEC callback. */
  function MakeRepairStep(st: Store, rows: int, cols: int, p: Packet): (res: (Store, seq<Packet>))
    requires Good(st, rows, cols) && MediaSized(p)
    ensures Good(res.0, rows, cols)
  {
    StoreSource(Restart(st, rows, cols, SeqOf(p)), rows, cols, p)
  }

  /** The packet goes into the empty cell of its sequence number (a packet
      whose cell is taken is dropped), then its row and column are offered
      for a repair packet. */
  function StoreSource(st0: Store, rows: int, cols: int, p: Packet): (res: (Store, seq<Packet>))
    requires Good(st0, rows, cols) && st0.base != -1 && MediaSized(p) && InTable(st0, rows, cols, SeqOf(p))
    ensures Good(res.0, rows, cols)
  {
    var s := SeqOf(p);
    InTableCell(st0, rows, cols, s);
    var rc := CellOf(st0.base, s, cols);
    if st0.grid[rc.0][rc.1].Some? then (st0, [])
    else
      PlaceGood(st0, rows, cols, rc.0, rc.1, p);
      EmitAfter(st0.(grid := Place(st0.grid, rc.0, rc.1, p)), rows, cols, rc.0, rc.1)
  }

  /** After a packet lands in (r, c): the row's repair packet is built and
      kept, then the column's (BaseClass/FEC/FEC2DTable.cpp:297-310). */
  function EmitAfter(st1: Store, rows: int, cols: int, r: int, c: int): (res: (Store, seq<Packet>))
    requires Good(st1, rows, cols) && st1.base != -1 && 0 <= r < rows && 0 <= c < cols
    ensures Good(res.0, rows, cols)
  {
    var rowRep := BuildRow(st1, rows, cols, r);
    WithRowGood(st1, rows, cols, r);
    var st2 := WithRow(st1, r, rowRep);
    var colRep := BuildColumn(st2, rows, cols, c);
    WithColumnGood(st2, rows, cols, c);
    (WithColumn(st2, c, colRep), OptList(rowRep) + OptList(colRep))
  }

  /** Storing a source packet into the empty cell of its sequence number keeps
      the state well formed. */
  lemma PlaceGood(st: Store, rows: int, cols: int, r: int, c: int, p: Packet)
    requires Good(st, rows, cols) && st.base != -1 && 0 <= r < rows && 0 <= c < cols
    requires MediaSized(p) && SeqOf(p) == SeqAt(st.base, r, c, cols)
    ensures Good(st.(grid := Place(st.grid, r, c, p)), rows, cols)
  {
  }

  lemma WithRowGood(st: Store, rows: int, cols: int, r: int)
    requires Good(st, rows, cols) && st.base != -1 && 0 <= r < rows
    ensures Good(WithRow(st, r, BuildRow(st, rows, cols, r)), rows, cols)
  {
  }

  lemma WithColumnGood(st: Store, rows: int, cols: int, c: int)
    requires Good(st, rows, cols) && st.base != -1 && 0 <= c < cols
    ensures Good(WithColumn(st, c, BuildColumn(st, rows, cols, c)), rows, cols)
  {
  }

  /** The sender's insertion keeps the state well formed and always stores the
      packet: afterwards its cell, in a window that holds its sequence number,
      holds it (or the packet that was there first), and the packet's row and
      column hold everything they held before. */
  lemma MakeRepairStores(st: Store, rows: int, cols: int, p: Packet)
    requires Good(st, rows, cols) && MediaSized(p)
    ensures var st' := MakeRepairStep(st, rows, cols, p).0;
            Good(st', rows, cols) && st'.base != -1 && InTable(st', rows, cols, SeqOf(p)) &&
            var rc := CellOf(st'.base, SeqOf(p), cols);
            rc.0 < rows && st'.grid[rc.0][rc.1].Some? && SeqOf(st'.grid[rc.0][rc.1].value) == SeqOf(p)
  {
    var s := SeqOf(p);
    var st0 := Restart(st, rows, cols, s);
    InTableCell(st0, rows, cols, s);
    var rc := CellOf(st0.base, s, cols);
    if st0.grid[rc.0][rc.1].None? {
      var st1 := st0.(grid := Place(st0.grid, rc.0, rc.1, p));
      PlaceGood(st0, rows, cols, rc.0, rc.1, p);
      EmitKeepsCells(st1, rows, cols, rc.0, rc.1);
    }
  }

  /** Building repair packets changes only the repair slots. */
  lemma EmitKeepsCells(st1: Store, rows: int, cols: int, r: int, c: int)
    requires Good(st1, rows, cols) && st1.base != -1 && 0 <= r < rows && 0 <= c < cols
    ensures var st3 := EmitAfter(st1, rows, cols, r, c).0;
            st3.base == st1.base && st3.grid == st1.grid
  {
  }

  /** A packet whose sequence number is inside the open window never clears
      the table: every cell keeps its packet. */
  lemma MakeRepairKeeps(st: Store, rows: int, cols: int, p: Packet)
    requires Good(st, rows, cols) && MediaSized(p) && st.base != -1 && InTable(st, rows, cols, SeqOf(p))
    ensures var st' := MakeRepairStep(st, rows, cols, p).0;
            st'.base == st.base && Rect(st'.grid, rows, cols) &&
            forall r, c :: 0 <= r < rows && 0 <= c < cols && st.grid[r][c].Some? ==> st'.grid[r][c] == st.grid[r][c]
  {
    var s := SeqOf(p);
    assert Restart(st, rows, cols, s) == st;
    InTableCell(st, rows, cols, s);
    var rc := CellOf(st.base, s, cols);
    if st.grid[rc.0][rc.1].None? {
      PlaceGood(st, rows, cols, rc.0, rc.1, p);
      EmitKeepsCells(st.(grid := Place(st.grid, rc.0, rc.1, p)), rows, cols, rc.0, rc.1);
    }
  }

  /** A packet outside the open window restarts the table at it: the old
      cells and repair slots are dropped and the window opens at its sequence
      number (ClearTable and one recursive call, BaseClass/FEC/FEC2DTable.cpp:312-316). */
  lemma MakeRepairRestarts(st: Store, rows: int, cols: int, p: Packet)
    requires Good(st, rows, cols) && MediaSized(p)
    requires st.base == -1 || !InTable(st, rows, cols, SeqOf(p))
    ensures var st' := MakeRepairStep(st, rows, cols, p).0;
            st'.base == SeqOf(p) && CellOf(st'.base, SeqOf(p), cols) == (0, 0) &&
            st'.grid[0][0] == Some(p) &&
            forall r, c :: 0 <= r < rows && 0 <= c < cols && (r, c) != (0, 0) ==> st'.grid[r][c].None?
  {
    var s := SeqOf(p);
    var st0 := Restart(st, rows, cols, s);
    assert st0 == Cleared(rows, cols).(base := s);
    assert CellOf(s, s, cols) == (0, 0);
    assert st0.grid[0][0].None?;
    PlaceGood(st0, rows, cols, 0, 0, p);
    var st1 := st0.(grid := Place(st0.grid, 0, 0, p));
    EmitKeepsCells(st1, rows, cols, 0, 0);
    assert MakeRepairStep(st, rows, cols, p) == EmitAfter(st1, rows, cols, 0, 0);
  }

  /** What the sender hands out for row r, between a state whose row slots
      were slots and the state after: the row's repair packet comes first in
      the output exactly when the row is now full and its slot was empty, its
      tags name the row, and it is kept in the slot. */
  predicate RowEmitted(slots: Line, after: Store, out: seq<Packet>, rows: int, cols: int, r: int)
  {
    Dims(rows, cols) && 0 <= r < rows && r < |slots| && Rect(after.grid, rows, cols) && |after.rowSlots| == rows &&
    (Full(after.grid[r]) && slots[r].None? <==>
       |out| > 0 && |out[0]| >= 24 && out[0][22] == (cols + 1) as byte && out[0][23] == (r + 1) as byte) &&
    (Full(after.grid[r]) && slots[r].None? ==> |out| > 0 && after.rowSlots[r] == Some(out[0]))
  }

  /** The same for column c: its repair packet comes last in the output. */
  predicate ColumnEmitted(slots: Line, after: Store, out: seq<Packet>, rows: int, cols: int, c: int)
  {
    Dims(rows, cols) && 0 <= c < cols && c < |slots| && Rect(after.grid, rows, cols) && |after.colSlots| == cols &&
    (Full(Column(after.grid, c)) && slots[c].None? <==>
       |out| > 0 && |out[|out| - 1]| >= 24 &&
       out[|out| - 1][22] == (c + 1) as byte && out[|out| - 1][23] == (rows + 1) as byte) &&
    (Full(Column(after.grid, c)) && slots[c].None? ==> |out| > 0 && after.colSlots[c] == Some(out[|out| - 1]))
  }

  lemma EmitRow(st1: Store, rows: int, cols: int, r: int, c: int)
    requires Good(st1, rows, cols) && st1.base != -1 && 0 <= r < rows && 0 <= c < cols
    ensures var res := EmitAfter(st1, rows, cols, r, c);
            res.0.grid == st1.grid && RowEmitted(st1.rowSlots, res.0, res.1, rows, cols, r)
  {
    var rowRep := BuildRow(st1, rows, cols, r);
    WithRowGood(st1, rows, cols, r);
    var st2 := WithRow(st1, r, rowRep);
    var colRep := BuildColumn(st2, rows, cols, c);
    TagBytes(cols, rows, r, c);
    var out := OptList(rowRep) + OptList(colRep);
    if rowRep.Some? {
      assert out[0] == rowRep.value;
    } else {
      assert out == OptList(colRep);
    }
  }

  /** A row repair packet is handed out exactly when the insertion completes
      the row of an empty slot; it is then kept in that slot, so each row
      yields at most one repair packet until the table restarts. It comes
      first and its tags name the row. A packet whose cell is taken changes
      nothing and yields nothing. */
  lemma MakeRepairEmitsRow(st: Store, rows: int, cols: int, p: Packet)
    requires Good(st, rows, cols) && MediaSized(p)
    ensures var st0 := Restart(st, rows, cols, SeqOf(p));
            var rc := CellOf(st0.base, SeqOf(p), cols);
            var res := MakeRepairStep(st, rows, cols, p);
            0 <= rc.0 < rows && 0 <= rc.1 < cols &&
            (st0.grid[rc.0][rc.1].Some? ==> res == (st0, [])) &&
            (st0.grid[rc.0][rc.1].None? ==> RowEmitted(st0.rowSlots, res.0, res.1, rows, cols, rc.0))
  {
    var s := SeqOf(p);
    var st0 := Restart(st, rows, cols, s);
    var rc := CellOf(st0.base, s, cols);
    MakeRepairUnfold(st, rows, cols, p);
    if st0.grid[rc.0][rc.1].None? {
      EmitRow(st0.(grid := Place(st0.grid, rc.0, rc.1, p)), rows, cols, rc.0, rc.1);
    }
  }

  lemma EmitColumn(st1: Store, rows: int, cols: int, r: int, c: int)
    requires Good(st1, rows, cols) && st1.base != -1 && 0 <= r < rows && 0 <= c < cols
    ensures var res := EmitAfter(st1, rows, cols, r, c);
            |res.1| <= 2 && (forall i :: 0 <= i < |res.1| ==> |res.1[i]| >= 24) &&
            ColumnEmitted(st1.colSlots, res.0, res.1, rows, cols, c)
  {
    var rowRep := BuildRow(st1, rows, cols, r);
    WithRowGood(st1, rows, cols, r);
    var st2 := WithRow(st1, r, rowRep);
    var colRep := BuildColumn(st2, rows, cols, c);
    TagBytes(cols, rows, r, c);
    var out := OptList(rowRep) + OptList(colRep);
    PairLists(rowRep, colRep);
    if colRep.Some? {
      assert out[|out| - 1] == colRep.value;
    } else if rowRep.Some? {
      assert out == [rowRep.value];
    } else {
      assert out == [];
    }
  }

  /** At most two repair packets, each with a full FEC header. */
  lemma PairLists(a: Option<Packet>, b: Option<Packet>)
    requires a.Some? ==> |a.value| >= 24
    requires b.Some? ==> |b.value| >= 24
    ensures var out := OptList(a) + OptList(b);
            |out| <= 2 && forall i :: 0 <= i < |out| ==> |out[i]| >= 24
  {
  }

  /** The same for the column: its repair packet comes last and its tags
      name the column. */
  lemma MakeRepairEmitsColumn(st: Store, rows: int, cols: int, p: Packet)
    requires Good(st, rows, cols) && MediaSized(p)
    ensures var st0 := Restart(st, rows, cols, SeqOf(p));
            var rc := CellOf(st0.base, SeqOf(p), cols);
            var res := MakeRepairStep(st, rows, cols, p);
            0 <= rc.0 < rows && 0 <= rc.1 < cols &&
            (st0.grid[rc.0][rc.1].None? ==> ColumnEmitted(st0.colSlots, res.0, res.1, rows, cols, rc.1))
  {
    var s := SeqOf(p);
    var st0 := Restart(st, rows, cols, s);
    var rc := CellOf(st0.base, s, cols);
    MakeRepairUnfold(st, rows, cols, p);
    if st0.grid[rc.0][rc.1].None? {
      EmitColumn(st0.(grid := Place(st0.grid, rc.0, rc.1, p)), rows, cols, rc.0, rc.1);
    }
  }

  /** The sender hands out at most two repair packets per source packet,
      each with the full 24 bytes of RTP and FEC header. */
  lemma MakeRepairOutputSized(st: Store, rows: int, cols: int, p: Packet)
    requires Good(st, rows, cols) && MediaSized(p)
    ensures var out := MakeRepairStep(st, rows, cols, p).1;
            |out| <= 2 && forall i :: 0 <= i < |out| ==> |out[i]| >= 24
  {
    var s := SeqOf(p);
    var st0 := Restart(st, rows, cols, s);
    var rc := CellOf(st0.base, s, cols);
    MakeRepairUnfold(st, rows, cols, p);
    if st0.grid[rc.0][rc.1].None? {
      EmitColumn(st0.(grid := Place(st0.grid, rc.0, rc.1, p)), rows, cols, rc.0, rc.1);
    }
  }

  /** MakeRepairStep, one level unfolded. */
  lemma MakeRepairUnfold(st: Store, rows: int, cols: int, p: Packet)
    requires Good(st, rows, cols) && MediaSized(p)
    ensures var st0 := Restart(st, rows, cols, SeqOf(p));
            var rc := CellOf(st0.base, SeqOf(p), cols);
            0 <= rc.0 < rows && 0 <= rc.1 < cols &&
            (st0.grid[rc.0][rc.1].Some? ==> MakeRepairStep(st, rows, cols, p) == (st0, [])) &&
            (st0.grid[rc.0][rc.1].None? ==>
               Good(st0.(grid := Place(st0.grid, rc.0, rc.1, p)), rows, cols) &&
               MakeRepairStep(st, rows, cols, p) == EmitAfter(st0.(grid := Place(st0.grid, rc.0, rc.1, p)), rows, cols, rc.0, rc.1))
  {
    var s := SeqOf(p);
    var st0 := Restart(st, rows, cols, s);
    InTableCell(st0, rows, cols, s);
    var rc := CellOf(st0.base, s, cols);
    if st0.grid[rc.0][rc.1].None? {
      PlaceGood(st0, rows, cols, rc.0, rc.1, p);
    }
  }

  /** The tag bytes are distinct from the ones the other direction uses:
      a row packet carries cols + 1 in byte 22, which no column index + 1
      reaches, and a column packet carries rows + 1 in byte 23. */
  lemma TagBytes(cols: int, rows: int, r: int, c: int)
    requires Dims(rows, cols) && 0 <= r < rows && 0 <= c < cols
    ensures (cols + 1) as byte != (c + 1) as byte
    ensures (rows + 1) as byte != (r + 1) as byte
  {
    ByteValue(cols + 1);
    ByteValue(c + 1);
    ByteValue(rows + 1);
    ByteValue(r + 1);
  }

  /** A repair packet carries the 24 header bytes; any other packet the 12 of
      an RTP header and a length the 16-bit size fields hold. */
  predicate Acceptable(p: Packet, pt: byte)
  {
    |p| >= 12 && (if PayloadTypeOf(p) == pt then |p| >= 24 else MediaSized(p))
  }

  /** IsCanRecvPacket (BaseClass/FEC/FEC2DTable.cpp:583-618): a repair packet
      when the table is cleared or bytes 20-21 name its base; a source packet
      when its sequence number is in the window. */
  predicate CanRecv(st: Store, rows: int, cols: int, pt: byte, p: Packet)
    requires Dims(rows, cols) && Acceptable(p, pt)
  {
    if PayloadTypeOf(p) == pt then st.base == -1 || Be16(p[20], p[21]) == st.base
    else InTable(st, rows, cols, SeqOf(p))
  }

  /** A line tag as the receiver reads it: the byte minus one, in uint32_t. */
  function TagIndex(b: byte): int
  {
    (b as int - 1) % U32
  }

  /** The tags a table writes read back as the line they name: a row repair
      packet names column index cols and its row, a column repair packet its
      column and row index rows. */
  lemma TagIndexBack(n: int)
    requires 0 <= n <= MaxFecLine
    ensures TagIndex((n + 1) as byte) == n
  {
    ByteValue(n + 1);
  }

  /** TryRepairByRow with the threshold the layout calls for (one packet
      short of a full row, cols - 1) and a stored repair packet: the rebuilt
      packet, carrying the sequence number of the empty cell. */
  function RowRecover(st: Store, rows: int, cols: int, r: int): Option<Packet>
    requires Good(st, rows, cols) && 0 <= r < rows
  {
    if Count(st.grid[r]) == cols - 1 && st.rowSlots[r].Some? then
      AddressedRowAny(st, rows, cols, r);
      LineRecover(st.grid[r], st.rowSlots[r].value, SeqAt(st.base, r, LastEmpty(st.grid[r]), cols))
    else None
  }

  /** TryRepairByColumn with the threshold rows - 1 and the sequence number
      written after the packet is rebuilt. */
  function ColumnRecover(st: Store, rows: int, cols: int, c: int): Option<Packet>
    requires Good(st, rows, cols) && 0 <= c < cols
  {
    var l := Column(st.grid, c);
    if Count(l) == rows - 1 && st.colSlots[c].Some? then
      AddressedColumnAny(st, rows, cols, c);
      LineRecover(l, st.colSlots[c].value, SeqAt(st.base, LastEmpty(l), c, cols))
    else None
  }

  lemma AddressedRowAny(st: Store, rows: int, cols: int, r: int)
    requires Good(st, rows, cols) && 0 <= r < rows
    ensures LineSized(st.grid[r])
  {
  }

  lemma AddressedColumnAny(st: Store, rows: int, cols: int, c: int)
    requires Good(st, rows, cols) && 0 <= c < cols
    ensures LineSized(Column(st.grid, c))
  {
  }

  /** RecvPacketAndTryRepair (BaseClass/FEC/FEC2DTable.cpp:494-581): the new
      state, the rebuilt packets handed to the RTP callback in order, and
      the return code. A repair packet goes into the slot its tags name (the
      first one into an empty slot; tags naming no line give -2, -3 or -4,
      after a cleared table has taken its base from bytes 20-21); a source
      packet into the empty cell of its sequence number. Then the packet's
      column and row are tried for a repair; a rebuilt packet is handed out
      and received in turn, at most fuel levels deep. */
  function TryRepairStep(st: Store, rows: int, cols: int, pt: byte, p: Packet, fuel: nat): (res: (Store, seq<Packet>, int))
    requires Good(st, rows, cols) && Acceptable(p, pt)
    ensures Good(res.0, rows, cols)
    decreases fuel, 4
  {
    if !CanRecv(st, rows, cols, pt, p) then (st, [], -1)
    else if PayloadTypeOf(p) == pt then RepairArrives(st, rows, cols, pt, p, fuel)
    else
      var res := SourceArrives(st, rows, cols, pt, p, fuel);
      (res.0, res.1, 0)
  }

  /** The repair-packet branch of RecvPacketAndTryRepair
      (BaseClass/FEC/FEC2DTable.cpp:505-551): a cleared table first takes
      its base from bytes 20-21. */
  function RepairArrives(st: Store, rows: int, cols: int, pt: byte, p: Packet, fuel: nat): (res: (Store, seq<Packet>, int))
    requires Good(st, rows, cols) && Acceptable(p, pt) && PayloadTypeOf(p) == pt
    requires CanRecv(st, rows, cols, pt, p)
    ensures Good(res.0, rows, cols)
    decreases fuel, 3
  {
    FileRepair(AdoptBase(st, p), rows, cols, pt, p, fuel)
  }

  /** The state once a repair packet has set the base of a cleared table. */
  function AdoptBase(st: Store, p: Packet): (st0: Store)
    requires |p| >= 24
  {
    if st.base == -1 then st.(base := Be16(p[20], p[21])) else st
  }

  /** The packet's tags name its line: a row repair packet goes into an
      empty row slot and the row is tried, a column repair packet likewise;
      tags naming no line give -2, -3 or -4. After a row repair packet the
      source also calls TryRepairByColumn with the column index equal to
      the number of columns (BaseClass/FEC/FEC2DTable.cpp:562), and after a
      column repair packet TryRepairByRow with the row index equal to the
      number of rows (FEC2DTable.cpp:571): both read past the end of the
      counters, an undefined read. Only the line the tags name is tried
      here. */
  function FileRepair(st0: Store, rows: int, cols: int, pt: byte, p: Packet, fuel: nat): (res: (Store, seq<Packet>, int))
    requires Good(st0, rows, cols) && st0.base != -1 && |p| >= 24
    ensures Good(res.0, rows, cols)
    decreases fuel, 2
  {
    var col := TagIndex(p[22]);
    var row := TagIndex(p[23]);
    if col == cols then
      if row >= rows then (st0, [], -2)
      else
        var st1 := st0.(rowSlots := st0.rowSlots[row := StoreRepair(st0.rowSlots[row], p)]);
        var res := AfterRow(st1, rows, cols, pt, row, fuel);
        (res.0, res.1, 0)
    else if row == rows then
      if col >= cols then (st0, [], -3)
      else
        var st1 := st0.(colSlots := st0.colSlots[col := StoreRepair(st0.colSlots[col], p)]);
        var res := AfterColumn(st1, rows, cols, pt, col, fuel);
        (res.0, res.1, 0)
    else (st0, [], -4)
  }

  /** The source-packet branch (BaseClass/FEC/FEC2DTable.cpp:552-578): the
      packet goes into its cell if that is empty, then its column and its
      row are tried. */
  function SourceArrives(st: Store, rows: int, cols: int, pt: byte, p: Packet, fuel: nat): (res: (Store, seq<Packet>))
    requires Good(st, rows, cols) && Acceptable(p, pt) && PayloadTypeOf(p) != pt
    requires CanRecv(st, rows, cols, pt, p)
    ensures Good(res.0, rows, cols)
    decreases fuel, 2
  {
    var s := SeqOf(p);
    InTableCell(st, rows, cols, s);
    var rc := CellOf(st.base, s, cols);
    var st1 := if st.grid[rc.0][rc.1].None? then st.(grid := Place(st.grid, rc.0, rc.1, p)) else st;
    var res1 := AfterColumn(st1, rows, cols, pt, rc.1, fuel);
    var res2 := AfterRow(res1.0, rows, cols, pt, rc.0, fuel);
    (res2.0, res1.1 + res2.1)
  }

  /** TryRepairByRow and what follows a rebuilt packet: it is handed out and
      received by the table in turn (while fuel lasts, and while it is a
      packet the table can read). */
  function AfterRow(st: Store, rows: int, cols: int, pt: byte, r: int, fuel: nat): (res: (Store, seq<Packet>))
    requires Good(st, rows, cols) && 0 <= r < rows
    ensures Good(res.0, rows, cols)
    decreases fuel, 1
  {
    match RowRecover(st, rows, cols, r)
    case None => (st, [])
    case Some(f) => Forward(st, rows, cols, pt, f, fuel)
  }

  function AfterColumn(st: Store, rows: int, cols: int, pt: byte, c: int, fuel: nat): (res: (Store, seq<Packet>))
    requires Good(st, rows, cols) && 0 <= c < cols
    ensures Good(res.0, rows, cols)
    decreases fuel, 1
  {
    match ColumnRecover(st, rows, cols, c)
    case None => (st, [])
    case Some(f) => Forward(st, rows, cols, pt, f, fuel)
  }

  /** A rebuilt packet f is handed to the RTP callback and, while fuel
      lasts and f is a packet the table can read, received in turn. */
  function Forward(st: Store, rows: int, cols: int, pt: byte, f: Packet, fuel: nat): (res: (Store, seq<Packet>))
    requires Good(st, rows, cols)
    ensures Good(res.0, rows, cols)
    decreases fuel, 0
  {
    if fuel == 0 || !Acceptable(f, pt) then (st, [f])
    else
      var res := TryRepairStep(st, rows, cols, pt, f, fuel - 1);
      (res.0, [f] + res.1)
  }

  /** st' holds everything st holds: the same base once one is set, and the
      same packet in every filled cell and every filled repair slot. */
  predicate Extends(st: Store, st': Store, rows: int, cols: int)
  {
    Rect(st.grid, rows, cols) && Rect(st'.grid, rows, cols) &&
    |st.rowSlots| == |st'.rowSlots| == rows && |st.colSlots| == |st'.colSlots| == cols &&
    (st.base != -1 ==> st'.base == st.base) &&
    (forall r, c :: 0 <= r < rows && 0 <= c < cols && st.grid[r][c].Some? ==> st'.grid[r][c] == st.grid[r][c]) &&
    (forall r :: 0 <= r < rows && st.rowSlots[r].Some? ==> st'.rowSlots[r] == st.rowSlots[r]) &&
    (forall c :: 0 <= c < cols && st.colSlots[c].Some? ==> st'.colSlots[c] == st.colSlots[c])
  }

  lemma ExtendsTrans(a: Store, b: Store, c: Store, rows: int, cols: int)
    requires Extends(a, b, rows, cols) && Extends(b, c, rows, cols)
    ensures Extends(a, c, rows, cols)
  {
  }

  /** A state extends itself, and taking a base in a cleared state extends it. */
  lemma ExtendsBase(st: Store, rows: int, cols: int, b: int)
    requires Good(st, rows, cols) && (st.base == -1 || b == st.base)
    ensures Extends(st, st, rows, cols) && Extends(st, st.(base := b), rows, cols)
  {
  }

  /** The receiver never loses anything: no packet or repair packet is ever
      dropped or replaced, and the base never moves once set. */
  lemma {:induction false} TryRepairExtends(st: Store, rows: int, cols: int, pt: byte, p: Packet, fuel: nat)
    requires Good(st, rows, cols) && Acceptable(p, pt)
    ensures Extends(st, TryRepairStep(st, rows, cols, pt, p, fuel).0, rows, cols)
    decreases fuel, 4
  {
    if !CanRecv(st, rows, cols, pt, p) {
      ExtendsBase(st, rows, cols, st.base);
    } else if PayloadTypeOf(p) == pt {
      RepairExtends(st, rows, cols, pt, p, fuel);
    } else {
      SourceExtends(st, rows, cols, pt, p, fuel);
    }
  }

  lemma {:induction false} RepairExtends(st: Store, rows: int, cols: int, pt: byte, p: Packet, fuel: nat)
    requires Good(st, rows, cols) && Acceptable(p, pt) && PayloadTypeOf(p) == pt
    requires CanRecv(st, rows, cols, pt, p)
    ensures Extends(st, RepairArrives(st, rows, cols, pt, p, fuel).0, rows, cols)
    decreases fuel, 3
  {
    var st0 := AdoptBase(st, p);
    ExtendsBase(st, rows, cols, st0.base);
    FileRepairExtends(st0, rows, cols, pt, p, fuel);
    ExtendsTrans(st, st0, FileRepair(st0, rows, cols, pt, p, fuel).0, rows, cols);
  }

  lemma {:induction false} FileRepairExtends(st0: Store, rows: int, cols: int, pt: byte, p: Packet, fuel: nat)
    requires Good(st0, rows, cols) && st0.base != -1 && |p| >= 24
    ensures Extends(st0, FileRepair(st0, rows, cols, pt, p, fuel).0, rows, cols)
    decreases fuel, 2
  {
    ExtendsBase(st0, rows, cols, st0.base);
    var col := TagIndex(p[22]);
    var row := TagIndex(p[23]);
    if col == cols && row < rows {
      var st1 := st0.(rowSlots := st0.rowSlots[row := StoreRepair(st0.rowSlots[row], p)]);
      AfterRowExtends(st1, rows, cols, pt, row, fuel);
      ExtendsTrans(st0, st1, AfterRow(st1, rows, cols, pt, row, fuel).0, rows, cols);
    } else if col != cols && row == rows && col < cols {
      var st1 := st0.(colSlots := st0.colSlots[col := StoreRepair(st0.colSlots[col], p)]);
      AfterColumnExtends(st1, rows, cols, pt, col, fuel);
      ExtendsTrans(st0, st1, AfterColumn(st1, rows, cols, pt, col, fuel).0, rows, cols);
    }
  }

  lemma {:induction false} SourceExtends(st: Store, rows: int, cols: int, pt: byte, p: Packet, fuel: nat)
    requires Good(st, rows, cols) && Acceptable(p, pt) && PayloadTypeOf(p) != pt
    requires CanRecv(st, rows, cols, pt, p)
    ensures Extends(st, SourceArrives(st, rows, cols, pt, p, fuel).0, rows, cols)
    decreases fuel, 2
  {
    var s := SeqOf(p);
    InTableCell(st, rows, cols, s);
    var rc := CellOf(st.base, s, cols);
    var st1 := if st.grid[rc.0][rc.1].None? then st.(grid := Place(st.grid, rc.0, rc.1, p)) else st;
    assert Extends(st, st1, rows, cols);
    var res1 := AfterColumn(st1, rows, cols, pt, rc.1, fuel);
    AfterColumnExtends(st1, rows, cols, pt, rc.1, fuel);
    AfterRowExtends(res1.0, rows, cols, pt, rc.0, fuel);
    ExtendsTrans(st, st1, res1.0, rows, cols);
    ExtendsTrans(st, res1.0, AfterRow(res1.0, rows, cols, pt, rc.0, fuel).0, rows, cols);
  }

  lemma {:induction false} AfterRowExtends(st: Store, rows: int, cols: int, pt: byte, r: int, fuel: nat)
    requires Good(st, rows, cols) && 0 <= r < rows
    ensures Extends(st, AfterRow(st, rows, cols, pt, r, fuel).0, rows, cols)
    decreases fuel, 1
  {
    match RowRecover(st, rows, cols, r)
    case None =>
      ExtendsBase(st, rows, cols, st.base);
    case Some(f) =>
      ForwardExtends(st, rows, cols, pt, f, fuel);
  }

  lemma {:induction false} AfterColumnExtends(st: Store, rows: int, cols: int, pt: byte, c: int, fuel: nat)
    requires Good(st, rows, cols) && 0 <= c < cols
    ensures Extends(st, AfterColumn(st, rows, cols, pt, c, fuel).0, rows, cols)
    decreases fuel, 1
  {
    match ColumnRecover(st, rows, cols, c)
    case None =>
      ExtendsBase(st, rows, cols, st.base);
    case Some(f) =>
      ForwardExtends(st, rows, cols, pt, f, fuel);
  }

  lemma {:induction false} ForwardExtends(st: Store, rows: int, cols: int, pt: byte, f: Packet, fuel: nat)
    requires Good(st, rows, cols)
    ensures Extends(st, Forward(st, rows, cols, pt, f, fuel).0, rows, cols)
    decreases fuel, 0
  {
    if fuel > 0 && Acceptable(f, pt) {
      TryRepairExtends(st, rows, cols, pt, f, fuel - 1);
    } else {
      ExtendsBase(st, rows, cols, st.base);
    }
  }

  /** Every packet the receiver hands to the RTP callback is a rebuilt
      media packet: at least an RTP header, and no longer than its 16-bit
      length fields allow. */
  lemma {:induction false} TryRepairSized(st: Store, rows: int, cols: int, pt: byte, p: Packet, fuel: nat)
    requires Good(st, rows, cols) && Acceptable(p, pt)
    ensures AllMediaSized(TryRepairStep(st, rows, cols, pt, p, fuel).1)
    decreases fuel, 4
  {
    if CanRecv(st, rows, cols, pt, p) {
      if PayloadTypeOf(p) == pt {
        FileRepairSized(AdoptBase(st, p), rows, cols, pt, p, fuel);
      } else {
        SourceSized(st, rows, cols, pt, p, fuel);
      }
    }
  }

  lemma {:induction false} FileRepairSized(st0: Store, rows: int, cols: int, pt: byte, p: Packet, fuel: nat)
    requires Good(st0, rows, cols) && st0.base != -1 && |p| >= 24
    ensures AllMediaSized(FileRepair(st0, rows, cols, pt, p, fuel).1)
    decreases fuel, 2
  {
    var col := TagIndex(p[22]);
    var row := TagIndex(p[23]);
    if col == cols && row < rows {
      var st1 := st0.(rowSlots := st0.rowSlots[row := StoreRepair(st0.rowSlots[row], p)]);
      AfterRowSized(st1, rows, cols, pt, row, fuel);
    } else if col != cols && row == rows && col < cols {
      var st1 := st0.(colSlots := st0.colSlots[col := StoreRepair(st0.colSlots[col], p)]);
      AfterColumnSized(st1, rows, cols, pt, col, fuel);
    }
  }

  lemma {:induction false} SourceSized(st: Store, rows: int, cols: int, pt: byte, p: Packet, fuel: nat)
    requires Good(st, rows, cols) && Acceptable(p, pt) && PayloadTypeOf(p) != pt
    requires CanRecv(st, rows, cols, pt, p)
    ensures AllMediaSized(SourceArrives(st, rows, cols, pt, p, fuel).1)
    decreases fuel, 2
  {
    var s := SeqOf(p);
    InTableCell(st, rows, cols, s);
    var rc := CellOf(st.base, s, cols);
    var st1 := if st.grid[rc.0][rc.1].None? then st.(grid := Place(st.grid, rc.0, rc.1, p)) else st;
    var res1 := AfterColumn(st1, rows, cols, pt, rc.1, fuel);
    AfterColumnSized(st1, rows, cols, pt, rc.1, fuel);
    AfterRowSized(res1.0, rows, cols, pt, rc.0, fuel);
  }

  lemma {:induction false} AfterRowSized(st: Store, rows: int, cols: int, pt: byte, r: int, fuel: nat)
    requires Good(st, rows, cols) && 0 <= r < rows
    ensures AllMediaSized(AfterRow(st, rows, cols, pt, r, fuel).1)
    decreases fuel, 1
  {
    match RowRecover(st, rows, cols, r)
    case None =>
    case Some(f) =>
      ForwardSized(st, rows, cols, pt, f, fuel);
  }

  lemma {:induction false} AfterColumnSized(st: Store, rows: int, cols: int, pt: byte, c: int, fuel: nat)
    requires Good(st, rows, cols) && 0 <= c < cols
    ensures AllMediaSized(AfterColumn(st, rows, cols, pt, c, fuel).1)
    decreases fuel, 1
  {
    match ColumnRecover(st, rows, cols, c)
    case None =>
    case Some(f) =>
      ForwardSized(st, rows, cols, pt, f, fuel);
  }

  lemma {:induction false} ForwardSized(st: Store, rows: int, cols: int, pt: byte, f: Packet, fuel: nat)
    requires Good(st, rows, cols) && MediaSized(f)
    ensures AllMediaSized(Forward(st, rows, cols, pt, f, fuel).1)
    decreases fuel, 0
  {
    if fuel > 0 && Acceptable(f, pt) {
      TryRepairSized(st, rows, cols, pt, f, fuel - 1);
    }
  }

  /** A source packet the table accepts ends up in its cell (or finds the
      cell already holding its sequence number), and the call returns 0. */
  lemma TryRepairStoresSource(st: Store, rows: int, cols: int, pt: byte, p: Packet, fuel: nat)
    requires Good(st, rows, cols) && Acceptable(p, pt) && PayloadTypeOf(p) != pt
    requires CanRecv(st, rows, cols, pt, p)
    ensures st.base != -1
    ensures var res := TryRepairStep(st, rows, cols, pt, p, fuel);
            var rc := CellOf(st.base, SeqOf(p), cols);
            res.2 == 0 && rc.0 < rows && res.0.grid[rc.0][rc.1].Some? &&
            SeqOf(res.0.grid[rc.0][rc.1].value) == SeqOf(p) &&
            (st.grid[rc.0][rc.1].None? ==> res.0.grid[rc.0][rc.1] == Some(p))
  {
    var s := SeqOf(p);
    InTableCell(st, rows, cols, s);
    var rc := CellOf(st.base, s, cols);
    var st1 := if st.grid[rc.0][rc.1].None? then st.(grid := Place(st.grid, rc.0, rc.1, p)) else st;
    var res1 := AfterColumn(st1, rows, cols, pt, rc.1, fuel);
    AfterColumnExtends(st1, rows, cols, pt, rc.1, fuel);
    AfterRowExtends(res1.0, rows, cols, pt, rc.0, fuel);
  }

  /** The receiver's tag parse: a repair packet that a table with the same
      dimensions built for row r (tags cols + 1, r + 1) goes to row slot r,
      and one built for column c (tags c + 1, rows + 1) to column slot c;
      the call returns 0. Tags naming no line are refused with -2, -3 or -4. */
  lemma TryRepairTags(st: Store, rows: int, cols: int, pt: byte, p: Packet, fuel: nat)
    requires Good(st, rows, cols) && Acceptable(p, pt) && PayloadTypeOf(p) == pt
    requires CanRecv(st, rows, cols, pt, p)
    ensures var res := TryRepairStep(st, rows, cols, pt, p, fuel);
            var col := TagIndex(p[22]);
            var row := TagIndex(p[23]);
            (res.2 == 0 <==> (col == cols && row < rows) || (col != cols && row == rows && col < cols)) &&
            (col == cols && row >= rows ==> res.2 == -2) &&
            (col != cols && row == rows && col >= cols ==> res.2 == -3) &&
            (col != cols && row != rows ==> res.2 == -4) &&
            (col == cols && row < rows ==> res.0.rowSlots[row] == StoreRepair(st.rowSlots[row], p)) &&
            (col != cols && row == rows && col < cols ==> res.0.colSlots[col] == StoreRepair(st.colSlots[col], p))
  {
    var st0 := AdoptBase(st, p);
    assert TryRepairStep(st, rows, cols, pt, p, fuel) == FileRepair(st0, rows, cols, pt, p, fuel);
    FileRepairTags(st0, rows, cols, pt, p, fuel);
  }

  lemma FileRepairTags(st0: Store, rows: int, cols: int, pt: byte, p: Packet, fuel: nat)
    requires Good(st0, rows, cols) && st0.base != -1 && |p| >= 24
    ensures var res := FileRepair(st0, rows, cols, pt, p, fuel);
            var col := TagIndex(p[22]);
            var row := TagIndex(p[23]);
            (res.2 == 0 <==> (col == cols && row < rows) || (col != cols && row == rows && col < cols)) &&
            (col == cols && row >= rows ==> res.2 == -2) &&
            (col != cols && row == rows && col >= cols ==> res.2 == -3) &&
            (col != cols && row != rows ==> res.2 == -4) &&
            (col == cols && row < rows ==> res.0.rowSlots[row] == StoreRepair(st0.rowSlots[row], p)) &&
            (col != cols && row == rows && col < cols ==> res.0.colSlots[col] == StoreRepair(st0.colSlots[col], p))
  {
    var col := TagIndex(p[22]);
    var row := TagIndex(p[23]);
    if col == cols && row < rows {
      var st1 := st0.(rowSlots := st0.rowSlots[row := StoreRepair(st0.rowSlots[row], p)]);
      AfterRowExtends(st1, rows, cols, pt, row, fuel);
    } else if col != cols && row == rows && col < cols {
      var st1 := st0.(colSlots := st0.colSlots[col := StoreRepair(st0.colSlots[col], p)]);
      AfterColumnExtends(st1, rows, cols, pt, col, fuel);
    }
  }

  /** The two directions meet: a row repair packet built by the sender's
      table for the packets ps, reaching a receiver whose row r holds them
      all but the k-th (with the same base and an empty slot), makes the
      receiver hand out exactly the lost packet first. */
  lemma ReceiverRebuildsRow(st: Store, rows: int, cols: int, pt: byte, r: int, ps: seq<Packet>, k: int, rep: Packet, fuel: nat)
    requires Good(st, rows, cols) && st.base != -1 && 0 <= r < rows && cols > 1
    requires 0 <= k < |ps| && AllMediaSized(ps) && st.grid[r] == Holed(ps, k) && st.rowSlots[r].None?
    requires SeqOf(ps[k]) == SeqAt(st.base, r, k, cols)
    requires ps[k][0] & 0xc0 == 0x80 && ps[k][8..12] == Without(ps, k)[0][8..12]
    requires |rep| >= 24 && RepairFor(rep, ps) && PayloadTypeOf(rep) == pt
    requires Be16(rep[20], rep[21]) == st.base && rep[22] == (cols + 1) as byte && rep[23] == (r + 1) as byte
    ensures Acceptable(rep, pt)
    ensures var res := TryRepairStep(st, rows, cols, pt, rep, fuel);
            res.2 == 0 && |res.1| > 0 && res.1[0] == ps[k]
  {
    SlotFilledGood(st, rows, cols, r, rep);
    var st1 := st.(rowSlots := st.rowSlots[r := Some(rep)]);
    RowRecoverLost(st1, rows, cols, r, ps, k, rep);
    RowRepairArrives(st, rows, cols, pt, r, rep, fuel);
    AfterRowFirst(st1, rows, cols, pt, r, fuel);
  }

  /** Filling an empty row slot with a repair packet keeps the state well formed. */
  lemma SlotFilledGood(st: Store, rows: int, cols: int, r: int, rep: Packet)
    requires Good(st, rows, cols) && st.base != -1 && 0 <= r < rows && |rep| >= 24
    ensures Good(st.(rowSlots := st.rowSlots[r := Some(rep)]), rows, cols)
  {
  }

  /** A row repair packet for the base of a table, with an empty slot, is
      stored there and the row is tried. */
  lemma RowRepairArrives(st: Store, rows: int, cols: int, pt: byte, r: int, rep: Packet, fuel: nat)
    requires Good(st, rows, cols) && st.base != -1 && 0 <= r < rows && st.rowSlots[r].None?
    requires |rep| >= 24 && PayloadTypeOf(rep) == pt
    requires Be16(rep[20], rep[21]) == st.base && rep[22] == (cols + 1) as byte && rep[23] == (r + 1) as byte
    ensures Acceptable(rep, pt) && Good(st.(rowSlots := st.rowSlots[r := Some(rep)]), rows, cols)
    ensures var st1 := st.(rowSlots := st.rowSlots[r := Some(rep)]);
            var res := AfterRow(st1, rows, cols, pt, r, fuel);
            TryRepairStep(st, rows, cols, pt, rep, fuel) == (res.0, res.1, 0)
  {
    TagIndexBack(cols);
    TagIndexBack(r);
    assert CanRecv(st, rows, cols, pt, rep);
    assert AdoptBase(st, rep) == st;
    assert StoreRepair(st.rowSlots[r], rep) == Some(rep);
    assert TryRepairStep(st, rows, cols, pt, rep, fuel) == FileRepair(st, rows, cols, pt, rep, fuel);
  }

  /** A packet the row rebuilds is the first one handed out after it. */
  lemma AfterRowFirst(st: Store, rows: int, cols: int, pt: byte, r: int, fuel: nat)
    requires Good(st, rows, cols) && 0 <= r < rows && RowRecover(st, rows, cols, r).Some?
    ensures var res := AfterRow(st, rows, cols, pt, r, fuel);
            |res.1| > 0 && res.1[0] == RowRecover(st, rows, cols, r).value
  {
  }

  /** The same for a column repair packet reaching a receiver whose column c
      holds the packets ps but the k-th. */
  lemma ReceiverRebuildsColumn(st: Store, rows: int, cols: int, pt: byte, c: int, ps: seq<Packet>, k: int, rep: Packet, fuel: nat)
    requires Good(st, rows, cols) && st.base != -1 && 0 <= c < cols && rows > 1
    requires 0 <= k < |ps| && AllMediaSized(ps) && Column(st.grid, c) == Holed(ps, k) && st.colSlots[c].None?
    requires SeqOf(ps[k]) == SeqAt(st.base, k, c, cols)
    requires ps[k][0] & 0xc0 == 0x80 && ps[k][8..12] == Without(ps, k)[0][8..12]
    requires |rep| >= 24 && RepairFor(rep, ps) && PayloadTypeOf(rep) == pt
    requires Be16(rep[20], rep[21]) == st.base && rep[22] == (c + 1) as byte && rep[23] == (rows + 1) as byte
    ensures Acceptable(rep, pt)
    ensures var res := TryRepairStep(st, rows, cols, pt, rep, fuel);
            res.2 == 0 && |res.1| > 0 && res.1[0] == ps[k]
  {
    ColumnSlotFilledGood(st, rows, cols, c, rep);
    var st1 := st.(colSlots := st.colSlots[c := Some(rep)]);
    ColumnRecoverLost(st1, rows, cols, c, ps, k, rep);
    ColumnRepairArrives(st, rows, cols, pt, c, rep, fuel);
    AfterColumnFirst(st1, rows, cols, pt, c, fuel);
  }

  /** Filling an empty column slot with a repair packet keeps the state well formed. */
  lemma ColumnSlotFilledGood(st: Store, rows: int, cols: int, c: int, rep: Packet)
    requires Good(st, rows, cols) && st.base != -1 && 0 <= c < cols && |rep| >= 24
    ensures Good(st.(colSlots := st.colSlots[c := Some(rep)]), rows, cols)
  {
  }

  /** A column repair packet for the base of a table, with an empty slot, is
      stored there and the column is tried. */
  lemma ColumnRepairArrives(st: Store, rows: int, cols: int, pt: byte, c: int, rep: Packet, fuel: nat)
    requires Good(st, rows, cols) && st.base != -1 && 0 <= c < cols && st.colSlots[c].None?
    requires |rep| >= 24 && PayloadTypeOf(rep) == pt
    requires Be16(rep[20], rep[21]) == st.base && rep[22] == (c + 1) as byte && rep[23] == (rows + 1) as byte
    ensures Acceptable(rep, pt) && Good(st.(colSlots := st.colSlots[c := Some(rep)]), rows, cols)
    ensures var st1 := st.(colSlots := st.colSlots[c := Some(rep)]);
            var res := AfterColumn(st1, rows, cols, pt, c, fuel);
            TryRepairStep(st, rows, cols, pt, rep, fuel) == (res.0, res.1, 0)
  {
    TagIndexBack(c);
    TagIndexBack(rows);
    assert CanRecv(st, rows, cols, pt, rep);
    assert AdoptBase(st, rep) == st;
    assert StoreRepair(st.colSlots[c], rep) == Some(rep);
    assert TryRepairStep(st, rows, cols, pt, rep, fuel) == FileRepair(st, rows, cols, pt, rep, fuel);
  }

  /** A packet the column rebuilds is the first one handed out after it. */
  lemma AfterColumnFirst(st: Store, rows: int, cols: int, pt: byte, c: int, fuel: nat)
    requires Good(st, rows, cols) && 0 <= c < cols && ColumnRecover(st, rows, cols, c).Some?
    ensures var res := AfterColumn(st, rows, cols, pt, c, fuel);
            |res.1| > 0 && res.1[0] == ColumnRecover(st, rows, cols, c).value
  {
  }

  /** The end-to-end round trip of one row: when the row of a table holds the
      packets ps but the k-th, and its slot the repair packet the sender's
      table built for ps, the receiver rebuilds exactly the lost packet
      (version 2, and its SSRC that of the first survivor). */
  lemma RowRecoverLost(st: Store, rows: int, cols: int, r: int, ps: seq<Packet>, k: int, rep: Packet)
    requires Good(st, rows, cols) && 0 <= r < rows && cols > 1
    requires 0 <= k < |ps| && AllMediaSized(ps) && st.grid[r] == Holed(ps, k)
    requires st.rowSlots[r] == Some(rep) && RepairFor(rep, ps)
    requires SeqOf(ps[k]) == SeqAt(st.base, r, k, cols)
    requires ps[k][0] & 0xc0 == 0x80 && ps[k][8..12] == Without(ps, k)[0][8..12]
    ensures RowRecover(st, rows, cols, r) == Some(ps[k])
  {
    FilledHoled(ps, k);
    assert Count(st.grid[r]) == |Without(ps, k)| == cols - 1;
    LineRecoverLost(ps, k, rep);
  }

  /** The same for a column. */
  lemma ColumnRecoverLost(st: Store, rows: int, cols: int, c: int, ps: seq<Packet>, k: int, rep: Packet)
    requires Good(st, rows, cols) && 0 <= c < cols && rows > 1
    requires 0 <= k < |ps| && AllMediaSized(ps) && Column(st.grid, c) == Holed(ps, k)
    requires st.colSlots[c] == Some(rep) && RepairFor(rep, ps)
    requires SeqOf(ps[k]) == SeqAt(st.base, k, c, cols)
    requires ps[k][0] & 0xc0 == 0x80 && ps[k][8..12] == Without(ps, k)[0][8..12]
    ensures ColumnRecover(st, rows, cols, c) == Some(ps[k])
  {
    FilledHoled(ps, k);
    assert Count(Column(st.grid, c)) == |Without(ps, k)| == rows - 1;
    LineRecoverLost(ps, k, rep);
  }

  /** A repair packet the sender's table builds is a repair packet for its line. */
  lemma BuiltRepairFor(ps: seq<Packet>, base: int, t22: byte, t23: byte)
    requires |ps| > 0 && AllMediaSized(ps) && IsSeq(base)
    ensures |RepairPacketOf(ps, base)| >= 24
    ensures RepairFor(Tagged(RepairPacketOf(ps, base), t22, t23), ps)
  {
    RepairPacketFor(ps, base);
    var r := RepairPacketOf(ps, base);
    var t := Tagged(r, t22, t23);
    assert t[24..] == r[24..];
  }

  /** Storing a received repair packet into its slot: only into an empty slot,
      so the first of several copies stays. */
  function StoreRepair(slot: Option<Packet>, p: Packet): Option<Packet>
  {
    if slot.None? then Some(p) else slot
  }

  /** The slot store as written (BaseClass/FEC/FEC2DTable.cpp:524-527,
      537-540): it only overwrites a slot that is already taken. */
  function StoreRepairAsWritten(slot: Option<Packet>, p: Packet): Option<Packet>
  {
    if slot.Some? then Some(p) else slot
  }

  /** A slot fed any sequence of repair packets by a given store. */
  function StoreAll(slot: Option<Packet>, ps: seq<Packet>, asWritten: bool): Option<Packet>
    decreases |ps|
  {
    if |ps| == 0 then slot
    else
      var s := StoreAll(slot, ps[..|ps| - 1], asWritten);
      if asWritten then StoreRepairAsWritten(s, ps[|ps| - 1]) else StoreRepair(s, ps[|ps| - 1])
  }

  /** As written, a slot that starts empty (every slot of a cleared table)
      stays empty whatever repair packets arrive, so no line is ever repaired. */
  lemma {:induction false} AsWrittenSlotStaysEmpty(ps: seq<Packet>)
    ensures StoreAll(None, ps, true) == None
    decreases |ps|
  {
    if |ps| > 0 {
      AsWrittenSlotStaysEmpty(ps[..|ps| - 1]);
    }
  }

  /** With the corrected store, the first repair packet that reaches an empty
      slot is the one it keeps. */
  lemma {:induction false} SlotKeepsFirst(ps: seq<Packet>)
    requires |ps| > 0
    ensures StoreAll(None, ps, false) == Some(ps[0])
    decreases |ps|
  {
    if |ps| > 1 {
      SlotKeepsFirst(ps[..|ps| - 1]);
    }
  }

  /** TryRepairByRow's guard as written (BaseClass/FEC/FEC2DTable.cpp:623):
      the row counter against rows - 1 rather than cols - 1. */
  predicate RowGuardAsWritten(count: int, rows: int)
  {
    count == rows - 1
  }

  /** TryRepairByColumn as written (BaseClass/FEC/FEC2DTable.cpp:661, 687):
      it demands a column counter of cols and then rows - 1 collected packets
      (the counter is the number collected). */
  predicate ColumnGuardAsWritten(count: int, rows: int, cols: int)
  {
    count == cols && count == rows - 1
  }

  /** TryRepairByRow as written (BaseClass/FEC/FEC2DTable.cpp:620-656): the
      row counter must be rows - 1 and the packets collected cols - 1, so only
      a square table ever repairs a row; the rebuild itself is the one
      RowRecover makes. */
  function RowRecoverAsWritten(st: Store, rows: int, cols: int, r: int): (res: Option<Packet>)
    requires Good(st, rows, cols) && 0 <= r < rows
    ensures res.Some? ==> rows == cols
  {
    var n := Count(st.grid[r]);
    if RowGuardAsWritten(n, rows) && n == cols - 1 then RowRecover(st, rows, cols, r) else None
  }

  /** A row of a 2 x 4 table that lost its k-th packet, with the row's repair
      packet stored: the as-written TryRepairByRow gives nothing, while the
      corrected one rebuilds exactly the lost packet. */
  lemma RowRecoverAsWrittenMisses(st: Store, r: int, ps: seq<Packet>, k: int, rep: Packet)
    requires Good(st, 2, 4) && 0 <= r < 2
    requires 0 <= k < |ps| && AllMediaSized(ps) && st.grid[r] == Holed(ps, k)
    requires st.rowSlots[r] == Some(rep) && RepairFor(rep, ps)
    requires SeqOf(ps[k]) == SeqAt(st.base, r, k, 4)
    requires ps[k][0] & 0xc0 == 0x80 && ps[k][8..12] == Without(ps, k)[0][8..12]
    ensures RowRecoverAsWritten(st, 2, 4, r) == None
    ensures RowRecover(st, 2, 4, r) == Some(ps[k])
  {
    RowRecoverLost(st, 2, 4, r, ps, k, rep);
  }

  /** TryRepairByColumn as written (BaseClass/FEC/FEC2DTable.cpp:658-694): the
      column counter must be cols and the packets collected rows - 1; and the
      sequence number is written only while the result is still null, that
      is never, so the rebuilt packet keeps the zero Repair leaves in bytes
      2-3 (:717). */
  function ColumnRecoverAsWritten(st: Store, rows: int, cols: int, c: int): (res: Option<Packet>)
    requires Good(st, rows, cols) && 0 <= c < cols
    ensures res.Some? ==> cols == rows - 1 && MediaSized(res.value)
  {
    var l := Column(st.grid, c);
    if ColumnGuardAsWritten(Count(l), rows, cols) && st.colSlots[c].Some? then
      AddressedColumnAny(st, rows, cols, c);
      FilledSized(l);
      RecoverPacket(Filled(l), st.colSlots[c].value)
    else None
  }

  /** On a square table (the client's 7 x 7) no column is ever repaired as
      written. */
  lemma ColumnRecoverAsWrittenSquare(st: Store, n: int, c: int)
    requires Good(st, n, n) && 0 <= c < n
    ensures ColumnRecoverAsWritten(st, n, n, c) == None
  {
  }

  /** On a 3 x 2 table, where the as-written column guard can hold, a column
      that lost its k-th packet is rebuilt as written with sequence number 0;
      the corrected ColumnRecover gives the lost packet with its own number. */
  lemma {:induction false} ColumnRecoverAsWrittenSeqZero(st: Store, c: int, ps: seq<Packet>, k: int, rep: Packet)
    requires Good(st, 3, 2) && 0 <= c < 2
    requires 0 <= k < |ps| && AllMediaSized(ps) && Column(st.grid, c) == Holed(ps, k)
    requires st.colSlots[c] == Some(rep) && RepairFor(rep, ps)
    requires SeqOf(ps[k]) == SeqAt(st.base, k, c, 2)
    requires ps[k][0] & 0xc0 == 0x80 && ps[k][8..12] == Without(ps, k)[0][8..12]
    ensures ColumnRecover(st, 3, 2, c) == Some(ps[k])
    ensures ColumnRecoverAsWritten(st, 3, 2, c) == Some(ps[k][2 := 0][3 := 0])
  {
    ColumnRecoverLost(st, 3, 2, c, ps, k, rep);
    FilledHoled(ps, k);
    RecoverLostExactly(ps, k, rep);
    var m := RecoverPacket(Without(ps, k), rep).value;
    assert m[2] == 0 && m[3] == 0;
    assert m == m[2 := ps[k][2]][3 := ps[k][3]][2 := 0][3 := 0];
  }

  /** The length the as-written Repair allocates and fills: the raw length
      field of the repair packet (BaseClass/FEC/FEC2DTable.cpp:703, 711,
      754, 765), not its XOR with the surviving lengths. */
  function RepairLengthAsWritten(repair: Packet): int
    requires |repair| >= 24
  {
    Be16(repair[14], repair[15])
  }

  /** The length sums of a line of two packets. */
  lemma LengthSumsPair(a: Packet, b: Packet)
    requires MediaSized(a) && MediaSized(b)
    ensures AllMediaSized([a, b])
    ensures SumsOf([a, b]).lenHi == HiByte(|a|) ^ HiByte(|b|)
    ensures SumsOf([a, b]).lenLo == LoByte(|a|) ^ LoByte(|b|)
  {
    var ps := [a, b];
    assert MediaSized(ps[0]) && MediaSized(ps[1]);
    SumsLast(ps);
    assert ps[..1] == [a];
    SumsLast([a]);
    assert [a][..0] == [];
  }

  /** A line of a 20-byte and a 30-byte packet that lost the first: the field
      holds 20 xor 30 = 10, so the as-written Repair allocates 10 bytes where
      the lost packet had 20 (and writes its 12-byte header past them). */
  lemma RepairLengthAsWrittenWrong(a: Packet, b: Packet)
    requires |a| == 20 && |b| == 30
    ensures AllMediaSized([a, b]) && |RepairPacketOf([a, b], 0)| >= 24
    ensures RepairLengthAsWritten(RepairPacketOf([a, b], 0)) == 10
    ensures RecoveredLength(Without([a, b], 0), RepairPacketOf([a, b], 0)) == 20
  {
    var ps := [a, b];
    assert MediaSized(ps[0]) && MediaSized(ps[1]);
    RepairPacketFor(ps, 0);
    var r := RepairPacketOf(ps, 0);
    PairLengthField(a, b, r);
    RecoverLength(ps, 0, r);
  }

  /** The length field of a repair packet over a 20-byte and a 30-byte
      packet holds 20 xor 30. */
  lemma PairLengthField(a: Packet, b: Packet, r: Packet)
    requires |a| == 20 && |b| == 30 && AllMediaSized([a, b]) && RepairFor(r, [a, b])
    ensures |r| >= 24 && RepairLengthAsWritten(r) == 10
  {
    LengthSumsPair(a, b);
    SmallLengthBytes();
  }

  lemma SmallLengthBytes()
    ensures HiByte(20) == 0 && HiByte(30) == 0 && LoByte(20) == 20 && LoByte(30) == 30
  {
    ByteValue(20);
    ByteValue(30);
  }
}
