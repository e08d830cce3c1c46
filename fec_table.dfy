/** FEC2DTable (BaseClass/FEC/FEC2DTable.cpp): an R x C grid of packet cells
    with per-row and per-column fill counters, one repair slot per row and
    per column, and a window of accepted sequence numbers. The sender fills
    it with RecvPacketAndMakeRepair, the receiver with RecvPacketAndTryRepair;
    each method is proved to follow its value-level counterpart in module
    FecTableSpec. The two callbacks are the sequences fecOut (repair packets
    built) and rtpOut (packets rebuilt), which the owner drains. */
module FecTable {
  import opened Bytes
  import opened FecRepair
  import opened FecGrid
  import opened FecTableSpec

  /** The cells of a two-dimensional array, row by row. */
  function GridOf(a: array2<Option<Packet>>): (g: Grid)
    reads a
    ensures Rect(g, a.Length0, a.Length1)
    ensures forall r, c :: 0 <= r < a.Length0 && 0 <= c < a.Length1 ==> g[r][c] == a[r, c]
  {
    seq(a.Length0, r requires 0 <= r < a.Length0 reads a =>
      seq(a.Length1, c requires 0 <= c < a.Length1 reads a => a[r, c]))
  }

  /** Storing a source packet into the empty cell of its sequence number and
      counting it in its row and column keeps the invariant. */
  lemma PlaceInv(st: Store, rows: int, cols: int, rc: seq<int>, cc: seq<int>, w: (Range, Range),
                 r: int, c: int, p: Packet)
    requires TableInv(st, rows, cols, rc, cc, w) && st.base != -1 && 0 <= r < rows && 0 <= c < cols
    requires st.grid[r][c].None? && MediaSized(p) && SeqOf(p) == SeqAt(st.base, r, c, cols)
    ensures TableInv(st.(grid := Place(st.grid, r, c, p)), rows, cols, rc[r := rc[r] + 1], cc[c := cc[c] + 1], w)
  {
    PlaceCounters(st.grid, rows, cols, rc, cc, r, c, p);
    PlaceGood(st, rows, cols, r, c, p);
  }

  /** Column c of the grid of t is the array's column c. */
  lemma ColumnOfArray(t: array2<Option<Packet>>, c: int)
    requires 0 <= c < t.Length1
    ensures |Column(GridOf(t), c)| == t.Length0
    ensures forall r :: 0 <= r < t.Length0 ==> Column(GridOf(t), c)[r] == t[r, c]
  {
  }

  /** XORs byte j of every packet of ps (0 past a packet's end) into
      a[j + off], for each j in lo..hi: the accumulation loops of
      CreateRepairPacket and Repair (BaseClass/FEC/FEC2DTable.cpp:351-358,
      :370-381, :727-735, :752-762). Nothing else of a changes. */
  method XorInto(a: array<byte>, ps: seq<Packet>, lo: nat, hi: nat, off: nat)
    requires lo <= hi && hi + off <= a.Length
    modifies a
    ensures forall j :: lo <= j < hi ==> a[j + off] == old(a[j + off]) ^ XorAt(ps, j)
    ensures forall t :: 0 <= t < a.Length && !(lo + off <= t < hi + off) ==> a[t] == old(a[t])
  {
    for i := 0 to |ps|
      invariant forall j :: lo <= j < hi ==> a[j + off] == old(a[j + off]) ^ XorAt(ps[..i], j)
      invariant forall t :: 0 <= t < a.Length && !(lo + off <= t < hi + off) ==> a[t] == old(a[t])
    {
      ghost var upTo := ps[..i + 1];
      for j := lo to hi
        invariant forall j' :: lo <= j' < j ==> a[j' + off] == old(a[j' + off]) ^ XorAt(upTo, j')
        invariant forall j' :: j <= j' < hi ==> a[j' + off] == old(a[j' + off]) ^ XorAt(ps[..i], j')
        invariant forall t :: 0 <= t < a.Length && !(lo + off <= t < hi + off) ==> a[t] == old(a[t])
      {
        XorAtStep(ps, i, j);
        if j < |ps[i]| {
          a[j + off] := a[j + off] ^ ps[i][j];
        }
      }
    }
    assert ps[..|ps|] == ps;
  }

  /** XORs byte j + off of bs into a[j], for each j in lo..hi (the repair
      loop of Repair, BaseClass/FEC/FEC2DTable.cpp:765-768). Nothing else of
      a changes. */
  method XorBytes(a: array<byte>, bs: seq<byte>, lo: nat, hi: nat, off: nat)
    requires lo <= hi <= a.Length && hi + off <= |bs|
    modifies a
    ensures forall j :: lo <= j < hi ==> a[j] == old(a[j]) ^ bs[j + off]
    ensures forall t :: 0 <= t < a.Length && !(lo <= t < hi) ==> a[t] == old(a[t])
  {
    for j := lo to hi
      invariant forall t :: lo <= t < j ==> a[t] == old(a[t]) ^ bs[t + off]
      invariant forall t :: 0 <= t < a.Length && !(lo <= t < j) ==> a[t] == old(a[t])
    {
      a[j] := a[j] ^ bs[j + off];
    }
  }

  /** The header sums of a line: the XOR of the protected RTP header bytes
      0, 1 and 4-7 and of the lengths, one packet at a time (the first loops
      of CreateRepairPacket and Repair, BaseClass/FEC/FEC2DTable.cpp:348-364
      and :697-730; the 16-bit length XOR is kept as its two bytes). */
  method XorHeader(ps: seq<Packet>) returns (x: HeaderSums)
    requires AllMediaSized(ps)
    ensures x == SumsOf(ps)
  {
    x := NoSums;
    assert ps[..0] == [];
    for i := 0 to |ps|
      invariant AllMediaSized(ps[..i]) && x == SumsOf(ps[..i])
    {
      SumsStep(ps, i);
      x := Fold(x, ps[i]);
    }
    assert ps[..|ps|] == ps;
  }

  /** CreateRepairPacket (BaseClass/FEC/FEC2DTable.cpp:321-390): the repair
      packet of a full line ps for the base sequence number base, maxLen + 12
      bytes long, line tags still zero. The 24 header bytes are written from
      the header sums; the payload XOR is accumulated in the zeroed buffer.
      The code stores the result through a freshly made empty shared_ptr
      (:385-387); the model returns the bytes. */
  method CreateRepairPacket(ps: seq<Packet>, maxLen: int, base: int) returns (rep: Packet)
    requires |ps| > 0 && AllMediaSized(ps) && maxLen == MaxLen(ps) && IsSeq(base)
    ensures rep == RepairPacketOf(ps, base)
  {
    assert MediaSized(ps[|ps| - 1]);
    var x := XorHeader(ps);
    var payload := RepairPayload(ps, maxLen);
    rep := RepairHeader(ps[|ps| - 1], x, base) + payload;
  }

  /** Bytes 24 up of a repair packet maxLen + 12 bytes long: byte j + 12 is
      the XOR of byte j over the line, accumulated in a zeroed buffer
      (BaseClass/FEC/FEC2DTable.cpp:370-381). */
  method RepairPayload(ps: seq<Packet>, maxLen: int) returns (payload: seq<byte>)
    requires |ps| > 0 && AllMediaSized(ps) && maxLen == MaxLen(ps)
    ensures payload == RepairPayloadOf(ps)
  {
    assert MediaSized(ps[0]);
    var a := new byte[maxLen + 12](_ => 0);
    XorInto(a, ps, 12, maxLen, 12);
    payload := a[24..];
    assert forall t :: 0 <= t < maxLen - 12 ==> payload[t] == a[t + 24];
  }

  /** Repair (BaseClass/FEC/FEC2DTable.cpp:694-774): the packet rebuilt from
      the surviving packets sibs of a line and its repair packet, with bytes
      2-3 left zero; none when the derived length does not fit the repair
      packet. The length is the XOR of the surviving lengths with the
      repair packet's length field; the code uses the field alone for the
      allocation and the loops (:711, :754, :765; see RepairLengthAsWritten).
      The code leaves the M/PT and timestamp accumulators uninitialised
      (:720-721); the model starts them at zero. The 12 header bytes are
      written from the header sums, the payload in the zeroed buffer. */
  method Repair(sibs: seq<Packet>, repair: Packet) returns (m: Option<Packet>)
    requires AllMediaSized(sibs) && |repair| >= 24
    ensures m == RecoverPacket(sibs, repair)
  {
    var x := XorHeader(sibs);
    var n := LengthFrom(x, repair);
    if n + 12 > |repair| || n < 12 {
      return None;
    }
    var payload := RecoverPayload(sibs, repair, n);
    m := Some(RecoveredHeader(x, SsrcOf(sibs), repair) + payload);
  }

  /** Bytes 12 up of the rebuilt packet of length n: the survivors' XOR of
      each byte with the matching byte of the repair payload, accumulated in
      a zeroed buffer (BaseClass/FEC/FEC2DTable.cpp:752-768). */
  method RecoverPayload(sibs: seq<Packet>, repair: Packet, n: int) returns (payload: seq<byte>)
    requires 12 <= n && n + 12 <= |repair|
    ensures payload == RecoveredPayload(sibs, repair, n)
  {
    var a := new byte[n](_ => 0);
    XorInto(a, sibs, 12, n, 0);
    XorBytes(a, repair, 12, n, 12);
    payload := a[12..];
    assert forall t :: 0 <= t < n - 12 ==> payload[t] == a[t + 12];
  }

  /** The collection loop of CreateRepairPacketByRow
      (BaseClass/FEC/FEC2DTable.cpp:403-420): the packets of row r from
      column 0 up to the first empty cell and the largest length among them;
      full when no cell was empty. */
  method CollectRow(t: array2<Option<Packet>>, r: int) returns (ps: seq<Packet>, maxLen: int, full: bool)
    requires 0 <= r < t.Length0
    ensures full <==> Full(GridOf(t)[r])
    ensures full ==> ps == Filled(GridOf(t)[r]) && maxLen == MaxLen(ps)
  {
    ghost var l := GridOf(t)[r];
    ps, maxLen := [], 0;
    var c := 0;
    while c < t.Length1 && t[r, c].Some?
      invariant 0 <= c <= t.Length1
      invariant ps == Filled(l[..c]) && Full(l[..c]) && maxLen == MaxLen(ps)
    {
      LineStep(l, c);
      var p := t[r, c].value;
      assert (ps + [p])[..|ps|] == ps;
      maxLen := Max(maxLen, |p|);
      ps := ps + [p];
      c := c + 1;
    }
    full := c == t.Length1;
    assert full ==> l[..c] == l;
  }

  /** The collection loop of CreateRepairPacketByColumn
      (BaseClass/FEC/FEC2DTable.cpp:446-463), down column c. */
  method CollectColumn(t: array2<Option<Packet>>, c: int) returns (ps: seq<Packet>, maxLen: int, full: bool)
    requires 0 <= c < t.Length1
    ensures full <==> Full(Column(GridOf(t), c))
    ensures full ==> ps == Filled(Column(GridOf(t), c)) && maxLen == MaxLen(ps)
  {
    ColumnOfArray(t, c);
    ghost var l := Column(GridOf(t), c);
    ps, maxLen := [], 0;
    var r := 0;
    while r < t.Length0 && t[r, c].Some?
      invariant 0 <= r <= t.Length0
      invariant ps == Filled(l[..r]) && Full(l[..r]) && maxLen == MaxLen(ps)
    {
      LineStep(l, r);
      var p := t[r, c].value;
      assert (ps + [p])[..|ps|] == ps;
      maxLen := Max(maxLen, |p|);
      ps := ps + [p];
      r := r + 1;
    }
    full := r == t.Length0;
    assert full ==> l[..r] == l;
  }

  /** A full row with an empty slot yields the tagged repair packet of its packets. */
  lemma RowBuilt(st: Store, rows: int, cols: int, r: int)
    requires Good(st, rows, cols) && 0 <= r < rows && st.rowSlots[r].None? && Full(st.grid[r])
    ensures st.base != -1 && |Filled(st.grid[r])| > 0 && AllMediaSized(Filled(st.grid[r]))
    ensures BuildRow(st, rows, cols, r) ==
            Some(Tagged(RepairPacketOf(Filled(st.grid[r]), st.base), (cols + 1) as byte, (r + 1) as byte))
  {
    FullHasBase(st, rows, cols, r, 0);
    AddressedRow(st.grid, st.base, cols, r);
    FilledSized(st.grid[r]);
    CountFull(st.grid[r]);
  }

  /** The same for a full column. */
  lemma ColumnBuilt(st: Store, rows: int, cols: int, c: int)
    requires Good(st, rows, cols) && 0 <= c < cols && st.colSlots[c].None? && Full(Column(st.grid, c))
    ensures st.base != -1 && |Filled(Column(st.grid, c))| > 0 && AllMediaSized(Filled(Column(st.grid, c)))
    ensures BuildColumn(st, rows, cols, c) ==
            Some(Tagged(RepairPacketOf(Filled(Column(st.grid, c)), st.base), (c + 1) as byte, (rows + 1) as byte))
  {
    FullHasBase(st, rows, cols, 0, c);
    AddressedColumn(st.grid, rows, st.base, cols, c);
    FilledSized(Column(st.grid, c));
    CountFull(Column(st.grid, c));
  }

  /** After t[r, c] := Some(p) on an array whose grid was g. */
  lemma GridPlaced(t: array2<Option<Packet>>, g: Grid, r: int, c: int, p: Packet)
    requires Rect(g, t.Length0, t.Length1) && 0 <= r < t.Length0 && 0 <= c < t.Length1
    requires t[r, c] == Some(p)
    requires forall i, j :: 0 <= i < t.Length0 && 0 <= j < t.Length1 && (i, j) != (r, c) ==> t[i, j] == g[i][j]
    ensures GridOf(t) == Place(g, r, c, p)
  {
    var a, b := GridOf(t), Place(g, r, c, p);
    forall i | 0 <= i < t.Length0 ensures a[i] == b[i] {
      assert forall j :: 0 <= j < t.Length1 ==> a[i][j] == b[i][j];
    }
  }

  /** A window opened at s holds s. */
  lemma OpenedAt(s: int, rows: int, cols: int)
    requires IsSeq(s) && Dims(rows, cols)
    ensures InTable(Cleared(rows, cols).(base := s), rows, cols, s)
  {
    assert rows * cols <= 1024 by { MulMono(rows, 32, cols); MulMono(cols, 32, 32); }
    WindowMembership(s, rows * cols, s);
  }

  lemma AppendAssoc(x: seq<Packet>, a: seq<Packet>, b: seq<Packet>)
    ensures x + a + b == x + (a + b)
  {
  }

  /** Every filled cell of a well-formed state holds a source packet. */
  lemma GoodCellSized(st: Store, rows: int, cols: int, r: int, c: int)
    requires Good(st, rows, cols) && 0 <= r < rows && 0 <= c < cols && st.grid[r][c].Some?
    ensures MediaSized(st.grid[r][c].value)
  {
  }

  /** A full line means the table has a base. */
  lemma FullHasBase(st: Store, rows: int, cols: int, r: int, c: int)
    requires Good(st, rows, cols) && 0 <= r < rows && 0 <= c < cols
    ensures Full(st.grid[r]) ==> st.base != -1
    ensures Full(Column(st.grid, c)) ==> st.base != -1
  {
    ClearedNotFull(rows, cols, r, c);
  }

  /** The first c cells of a line, one more: the packets and the last empty
      cell the repair loops have seen so far. */
  lemma LineStep(l: Line, c: int)
    requires 0 <= c < |l|
    ensures Filled(l[..c + 1]) == Filled(l[..c]) + (if l[c].Some? then [l[c].value] else [])
    ensures LastEmpty(l[..c + 1]) == if l[c].None? then c else LastEmpty(l[..c])
  {
    assert l[..c + 1][..c] == l[..c];
  }

  /** Empties every cell of t (the cell loop of ClearTable). */
  method ClearGrid(t: array2<Option<Packet>>)
    modifies t
    ensures GridOf(t) == EmptyGrid(t.Length0, t.Length1)
  {
    for r := 0 to t.Length0
      invariant forall i, j :: 0 <= i < r && 0 <= j < t.Length1 ==> t[i, j].None?
    {
      for c := 0 to t.Length1
        invariant forall i, j :: 0 <= i < r && 0 <= j < t.Length1 ==> t[i, j].None?
        invariant forall j :: 0 <= j < c ==> t[r, j].None?
      {
        t[r, c] := None;
      }
    }
    EmptyGridOf(t);
  }

  lemma EmptyGridOf(t: array2<Option<Packet>>)
    requires forall i, j :: 0 <= i < t.Length0 && 0 <= j < t.Length1 ==> t[i, j].None?
    ensures GridOf(t) == EmptyGrid(t.Length0, t.Length1)
  {
    var g, e := GridOf(t), EmptyGrid(t.Length0, t.Length1);
    forall r | 0 <= r < t.Length0 ensures g[r] == e[r] {
      assert forall c :: 0 <= c < t.Length1 ==> g[r][c] == e[r][c];
    }
  }

  /** Empties every repair slot of a. */
  method ClearSlots(a: array<Option<Packet>>)
    modifies a
    ensures a[..] == EmptyLine(a.Length)
  {
    for i := 0 to a.Length
      invariant forall j :: 0 <= j < i ==> a[j].None?
    {
      a[i] := None;
    }
  }

  /** Zeroes every fill counter of a. */
  method ClearCounters(a: array<int>)
    modifies a
    ensures a[..] == seq(a.Length, _ => 0)
  {
    for i := 0 to a.Length
      invariant forall j :: 0 <= j < i ==> a[j] == 0
    {
      a[i] := 0;
    }
  }

  method NewGrid(rows: nat, cols: nat) returns (t: array2<Option<Packet>>)
    ensures fresh(t) && t.Length0 == rows && t.Length1 == cols
    ensures GridOf(t) == EmptyGrid(rows, cols)
  {
    t := new Option<Packet>[rows, cols]((_, _) => None);
    EmptyGridOf(t);
  }

  method NewSlots(n: nat) returns (a: array<Option<Packet>>)
    ensures fresh(a) && a[..] == EmptyLine(n)
  {
    a := new Option<Packet>[n](_ => None);
    assert a[..] == EmptyLine(n);
  }

  method NewCounters(n: nat) returns (a: array<int>)
    ensures fresh(a) && a[..] == seq(n, _ => 0)
  {
    a := new int[n](_ => 0);
    assert a[..] == seq(n, _ => 0);
  }

  /** The storage of a cleared table: an empty grid, zero counters and
      empty repair slots, all fresh and distinct. */
  method NewStorage(rows: nat, cols: nat)
    returns (t: array2<Option<Packet>>, rc: array<int>, cc: array<int>,
             rr: array<Option<Packet>>, cr: array<Option<Packet>>)
    ensures fresh(t) && fresh(rc) && fresh(cc) && fresh(rr) && fresh(cr) && rc != cc && rr != cr
    ensures t.Length0 == rows && t.Length1 == cols && GridOf(t) == EmptyGrid(rows, cols)
    ensures rc[..] == seq(rows, _ => 0) && cc[..] == seq(cols, _ => 0)
    ensures rr[..] == EmptyLine(rows) && cr[..] == EmptyLine(cols)
  {
    t := NewGrid(rows, cols);
    rc := NewCounters(rows);
    cc := NewCounters(cols);
    rr := NewSlots(rows);
    cr := NewSlots(cols);
  }

  /** What the arrays of a ready table satisfy, as values: a well-formed
      state, fill counters that agree with its grid, and the window of its
      base. */
  predicate TableInv(st: Store, rows: int, cols: int, rc: seq<int>, cc: seq<int>, w: (Range, Range))
  {
    Good(st, rows, cols) && CountersAgree(st.grid, rows, cols, rc, cc) &&
    w == Window(st.base, rows, cols)
  }

  /** A cleared table of any allowed dimensions, with all-zero counters and
      empty ranges, satisfies the invariant. */
  lemma ClearedInv(rows: int, cols: int)
    requires Dims(rows, cols)
    ensures TableInv(Cleared(rows, cols), rows, cols, seq(rows, _ => 0), seq(cols, _ => 0),
                     (EmptyRange, EmptyRange))
  {
    EmptyCounters(rows, cols);
  }

  /** The scan of TryRepairByRow (BaseClass/FEC/FEC2DTable.cpp:630-642):
      the packets of row r in column order, and the last empty column
      (-1 when none is empty). */
  method GatherRow(t: array2<Option<Packet>>, r: int) returns (ps: seq<Packet>, hole: int)
    requires 0 <= r < t.Length0
    ensures ps == Filled(GridOf(t)[r]) && hole == LastEmpty(GridOf(t)[r])
  {
    ghost var l := GridOf(t)[r];
    ps, hole := [], -1;
    for c := 0 to t.Length1
      invariant ps == Filled(l[..c]) && hole == LastEmpty(l[..c])
    {
      LineStep(l, c);
      if t[r, c].Some? {
        ps := ps + [t[r, c].value];
      } else {
        hole := c;
      }
    }
    assert l[..t.Length1] == l;
  }

  /** The scan of TryRepairByColumn (BaseClass/FEC/FEC2DTable.cpp:668-684),
      down column c. */
  method GatherColumn(t: array2<Option<Packet>>, c: int) returns (ps: seq<Packet>, hole: int)
    requires 0 <= c < t.Length1
    ensures ps == Filled(Column(GridOf(t), c)) && hole == LastEmpty(Column(GridOf(t), c))
  {
    ColumnOfArray(t, c);
    ghost var l := Column(GridOf(t), c);
    ps, hole := [], -1;
    for r := 0 to t.Length0
      invariant ps == Filled(l[..r]) && hole == LastEmpty(l[..r])
    {
      LineStep(l, r);
      if t[r, c].Some? {
        ps := ps + [t[r, c].value];
      } else {
        hole := r;
      }
    }
    assert l[..t.Length0] == l;
  }

  /** Rebuilds the missing packet of line l from its packets ps and the
      repair packet, and writes sequence number s into bytes 2-3
      (BaseClass/FEC/FEC2DTable.cpp:645-652). */
  method RecoverInto(ghost l: Line, ps: seq<Packet>, repair: Packet, s: int) returns (f: Option<Packet>)
    requires LineSized(l) && ps == Filled(l) && |repair| >= 24 && IsSeq(s)
    ensures f == LineRecover(l, repair, s)
  {
    FilledSized(l);
    var m := Repair(ps, repair);
    if m.None? {
      return None;
    }
    f := Some(m.value[2 := HiByte(s)][3 := LoByte(s)]);
  }

  /** Under the threshold and with a stored repair packet, RowRecover is
      the recovery of the row's line. */
  lemma RowRecoverIs(st: Store, rows: int, cols: int, r: int)
    requires Good(st, rows, cols) && 0 <= r < rows
    requires Count(st.grid[r]) == cols - 1 && st.rowSlots[r].Some?
    ensures LineSized(st.grid[r])
    ensures RowRecover(st, rows, cols, r) ==
            LineRecover(st.grid[r], st.rowSlots[r].value, SeqAt(st.base, r, LastEmpty(st.grid[r]), cols))
  {
  }

  lemma ColumnRecoverIs(st: Store, rows: int, cols: int, c: int)
    requires Good(st, rows, cols) && 0 <= c < cols
    requires Count(Column(st.grid, c)) == rows - 1 && st.colSlots[c].Some?
    ensures LineSized(Column(st.grid, c))
    ensures ColumnRecover(st, rows, cols, c) ==
            LineRecover(Column(st.grid, c), st.colSlots[c].value, SeqAt(st.base, LastEmpty(Column(st.grid, c)), c, cols))
  {
  }

  class Table {
    var payloadType: byte
    var baseSeq: int
    var rows: int
    var cols: int
    /** Init succeeded: the arrays below are the table's (m_pFecTable != nullptr). */
    var ready: bool
    var cells: array2<Option<Packet>>
    var rowCounter: array<int>
    var colCounter: array<int>
    var rowRepair: array<Option<Packet>>
    var colRepair: array<Option<Packet>>
    var range1: Range
    var range2: Range
    /** Packets handed to the FEC callback, in order. */
    var fecOut: seq<Packet>
    /** Packets handed to the RTP callback, in order. */
    var rtpOut: seq<Packet>

    /** The contents of the table as a value. */
    function Snapshot(): Store
      reads this`baseSeq, this`cells, this`rowRepair, this`colRepair, cells, rowRepair, colRepair
    {
      Store(baseSeq, GridOf(cells), rowRepair[..], colRepair[..])
    }

    ghost predicate Valid()
      reads this`baseSeq, this`rows, this`cols, this`ready, this`cells, this`rowCounter, this`colCounter
      reads this`rowRepair, this`colRepair, this`range1, this`range2
      reads cells, rowCounter, colCounter, rowRepair, colRepair
    {
      rowCounter != colCounter && rowRepair != colRepair &&
      (ready ==>
         Dims(rows, cols) && cells.Length0 == rows && cells.Length1 == cols &&
         rowCounter.Length == rows && colCounter.Length == cols &&
         rowRepair.Length == rows && colRepair.Length == cols &&
         TableInv(Snapshot(), rows, cols, rowCounter[..], colCounter[..], (range1, range2))) &&
      (!ready ==>
         rows == 0 && cols == 0 && baseSeq == -1 && range1 == EmptyRange && range2 == EmptyRange)
    }

    /** The arrays were allocated by the call. */
    twostate predicate Fresh()
      reads this
    {
      fresh(cells) && fresh(rowCounter) && fresh(colCounter) && fresh(rowRepair) && fresh(colRepair)
    }

    /** The table and its storage: what its methods may change. */
    ghost function Footprint(): set<object>
      reads this`cells, this`rowCounter, this`colCounter, this`rowRepair, this`colRepair
    {
      {this, cells, rowCounter, colCounter, rowRepair, colRepair}
    }

    /** The call kept the arrays it found. */
    twostate predicate SameArrays()
      reads this
    {
      cells == old(cells) && rowCounter == old(rowCounter) && colCounter == old(colCounter) &&
      rowRepair == old(rowRepair) && colRepair == old(colRepair)
    }

    /** FEC2DTable(pt): no storage yet, base -1, the default (empty) ranges. */
    constructor (pt: byte)
      ensures Valid()
      ensures fresh(cells) && fresh(rowCounter) && fresh(colCounter) && fresh(rowRepair) && fresh(colRepair)
      ensures !ready && payloadType == pt && fecOut == [] && rtpOut == []
    {
      payloadType := pt;
      baseSeq := -1;
      rows := 0;
      cols := 0;
      ready := false;
      cells := new Option<Packet>[0, 0]((_, _) => None);
      rowCounter := new int[0];
      colCounter := new int[0];
      rowRepair := new Option<Packet>[0](_ => None);
      colRepair := new Option<Packet>[0](_ => None);
      range1 := EmptyRange;
      range2 := EmptyRange;
      fecOut := [];
      rtpOut := [];
    }

    /** ReleaseAll on the failure path of Init (BaseClass/FEC/FEC2DTable.cpp:24-84):
        the storage goes (the table is no longer ready), the dimensions become
        0 and the base -1; the ranges are left as they were. */
    method ReleaseAll()
      requires rowCounter != colCounter && rowRepair != colRepair
      requires range1 == EmptyRange && range2 == EmptyRange
      modifies this
      ensures Valid() && SameArrays()
      ensures !ready && rows == 0 && cols == 0 && baseSeq == -1
      ensures payloadType == old(payloadType) && fecOut == old(fecOut) && rtpOut == old(rtpOut)
    {
      rows := 0;
      cols := 0;
      baseSeq := -1;
      ready := false;
    }

    /** The storage of a cleared table with the given dimensions. */
    method Allocate(row: int, column: int)
      requires Valid() && !ready && Dims(row, column)
      modifies this
      ensures Valid() && Fresh()
      ensures payloadType == old(payloadType) && fecOut == old(fecOut) && rtpOut == old(rtpOut)
      ensures ready && rows == row && cols == column && Snapshot() == Cleared(row, column)
    {
      var t, rc, cc, rr, cr := NewStorage(row, column);
      ClearedInv(row, column);
      Attach(row, column, t, rc, cc, rr, cr);
    }

    /** Installs the given storage and dimensions; nothing else of the object changes. */
    method Attach(row: int, column: int, t: array2<Option<Packet>>, rc: array<int>, cc: array<int>,
                  rr: array<Option<Packet>>, cr: array<Option<Packet>>)
      modifies this`rows, this`cols, this`ready
      modifies this`cells, this`rowCounter, this`colCounter, this`rowRepair, this`colRepair
      ensures rows == row && cols == column && ready
      ensures cells == t && rowCounter == rc && colCounter == cc && rowRepair == rr && colRepair == cr
    {
      rows, cols, ready := row, column, true;
      cells, rowCounter, colCounter, rowRepair, colRepair := t, rc, cc, rr, cr;
    }

    /** Init(row, column) (BaseClass/FEC/FEC2DTable.cpp:86-158). A row or
        column count of 0 or above 32 is refused with -1 and nothing changes.
        The six allocations can fail; failAt names the one that does (0: none),
        and allocation k fails with -(k + 1) after releasing everything. On
        success the table is cleared with the given dimensions. */
    method Init(row: int, column: int, failAt: nat) returns (ret: int)
      requires Valid() && !ready
      requires 0 <= row < 256 && 0 <= column < 256
      modifies this
      ensures Valid() && (ready ==> Fresh()) && (!ready ==> SameArrays())
      ensures payloadType == old(payloadType) && fecOut == old(fecOut) && rtpOut == old(rtpOut)
      ensures !Dims(row, column) ==> ret == -1 && !ready
      ensures Dims(row, column) && 1 <= failAt <= 6 ==> ret == -(failAt + 1) && !ready
      ensures Dims(row, column) && !(1 <= failAt <= 6) ==>
                ret == 0 && ready && rows == row && cols == column && Snapshot() == Cleared(row, column)
      ensures ret == 0 <==> ready
    {
      if row == 0 || column == 0 || row > MaxFecLine || column > MaxFecLine {
        return -1;
      }
      if 1 <= failAt <= 6 {
        rows, cols := row, column;
        ReleaseAll();
        return -(failAt + 1);
      }
      Allocate(row, column);
      ret := 0;
    }

    /** The cell, counter and slot loops of ClearTable. */
    method ClearStorage()
      requires rowCounter != colCounter && rowRepair != colRepair
      modifies cells, rowCounter, colCounter, rowRepair, colRepair
      ensures GridOf(cells) == EmptyGrid(cells.Length0, cells.Length1)
      ensures rowCounter[..] == seq(rowCounter.Length, _ => 0) && colCounter[..] == seq(colCounter.Length, _ => 0)
      ensures rowRepair[..] == EmptyLine(rowRepair.Length) && colRepair[..] == EmptyLine(colRepair.Length)
    {
      ClearGrid(cells);
      ClearCounters(rowCounter);
      ClearCounters(colCounter);
      ClearSlots(rowRepair);
      ClearSlots(colRepair);
    }

    /** ClearTable (BaseClass/FEC/FEC2DTable.cpp:160-205): every cell, counter
        and repair slot emptied, base -1, both ranges empty. The code indexes
        m_pFecTable[row, col] (the comma operator, so row pointer [col]) at
        line 170 and clears the uint8_t counters with sizeof(uint32_t) * n
        bytes at lines 178 and 182; the model empties cell (row, col) and
        exactly the n counters, as the names and the layout intend. */
    method ClearTable()
      requires Valid()
      modifies this, cells, rowCounter, colCounter, rowRepair, colRepair
      ensures Valid() && SameArrays()
      ensures ready == old(ready) && rows == old(rows) && cols == old(cols)
      ensures payloadType == old(payloadType) && fecOut == old(fecOut) && rtpOut == old(rtpOut)
      ensures baseSeq == -1 && range1 == EmptyRange && range2 == EmptyRange
      ensures ready ==> Snapshot() == Cleared(rows, cols)
    {
      if ready {
        ClearStorage();
        ClearedInv(rows, cols);
      }
      baseSeq, range1, range2 := -1, EmptyRange, EmptyRange;
    }

    /** IsSeqInRange (BaseClass/FEC/FEC2DTable.cpp:219-228): s lies in Range1
        or in Range2, which is exactly the window of the table's base. */
    predicate IsSeqInRange(s: int)
      requires Valid()
      reads this, cells, rowCounter, colCounter, rowRepair, colRepair
      ensures IsSeqInRange(s) <==> ready && InTable(Snapshot(), rows, cols, s)
    {
      InWindow((range1, range2), s)
    }

    /** UpdataRange (BaseClass/FEC/FEC2DTable.cpp:230-245), called on a cleared
        table: the base becomes s and the window opens at s. */
    method UpdataRange(s: int)
      requires Valid() && ready && baseSeq == -1 && IsSeq(s)
      modifies this
      ensures Valid()
      ensures baseSeq == s && (range1, range2) == WindowRanges(s, rows * cols, old(range2))
      ensures ready && rows == old(rows) && cols == old(cols) && payloadType == old(payloadType)
      ensures SameArrays()
      ensures fecOut == old(fecOut) && rtpOut == old(rtpOut)
      ensures Snapshot() == Cleared(rows, cols).(base := s)
    {
      var maxSeq := s + rows * cols - 1;
      var r1, r2 := range1.(min := s), range2;
      if maxSeq < SeqSpace {
        r1 := r1.(max := maxSeq);
      } else {
        r1 := r1.(max := SeqSpace - 1);
        r2 := Range(0, maxSeq - SeqSpace);
      }
      OpenedGood(rows, cols, s);
      baseSeq, range1, range2 := s, r1, r2;
    }

    /** CalculateRowAndColumn (BaseClass/FEC/FEC2DTable.cpp:247-257) as the
        layout intends (the code's off-by-one is CalcAsWritten): the cell of
        s, which maps back to s. */
    function CalculateRowAndColumn(s: int): (rc: (int, int))
      requires Valid() && ready && IsSeq(s) && InTable(Snapshot(), rows, cols, s)
      reads this, cells, rowCounter, colCounter, rowRepair, colRepair
      ensures 0 <= rc.0 < rows && 0 <= rc.1 < cols
      ensures SeqAt(baseSeq, rc.0, rc.1, cols) == s
      ensures rc == CellOf(baseSeq, s, cols)
    {
      InTableCell(Snapshot(), rows, cols, s);
      var k := Wrap16(s - baseSeq);
      (k / cols, k % cols)
    }

    /** IsCanRecvPacket (BaseClass/FEC/FEC2DTable.cpp:583-618): false without
        storage; a repair packet when the table is cleared or bytes 20-21
        name its base; any other packet when its sequence number is in the
        window. */
    predicate IsCanRecvPacket(p: Packet)
      requires Valid() && Acceptable(p, payloadType)
      reads this, cells, rowCounter, colCounter, rowRepair, colRepair
      ensures IsCanRecvPacket(p) <==> ready && CanRecv(Snapshot(), rows, cols, payloadType, p)
    {
      ready &&
      if PayloadTypeOf(p) == payloadType then baseSeq == -1 || Be16(p[20], p[21]) == baseSeq
      else IsSeqInRange(SeqOf(p))
    }

    /** The call kept the arrays and the dimensions. */
    twostate predicate SameShape()
      reads this
    {
      SameArrays() && ready == old(ready) && rows == old(rows) && cols == old(cols) &&
      payloadType == old(payloadType)
    }

    /** CreateRepairPacketByRow (BaseClass/FEC/FEC2DTable.cpp:392-433): none
        when the row's slot is taken or the row is not full; otherwise the
        repair packet of the row, tagged (cols + 1, r + 1). */
    method CreateRepairPacketByRow(r: int) returns (b: Option<Packet>)
      requires Valid() && ready && 0 <= r < rows
      ensures b == BuildRow(Snapshot(), rows, cols, r)
    {
      if rowRepair[r].Some? {
        return None;
      }
      var ps, maxLen, full := CollectRow(cells, r);
      if !full {
        return None;
      }
      RowBuilt(Snapshot(), rows, cols, r);
      var rep := CreateRepairPacket(ps, maxLen, baseSeq);
      b := Some(Tagged(rep, (cols + 1) as byte, (r + 1) as byte));
    }

    /** CreateRepairPacketByColumn (BaseClass/FEC/FEC2DTable.cpp:435-476):
        likewise for column c, tagged (c + 1, rows + 1). */
    method CreateRepairPacketByColumn(c: int) returns (b: Option<Packet>)
      requires Valid() && ready && 0 <= c < cols
      ensures b == BuildColumn(Snapshot(), rows, cols, c)
    {
      if colRepair[c].Some? {
        return None;
      }
      var ps, maxLen, full := CollectColumn(cells, c);
      if !full {
        return None;
      }
      ColumnBuilt(Snapshot(), rows, cols, c);
      var rep := CreateRepairPacket(ps, maxLen, baseSeq);
      b := Some(Tagged(rep, (c + 1) as byte, (rows + 1) as byte));
    }

    /** Stores source packet p into the empty cell (r, c) that its sequence
        number names and counts it in the row and the column
        (BaseClass/FEC/FEC2DTable.cpp:275-277). */
    method PlacePacket(r: int, c: int, p: Packet)
      requires Valid() && ready && baseSeq != -1 && 0 <= r < rows && 0 <= c < cols
      requires cells[r, c].None? && MediaSized(p) && SeqOf(p) == SeqAt(baseSeq, r, c, cols)
      modifies cells, rowCounter, colCounter
      ensures Valid()
      ensures Snapshot() == old(Snapshot()).(grid := Place(old(Snapshot()).grid, r, c, p))
    {
      ghost var st := Snapshot();
      ghost var rc, cc := rowCounter[..], colCounter[..];
      PlaceInv(st, rows, cols, rc, cc, (range1, range2), r, c, p);
      cells[r, c] := Some(p);
      rowCounter[r] := rowCounter[r] + 1;
      colCounter[c] := colCounter[c] + 1;
      GridPlaced(cells, st.grid, r, c, p);
      assert Snapshot() == st.(grid := Place(st.grid, r, c, p));
      assert rowCounter[..] == rc[r := rc[r] + 1] && colCounter[..] == cc[c := cc[c] + 1];
    }

    /** The row step of RecvPacketAndMakeRepair (BaseClass/FEC/FEC2DTable.cpp:279-293):
        when the row counter reaches cols, the row's repair packet (if one is
        built) is kept in its slot and handed to the FEC callback. */
    method OfferRow(r: int)
      requires Valid() && ready && baseSeq != -1 && 0 <= r < rows
      modifies this, rowRepair
      ensures Valid() && SameShape()
      ensures baseSeq == old(baseSeq) && range1 == old(range1) && range2 == old(range2) && rtpOut == old(rtpOut)
      ensures Snapshot() == WithRow(old(Snapshot()), r, BuildRow(old(Snapshot()), rows, cols, r))
      ensures fecOut == old(fecOut) + OptList(BuildRow(old(Snapshot()), rows, cols, r))
    {
      CountFull(Snapshot().grid[r]);
      var b := None;
      if rowCounter[r] == cols {
        b := CreateRepairPacketByRow(r);
      }
      WithRowGood(Snapshot(), rows, cols, r);
      KeepRowRepair(r, b);
    }

    /** A built row repair packet goes into the row's slot and to the FEC
        callback (BaseClass/FEC/FEC2DTable.cpp:288-289). */
    method KeepRowRepair(r: int, b: Option<Packet>)
      requires Valid() && ready && 0 <= r < rows
      requires Good(WithRow(Snapshot(), r, b), rows, cols)
      modifies this, rowRepair
      ensures Valid() && SameShape()
      ensures baseSeq == old(baseSeq) && range1 == old(range1) && range2 == old(range2) && rtpOut == old(rtpOut)
      ensures Snapshot() == WithRow(old(Snapshot()), r, b) && fecOut == old(fecOut) + OptList(b)
    {
      ghost var st := Snapshot();
      if b.Some? {
        rowRepair[r] := b;
        OutputFec(b.value);
        assert Snapshot() == WithRow(st, r, b);
      }
    }

    /** The column step (BaseClass/FEC/FEC2DTable.cpp:294-308), likewise. */
    method OfferColumn(c: int)
      requires Valid() && ready && baseSeq != -1 && 0 <= c < cols
      modifies this, colRepair
      ensures Valid() && SameShape()
      ensures baseSeq == old(baseSeq) && range1 == old(range1) && range2 == old(range2) && rtpOut == old(rtpOut)
      ensures Snapshot() == WithColumn(old(Snapshot()), c, BuildColumn(old(Snapshot()), rows, cols, c))
      ensures fecOut == old(fecOut) + OptList(BuildColumn(old(Snapshot()), rows, cols, c))
    {
      CountFull(Column(Snapshot().grid, c));
      var b := None;
      if colCounter[c] == rows {
        b := CreateRepairPacketByColumn(c);
      }
      WithColumnGood(Snapshot(), rows, cols, c);
      KeepColumnRepair(c, b);
    }

    /** A built column repair packet goes into the column's slot and to the
        FEC callback (BaseClass/FEC/FEC2DTable.cpp:302-303). */
    method KeepColumnRepair(c: int, b: Option<Packet>)
      requires Valid() && ready && 0 <= c < cols
      requires Good(WithColumn(Snapshot(), c, b), rows, cols)
      modifies this, colRepair
      ensures Valid() && SameShape()
      ensures baseSeq == old(baseSeq) && range1 == old(range1) && range2 == old(range2) && rtpOut == old(rtpOut)
      ensures Snapshot() == WithColumn(old(Snapshot()), c, b) && fecOut == old(fecOut) + OptList(b)
    {
      ghost var st := Snapshot();
      if b.Some? {
        colRepair[c] := b;
        OutputFec(b.value);
        assert Snapshot() == WithColumn(st, c, b);
      }
    }

    /** The in-window part of RecvPacketAndMakeRepair
        (BaseClass/FEC/FEC2DTable.cpp:267-310): the packet goes into the empty
        cell of its sequence number (a packet whose cell is taken is dropped),
        then its row and its column are offered. */
    method StoreSourcePacket(p: Packet)
      requires Valid() && ready && baseSeq != -1 && MediaSized(p) && InTable(Snapshot(), rows, cols, SeqOf(p))
      modifies this, cells, rowCounter, colCounter, rowRepair, colRepair
      ensures Valid() && SameShape()
      ensures baseSeq == old(baseSeq) && range1 == old(range1) && range2 == old(range2) && rtpOut == old(rtpOut)
      ensures Snapshot() == StoreSource(old(Snapshot()), rows, cols, p).0
      ensures fecOut == old(fecOut) + StoreSource(old(Snapshot()), rows, cols, p).1
    {
      var s := Be16(p[2], p[3]);
      var rc := CalculateRowAndColumn(s);
      var r, c := rc.0, rc.1;
      if cells[r, c].None? {
        PlacePacket(r, c, p);
        OfferLines(r, c);
      }
    }

    /** After a packet lands in (r, c): its row, then its column, is offered
        for a repair packet (BaseClass/FEC/FEC2DTable.cpp:279-308). */
    method OfferLines(r: int, c: int)
      requires Valid() && ready && baseSeq != -1 && 0 <= r < rows && 0 <= c < cols
      modifies this, rowRepair, colRepair
      ensures Valid() && SameShape()
      ensures baseSeq == old(baseSeq) && range1 == old(range1) && range2 == old(range2) && rtpOut == old(rtpOut)
      ensures Snapshot() == EmitAfter(old(Snapshot()), rows, cols, r, c).0
      ensures fecOut == old(fecOut) + EmitAfter(old(Snapshot()), rows, cols, r, c).1
    {
      ghost var st1, out0 := Snapshot(), fecOut;
      OfferRow(r);
      ghost var a, st2 := OptList(BuildRow(st1, rows, cols, r)), Snapshot();
      OfferColumn(c);
      ghost var b := OptList(BuildColumn(st2, rows, cols, c));
      AppendAssoc(out0, a, b);
    }

    /** RecvPacketAndMakeRepair (BaseClass/FEC/FEC2DTable.cpp:259-319): a
        cleared table takes the packet's sequence number as its base; a packet
        inside the window is stored; a packet outside it clears the table and
        is received again, which then opens the window at it. Always 0. */
    method RecvPacketAndMakeRepair(p: Packet) returns (ret: int)
      requires Valid() && ready && MediaSized(p)
      modifies this, cells, rowCounter, colCounter, rowRepair, colRepair
      ensures Valid() && SameShape() && rtpOut == old(rtpOut) && ret == 0
      ensures Snapshot() == MakeRepairStep(old(Snapshot()), rows, cols, p).0
      ensures fecOut == old(fecOut) + MakeRepairStep(old(Snapshot()), rows, cols, p).1
      decreases if baseSeq == -1 then 0 else 1
    {
      var s := Be16(p[2], p[3]);
      if baseSeq == -1 {
        UpdataRange(s);
        OpenedAt(s, rows, cols);
      }
      if IsSeqInRange(s) {
        StoreSourcePacket(p);
        ret := 0;
      } else {
        ClearTable();
        ret := RecvPacketAndMakeRepair(p);
      }
    }
    /** TryRepairByRow (BaseClass/FEC/FEC2DTable.cpp:620-655) with the
        threshold cols - 1: the rebuilt packet of row r, numbered for its
        empty cell, when exactly one packet of the row is missing and the
        row's repair packet is stored. */
    method TryRepairByRow(r: int) returns (f: Option<Packet>)
      requires Valid() && ready && 0 <= r < rows
      ensures f == RowRecover(Snapshot(), rows, cols, r)
    {
      if rowCounter[r] != cols - 1 || rowRepair[r].None? {
        return None;
      }
      ghost var st := Snapshot();
      var ps, hole := GatherRow(cells, r);
      RowRecoverIs(st, rows, cols, r);
      f := RecoverInto(st.grid[r], ps, rowRepair[r].value, SeqAt(baseSeq, r, hole, cols));
    }

    /** TryRepairByColumn (BaseClass/FEC/FEC2DTable.cpp:657-692) with the
        threshold rows - 1 and the sequence number written after the packet
        is rebuilt. */
    method TryRepairByColumn(c: int) returns (f: Option<Packet>)
      requires Valid() && ready && 0 <= c < cols
      ensures f == ColumnRecover(Snapshot(), rows, cols, c)
    {
      if colCounter[c] != rows - 1 || colRepair[c].None? {
        return None;
      }
      ghost var st := Snapshot();
      var ps, hole := GatherColumn(cells, c);
      ColumnRecoverIs(st, rows, cols, c);
      f := RecoverInto(Column(st.grid, c), ps, colRepair[c].value, SeqAt(baseSeq, hole, c, cols));
    }

    /** RecvPacketAndTryRepair (BaseClass/FEC/FEC2DTable.cpp:494-581): -1
        when the table cannot take p; otherwise the table follows
        TryRepairStep, every rebuilt packet is handed to the RTP callback,
        and rebuilt packets are received in turn at most fuel levels deep. */
    method RecvPacketAndTryRepair(p: Packet, fuel: nat) returns (ret: int)
      requires Valid() && Acceptable(p, payloadType)
      modifies this, cells, rowCounter, colCounter, rowRepair, colRepair
      ensures Valid() && SameShape() && fecOut == old(fecOut)
      ensures !ready ==> ret == -1 && Snapshot() == old(Snapshot()) && rtpOut == old(rtpOut)
      ensures ready ==> Snapshot() == TryRepairStep(old(Snapshot()), rows, cols, payloadType, p, fuel).0
      ensures ready ==> rtpOut == old(rtpOut) + TryRepairStep(old(Snapshot()), rows, cols, payloadType, p, fuel).1
      ensures ready ==> ret == TryRepairStep(old(Snapshot()), rows, cols, payloadType, p, fuel).2
      decreases fuel, 5
    {
      if !IsCanRecvPacket(p) {
        return -1;
      }
      if PayloadTypeOf(p) == payloadType {
        ret := ReceiveRepair(p, fuel);
      } else {
        ReceiveSource(p, fuel);
        ret := 0;
      }
    }

    /** The repair-packet branch (BaseClass/FEC/FEC2DTable.cpp:505-551): a
        cleared table takes its base from bytes 20-21, then the packet is
        filed by its tags. */
    method ReceiveRepair(p: Packet, fuel: nat) returns (ret: int)
      requires Valid() && ready && Acceptable(p, payloadType) && PayloadTypeOf(p) == payloadType
      requires CanRecv(Snapshot(), rows, cols, payloadType, p)
      modifies this, cells, rowCounter, colCounter, rowRepair, colRepair
      ensures Valid() && SameShape() && fecOut == old(fecOut)
      ensures Snapshot() == RepairArrives(old(Snapshot()), rows, cols, payloadType, p, fuel).0
      ensures rtpOut == old(rtpOut) + RepairArrives(old(Snapshot()), rows, cols, payloadType, p, fuel).1
      ensures ret == RepairArrives(old(Snapshot()), rows, cols, payloadType, p, fuel).2
      decreases fuel, 4
    {
      if baseSeq == -1 {
        UpdataRange(Be16(p[20], p[21]));
      }
      ret := FileRepairPacket(p, fuel);
    }

    /** The tags name the line (BaseClass/FEC/FEC2DTable.cpp:515-550): the
        packet goes into that line's slot when it is empty, and the line is
        tried for a repair. The out-of-range TryRepairByColumn and
        TryRepairByRow calls of FEC2DTable.cpp:562 and :571 that also follow
        a repair packet are left out, as in FecTableSpec.FileRepair. */
    method FileRepairPacket(p: Packet, fuel: nat) returns (ret: int)
      requires Valid() && ready && baseSeq != -1 && |p| >= 24
      modifies this, cells, rowCounter, colCounter, rowRepair, colRepair
      ensures Valid() && SameShape() && fecOut == old(fecOut)
      ensures Snapshot() == FileRepair(old(Snapshot()), rows, cols, payloadType, p, fuel).0
      ensures rtpOut == old(rtpOut) + FileRepair(old(Snapshot()), rows, cols, payloadType, p, fuel).1
      ensures ret == FileRepair(old(Snapshot()), rows, cols, payloadType, p, fuel).2
      decreases fuel, 3
    {
      var col := TagIndex(p[22]);
      var row := TagIndex(p[23]);
      if col == cols {
        if row >= rows {
          return -2;
        }
        KeepRowSlot(row, p);
        RepairRow(row, fuel);
        ret := 0;
      } else if row == rows {
        if col >= cols {
          return -3;
        }
        KeepColumnSlot(col, p);
        RepairColumn(col, fuel);
        ret := 0;
      } else {
        ret := -4;
      }
    }

    /** A row repair packet goes into the row's slot when the slot is empty. */
    method KeepRowSlot(r: int, p: Packet)
      requires Valid() && ready && baseSeq != -1 && 0 <= r < rows && |p| >= 24
      modifies rowRepair
      ensures Valid()
      ensures Snapshot() == old(Snapshot()).(rowSlots := old(rowRepair[..])[r := StoreRepair(old(rowRepair[r]), p)])
    {
      if rowRepair[r].None? {
        rowRepair[r] := Some(p);
      }
    }

    /** A column repair packet goes into the column's slot when the slot is empty. */
    method KeepColumnSlot(c: int, p: Packet)
      requires Valid() && ready && baseSeq != -1 && 0 <= c < cols && |p| >= 24
      modifies colRepair
      ensures Valid()
      ensures Snapshot() == old(Snapshot()).(colSlots := old(colRepair[..])[c := StoreRepair(old(colRepair[c]), p)])
    {
      if colRepair[c].None? {
        colRepair[c] := Some(p);
      }
    }

    /** The source-packet branch (BaseClass/FEC/FEC2DTable.cpp:552-578): the
        packet goes into its cell when that is empty; then its column, then
        its row, is tried for a repair. */
    method ReceiveSource(p: Packet, fuel: nat)
      requires Valid() && ready && Acceptable(p, payloadType) && PayloadTypeOf(p) != payloadType
      requires CanRecv(Snapshot(), rows, cols, payloadType, p)
      modifies this, cells, rowCounter, colCounter, rowRepair, colRepair
      ensures Valid() && SameShape() && fecOut == old(fecOut)
      ensures Snapshot() == SourceArrives(old(Snapshot()), rows, cols, payloadType, p, fuel).0
      ensures rtpOut == old(rtpOut) + SourceArrives(old(Snapshot()), rows, cols, payloadType, p, fuel).1
      decreases fuel, 4
    {
      EmptyWindow(SeqOf(p));
      var rc := CalculateRowAndColumn(SeqOf(p));
      var r, c := rc.0, rc.1;
      if cells[r, c].None? {
        PlacePacket(r, c, p);
      }
      RepairLines(r, c, fuel);
    }

    /** Column c, then row r, tried for a repair in turn. */
    method RepairLines(r: int, c: int, fuel: nat)
      requires Valid() && ready && 0 <= r < rows && 0 <= c < cols
      modifies this, cells, rowCounter, colCounter, rowRepair, colRepair
      ensures Valid() && SameShape() && fecOut == old(fecOut)
      ensures Snapshot() == AfterRow(AfterColumn(old(Snapshot()), rows, cols, payloadType, c, fuel).0, rows, cols, payloadType, r, fuel).0
      ensures rtpOut == old(rtpOut) + (AfterColumn(old(Snapshot()), rows, cols, payloadType, c, fuel).1 +
                                       AfterRow(AfterColumn(old(Snapshot()), rows, cols, payloadType, c, fuel).0, rows, cols, payloadType, r, fuel).1)
      decreases fuel, 2
    {
      ghost var out0 := rtpOut;
      ghost var res1 := AfterColumn(Snapshot(), rows, cols, payloadType, c, fuel);
      RepairColumn(c, fuel);
      ghost var res2 := AfterRow(Snapshot(), rows, cols, payloadType, r, fuel);
      RepairRow(r, fuel);
      AppendAssoc(out0, res1.1, res2.1);
    }

    /** TryRepairByRow and what follows it (BaseClass/FEC/FEC2DTable.cpp:571-578):
        a rebuilt packet is handed to the RTP callback and received in turn. */
    method RepairRow(r: int, fuel: nat)
      requires Valid() && ready && 0 <= r < rows
      modifies this, cells, rowCounter, colCounter, rowRepair, colRepair
      ensures Valid() && SameShape() && fecOut == old(fecOut)
      ensures Snapshot() == AfterRow(old(Snapshot()), rows, cols, payloadType, r, fuel).0
      ensures rtpOut == old(rtpOut) + AfterRow(old(Snapshot()), rows, cols, payloadType, r, fuel).1
      decreases fuel, 1
    {
      var f := TryRepairByRow(r);
      if f.Some? {
        Emit(f.value, fuel);
      }
    }

    /** TryRepairByColumn and what follows it (BaseClass/FEC/FEC2DTable.cpp:562-569). */
    method RepairColumn(c: int, fuel: nat)
      requires Valid() && ready && 0 <= c < cols
      modifies this, cells, rowCounter, colCounter, rowRepair, colRepair
      ensures Valid() && SameShape() && fecOut == old(fecOut)
      ensures Snapshot() == AfterColumn(old(Snapshot()), rows, cols, payloadType, c, fuel).0
      ensures rtpOut == old(rtpOut) + AfterColumn(old(Snapshot()), rows, cols, payloadType, c, fuel).1
      decreases fuel, 1
    {
      var f := TryRepairByColumn(c);
      if f.Some? {
        Emit(f.value, fuel);
      }
    }

    /** The RTP callback (OutputRTPPacket) receives p. */
    method OutputRtp(p: Packet)
      modifies this`rtpOut
      ensures rtpOut == old(rtpOut) + [p]
      ensures Valid() == old(Valid()) && Snapshot() == old(Snapshot())
    {
      rtpOut := rtpOut + [p];
    }

    /** The FEC callback (OutputFECPacket) receives p. */
    method OutputFec(p: Packet)
      modifies this`fecOut
      ensures fecOut == old(fecOut) + [p]
    {
      fecOut := fecOut + [p];
    }

    /** A rebuilt packet f goes to the RTP callback (OutputRTPPacket) and,
        while fuel lasts and f can be read, back into the table. */
    method Emit(f: Packet, fuel: nat)
      requires Valid() && ready
      modifies this, cells, rowCounter, colCounter, rowRepair, colRepair
      ensures Valid() && SameShape() && fecOut == old(fecOut)
      ensures Snapshot() == Forward(old(Snapshot()), rows, cols, payloadType, f, fuel).0
      ensures rtpOut == old(rtpOut) + Forward(old(Snapshot()), rows, cols, payloadType, f, fuel).1
      decreases fuel, 0
    {
      ghost var out0 := rtpOut;
      OutputRtp(f);
      if fuel > 0 && Acceptable(f, payloadType) {
        ghost var res := TryRepairStep(Snapshot(), rows, cols, payloadType, f, fuel - 1);
        var _ := RecvPacketAndTryRepair(f, fuel - 1);
        AppendAssoc(out0, [f], res.1);
      }
    }
  }
}
