/** The value-level view of a FEC2DTable: its acceptance window, the mapping
    of a sequence number to a cell, the grid of cells with its fill counters,
    and what one row or column yields when a single packet of it is missing. */
module FecGrid {
  import opened Bytes
  import opened FecRepair

  /** MAX_FEC_LINE: the largest number of rows or columns of a table. */
  const MaxFecLine: int := 32

  const Int32Max: int := 0x7fff_ffff
  const Int32Min: int := -0x8000_0000

  /** A closed interval of sequence numbers (FEC2DTable::Range). */
  datatype Range = Range(min: int, max: int)

  /** The default and cleared value of a Range: min above max, so empty. */
  const EmptyRange: Range := Range(Int32Max, Int32Min)

  predicate InRange(r: Range, s: int)
  {
    r.min <= s <= r.max
  }

  /** The pair (m_Range1, m_Range2) after UpdataRange(base) on a table of n
      cells, given the Range2 it had before: the window [base, base+n-1],
      split in two when it runs past 65535. The non-wrapping case leaves
      Range2 as it was. */
  function WindowRanges(base: int, n: int, old2: Range): (w: (Range, Range))
    requires IsSeq(base) && 1 <= n
    ensures w.0.min == base
    ensures base + n - 1 < SeqSpace ==> w.0.max == base + n - 1 && w.1 == old2
    ensures base + n - 1 >= SeqSpace ==> w.0.max == SeqSpace - 1 && w.1 == Range(0, base + n - 1 - SeqSpace)
  {
    var maxSeq := base + n - 1;
    if maxSeq < SeqSpace then (Range(base, maxSeq), old2)
    else (Range(base, SeqSpace - 1), Range(0, maxSeq - SeqSpace))
  }

  /** IsSeqInRange: membership in either range. */
  predicate InWindow(w: (Range, Range), s: int)
  {
    InRange(w.0, s) || InRange(w.1, s)
  }

  /** A window opened on cleared ranges holds exactly the n sequence numbers
      that follow base modulo 65536, on both sides of the 65535 -> 0 wrap. */
  lemma WindowMembership(base: int, n: int, s: int)
    requires IsSeq(base) && 1 <= n <= SeqSpace && IsSeq(s)
    ensures InWindow(WindowRanges(base, n, EmptyRange), s) <==> Wrap16(s - base) < n
  {
    var w := WindowRanges(base, n, EmptyRange);
    if s >= base {
      assert Wrap16(s - base) == s - base;
      assert !InRange(w.1, s);
    } else {
      assert Wrap16(s - base) == s - base + SeqSpace;
      assert !InRange(w.0, s);
    }
  }

  /** Cleared ranges accept no sequence number at all. */
  lemma EmptyWindow(s: int)
    requires IsSeq(s)
    ensures !InWindow((EmptyRange, EmptyRange), s)
  {
  }

  /** The sequence number that belongs in cell (r, c): the inverse mapping the
      repair path uses (BaseClass/FEC/FEC2DTable.cpp:640, :678). */
  function SeqAt(base: int, r: int, c: int, cols: int): (s: int)
    ensures IsSeq(s)
  {
    Wrap16(base + r * cols + c)
  }

  /** The cell of sequence number s: its offset k from base modulo 65536,
      laid out row by row, at (k / cols, k % cols). */
  function CellOf(base: int, s: int, cols: int): (rc: (int, int))
    requires cols > 0
    ensures 0 <= rc.0 && 0 <= rc.1 < cols
    ensures rc.0 * cols + rc.1 == Wrap16(s - base)
  {
    var k := Wrap16(s - base);
    (k / cols, k % cols)
  }

  /** Every sequence number of the window lands on a cell of the table, and
      that cell maps back to it. */
  lemma CellOfInverse(base: int, s: int, rows: int, cols: int)
    requires IsSeq(base) && IsSeq(s) && 1 <= cols && Wrap16(s - base) < rows * cols
    ensures CellOf(base, s, cols).0 < rows
    ensures SeqAt(base, CellOf(base, s, cols).0, CellOf(base, s, cols).1, cols) == s
  {
    var rc := CellOf(base, s, cols);
    var k := Wrap16(s - base);
    if rc.0 >= rows {
      MulMono(rows, rc.0, cols);
      assert false;
    }
    assert base + k == s || base + k == s + SeqSpace;
  }

  lemma MulMono(a: int, b: int, c: int)
    requires 0 <= a <= b && 0 <= c
    ensures a * c <= b * c
  {
  }

  /** Conversely, the sequence number of a cell of the table maps to that cell. */
  lemma SeqAtCell(base: int, r: int, c: int, rows: int, cols: int)
    requires IsSeq(base) && 0 <= r < rows && 0 <= c < cols && rows * cols <= SeqSpace
    ensures CellOf(base, SeqAt(base, r, c, cols), cols) == (r, c)
    ensures Wrap16(SeqAt(base, r, c, cols) - base) < rows * cols
  {
    var k := r * cols + c;
    CellBelow(r, c, rows, cols);
    WrapOffset(base, k);
    DivModUnique(k, cols, r, c);
  }

  /** A cell of the table has an offset below rows * cols. */
  lemma CellBelow(r: int, c: int, rows: int, cols: int)
    requires 0 <= r < rows && 0 <= c < cols
    ensures r * cols + c < rows * cols
  {
    MulMono(r + 1, rows, cols);
    assert (r + 1) * cols == r * cols + cols;
  }

  /** Stepping k from base in the 16-bit space and measuring back gives k. */
  lemma WrapOffset(base: int, k: int)
    requires IsSeq(base) && 0 <= k < SeqSpace
    ensures Wrap16(Wrap16(base + k) - base) == k
  {
    if base + k < SeqSpace {
      assert Wrap16(base + k) == base + k;
    } else {
      assert Wrap16(base + k) == base + k - SeqSpace;
      assert Wrap16(k - SeqSpace) == k;
    }
  }

  lemma DivModUnique(k: int, cols: int, r: int, c: int)
    requires 1 <= cols && 0 <= r && 0 <= c < cols && k == r * cols + c
    ensures k / cols == r && k % cols == c
  {
    var q := k / cols;
    var m := k % cols;
    assert (q - r) * cols == c - m;
    if q > r {
      MulMono(1, q - r, cols);
      assert false;
    } else if q < r {
      MulMono(1, r - q, cols);
      assert false;
    }
  }

  /** CalculateRowAndColumn as written (BaseClass/FEC/FEC2DTable.cpp:247-257):
      it counts from 1 (n = k + 1) and takes col = n % cols - 1 in uint32_t. */
  function CalcAsWritten(base: int, s: int, cols: int): (rc: (int, int))
    requires IsSeq(base) && IsSeq(s) && cols > 0
  {
    var nSeq := if s < base then s + SeqSpace else s;
    var n := nSeq - base + 1;
    (n / cols, (n % cols - 1) % U32)
  }

  /** The offset the as-written code computes (a wrap adds 65536) is the
      offset modulo 65536. */
  lemma OffsetAsWritten(base: int, s: int)
    requires IsSeq(base) && IsSeq(s)
    ensures (if s < base then s + SeqSpace else s) - base == Wrap16(s - base)
  {
  }

  /** Off the last column, the as-written mapping agrees with CellOf. */
  lemma CalcAsWrittenAgrees(base: int, s: int, cols: int)
    requires IsSeq(base) && IsSeq(s) && cols > 0
    requires Wrap16(s - base) % cols != cols - 1
    ensures CalcAsWritten(base, s, cols) == CellOf(base, s, cols)
  {
    var k := Wrap16(s - base);
    OffsetAsWritten(base, s);
    var n := (if s < base then s + SeqSpace else s) - base + 1;
    assert n == k + 1;
    var q := k / cols;
    var m := k % cols;
    DivModUnique(n, cols, q, m + 1);
    assert (n % cols - 1) % U32 == m;
  }

  /** In the last column the as-written mapping yields column 2^32 - 1, an
      index outside every table. */
  lemma CalcAsWrittenLastColumn(base: int, s: int, cols: int)
    requires IsSeq(base) && IsSeq(s) && 1 <= cols <= MaxFecLine
    requires Wrap16(s - base) % cols == cols - 1
    ensures CalcAsWritten(base, s, cols).1 == U32 - 1
    ensures CalcAsWritten(base, s, cols).1 >= cols
  {
    var k := Wrap16(s - base);
    OffsetAsWritten(base, s);
    var q := k / cols;
    DivModUnique(k + 1, cols, q + 1, 0);
    assert CalcAsWritten(base, s, cols) == (q + 1, -1 % U32);
  }

  /** One row or column of cells, and the whole grid, row by row. */
  type Line = seq<Option<Packet>>
  type Grid = seq<Line>

  predicate Rect(g: Grid, rows: int, cols: int)
  {
    |g| == rows && forall r :: 0 <= r < rows ==> |g[r]| == cols
  }

  /** The number of filled cells of a line. */
  function Count(l: Line): (n: nat)
    ensures n <= |l|
    decreases |l|
  {
    if |l| == 0 then 0 else Count(l[..|l| - 1]) + (if l[|l| - 1].Some? then 1 else 0)
  }

  /** Column c of a rectangular grid. */
  function Column(g: Grid, c: int): (l: Line)
    requires 0 <= c && forall r :: 0 <= r < |g| ==> c < |g[r]|
    ensures |l| == |g| && forall r :: 0 <= r < |g| ==> l[r] == g[r][c]
  {
    seq(|g|, r requires 0 <= r < |g| => g[r][c])
  }

  function EmptyLine(n: nat): (l: Line)
    ensures |l| == n && forall i :: 0 <= i < n ==> l[i].None?
  {
    seq(n, _ => None)
  }

  function EmptyGrid(rows: nat, cols: nat): (g: Grid)
    ensures Rect(g, rows, cols)
    ensures forall r, c :: 0 <= r < rows && 0 <= c < cols ==> g[r][c].None?
  {
    seq(rows, _ => EmptyLine(cols))
  }

  /** The fill counters agree with the grid: m_pRowCounter[r] is the number
      of filled cells of row r, m_pColumnCounter[c] that of column c. */
  predicate CountersAgree(g: Grid, rows: int, cols: int, rc: seq<int>, cc: seq<int>)
  {
    Rect(g, rows, cols) && |rc| == rows && |cc| == cols && 0 <= cols &&
    (forall r :: 0 <= r < rows ==> rc[r] == Count(g[r])) &&
    (forall c :: 0 <= c < cols ==> cc[c] == Count(Column(g, c)))
  }

  /** The grid with packet p stored in cell (r, c). */
  function Place(g: Grid, r: int, c: int, p: Packet): (g': Grid)
    requires 0 <= r < |g| && 0 <= c < |g[r]|
    ensures |g'| == |g| && forall i :: 0 <= i < |g| ==> |g'[i]| == |g[i]|
    ensures g'[r][c] == Some(p)
    ensures forall i, j :: 0 <= i < |g| && 0 <= j < |g[i]| && (i, j) != (r, c) ==> g'[i][j] == g[i][j]
  {
    g[r := g[r][c := Some(p)]]
  }

  lemma {:induction false} CountFill(l: Line, i: int, p: Packet)
    requires 0 <= i < |l| && l[i].None?
    ensures Count(l[i := Some(p)]) == Count(l) + 1
    decreases |l|
  {
    var n := |l| - 1;
    var l' := l[i := Some(p)];
    if i == n {
      assert l'[..n] == l[..n];
    } else {
      assert l'[..n] == l[..n][i := Some(p)];
      CountFill(l[..n], i, p);
    }
  }

  /** A full line: every cell filled. */
  predicate Full(l: Line)
  {
    forall i :: 0 <= i < |l| ==> l[i].Some?
  }

  lemma {:induction false} CountFull(l: Line)
    ensures Count(l) == |l| <==> Full(l)
    decreases |l|
  {
    if |l| > 0 {
      var n := |l| - 1;
      CountFull(l[..n]);
      if Full(l) {
        assert Full(l[..n]) by {
          forall i | 0 <= i < n ensures l[..n][i].Some? { assert l[..n][i] == l[i]; }
        }
      }
      if Count(l) == |l| {
        assert Count(l[..n]) <= n;
        forall i | 0 <= i < |l| ensures l[i].Some? {
          if i < n { assert l[..n][i] == l[i]; }
        }
      }
    }
  }

  lemma {:induction false} CountEmpty(n: nat)
    ensures Count(EmptyLine(n)) == 0
    decreases n
  {
    if n > 0 {
      assert EmptyLine(n)[..n - 1] == EmptyLine(n - 1);
      CountEmpty(n - 1);
    }
  }

  /** A cleared table's counters, all zero, agree with its empty grid. */
  lemma EmptyCounters(rows: nat, cols: nat)
    ensures CountersAgree(EmptyGrid(rows, cols), rows, cols, seq(rows, _ => 0), seq(cols, _ => 0))
  {
    var g := EmptyGrid(rows, cols);
    CountEmpty(cols);
    CountEmpty(rows);
    forall c | 0 <= c < cols ensures Count(Column(g, c)) == 0 {
      assert Column(g, c) == EmptyLine(rows);
    }
  }

  /** Storing a packet into an empty cell raises exactly that row's and that
      column's counter by one. */
  lemma PlaceCounters(g: Grid, rows: int, cols: int, rc: seq<int>, cc: seq<int>, r: int, c: int, p: Packet)
    requires CountersAgree(g, rows, cols, rc, cc)
    requires 0 <= r < rows && 0 <= c < cols && g[r][c].None?
    ensures CountersAgree(Place(g, r, c, p), rows, cols, rc[r := rc[r] + 1], cc[c := cc[c] + 1])
  {
    var g' := Place(g, r, c, p);
    CountFill(g[r], c, p);
    assert Column(g', c) == Column(g, c)[r := Some(p)];
    CountFill(Column(g, c), r, p);
    forall j | 0 <= j < cols && j != c ensures Count(Column(g', j)) == cc[j] {
      assert Column(g', j) == Column(g, j);
    }
  }

  /** Every packet of the grid is a source packet whose sequence number is
      the one its cell stands for. */
  predicate Addressed(g: Grid, base: int, cols: int)
  {
    forall r, c :: 0 <= r < |g| && 0 <= c < |g[r]| && g[r][c].Some? ==>
      MediaSized(g[r][c].value) && SeqOf(g[r][c].value) == SeqAt(base, r, c, cols)
  }

  /** The packets of a line, in order, skipping the empty cells. */
  function Filled(l: Line): (ps: seq<Packet>)
    ensures |ps| == Count(l)
    decreases |l|
  {
    if |l| == 0 then []
    else Filled(l[..|l| - 1]) + (if l[|l| - 1].Some? then [l[|l| - 1].value] else [])
  }

  /** Every filled cell of a line holds a source packet. */
  predicate LineSized(l: Line)
  {
    forall i :: 0 <= i < |l| && l[i].Some? ==> MediaSized(l[i].value)
  }

  lemma {:induction false} FilledSized(l: Line)
    requires LineSized(l)
    ensures AllMediaSized(Filled(l))
    decreases |l|
  {
    if |l| > 0 {
      var n := |l| - 1;
      assert LineSized(l[..n]) by {
        forall i | 0 <= i < n && l[..n][i].Some? ensures MediaSized(l[..n][i].value) { assert l[..n][i] == l[i]; }
      }
      FilledSized(l[..n]);
    }
  }

  /** The packets of a full line of source packets can make a repair packet:
      there is at least one, each holds an RTP header, and so does the longest. */
  lemma FullRepairable(l: Line)
    requires LineSized(l) && Full(l) && |l| > 0
    ensures |Filled(l)| > 0 && AllMediaSized(Filled(l)) && MaxLen(Filled(l)) >= 12
  {
    FilledSized(l);
    CountFull(l);
    var ps := Filled(l);
    assert MaxLen(ps) >= |ps[0]| >= 12;
  }

  /** The index of the last empty cell of a line, or -1 when it is full: the
      cell the repair loops remember (the loop overwrites seq at every empty
      cell, BaseClass/FEC/FEC2DTable.cpp:638-641). */
  function LastEmpty(l: Line): (i: int)
    ensures -1 <= i < |l|
    ensures i >= 0 ==> l[i].None?
    ensures forall j :: i < j < |l| ==> l[j].Some?
    decreases |l|
  {
    if |l| == 0 then -1
    else if l[|l| - 1].None? then |l| - 1
    else LastEmpty(l[..|l| - 1])
  }

  /** The line of packets ps with its k-th packet lost. */
  function Holed(ps: seq<Packet>, k: int): (l: Line)
    requires 0 <= k < |ps|
    ensures |l| == |ps| && l[k].None?
    ensures forall i :: 0 <= i < |ps| && i != k ==> l[i] == Some(ps[i])
  {
    seq(|ps|, i requires 0 <= i < |ps| => if i == k then None else Some(ps[i]))
  }

  /** The full line holding the packets ps. */
  function Whole(ps: seq<Packet>): (l: Line)
    ensures |l| == |ps| && forall i :: 0 <= i < |ps| ==> l[i] == Some(ps[i])
  {
    seq(|ps|, i requires 0 <= i < |ps| => Some(ps[i]))
  }

  lemma {:induction false} FilledWhole(ps: seq<Packet>)
    ensures Filled(Whole(ps)) == ps
    decreases |ps|
  {
    if |ps| > 0 {
      var n := |ps| - 1;
      assert Whole(ps)[..n] == Whole(ps[..n]);
      FilledWhole(ps[..n]);
    }
  }

  lemma {:induction false} FilledHoled(ps: seq<Packet>, k: int)
    requires 0 <= k < |ps|
    ensures Filled(Holed(ps, k)) == Without(ps, k)
    ensures LastEmpty(Holed(ps, k)) == k
    decreases |ps|
  {
    var n := |ps| - 1;
    var l := Holed(ps, k);
    if k == n {
      assert l[..n] == Whole(ps[..n]);
      FilledWhole(ps[..n]);
      assert Without(ps, k) == ps[..n];
    } else {
      assert l[..n] == Holed(ps[..n], k);
      FilledHoled(ps[..n], k);
      assert Without(ps, k) == Without(ps[..n], k) + [ps[n]];
    }
  }

  /** A line with exactly one empty cell is the line of its packets with
      that one lost: the packets are the line's filled cells with the empty
      one put back. */
  lemma {:induction false} OneHole(l: Line)
    requires |l| > 0 && Count(l) == |l| - 1
    ensures LastEmpty(l) >= 0
    ensures forall i :: 0 <= i < |l| && i != LastEmpty(l) ==> l[i].Some?
  {
    var k := LastEmpty(l);
    if k < 0 {
      assert Full(l);
      CountFull(l);
      assert false;
    }
    forall i | 0 <= i < |l| && i != k ensures l[i].Some? {
      if l[i].None? {
        TwoHoles(l, i, k);
        assert false;
      }
    }
  }

  /** A line with two distinct empty cells has at most |l| - 2 packets. */
  lemma {:induction false} TwoHoles(l: Line, i: int, j: int)
    requires 0 <= i < |l| && 0 <= j < |l| && i != j && l[i].None? && l[j].None?
    ensures Count(l) <= |l| - 2
    decreases |l|
  {
    var n := |l| - 1;
    if i == n || j == n {
      var o := if i == n then j else i;
      assert l[..n][o].None?;
      if Count(l[..n]) == n {
        CountFull(l[..n]);
        assert false;
      }
    } else {
      assert l[..n][i].None? && l[..n][j].None?;
      TwoHoles(l[..n], i, j);
    }
  }

  /** A line with exactly one empty cell is Holed(ps, k) for the packets ps
      it would hold with the k-th put back. */
  lemma LineAsHoled(l: Line, m: Packet)
    requires |l| > 0 && Count(l) == |l| - 1
    ensures LastEmpty(l) >= 0
    ensures var k := LastEmpty(l);
            l == Holed(seq(|l|, i requires 0 <= i < |l| => if i == k || l[i].None? then m else l[i].value), k)
  {
    OneHole(l);
    var k := LastEmpty(l);
    var ps := seq(|l|, i requires 0 <= i < |l| => if i == k || l[i].None? then m else l[i].value);
    assert l == Holed(ps, k);
  }

  /** The repair packet of a line with its line tags (bytes 22-23) filled in. */
  function Tagged(r: Packet, t22: byte, t23: byte): (t: Packet)
    requires |r| >= 24
    ensures |t| == |r| && t[22] == t22 && t[23] == t23
  {
    r[22 := t22][23 := t23]
  }

  /** What a line with one empty cell yields from its repair packet: the
      rebuilt packet, with the sequence number of the empty cell written into
      bytes 2-3 (BaseClass/FEC/FEC2DTable.cpp:646-651). */
  function LineRecover(l: Line, repair: Packet, s: int): (r: Option<Packet>)
    requires LineSized(l) && |repair| >= 24 && IsSeq(s)
    ensures r.Some? ==> MediaSized(r.value) && SeqOf(r.value) == s
  {
    FilledSized(l);
    match RecoverPacket(Filled(l), repair)
    case None => None
    case Some(m) =>
      SeqOfWritten(m, s);
      Some(m[2 := HiByte(s)][3 := LoByte(s)])
  }

  lemma Be16Bytes(hi: byte, lo: byte)
    ensures HiByte(Be16(hi, lo)) == hi && LoByte(Be16(hi, lo)) == lo
  {
    var v := Be16(hi, lo);
    assert v / 256 == hi as int && v % 256 == lo as int;
  }

  /** The round trip of one line: when the line ps lost its k-th packet, the
      stored repair packet is the one built for ps, the lost packet has
      version 2 and shares its SSRC with the first survivor, and s is its
      sequence number, the line yields exactly that packet. */
  lemma LineRecoverLost(ps: seq<Packet>, k: int, repair: Packet)
    requires 0 <= k < |ps| && |ps| > 1 && AllMediaSized(ps)
    requires RepairFor(repair, ps)
    requires ps[k][0] & 0xc0 == 0x80
    requires ps[k][8..12] == Without(ps, k)[0][8..12]
    ensures LineSized(Holed(ps, k)) && |repair| >= 24
    ensures LineRecover(Holed(ps, k), repair, SeqOf(ps[k])) == Some(ps[k])
  {
    FilledHoled(ps, k);
    RecoverLostExactly(ps, k, repair);
    var m := RecoverPacket(Without(ps, k), repair).value;
    Be16Bytes(ps[k][2], ps[k][3]);
    assert m[2 := HiByte(SeqOf(ps[k]))][3 := LoByte(SeqOf(ps[k]))] == m[2 := ps[k][2]][3 := ps[k][3]];
  }
}
