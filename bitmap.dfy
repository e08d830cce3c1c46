/** The bit table of the on-screen display (Bitmap,
    BaseClass/OSD/Bitmap.cpp): rows of bytes holding one bit per column,
    column c at bit c % 8 of byte c / 8; bitmaps are copied into one another
    and joined into a larger one line by line. */
module OsdBitmap {
  import opened Bytes
  import opened OsdLayout

  /** Set0Table (Bitmap.cpp:11): the mask that clears bit k. */
  const Set0Table: seq<byte> := [0xfe, 0xfd, 0xfb, 0xf7, 0xef, 0xdf, 0xbf, 0x7f]

  /** The one-bit masks 1 << k. */
  const Mask: seq<byte> := [0x01, 0x02, 0x04, 0x08, 0x10, 0x20, 0x40, 0x80]

  /** Bit k of b, as GetBit reads it: (b >> k) & 1. */
  function BitOf(b: byte, k: int): (v: byte)
    requires 0 <= k < 8
    ensures v == 0 || v == 1
  {
    ShiftBit(b, k);
    (b >> k) & 1
  }

  /** Bit k of b is 1 exactly when b shares the one-bit mask of k. */
  lemma BitOfMask(b: byte, k: int)
    requires 0 <= k < 8
    ensures BitOf(b, k) == 1 <==> b & Mask[k] != 0
  {
    ShiftBit(b, k);
  }

  /** b with bit k set to 1 when bit is non-zero and to 0 otherwise, as
      SetBit writes it. */
  function WithBit(b: byte, k: int, bit: byte): byte
    requires 0 <= k < 8
  {
    MaskShift(k);
    if bit == 0 then b & Set0Table[k] else b | (1 << k)
  }

  lemma ShiftBit(b: byte, k: int)
    requires 0 <= k < 8
    ensures (b >> k) & 1 == (if b & Mask[k] == 0 then 0 else 1)
  {
    if k == 0 {} else if k == 1 {} else if k == 2 {} else if k == 3 {}
    else if k == 4 {} else if k == 5 {} else if k == 6 {} else {}
  }

  lemma MaskShift(k: int)
    requires 0 <= k < 8
    ensures Mask[k] == 1 << k && Set0Table[k] == !Mask[k]
  {
    if k == 0 {} else if k == 1 {} else if k == 2 {} else if k == 3 {}
    else if k == 4 {} else if k == 5 {} else if k == 6 {} else {}
  }

  /** Two one-bit masks share a bit only when they are the same. */
  lemma MaskPair(k: int, j: int)
    requires 0 <= k < 8 && 0 <= j < 8
    ensures Mask[k] & Mask[j] == (if k == j then Mask[k] else 0)
  {
    if k == 0 {
      if j == 0 {} else if j == 1 {} else if j == 2 {} else if j == 3 {} else if j == 4 {} else if j == 5 {} else if j == 6 {} else {}
    } else if k == 1 {
      if j == 0 {} else if j == 1 {} else if j == 2 {} else if j == 3 {} else if j == 4 {} else if j == 5 {} else if j == 6 {} else {}
    } else if k == 2 {
      if j == 0 {} else if j == 1 {} else if j == 2 {} else if j == 3 {} else if j == 4 {} else if j == 5 {} else if j == 6 {} else {}
    } else if k == 3 {
      if j == 0 {} else if j == 1 {} else if j == 2 {} else if j == 3 {} else if j == 4 {} else if j == 5 {} else if j == 6 {} else {}
    } else if k == 4 {
      if j == 0 {} else if j == 1 {} else if j == 2 {} else if j == 3 {} else if j == 4 {} else if j == 5 {} else if j == 6 {} else {}
    } else if k == 5 {
      if j == 0 {} else if j == 1 {} else if j == 2 {} else if j == 3 {} else if j == 4 {} else if j == 5 {} else if j == 6 {} else {}
    } else if k == 6 {
      if j == 0 {} else if j == 1 {} else if j == 2 {} else if j == 3 {} else if j == 4 {} else if j == 5 {} else if j == 6 {} else {}
    } else {
      if j == 0 {} else if j == 1 {} else if j == 2 {} else if j == 3 {} else if j == 4 {} else if j == 5 {} else if j == 6 {} else {}
    }
  }

  /** Writing bit k and reading bit j: bit k reads back as 1 exactly when
      a non-zero bit was written, every other bit reads as before. */
  lemma WithBitReads(b: byte, k: int, bit: byte, j: int)
    requires 0 <= k < 8 && 0 <= j < 8
    ensures BitOf(WithBit(b, k, bit), j) == if j == k then (if bit == 0 then 0 else 1) else BitOf(b, j)
  {
    MaskShift(k);
    MaskPair(k, j);
    BitOfMask(b, j);
    BitOfMask(WithBit(b, k, bit), j);
  }

  /** The bytes a row needs for n columns (Bitmap.cpp:50). */
  function RowBytes(n: int): (k: int)
    requires 0 <= n
    ensures k * 8 > n && (k - 1) * 8 <= n
  {
    n / 8 + 1
  }

  class Bitmap {
    /** m_pBitTable (no rows while it is null) and whether it is set. */
    var table: array2<byte>
    var owned: bool
    /** m_nTableRow and m_nTableColumn. */
    var rows: int
    var cols: int
    /** m_eAlignMode; m_dAngle is not modelled. */
    var align: AlignMode

    ghost predicate Valid()
      reads this`table, this`owned, this`rows, this`cols
    {
      0 <= rows < U32 && 0 <= cols < U32 && table.Length0 == rows &&
      (owned ==> table.Length1 == RowBytes(cols)) &&
      (!owned ==> rows == 0 && cols == 0)
    }

    /** The bit at row r, column c. */
    ghost function At(r: int, c: int): bool
      requires Valid() && 0 <= r < rows && 0 <= c < cols
      reads this`table, this`owned, this`rows, this`cols, table
    {
      BitOf(table[r, c / 8], c % 8) == 1
    }

    /** The first n bits of row r. */
    ghost function RowPixels(r: int, n: int): (s: seq<bool>)
      requires Valid() && 0 <= r < rows && 0 <= n <= cols
      reads this`table, this`owned, this`rows, this`cols, table
      ensures |s| == n && forall c :: 0 <= c < n ==> s[c] == At(r, c)
    {
      if n == 0 then [] else RowPixels(r, n - 1) + [At(r, n - 1)]
    }

    /** The first m rows of bits. */
    ghost function PixelRows(m: int): (p: seq<seq<bool>>)
      requires Valid() && 0 <= m <= rows
      reads this`table, this`owned, this`rows, this`cols, table
      ensures |p| == m && forall r :: 0 <= r < m ==> p[r] == RowPixels(r, cols)
    {
      if m == 0 then [] else PixelRows(m - 1) + [RowPixels(m - 1, cols)]
    }

    /** The bits as a value, row by row. */
    ghost function Pixels(): (p: seq<seq<bool>>)
      requires Valid()
      reads this`table, this`owned, this`rows, this`cols, table
      ensures |p| == rows
      ensures forall r :: 0 <= r < rows ==> |p[r]| == cols
      ensures forall r, c :: 0 <= r < rows && 0 <= c < cols ==> p[r][c] == At(r, c)
    {
      PixelRows(rows)
    }

    /** The constructor (Bitmap.cpp:13-20): no table, no rows or columns,
        bottom alignment. */
    constructor ()
      ensures Valid() && !owned && rows == 0 && cols == 0 && align == AlignBottom
    {
      table := new byte[0, 0];
      owned := false;
      rows, cols := 0, 0;
      align := AlignBottom;
    }

    /** ReleaseAll (Bitmap.cpp:27-44): the table goes and both dimensions
        become 0, so every GetBit and SetBit then fails. */
    method ReleaseAll() returns (ret: int)
      modifies this`table, this`owned, this`rows, this`cols
      ensures Valid() && ret == 0 && !owned && rows == 0 && cols == 0
    {
      table := new byte[0, 0];
      owned := false;
      rows, cols := 0, 0;
      ret := 0;
    }

    /** Init (Bitmap.cpp:46-78): the old table is released and a table of
        row rows of RowBytes(col) zero bytes is allocated. tableOk and rowOk
        are what malloc does for the row-pointer array and for the rows:
        a failure gives -1 or -2 and leaves the bitmap released. */
    method Init(row: int, col: int, tableOk: bool, rowOk: bool) returns (ret: int)
      requires 0 <= row < U32 && 0 <= col < U32
      modifies this`table, this`owned, this`rows, this`cols
      ensures Valid()
      ensures ret == -1 <==> !tableOk
      ensures ret == -2 <==> tableOk && !rowOk && row > 0
      ensures ret == 0 || ret == -1 || ret == -2
      ensures ret == 0 ==> owned && rows == row && cols == col && fresh(table)
      ensures ret == 0 ==> forall r, c :: 0 <= r < rows && 0 <= c < cols ==> !At(r, c)
      ensures ret != 0 ==> !owned && rows == 0 && cols == 0
    {
      var _ := ReleaseAll();
      if !tableOk {
        return -1;
      }
      if !rowOk && row > 0 {
        var _ := ReleaseAll();
        return -2;
      }
      table := new byte[row, RowBytes(col)]((_, _) => 0);
      owned := true;
      rows, cols := row, col;
      ret := 0;
    }

    /** GetBit (Bitmap.cpp:80-94): false outside the table, with the out
        parameter left as it was; otherwise the bit. */
    method GetBit(row: int, col: int, bitIn: byte) returns (ok: bool, bit: byte)
      requires Valid() && 0 <= row < U32 && 0 <= col < U32
      ensures ok <==> row < rows && col < cols
      ensures !ok ==> bit == bitIn
      ensures ok ==> bit == (if At(row, col) then 1 else 0)
    {
      if row >= rows || col >= cols {
        return false, bitIn;
      }
      var b := table[row, col / 8];
      bit := b >> (col % 8);
      bit := bit & 0x01;
      ok := true;
    }

    /** SetBit (Bitmap.cpp:96-115): false outside the table, nothing
        changed; otherwise the bit becomes 1 for a non-zero bit and 0 for
        zero, and every other bit of the table stays. */
    method SetBit(row: int, col: int, bit: byte) returns (ok: bool)
      requires Valid() && 0 <= row < U32 && 0 <= col < U32
      modifies table
      ensures ok <==> row < rows && col < cols
      ensures !ok ==> unchanged(table)
      ensures forall r, c :: 0 <= r < rows && 0 <= c < cols ==>
                At(r, c) == if r == row && c == col then bit != 0 else old(At(r, c))
    {
      if row >= rows || col >= cols {
        return false;
      }
      var k := col % 8;
      var b := table[row, col / 8];
      table[row, col / 8] := WithBit(b, k, bit);
      forall r, c | 0 <= r < rows && 0 <= c < cols
        ensures At(r, c) == if r == row && c == col then bit != 0 else old(At(r, c))
      {
        if r == row && c / 8 == col / 8 {
          WithBitReads(b, k, bit, c % 8);
        }
      }
      ok := true;
    }

    /** SetBitmap (Bitmap.cpp:207-231): -1 and nothing written when src
        placed at column x, row y would reach past this bitmap; otherwise
        src's bits replace the ones under it and every other bit stays. */
    method SetBitmap(src: Bitmap, x: int, y: int) returns (ret: int)
      requires Valid() && src.Valid() && src != this && src.table != table
      requires 0 <= x && 0 <= y && x + src.cols < U32 && y + src.rows < U32
      modifies table
      ensures ret == 0 || ret == -1
      ensures ret == -1 <==> x + src.cols > cols || y + src.rows > rows
      ensures ret == -1 ==> unchanged(table)
      ensures ret == 0 ==> forall r, c :: 0 <= r < rows && 0 <= c < cols ==>
                At(r, c) == if y <= r < y + src.rows && x <= c < x + src.cols then src.At(r - y, c - x) else old(At(r, c))
    {
      if x + src.cols > cols || y + src.rows > rows {
        return -1;
      }
      var row := 0;
      while row < src.rows
        invariant 0 <= row <= src.rows
        invariant forall r, c :: 0 <= r < rows && 0 <= c < cols ==>
                    At(r, c) == if y <= r < y + row && x <= c < x + src.cols then src.At(r - y, c - x) else old(At(r, c))
      {
        SetRow(src, x, y, row);
        row := row + 1;
      }
      ret := 0;
    }

    /** Row row of src copied to row y + row from column x on. */
    method SetRow(src: Bitmap, x: int, y: int, row: int)
      requires Valid() && src.Valid() && src != this && src.table != table
      requires 0 <= x && 0 <= y && x + src.cols <= cols && y + src.rows <= rows && 0 <= row < src.rows
      modifies table
      ensures forall r, c :: 0 <= r < rows && 0 <= c < cols ==>
                At(r, c) == if r == y + row && x <= c < x + src.cols then src.At(row, c - x) else old(At(r, c))
    {
      var bit: byte := 0;
      var col := 0;
      while col < src.cols
        invariant 0 <= col <= src.cols
        invariant forall r, c :: 0 <= r < rows && 0 <= c < cols ==>
                    At(r, c) == if r == y + row && x <= c < x + col then src.At(row, c - x) else old(At(r, c))
      {
        var ok;
        ok, bit := src.GetBit(row, col, bit);
        ok := SetBit(y + row, x + col, bit);
        col := col + 1;
      }
    }

    /** Join of one bitmap (Bitmap.cpp:189-205): this becomes a copy of
        src, or is left released with -1 when Init fails. SetBitmap at
        (0, 0) into a table of src's own size always succeeds, so the -2 of
        Bitmap.cpp:198-202 cannot happen. */
    method JoinBitmap(src: Bitmap, tableOk: bool, rowOk: bool) returns (ret: int)
      requires Valid() && src.Valid() && src != this
      modifies this`table, this`owned, this`rows, this`cols
      ensures Valid()
      ensures ret == 0 || ret == -1
      ensures ret == -1 <==> !tableOk || (!rowOk && src.rows > 0)
      ensures ret == 0 ==> owned && rows == src.rows && cols == src.cols
      ensures ret == 0 ==> forall r, c :: 0 <= r < rows && 0 <= c < cols ==> At(r, c) == src.At(r, c)
      ensures ret != 0 ==> !owned && rows == 0 && cols == 0
    {
      var r0 := Init(src.rows, src.cols, tableOk, rowOk);
      if r0 != 0 {
        return -1;
      }
      var r1 := SetBitmap(src, 0, 0);
      assert r1 == 0;
      ret := 0;
    }

    /** Join of lines of bitmaps (Bitmap.cpp:117-187), with the column
        offset reset at the start of every line as OsdLayout.PlaceX places
        it: this becomes JoinHeight rows by JoinWidth columns showing every
        piece as OsdLayout.Done pastes it, or is left released with -1 when
        Init fails. The spacings and the minimum line height default as in
        BaseClass/OSD/Bitmap.h:24. */
    method Join(lines: seq<seq<Bitmap>>, ghost fp: set<object>, tableOk: bool, rowOk: bool,
                colSp: int := 5, rowSp: int := 5, minH: int := 10) returns (ret: int)
      requires Valid() && AllValid(lines, fp) && this !in fp
      requires 0 <= colSp < U32 && 0 <= rowSp < U32 && 0 <= minH < U32
      requires JoinWidth(PiecesOf(lines, fp), colSp) < U32 && JoinHeight(PiecesOf(lines, fp), rowSp, minH) < U32
      modifies this`table, this`owned, this`rows, this`cols
      ensures Valid()
      ensures ret == 0 || ret == -1
      ensures ret == -1 <==> !tableOk || (!rowOk && old(JoinHeight(PiecesOf(lines, fp), rowSp, minH)) > 0)
      ensures ret == 0 ==>
                (owned && rows == old(JoinHeight(PiecesOf(lines, fp), rowSp, minH)) &&
                 cols == old(JoinWidth(PiecesOf(lines, fp), colSp)))
      ensures ret == 0 ==> forall r, c :: 0 <= r < rows && 0 <= c < cols ==>
                At(r, c) == old(Done(PiecesOf(lines, fp), |lines|, colSp, rowSp, minH, r, c))
      ensures ret != 0 ==> !owned && rows == 0 && cols == 0
    {
      ghost var ps := PiecesOf(lines, fp);
      var w, h := Measure(lines, fp, ps, colSp, rowSp, minH);
      var r0 := Init(h, w, tableOk, rowOk);
      if r0 < 0 {
        return -1;
      }
      assert table !in fp;
      PasteLines(lines, fp, ps, colSp, rowSp, minH);
      ret := 0;
    }

    /** What pasting relies on: ps shows the lines, and the table has the
        join's size and is none of theirs. */
    ghost predicate JoinJob(lines: seq<seq<Bitmap>>, fp: set<object>, ps: seq<seq<Piece>>,
                            colSp: int, rowSp: int, minH: int)
      reads this`table, this`owned, this`rows, this`cols, fp
    {
      owned && Snapshot(lines, fp, ps) && this !in fp && table !in fp &&
      0 <= colSp && 0 <= rowSp && 0 <= minH &&
      rows == JoinHeight(ps, rowSp, minH) && cols == JoinWidth(ps, colSp)
    }

    /** The second pass of Join (Bitmap.cpp:151-184): line after line, each
        pasted JoinHeight(ps[..l]) rows down. */
    method PasteLines(lines: seq<seq<Bitmap>>, ghost fp: set<object>, ghost ps: seq<seq<Piece>>,
                      colSp: int, rowSp: int, minH: int)
      requires Valid() && JoinJob(lines, fp, ps, colSp, rowSp, minH)
      requires forall r, c :: 0 <= r < rows && 0 <= c < cols ==> !At(r, c)
      modifies table
      ensures ShowsLines(ps, |ps|, colSp, rowSp, minH)
    {
      var offY := 0;
      var l := 0;
      while l < |lines|
        invariant 0 <= l <= |lines|
        invariant offY == JoinHeight(ps[..l], rowSp, minH)
        invariant ShowsLines(ps, l, colSp, rowSp, minH)
      {
        offY := PasteLine(lines, fp, ps, l, offY, colSp, rowSp, minH);
        l := l + 1;
      }
    }

    /** The table shows the lines of ps before line l. */
    ghost predicate ShowsLines(ps: seq<seq<Piece>>, l: int, colSp: int, rowSp: int, minH: int)
      reads this`table, this`owned, this`rows, this`cols, table
    {
      Valid() && LinesOk(ps) && 0 <= l <= |ps| &&
      forall r, c :: 0 <= r < rows && 0 <= c < cols ==> At(r, c) == Done(ps, l, colSp, rowSp, minH, r, c)
    }

    lemma LineStarts(ps: seq<seq<Piece>>, l: int, colSp: int, rowSp: int, minH: int)
      requires ShowsLines(ps, l, colSp, rowSp, minH) && l < |ps|
      ensures ShowsLine(ps, l, 0, colSp, rowSp, minH)
    {
    }

    lemma LineEnds(ps: seq<seq<Piece>>, l: int, colSp: int, rowSp: int, minH: int)
      requires 0 <= l < |ps| && ShowsLine(ps, l, |ps[l]|, colSp, rowSp, minH)
      ensures ShowsLines(ps, l + 1, colSp, rowSp, minH)
    {
    }

    /** The table shows the lines of ps before line l and the first i
        pieces of line l. */
    ghost predicate ShowsLine(ps: seq<seq<Piece>>, l: int, i: int, colSp: int, rowSp: int, minH: int)
      reads this`table, this`owned, this`rows, this`cols, table
    {
      Valid() && LinesOk(ps) && 0 <= l < |ps| && 0 <= i <= |ps[l]| &&
      forall r, c :: 0 <= r < rows && 0 <= c < cols ==> At(r, c) == Pasted(ps, l, i, colSp, rowSp, minH, r, c)
    }

    /** What pasting line l relies on: ps shows the lines, the table has
        the join's size and is none of theirs, offY is the row the line
        starts at and lh the line's height. */
    ghost predicate LineJob(lines: seq<seq<Bitmap>>, fp: set<object>, ps: seq<seq<Piece>>,
                            l: int, offY: int, lh: int, colSp: int, rowSp: int, minH: int)
      reads this`table, this`owned, this`rows, this`cols, fp
    {
      JoinJob(lines, fp, ps, colSp, rowSp, minH) && 0 <= l < |lines| &&
      offY == JoinHeight(ps[..l], rowSp, minH) && lh == LineHeight(ps[l], minH)
    }

    /** One turn of the line loop (Bitmap.cpp:155-183): the height of line l
        recomputed, then its pieces pasted side by side, each at its place;
        returns the row the next line starts at. */
    method PasteLine(lines: seq<seq<Bitmap>>, ghost fp: set<object>, ghost ps: seq<seq<Piece>>,
                     l: int, offY: int, colSp: int, rowSp: int, minH: int) returns (nextY: int)
      requires JoinJob(lines, fp, ps, colSp, rowSp, minH) && 0 <= l < |lines|
      requires offY == JoinHeight(ps[..l], rowSp, minH) && ShowsLines(ps, l, colSp, rowSp, minH)
      modifies table
      ensures nextY == JoinHeight(ps[..l + 1], rowSp, minH) && ShowsLines(ps, l + 1, colSp, rowSp, minH)
    {
      var lh := LineHeightAt(lines, fp, ps, l, minH);
      assert LineJob(lines, fp, ps, l, offY, lh, colSp, rowSp, minH);
      LineStarts(ps, l, colSp, rowSp, minH);
      PastePieces(lines, fp, ps, l, offY, lh, colSp, rowSp, minH);
      LineEnds(ps, l, colSp, rowSp, minH);
      JoinHeightPrefix(ps, l, rowSp, minH);
      nextY := offY + lh;
      nextY := nextY + rowSp;
    }

    /** The pasting loop of line l (Bitmap.cpp:162-181): its pieces side
        by side, each at its place. */
    method PastePieces(lines: seq<seq<Bitmap>>, ghost fp: set<object>, ghost ps: seq<seq<Piece>>,
                       l: int, offY: int, lh: int, colSp: int, rowSp: int, minH: int)
      requires LineJob(lines, fp, ps, l, offY, lh, colSp, rowSp, minH) && ShowsLine(ps, l, 0, colSp, rowSp, minH)
      modifies table
      ensures ShowsLine(ps, l, |ps[l]|, colSp, rowSp, minH)
    {
      var offX := 0;
      var i := 0;
      while i < |lines[l]|
        invariant 0 <= i <= |lines[l]|
        invariant offX == PlaceX(ps[l], i, colSp)
        invariant ShowsLine(ps, l, i, colSp, rowSp, minH)
      {
        offX := PasteNext(lines, fp, ps, l, i, offX, offY, lh, colSp, rowSp, minH);
        i := i + 1;
      }
    }

    /** One turn of the pasting loop (Bitmap.cpp:164-180): piece i of line l
        aligned in its line, pasted, and the column offset moved past it and
        the spacing. */
    method PasteNext(lines: seq<seq<Bitmap>>, ghost fp: set<object>, ghost ps: seq<seq<Piece>>,
                     l: int, i: int, offX: int, offY: int, lh: int, colSp: int, rowSp: int, minH: int)
      returns (nextX: int)
      requires LineJob(lines, fp, ps, l, offY, lh, colSp, rowSp, minH) && 0 <= i < |lines[l]|
      requires offX == PlaceX(ps[l], i, colSp) && ShowsLine(ps, l, i, colSp, rowSp, minH)
      modifies table
      ensures nextX == PlaceX(ps[l], i + 1, colSp) && ShowsLine(ps, l, i + 1, colSp, rowSp, minH)
    {
      var item := lines[l][i];
      PieceAt(lines, fp, ps, l, i);
      var mode := item.align;
      var alignY := 0;
      if mode == AlignMid {
        alignY := (lh - item.rows) / 2;
      } else if mode == AlignBottom {
        alignY := lh - item.rows;
      }
      JoinFits(ps, l, i, colSp, rowSp, minH);
      PasteAt(item, ps, l, i, offX, offY + alignY, colSp, rowSp, minH);
      LineWidthPrefix(ps[l], i, colSp);
      nextX := offX + item.cols;
      nextX := nextX + colSp;
    }

    /** Piece i of line l pasted at its place: what the first i pieces
        showed becomes what the first i + 1 show. */
    method PasteAt(item: Bitmap, ghost ps: seq<seq<Piece>>, ghost l: int, ghost i: int, x: int, y: int,
                   ghost colSp: int, ghost rowSp: int, ghost minH: int)
      requires item.Valid() && item != this && item.table != table
      requires ShowsLine(ps, l, i, colSp, rowSp, minH) && i < |ps[l]| && ps[l][i] == PieceOf(item)
      requires x == PlaceX(ps[l], i, colSp) && y == PlaceY(ps, l, i, rowSp, minH)
      requires 0 <= x && 0 <= y && x + item.cols <= cols && y + item.rows <= rows
      modifies table
      ensures ShowsLine(ps, l, i + 1, colSp, rowSp, minH)
    {
      PastePiece(item, ps[l][i], x, y);
      forall r, c | 0 <= r < rows && 0 <= c < cols
        ensures At(r, c) == Pasted(ps, l, i + 1, colSp, rowSp, minH, r, c)
      {
        PastedStep(ps, l, i, colSp, rowSp, minH, r, c);
      }
    }

    /** SetBitmap of a bitmap that fits at (x, y), read as its Piece. */
    method PastePiece(item: Bitmap, ghost p: Piece, x: int, y: int)
      requires Valid() && item.Valid() && item != this && item.table != table && p == PieceOf(item)
      requires 0 <= x && 0 <= y && x + p.w <= cols && y + p.h <= rows
      modifies table
      ensures forall r, c :: 0 <= r < rows && 0 <= c < cols ==>
                At(r, c) == if y <= r < y + p.h && x <= c < x + p.w then p.img[r - y][c - x] else old(At(r, c))
    {
      var _ := SetBitmap(item, x, y);
    }
  }

  /** A bitmap as a Piece. */
  ghost function PieceOf(b: Bitmap): (p: Piece)
    requires b.Valid()
    reads b`table, b`owned, b`rows, b`cols, b`align, b.table
    ensures PieceOk(p)
  {
    Piece(b.rows, b.cols, b.align, b.Pixels())
  }

  /** Every bitmap of the lines and its table lie in fp, and each is valid. */
  ghost predicate AllValid(lines: seq<seq<Bitmap>>, fp: set<object>)
    reads fp
  {
    forall l, i :: 0 <= l < |lines| && 0 <= i < |lines[l]| ==>
      lines[l][i] in fp && lines[l][i].table in fp && lines[l][i].Valid()
  }

  /** The lines of bitmaps as lines of Pieces. */
  ghost function PiecesOf(lines: seq<seq<Bitmap>>, fp: set<object>): (ps: seq<seq<Piece>>)
    requires AllValid(lines, fp)
    reads fp
    ensures |ps| == |lines| && LinesOk(ps)
    ensures forall l :: 0 <= l < |lines| ==> |ps[l]| == |lines[l]|
  {
    seq(|lines|, l requires 0 <= l < |lines| && AllValid(lines, fp) reads fp =>
      seq(|lines[l]|, i requires 0 <= i < |lines[l]| && 0 <= l < |lines| && AllValid(lines, fp) reads fp =>
        PieceOf(lines[l][i])))
  }

  /** ps is what the lines of bitmaps show. */
  ghost predicate Snapshot(lines: seq<seq<Bitmap>>, fp: set<object>, ps: seq<seq<Piece>>)
    reads fp
  {
    AllValid(lines, fp) && ps == PiecesOf(lines, fp)
  }

  /** Piece i of line l is bitmap i of line l. */
  lemma PieceAt(lines: seq<seq<Bitmap>>, fp: set<object>, ps: seq<seq<Piece>>, l: int, i: int)
    requires Snapshot(lines, fp, ps) && 0 <= l < |lines| && 0 <= i < |lines[l]|
    ensures lines[l][i] in fp && lines[l][i].table in fp && lines[l][i].Valid()
    ensures ps[l][i] == PieceOf(lines[l][i])
    ensures ps[l][i].h == lines[l][i].rows && ps[l][i].w == lines[l][i].cols && ps[l][i].mode == lines[l][i].align
  {
  }

  /** The first pass of Join (Bitmap.cpp:119-142): the widest line and the
      sum of the line heights with their row spacing. */
  method Measure(lines: seq<seq<Bitmap>>, ghost fp: set<object>, ghost ps: seq<seq<Piece>>, colSp: int, rowSp: int, minH: int)
    returns (w: int, h: int)
    requires Snapshot(lines, fp, ps)
    ensures w == JoinWidth(ps, colSp) && h == JoinHeight(ps, rowSp, minH)
  {
    w, h := 0, 0;
    var l := 0;
    while l < |lines|
      invariant 0 <= l <= |lines| && Snapshot(lines, fp, ps)
      invariant w == JoinWidth(ps[..l], colSp) && h == JoinHeight(ps[..l], rowSp, minH)
    {
      var lw, lh := MeasureLine(lines, fp, ps, l, colSp, minH);
      lh := lh + rowSp;
      if w < lw {
        w := lw;
      }
      h := h + lh;
      JoinWidthPrefix(ps, l, colSp);
      JoinHeightPrefix(ps, l, rowSp, minH);
      l := l + 1;
    }
    assert ps[..|ps|] == ps;
  }

  /** The width and height of line l (Bitmap.cpp:124-134). */
  method MeasureLine(lines: seq<seq<Bitmap>>, ghost fp: set<object>, ghost ps: seq<seq<Piece>>, l: int, colSp: int, minH: int)
    returns (lw: int, lh: int)
    requires Snapshot(lines, fp, ps) && 0 <= l < |lines|
    ensures lw == LineWidth(ps[l], colSp) && lh == LineHeight(ps[l], minH)
  {
    lw, lh := 0, minH;
    var i := 0;
    while i < |lines[l]|
      invariant 0 <= i <= |lines[l]| && Snapshot(lines, fp, ps)
      invariant lw == LineWidth(ps[l][..i], colSp) && lh == LineHeight(ps[l][..i], minH)
    {
      var b := lines[l][i];
      PieceAt(lines, fp, ps, l, i);
      lw := lw + b.cols;
      lw := lw + colSp;
      if lh < b.rows {
        lh := b.rows;
      }
      LineWidthPrefix(ps[l], i, colSp);
      LineHeightPrefix(ps[l], i, minH);
      i := i + 1;
    }
    assert ps[l][..|ps[l]|] == ps[l];
  }

  /** The height of line l, as the second pass of Join recomputes it
      (Bitmap.cpp:155-162). */
  method LineHeightAt(lines: seq<seq<Bitmap>>, ghost fp: set<object>, ghost ps: seq<seq<Piece>>, l: int, minH: int)
    returns (lh: int)
    requires Snapshot(lines, fp, ps) && 0 <= l < |lines|
    ensures lh == LineHeight(ps[l], minH)
  {
    lh := minH;
    var i := 0;
    while i < |lines[l]|
      invariant 0 <= i <= |lines[l]|
      invariant lh == LineHeight(ps[l][..i], minH)
      invariant Snapshot(lines, fp, ps)
    {
      PieceAt(lines, fp, ps, l, i);
      if lh < lines[l][i].rows {
        lh := lines[l][i].rows;
      }
      LineHeightPrefix(ps[l], i, minH);
      i := i + 1;
    }
    assert ps[l][..|ps[l]|] == ps[l];
  }
}
