/** The layout Bitmap::Join (BaseClass/OSD/Bitmap.cpp:117-187) gives a list
    of lines of bitmaps, on values: each bitmap is a Piece (its rows, its
    columns, its alignment and its bits), the result is as wide as the
    widest line and as high as all lines together. */
module OsdLayout {
  import opened Bytes

  /** AlignMode (BaseClass/OSD/Bitmap.h:5-11). */
  datatype AlignMode = AlignNone | AlignTop | AlignMid | AlignBottom

  /** A bitmap as Join sees it: h rows, w columns, img[r][c] the bit. */
  datatype Piece = Piece(h: int, w: int, mode: AlignMode, img: seq<seq<bool>>)

  predicate PieceOk(p: Piece)
  {
    0 <= p.h && 0 <= p.w && |p.img| == p.h &&
    forall r :: 0 <= r < p.h ==> |p.img[r]| == p.w
  }

  predicate LineOk(line: seq<Piece>)
  {
    forall i :: 0 <= i < |line| ==> PieceOk(line[i])
  }

  predicate LinesOk(ls: seq<seq<Piece>>)
  {
    forall l :: 0 <= l < |ls| ==> LineOk(ls[l])
  }

  /** The width of a line: every piece followed by the column spacing
      (Bitmap.cpp:128-129). */
  function LineWidth(line: seq<Piece>, colSp: int): int
  {
    if line == [] then 0
    else LineWidth(line[..|line| - 1], colSp) + line[|line| - 1].w + colSp
  }

  /** The height of a line: its tallest piece, but at least minH
      (Bitmap.cpp:125, :130-133); the row spacing comes on top. */
  function LineHeight(line: seq<Piece>, minH: int): (lh: int)
    ensures lh >= minH
  {
    if line == [] then minH
    else Max(LineHeight(line[..|line| - 1], minH), line[|line| - 1].h)
  }

  /** The width of the join: its widest line (Bitmap.cpp:137-140). */
  function JoinWidth(ls: seq<seq<Piece>>, colSp: int): (w: int)
    ensures w >= 0
  {
    if ls == [] then 0
    else Max(JoinWidth(ls[..|ls| - 1], colSp), LineWidth(ls[|ls| - 1], colSp))
  }

  /** The height of the join: every line's height plus the row spacing
      (Bitmap.cpp:135, :141). */
  function JoinHeight(ls: seq<seq<Piece>>, rowSp: int, minH: int): (h: int)
    ensures 0 <= rowSp && 0 <= minH ==> h >= 0
  {
    if ls == [] then 0
    else JoinHeight(ls[..|ls| - 1], rowSp, minH) + LineHeight(ls[|ls| - 1], minH) + rowSp
  }

  /** The vertical offset of a piece of height h in a line of height lineH
      (Bitmap.cpp:166-175): centred, at the bottom, or at the top. */
  function AlignY(mode: AlignMode, lineH: int, h: int): int
  {
    match mode
    case AlignMid => (lineH - h) / 2
    case AlignBottom => lineH - h
    case _ => 0
  }

  /** The column of piece i of a line: the width of the pieces before it
      in the same line. */
  function PlaceX(line: seq<Piece>, i: int, colSp: int): int
    requires 0 <= i <= |line|
  {
    LineWidth(line[..i], colSp)
  }

  /** The column of piece i of line l as Bitmap.cpp:151, :178-179 compute it:
      nOffsetX is never reset, so it counts the pieces of every earlier line
      too. */
  function PlaceXAsWritten(ls: seq<seq<Piece>>, l: int, i: int, colSp: int): int
    requires 0 <= l < |ls| && 0 <= i <= |ls[l]|
  {
    SumWidths(ls[..l], colSp) + LineWidth(ls[l][..i], colSp)
  }

  function SumWidths(ls: seq<seq<Piece>>, colSp: int): int
  {
    if ls == [] then 0 else SumWidths(ls[..|ls| - 1], colSp) + LineWidth(ls[|ls| - 1], colSp)
  }

  /** The row of piece i of line l: the lines above it, then its alignment
      within its own line. */
  function PlaceY(ls: seq<seq<Piece>>, l: int, i: int, rowSp: int, minH: int): int
    requires 0 <= l < |ls| && 0 <= i < |ls[l]|
  {
    JoinHeight(ls[..l], rowSp, minH) + AlignY(ls[l][i].mode, LineHeight(ls[l], minH), ls[l][i].h)
  }

  /** The bit at (r, c) once the lines before l are pasted. */
  function Done(ls: seq<seq<Piece>>, l: int, colSp: int, rowSp: int, minH: int, r: int, c: int): bool
    requires LinesOk(ls) && 0 <= l <= |ls|
    decreases l, 0, 0
  {
    if l == 0 then false else Pasted(ls, l - 1, |ls[l - 1]|, colSp, rowSp, minH, r, c)
  }

  /** The bit at (r, c) once the lines before l and the first i pieces of
      line l are pasted: a later piece covers what lies under it. */
  function Pasted(ls: seq<seq<Piece>>, l: int, i: int, colSp: int, rowSp: int, minH: int, r: int, c: int): bool
    requires LinesOk(ls) && 0 <= l < |ls| && 0 <= i <= |ls[l]|
    decreases l, i, 1
  {
    if i == 0 then Done(ls, l, colSp, rowSp, minH, r, c)
    else
      var p := ls[l][i - 1];
      var x := PlaceX(ls[l], i - 1, colSp);
      var y := PlaceY(ls, l, i - 1, rowSp, minH);
      if y <= r < y + p.h && x <= c < x + p.w then p.img[r - y][c - x]
      else Pasted(ls, l, i - 1, colSp, rowSp, minH, r, c)
  }

  /** Pasting piece i of line l, in one step. */
  lemma PastedStep(ls: seq<seq<Piece>>, l: int, i: int, colSp: int, rowSp: int, minH: int, r: int, c: int)
    requires LinesOk(ls) && 0 <= l < |ls| && 0 <= i < |ls[l]|
    ensures Pasted(ls, l, i + 1, colSp, rowSp, minH, r, c) ==
              var p := ls[l][i];
              var x := PlaceX(ls[l], i, colSp);
              var y := PlaceY(ls, l, i, rowSp, minH);
              if y <= r < y + p.h && x <= c < x + p.w then p.img[r - y][c - x]
              else Pasted(ls, l, i, colSp, rowSp, minH, r, c)
  {
  }

  lemma LineWidthPrefix(line: seq<Piece>, i: int, colSp: int)
    requires 0 <= i < |line|
    ensures LineWidth(line[..i + 1], colSp) == LineWidth(line[..i], colSp) + line[i].w + colSp
  {
    assert line[..i + 1][..i] == line[..i];
  }

  /** A longer prefix of a line is at least as wide. */
  lemma {:induction false} LineWidthMono(line: seq<Piece>, a: int, b: int, colSp: int)
    requires LineOk(line) && 0 <= colSp && 0 <= a <= b <= |line|
    ensures LineWidth(line[..a], colSp) <= LineWidth(line[..b], colSp)
    decreases b - a
  {
    if a < b {
      LineWidthMono(line, a, b - 1, colSp);
      LineWidthPrefix(line, b - 1, colSp);
    }
  }

  lemma LineHeightPrefix(line: seq<Piece>, i: int, minH: int)
    requires 0 <= i < |line|
    ensures LineHeight(line[..i + 1], minH) == Max(LineHeight(line[..i], minH), line[i].h)
  {
    assert line[..i + 1][..i] == line[..i];
  }

  /** A line is at least minH high and at least as high as each piece. */
  lemma {:induction false} LineHeightBounds(line: seq<Piece>, minH: int)
    ensures LineHeight(line, minH) >= minH
    ensures forall i :: 0 <= i < |line| ==> line[i].h <= LineHeight(line, minH)
  {
    if line != [] {
      var init := line[..|line| - 1];
      LineHeightBounds(init, minH);
      forall i | 0 <= i < |line| - 1
        ensures line[i].h <= LineHeight(line, minH)
      {
        assert line[i] == init[i];
      }
    }
  }

  /** Every line fits the join's width. */
  lemma {:induction false} JoinWidthBounds(ls: seq<seq<Piece>>, colSp: int)
    ensures forall l :: 0 <= l < |ls| ==> LineWidth(ls[l], colSp) <= JoinWidth(ls, colSp)
  {
    if ls != [] {
      var init := ls[..|ls| - 1];
      JoinWidthBounds(init, colSp);
      forall l | 0 <= l < |ls| - 1
        ensures LineWidth(ls[l], colSp) <= JoinWidth(ls, colSp)
      {
        assert ls[l] == init[l];
      }
    }
  }

  lemma JoinWidthPrefix(ls: seq<seq<Piece>>, l: int, colSp: int)
    requires 0 <= l < |ls|
    ensures JoinWidth(ls[..l + 1], colSp) == Max(JoinWidth(ls[..l], colSp), LineWidth(ls[l], colSp))
  {
    assert ls[..l + 1][..l] == ls[..l];
  }

  lemma JoinHeightPrefix(ls: seq<seq<Piece>>, l: int, rowSp: int, minH: int)
    requires 0 <= l < |ls|
    ensures JoinHeight(ls[..l + 1], rowSp, minH) == JoinHeight(ls[..l], rowSp, minH) + LineHeight(ls[l], minH) + rowSp
  {
    assert ls[..l + 1][..l] == ls[..l];
  }

  /** The lines above a later line are at least as high. */
  lemma {:induction false} JoinHeightMono(ls: seq<seq<Piece>>, a: int, b: int, rowSp: int, minH: int)
    requires 0 <= rowSp && 0 <= minH && 0 <= a <= b <= |ls|
    ensures JoinHeight(ls[..a], rowSp, minH) <= JoinHeight(ls[..b], rowSp, minH)
    decreases b - a
  {
    if a < b {
      JoinHeightMono(ls, a, b - 1, rowSp, minH);
      JoinHeightPrefix(ls, b - 1, rowSp, minH);
      LineHeightBounds(ls[b - 1], minH);
    }
  }

  /** A piece lies within its line, vertically. */
  lemma AlignFits(mode: AlignMode, lineH: int, h: int)
    requires 0 <= h <= lineH
    ensures 0 <= AlignY(mode, lineH, h) && AlignY(mode, lineH, h) + h <= lineH
  {
  }

  /** Every piece lies inside the join: it starts in its own line's band
      and ends within the join's width and height, so every SetBitmap of
      Join succeeds. */
  lemma JoinFits(ls: seq<seq<Piece>>, l: int, i: int, colSp: int, rowSp: int, minH: int)
    requires LinesOk(ls) && 0 <= colSp && 0 <= rowSp && 0 <= minH
    requires 0 <= l < |ls| && 0 <= i < |ls[l]|
    ensures 0 <= PlaceX(ls[l], i, colSp)
    ensures PlaceX(ls[l], i, colSp) + ls[l][i].w <= JoinWidth(ls, colSp)
    ensures JoinHeight(ls[..l], rowSp, minH) <= PlaceY(ls, l, i, rowSp, minH)
    ensures PlaceY(ls, l, i, rowSp, minH) + ls[l][i].h <= JoinHeight(ls[..l], rowSp, minH) + LineHeight(ls[l], minH)
    ensures PlaceY(ls, l, i, rowSp, minH) + ls[l][i].h <= JoinHeight(ls, rowSp, minH)
  {
    var line := ls[l];
    LineWidthMono(line, 0, i, colSp);
    LineWidthMono(line, i + 1, |line|, colSp);
    LineWidthPrefix(line, i, colSp);
    assert line[..|line|] == line;
    JoinWidthBounds(ls, colSp);
    LineHeightBounds(line, minH);
    AlignFits(line[i].mode, LineHeight(line, minH), line[i].h);
    JoinHeightPrefix(ls, l, rowSp, minH);
    JoinHeightMono(ls, l + 1, |ls|, rowSp, minH);
    assert ls[..|ls|] == ls;
  }

  /** Within line l, pieces after i do not reach back to the columns of
      piece i. */
  lemma {:induction false} LaterInLineMiss(ls: seq<seq<Piece>>, l: int, i: int, j: int, colSp: int, rowSp: int, minH: int, r: int, c: int)
    requires LinesOk(ls) && 0 <= colSp && 0 <= l < |ls| && 0 <= i < j <= |ls[l]|
    requires c < PlaceX(ls[l], i, colSp) + ls[l][i].w
    ensures Pasted(ls, l, j, colSp, rowSp, minH, r, c) == Pasted(ls, l, i + 1, colSp, rowSp, minH, r, c)
    decreases j
  {
    if j > i + 1 {
      LaterInLineMiss(ls, l, i, j - 1, colSp, rowSp, minH, r, c);
      LineWidthPrefix(ls[l], i, colSp);
      LineWidthMono(ls[l], i + 1, j - 1, colSp);
    }
  }

  /** Rows above line l are not covered by any piece of line l. */
  lemma {:induction false} LineMissesAbove(ls: seq<seq<Piece>>, l: int, i: int, colSp: int, rowSp: int, minH: int, r: int, c: int)
    requires LinesOk(ls) && 0 <= rowSp && 0 <= minH && 0 <= l < |ls| && 0 <= i <= |ls[l]|
    requires r < JoinHeight(ls[..l], rowSp, minH)
    ensures Pasted(ls, l, i, colSp, rowSp, minH, r, c) == Done(ls, l, colSp, rowSp, minH, r, c)
    decreases i
  {
    if i > 0 {
      LineMissesAbove(ls, l, i - 1, colSp, rowSp, minH, r, c);
      LineHeightBounds(ls[l], minH);
      AlignFits(ls[l][i - 1].mode, LineHeight(ls[l], minH), ls[l][i - 1].h);
    }
  }

  /** Rows in the band of line l are not covered by any later line. */
  lemma {:induction false} LaterLinesMiss(ls: seq<seq<Piece>>, l: int, m: int, colSp: int, rowSp: int, minH: int, r: int, c: int)
    requires LinesOk(ls) && 0 <= rowSp && 0 <= minH && 0 <= l < m <= |ls|
    requires r < JoinHeight(ls[..l], rowSp, minH) + LineHeight(ls[l], minH)
    ensures Done(ls, m, colSp, rowSp, minH, r, c) == Done(ls, l + 1, colSp, rowSp, minH, r, c)
    decreases m
  {
    if m > l + 1 {
      LaterLinesMiss(ls, l, m - 1, colSp, rowSp, minH, r, c);
      JoinHeightPrefix(ls, l, rowSp, minH);
      JoinHeightMono(ls, l + 1, m - 1, rowSp, minH);
      LineMissesAbove(ls, m - 1, |ls[m - 1]|, colSp, rowSp, minH, r, c);
    }
  }

  /** The join shows every piece whole and unchanged at its place: pieces
      do not overlap, so no later piece covers any bit of an earlier one. */
  lemma JoinShows(ls: seq<seq<Piece>>, l: int, i: int, colSp: int, rowSp: int, minH: int, r: int, c: int)
    requires LinesOk(ls) && 0 <= colSp && 0 <= rowSp && 0 <= minH
    requires 0 <= l < |ls| && 0 <= i < |ls[l]|
    requires 0 <= r < ls[l][i].h && 0 <= c < ls[l][i].w
    ensures Done(ls, |ls|, colSp, rowSp, minH,
                 PlaceY(ls, l, i, rowSp, minH) + r, PlaceX(ls[l], i, colSp) + c) == ls[l][i].img[r][c]
  {
    var y := PlaceY(ls, l, i, rowSp, minH) + r;
    var x := PlaceX(ls[l], i, colSp) + c;
    JoinFits(ls, l, i, colSp, rowSp, minH);
    LaterLinesMiss(ls, l, |ls|, colSp, rowSp, minH, y, x);
    LaterInLineMiss(ls, l, i, |ls[l]|, colSp, rowSp, minH, y, x);
  }

  /** As written, the second line's pieces start where the first line
      ended: with one 1x1 piece per line, the join is 6 columns wide and the
      second piece would start at column 6, outside it, so SetBitmap refuses
      it and it is missing from the result; reset per line it starts at 0. */
  lemma JoinAsWrittenDropsSecondLine()
    ensures var p := Piece(1, 1, AlignBottom, [[true]]);
            var ls := [[p], [p]];
            PlaceXAsWritten(ls, 1, 0, 5) + p.w > JoinWidth(ls, 5) &&
            PlaceX(ls[1], 0, 5) == 0 && PlaceX(ls[1], 0, 5) + p.w <= JoinWidth(ls, 5)
  {
    var p := Piece(1, 1, AlignBottom, [[true]]);
    var ls := [[p], [p]];
    assert ls[..1] == [[p]];
    assert [[p]][..0] == [];
    assert [p][..0] == [];
    assert ls[..1][..0] == [];
    assert ls[..|ls| - 1] == [[p]];
    assert LineWidth([p], 5) == 6;
    assert JoinWidth([[p]], 5) == 6;
    assert SumWidths([[p]], 5) == 6;
  }
}
