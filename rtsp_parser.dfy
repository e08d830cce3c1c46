/** The RTSP 1.0 text codec (sections 6.1 and 7.1 of RFC 2326): the
    `split` helper every text parser of the system uses, the request and
    response parsers and the request and response writers of
    BaseClass/CommonTools/RtspParser.cpp. */
module RtspParser {
  import opened Bytes
  import opened CLib

  const Crlf: Text := "\r\n"
  const ColonSpace: Text := ": "

  /** c occurs in s at index i. */
  predicate At(s: Text, c: Text, i: int)
  {
    0 <= i && i + |c| <= |s| && s[i..i + |c|] == c
  }

  ghost predicate Contains(s: Text, c: Text)
  {
    exists i :: At(s, c, i)
  }

  /** No proper suffix of c is also a prefix of c: two occurrences of c
      never overlap, and an occurrence cannot start inside a piece that
      is free of c and run on into a following c. Every separator the
      system splits at ("\r\n", " ", ": ", "/", "://", ...) is so. */
  predicate Unbordered(c: Text)
  {
    UnborderedFrom(c, 1)
  }

  predicate UnborderedFrom(c: Text, k: nat)
    decreases |c| - k
  {
    k >= |c| || (c[k..] != c[..|c| - k] && UnborderedFrom(c, k + 1))
  }

  /** The border of length |c| - k is absent. */
  lemma {:induction false} NoBorder(c: Text, from: nat, k: nat)
    requires UnborderedFrom(c, from) && from <= k < |c|
    ensures c[k..] != c[..|c| - k]
    decreases k - from
  {
    if from < k {
      NoBorder(c, from + 1, k);
    }
  }

  /** std::string::find(c, from): the first index at or after from where
      c occurs, or -1 for npos. */
  function Find(s: Text, c: Text, from: nat): (r: int)
    requires |c| > 0
    ensures r == -1 || (from <= r && At(s, c, r))
    decreases |s| - from
  {
    if from + |c| > |s| then -1
    else if s[from..from + |c|] == c then from
    else Find(s, c, from + 1)
  }

  /** find reports the first occurrence: none lies between from and it. */
  lemma {:induction false} FindFirst(s: Text, c: Text, from: nat)
    requires |c| > 0
    ensures var r := Find(s, c, from);
            forall j :: from <= j && (r == -1 || j < r) ==> !At(s, c, j)
    decreases |s| - from
  {
    if from + |c| <= |s| && s[from..from + |c|] != c {
      FindFirst(s, c, from + 1);
    }
  }

  /** The pieces `split` produces from position beg on. */
  function PiecesFrom(src: Text, c: Text, beg: nat): seq<Text>
    requires |c| > 0 && beg <= |src|
    decreases |src| - beg
  {
    var e := Find(src, c, beg);
    if e < 0 then (if beg == |src| then [] else [src[beg..]])
    else [src[beg..e]] + PiecesFrom(src, c, e + |c|)
  }

  /** The pieces of src between the occurrences of c; the piece after the
      last occurrence is kept only when it is not empty. */
  function Pieces(src: Text, c: Text): seq<Text>
    requires |c| > 0
  {
    PiecesFrom(src, c, 0)
  }

  /** split (BaseClass/CommonTools/RtspParser.cpp:3-22). */
  method Split(src: Text, c: Text) returns (result: seq<Text>)
    requires |c| > 0
    ensures result == Pieces(src, c)
  {
    result := [];
    var beg := 0;
    var e := Find(src, c, 0);
    while e >= 0
      invariant 0 <= beg <= |src|
      invariant e == Find(src, c, beg)
      invariant result + PiecesFrom(src, c, beg) == Pieces(src, c)
      decreases |src| - beg
    {
      PiecesFromFound(src, c, beg, e);
      result := result + [src[beg..e]];
      beg := e + |c|;
      e := Find(src, c, beg);
    }
    PiecesFromLast(src, c, beg);
    if beg != |src| {
      result := result + [src[beg..]];
    }
  }

  /** The pieces joined with c between them. */
  function Join(ps: seq<Text>, c: Text): Text
  {
    if ps == [] then [] else if |ps| == 1 then ps[0] else ps[0] + c + Join(ps[1..], c)
  }

  /** Every piece followed by c: the shape of lines each ended by CRLF. */
  function Terminated(ps: seq<Text>, c: Text): Text
  {
    if ps == [] then [] else ps[0] + c + Terminated(ps[1..], c)
  }

  /** No piece of a split contains the separator. */
  lemma PiecesFree(src: Text, c: Text)
    requires |c| > 0
    ensures forall p :: p in Pieces(src, c) ==> !Contains(p, c)
  {
    PiecesFromFree(src, c, 0);
  }

  lemma {:induction false} PiecesFromFree(src: Text, c: Text, beg: nat)
    requires |c| > 0 && beg <= |src|
    ensures forall p :: p in PiecesFrom(src, c, beg) ==> !Contains(p, c)
    decreases |src| - beg
  {
    var e := Find(src, c, beg);
    FindFirst(src, c, beg);
    if e < 0 {
      if beg < |src| {
        SliceFree(src, c, beg, |src|);
        assert src[beg..|src|] == src[beg..];
      }
    } else {
      SliceFree(src, c, beg, e);
      PiecesFromFree(src, c, e + |c|);
    }
  }

  /** A slice that ends before the next occurrence found from its start
      is free of c. */
  lemma SliceFree(src: Text, c: Text, beg: nat, end: nat)
    requires |c| > 0 && beg <= end <= |src|
    requires forall j :: beg <= j < end ==> !At(src, c, j)
    ensures !Contains(src[beg..end], c)
  {
    var piece := src[beg..end];
    forall i | 0 <= i && i + |c| <= |piece|
      ensures !At(piece, c, i)
    {
      forall m | i <= m < i + |c|
        ensures piece[m] == src[beg + m]
      {
      }
      assert piece[i..i + |c|] == src[beg + i..beg + i + |c|];
      assert !At(src, c, beg + i);
    }
  }

  /** Joining the pieces rebuilds the text, except that a separator at the
      very end is lost; the empty text has no pieces. */
  lemma PiecesJoin(src: Text, c: Text)
    requires |c| > 0
    ensures Pieces(src, c) == [] <==> src == []
    ensures Join(Pieces(src, c), c) == src ||
            (At(src, c, |src| - |c|) && Join(Pieces(src, c), c) + c == src)
  {
    PiecesFromJoin(src, c, 0);
    var j := Join(Pieces(src, c), c);
    if j != src {
      assert src[|src| - |c|..] == c;
    }
  }

  lemma {:induction false} PiecesFromJoin(src: Text, c: Text, beg: nat)
    requires |c| > 0 && beg <= |src|
    ensures PiecesFrom(src, c, beg) == [] <==> beg == |src|
    ensures var j := Join(PiecesFrom(src, c, beg), c); j == src[beg..] || j + c == src[beg..]
    decreases |src| - beg
  {
    var e := Find(src, c, beg);
    if e >= 0 {
      PiecesFromJoinFound(src, c, beg, e);
    }
  }

  /** PiecesFromJoin where an occurrence of c follows beg. */
  lemma {:induction false} PiecesFromJoinFound(src: Text, c: Text, beg: nat, e: int)
    requires |c| > 0 && beg <= |src| && e == Find(src, c, beg) && e >= 0
    ensures PiecesFrom(src, c, beg) != []
    ensures var j := Join(PiecesFrom(src, c, beg), c); j == src[beg..] || j + c == src[beg..]
    decreases |src| - beg, 1
  {
    var n := e + |c|;
    var ps := PiecesFrom(src, c, beg);
    assert ps == [src[beg..e]] + PiecesFrom(src, c, n);
    assert src[e..n] == c;
    assert src[beg..] == src[beg..e] + src[e..n] + src[n..];
    if n == |src| {
      assert Join(ps, c) == src[beg..e];
    } else {
      PiecesFromJoinMore(src, c, beg, e);
    }
  }

  /** PiecesFromJoinFound where text follows the occurrence. */
  lemma {:induction false} PiecesFromJoinMore(src: Text, c: Text, beg: nat, e: int)
    requires |c| > 0 && beg <= |src| && e == Find(src, c, beg) && e >= 0 && e + |c| < |src|
    ensures var j := Join(PiecesFrom(src, c, beg), c); j == src[beg..] || j + c == src[beg..]
    decreases |src| - beg, 0
  {
    var n := e + |c|;
    PiecesFromFound(src, c, beg, e);
    PiecesFromJoin(src, c, n);
    FoundSplitsText(src, c, beg, e);
    JoinStep(PiecesFrom(src, c, beg), src[beg..e], PiecesFrom(src, c, n), c, src[beg..], src[n..]);
  }

  /** Around an occurrence found from beg, the text from beg is the text
      before it, the separator and the text after it. */
  lemma FoundSplitsText(src: Text, c: Text, beg: nat, e: int)
    requires |c| > 0 && beg <= |src| && e == Find(src, c, beg) && e >= 0
    ensures src[beg..] == src[beg..e] + c + src[e + |c|..]
  {
    assert src[e..e + |c|] == c;
    assert src[beg..] == src[beg..e] + src[e..e + |c|] + src[e + |c|..];
  }

  /** One more piece in front keeps the join relation. */
  lemma JoinStep(ps: seq<Text>, head: Text, rest: seq<Text>, c: Text, whole: Text, tail: Text)
    requires ps == [head] + rest && rest != []
    requires whole == head + c + tail
    requires Join(rest, c) == tail || Join(rest, c) + c == tail
    ensures Join(ps, c) == whole || Join(ps, c) + c == whole
  {
    JoinCons(head, rest, c);
    var j := Join(rest, c);
    if j != tail {
      assert head + c + j + c == head + c + (j + c);
    }
  }

  lemma PiecesFromFound(src: Text, c: Text, beg: nat, e: int)
    requires |c| > 0 && beg <= |src| && e == Find(src, c, beg) && e >= 0
    ensures PiecesFrom(src, c, beg) == [src[beg..e]] + PiecesFrom(src, c, e + |c|)
  {
  }

  /** With no occurrence left, what remains is the last piece. */
  lemma PiecesFromLast(src: Text, c: Text, beg: nat)
    requires |c| > 0 && beg <= |src| && Find(src, c, beg) < 0
    ensures PiecesFrom(src, c, beg) == if beg == |src| then [] else [src[beg..]]
  {
  }

  lemma JoinCons(x: Text, rest: seq<Text>, c: Text)
    requires rest != []
    ensures Join([x] + rest, c) == x + c + Join(rest, c)
  {
    assert ([x] + rest)[1..] == rest;
  }

  /** Where find starts past a prefix, it sees only the rest of the text. */
  lemma {:induction false} FindShift(a: Text, b: Text, c: Text, k: nat)
    requires |c| > 0
    ensures Find(a + b, c, |a| + k) == (if Find(b, c, k) < 0 then -1 else |a| + Find(b, c, k))
    decreases |b| - k
  {
    if |a| + k + |c| <= |a + b| {
      assert (a + b)[|a| + k..|a| + k + |c|] == b[k..k + |c|];
      if b[k..k + |c|] != c {
        FindShift(a, b, c, k + 1);
      }
    }
  }

  /** The pieces after a prefix are the pieces of the rest of the text. */
  lemma {:induction false} PiecesShift(a: Text, b: Text, c: Text, k: nat)
    requires |c| > 0 && k <= |b|
    ensures PiecesFrom(a + b, c, |a| + k) == PiecesFrom(b, c, k)
    decreases |b| - k
  {
    FindShift(a, b, c, k);
    var e := Find(b, c, k);
    var ab := a + b;
    if e < 0 {
      assert Find(ab, c, |a| + k) == -1;
      if k < |b| {
        assert ab[|a| + k..] == b[k..];
        assert PiecesFrom(ab, c, |a| + k) == [ab[|a| + k..]];
      }
    } else {
      var n := e + |c|;
      assert Find(ab, c, |a| + k) == |a| + e;
      assert ab[|a| + k..|a| + e] == b[k..e];
      assert PiecesFrom(ab, c, |a| + k) == [ab[|a| + k..|a| + e]] + PiecesFrom(ab, c, |a| + n);
      PiecesShift(a, b, c, n);
    }
  }

  /** In a piece free of c and followed by c, the first occurrence of c is
      the one that follows the piece. */
  lemma FindAfterPiece(p: Text, c: Text, rest: Text)
    requires |c| > 0 && Unbordered(c) && !Contains(p, c)
    ensures Find(p + c + rest, c, 0) == |p|
  {
    var s := p + c + rest;
    assert s[|p|..|p| + |c|] == c;
    forall j | 0 <= j < |p|
      ensures !At(s, c, j)
    {
      if j + |c| <= |p| {
        assert s[j..j + |c|] == p[j..j + |c|];
        assert !At(p, c, j);
      } else {
        NoStraddle(p, c, rest, j);
      }
    }
    var f := Find(s, c, 0);
    FindFirst(s, c, 0);
    assert At(s, c, |p|);
    assert f == |p|;
  }

  /** An occurrence of an unbordered c cannot start inside p and run on
      into the c that follows p. */
  lemma NoStraddle(p: Text, c: Text, rest: Text, j: int)
    requires Unbordered(c) && 0 <= j < |p| < j + |c|
    ensures !At(p + c + rest, c, j)
  {
    var s := p + c + rest;
    var k := |p| - j;
    assert s[j..j + |c|][k..] == s[|p|..j + |c|] == c[..|c| - k];
    NoBorder(c, 1, k);
  }

  /** Splitting lines that each end with the separator, followed by any
      text, gives back the lines and then the pieces of that text: an
      empty piece before a separator survives, an empty tail does not. */
  lemma {:induction false} PiecesTerminated(ps: seq<Text>, t: Text, c: Text)
    requires |c| > 0 && Unbordered(c)
    requires forall p :: p in ps ==> !Contains(p, c)
    ensures Pieces(Terminated(ps, c) + t, c) == ps + Pieces(t, c)
  {
    if ps != [] {
      var rest := Terminated(ps[1..], c) + t;
      assert Terminated(ps, c) + t == ps[0] + c + rest;
      PiecesAfterPiece(ps[0], c, rest);
      PiecesTerminated(ps[1..], t, c);
      Regroup(ps, Pieces(t, c));
    } else {
      assert Terminated(ps, c) + t == t;
    }
  }

  lemma Regroup<T>(ps: seq<T>, tail: seq<T>)
    requires ps != []
    ensures [ps[0]] + (ps[1..] + tail) == ps + tail
  {
  }

  /** A piece free of c followed by c is the first piece. */
  lemma PiecesAfterPiece(p: Text, c: Text, rest: Text)
    requires |c| > 0 && Unbordered(c) && !Contains(p, c)
    ensures Pieces(p + c + rest, c) == [p] + Pieces(rest, c)
  {
    FirstPiece(p, c, rest);
    PiecesAfterSeparator(p, c, rest);
  }

  lemma FirstPiece(p: Text, c: Text, rest: Text)
    requires |c| > 0 && Unbordered(c) && !Contains(p, c)
    ensures Pieces(p + c + rest, c) == [p] + PiecesFrom(p + c + rest, c, |p| + |c|)
  {
    var s := p + c + rest;
    FindAfterPiece(p, c, rest);
    PiecesAtFirst(s, c, |p|);
    assert s[0..|p|] == p;
  }

  lemma PiecesAfterSeparator(p: Text, c: Text, rest: Text)
    requires |c| > 0
    ensures PiecesFrom(p + c + rest, c, |p| + |c|) == Pieces(rest, c)
  {
    PiecesShift(p + c, rest, c, 0);
    assert p + c + rest == (p + c) + rest;
  }

  /** The first piece ends where find first sees c. */
  lemma PiecesAtFirst(s: Text, c: Text, e: int)
    requires |c| > 0 && e == Find(s, c, 0) && e >= 0
    ensures Pieces(s, c) == [s[0..e]] + PiecesFrom(s, c, e + |c|)
  {
  }

  /** A text free of the separator is one piece, or none when empty. */
  lemma PiecesOfFree(t: Text, c: Text)
    requires |c| > 0 && !Contains(t, c)
    ensures Pieces(t, c) == if t == [] then [] else [t]
  {
  }

  /** No character of t is ch. */
  predicate Avoids(t: Text, ch: char)
  {
    forall i :: 0 <= i < |t| ==> t[i] != ch
  }

  lemma AvoidsConcat(a: Text, b: Text, ch: char)
    requires Avoids(a, ch) && Avoids(b, ch)
    ensures Avoids(a + b, ch)
  {
    forall i | 0 <= i < |a + b|
      ensures (a + b)[i] != ch
    {
      if i >= |a| {
        assert (a + b)[i] == b[i - |a|];
      }
    }
  }

  /** A text without the separator's first character does not contain it. */
  lemma AvoidsFree(t: Text, c: Text)
    requires |c| > 0 && Avoids(t, c[0])
    ensures !Contains(t, c)
  {
    forall i | 0 <= i && i + |c| <= |t|
      ensures !At(t, c, i)
    {
      assert t[i..i + |c|][0] == t[i];
    }
  }

  /** Pieces free of the separator, the last one not empty, joined and
      split again are the same pieces. */
  lemma {:induction false} PiecesOfJoin(ps: seq<Text>, c: Text)
    requires |c| > 0 && Unbordered(c) && ps != [] && ps[|ps| - 1] != []
    requires forall i :: 0 <= i < |ps| ==> !Contains(ps[i], c)
    ensures Pieces(Join(ps, c), c) == ps
  {
    if |ps| == 1 {
      PiecesOfFree(ps[0], c);
    } else {
      PiecesAfterPiece(ps[0], c, Join(ps[1..], c));
      PiecesOfJoin(ps[1..], c);
    }
  }

  /** Pieces that avoid a character other than the separator's join
      into a text that avoids it. */
  lemma {:induction false} JoinAvoids(ps: seq<Text>, c: Text, ch: char)
    requires Avoids(c, ch) && forall i :: 0 <= i < |ps| ==> Avoids(ps[i], ch)
    ensures Avoids(Join(ps, c), ch)
  {
    if |ps| > 1 {
      JoinAvoids(ps[1..], c, ch);
      AvoidsConcat(ps[0], c, ch);
      AvoidsConcat(ps[0] + c, Join(ps[1..], c), ch);
    }
  }
}
