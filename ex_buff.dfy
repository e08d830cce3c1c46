/** ExBuff (BaseClass/CommonTools/ExBuff.cpp): a growable byte buffer with
    a read position and a write position. The unread bytes lie between the
    two; appending writes after the write position, compacting the unread
    bytes to the front or moving them into a larger buffer when the new
    bytes do not fit. Allocation failure is an input of the operations
    that allocate. */
module ExBuffer {
  import opened Bytes

  /** The size of a first allocation (ExBuff.cpp:36). */
  const MinAlloc: int := 4 * 1024

  /** ClearBuff's default bound (BaseClass/CommonTools/ExBuff.h:14). */
  const DefaultClearMax: int := 16 * 1024

  /** The capacity of the first allocation for n bytes: 4 KiB for fewer
      than 4 KiB, twice the size otherwise. */
  function FirstCapacity(n: int): (cap: int)
    requires 0 <= n && 2 * n < U32
    ensures n <= cap < U32 && cap >= MinAlloc
    ensures n < MinAlloc ==> cap == MinAlloc
    ensures n >= MinAlloc ==> cap == 2 * n
  {
    if n < MinAlloc then MinAlloc else 2 * n
  }

  /** The capacity of a reallocation that must hold need bytes: twice the
      old capacity (as a uint32_t, so shifted modulo 2^32) when that is more,
      otherwise exactly need. */
  function GrownCapacity(cap: int, need: int): (c: int)
    requires 0 <= cap < U32 && 0 <= need < U32
    ensures need <= c < U32
    ensures c == need || c == (2 * cap) % U32
  {
    var doubled := (2 * cap) % U32;
    if doubled > need then doubled else need
  }

  /** A uint32_t capacity below 2^31 really doubles. */
  lemma GrownDoubles(cap: int, need: int)
    requires 0 <= cap && 2 * cap < U32 && 0 <= need < U32
    ensures GrownCapacity(cap, need) == Max(2 * cap, need)
  {
  }

  /** Writes s into a from index at; nothing else in a changes. */
  method CopyIn(a: array<byte>, at: int, s: seq<byte>)
    requires 0 <= at && at + |s| <= a.Length
    modifies a
    ensures a[..at] == old(a[..at]) && a[at..at + |s|] == s && a[at + |s|..] == old(a[at + |s|..])
  {
    var i := 0;
    while i < |s|
      invariant 0 <= i <= |s|
      invariant a[..at] == old(a[..at]) && a[at..at + i] == s[..i] && a[at + |s|..] == old(a[at + |s|..])
    {
      a[at + i] := s[i];
      i := i + 1;
      assert a[at..at + i] == a[at..at + i - 1] + [s[i - 1]];
      assert s[..i] == s[..i - 1] + [s[i - 1]];
    }
    assert s[..|s|] == s;
  }

  class ExBuff {
    /** m_pBuff (an empty array while it is null) and whether it is set. */
    var buf: array<byte>
    var owned: bool
    /** m_nReadPos and m_nWritePos; m_nBuffSIze is buf.Length. */
    var readPos: int
    var writePos: int

    ghost predicate Valid()
      reads this`buf, this`owned, this`readPos, this`writePos
    {
      0 <= readPos <= writePos <= buf.Length < U32 &&
      (!owned ==> buf.Length == 0 && readPos == 0 && writePos == 0)
    }

    /** The unread bytes. */
    ghost function Contents(): (r: seq<byte>)
      requires Valid()
      reads this`buf, this`owned, this`readPos, this`writePos, buf
      ensures |r| == writePos - readPos
    {
      buf[readPos..writePos]
    }

    /** GetDataSize (BaseClass/CommonTools/ExBuff.h:13). */
    function DataSize(): (n: int)
      requires Valid()
      reads this`buf, this`owned, this`readPos, this`writePos
      ensures n == |Contents()|
    {
      writePos - readPos
    }

    /** The constructor (ExBuff.cpp:5-11): no storage, both positions 0. */
    constructor ()
      ensures Valid() && !owned && buf.Length == 0 && Contents() == []
    {
      buf := new byte[0];
      owned := false;
      readPos, writePos := 0, 0;
    }

    /** ReleaseAll (ExBuff.cpp:18-30): the storage goes and both positions
        return to 0. */
    method ReleaseAll() returns (ret: int)
      modifies this`buf, this`owned, this`readPos, this`writePos
      ensures Valid() && ret == 0 && !owned && buf.Length == 0 && Contents() == []
    {
      buf := new byte[0];
      owned := false;
      readPos, writePos := 0, 0;
      ret := 0;
    }

    /** Append (ExBuff.cpp:32-85). mallocOk is what malloc would do if
        called. On success the unread bytes are the old ones followed by
        d; the bytes stay in place when they fit after the write position,
        are moved to the front when they fit the capacity, and otherwise
        move to a new buffer of GrownCapacity. A failed first allocation
        gives -1, a failed reallocation -2, and both leave the buffer
        untouched. */
    method Append(d: seq<byte>, mallocOk: bool) returns (ret: int)
      requires Valid() && writePos + |d| < U32 && (!owned ==> 2 * |d| < U32)
      modifies this`buf, this`owned, this`readPos, this`writePos, buf
      ensures Valid()
      ensures ret == -1 <==> !old(owned) && !mallocOk
      ensures ret == -2 <==> old(owned) && !mallocOk && old(DataSize()) + |d| > old(buf.Length)
      ensures ret == 0 || ret == -1 || ret == -2
      ensures ret == 0 ==> owned && Contents() == old(Contents()) + d
      ensures ret == 0 && !old(owned) ==> buf.Length == FirstCapacity(|d|) && readPos == 0
      ensures ret == 0 && old(owned) && old(writePos) + |d| <= old(buf.Length) ==>
                (buf == old(buf) && readPos == old(readPos))
      ensures ret == 0 && old(owned) && old(writePos) + |d| > old(buf.Length) && old(DataSize()) + |d| <= old(buf.Length) ==>
                (buf == old(buf) && readPos == 0)
      ensures ret == 0 && old(owned) && old(DataSize()) + |d| > old(buf.Length) ==>
                (buf.Length == GrownCapacity(old(buf.Length), old(DataSize()) + |d|) && readPos == 0)
      ensures ret != 0 ==>
                (buf == old(buf) && buf[..] == old(buf[..]) && owned == old(owned) &&
                 readPos == old(readPos) && writePos == old(writePos))
    {
      if !owned {
        if !mallocOk {
          return -1;
        }
        AppendFirst(d);
      } else if writePos + |d| <= buf.Length {
        AppendInPlace(d);
      } else if writePos - readPos + |d| <= buf.Length {
        AppendCompacted(d);
      } else {
        if !mallocOk {
          return -2;
        }
        AppendMoved(d);
      }
      ret := 0;
    }

    /** The first allocation, holding d from the front. */
    method AppendFirst(d: seq<byte>)
      requires Valid() && !owned && 2 * |d| < U32
      modifies this`buf, this`owned, this`readPos, this`writePos
      ensures Valid() && owned && readPos == 0 && buf.Length == FirstCapacity(|d|)
      ensures Contents() == old(Contents()) + d
    {
      var nb := new byte[FirstCapacity(|d|)];
      CopyIn(nb, 0, d);
      buf, owned, readPos, writePos := nb, true, 0, |d|;
      assert buf[0..|d|] == d;
    }

    /** d written after the write position. */
    method AppendInPlace(d: seq<byte>)
      requires Valid() && owned && writePos + |d| <= buf.Length
      modifies this`writePos, buf
      ensures Valid() && Contents() == old(Contents()) + d
    {
      ghost var before := buf[readPos..writePos];
      CopyIn(buf, writePos, d);
      assert buf[readPos..writePos] == before by {
        assert buf[readPos..writePos] == buf[..writePos][readPos..];
      }
      assert buf[readPos..writePos + |d|] == buf[readPos..writePos] + buf[writePos..writePos + |d|];
      writePos := writePos + |d|;
    }

    /** The unread bytes moved to the front (memmove), d after them. */
    method AppendCompacted(d: seq<byte>)
      requires Valid() && owned && writePos - readPos + |d| <= buf.Length
      modifies this`readPos, this`writePos, buf
      ensures Valid() && readPos == 0 && Contents() == old(Contents()) + d
    {
      var live := buf[readPos..writePos];
      var n := |live|;
      CopyIn(buf, 0, live);
      assert buf[0..n] == live;
      CopyIn(buf, n, d);
      assert buf[0..n] == buf[..n];
      assert buf[0..n + |d|] == buf[0..n] + buf[n..n + |d|];
      readPos, writePos := 0, n + |d|;
    }

    /** A new buffer of GrownCapacity holding the unread bytes, then d. */
    method AppendMoved(d: seq<byte>)
      requires Valid() && owned && writePos - readPos + |d| < U32
      modifies this`buf, this`readPos, this`writePos
      ensures Valid() && readPos == 0 && Contents() == old(Contents()) + d
      ensures buf.Length == GrownCapacity(old(buf.Length), old(DataSize()) + |d|)
    {
      var live := buf[readPos..writePos];
      var n := |live|;
      var nb := new byte[GrownCapacity(buf.Length, n + |d|)];
      CopyIn(nb, 0, live);
      assert nb[0..n] == live;
      CopyIn(nb, n, d);
      assert nb[0..n] == nb[..n];
      assert nb[0..n + |d|] == nb[0..n] + nb[n..n + |d|];
      buf, readPos, writePos := nb, 0, n + |d|;
    }

    /** Read (ExBuff.cpp:87-101): with nothing unread, 0 and a null
        pointer; otherwise the count min(size, unread), the bytes at the
        old read position, and the read position moved past them. */
    method Read(size: int) returns (ret: int, data: Option<seq<byte>>)
      requires Valid() && 0 <= size < U32
      modifies this`readPos
      ensures Valid()
      ensures old(DataSize()) == 0 ==> ret == 0 && data == None && readPos == old(readPos)
      ensures old(DataSize()) > 0 ==>
                (ret == Min(size, old(DataSize())) &&
                 data == Some(old(Contents())[..ret]) && Contents() == old(Contents())[ret..])
    {
      var n := writePos - readPos;
      if n == 0 {
        return 0, None;
      }
      ret := if size <= n then size else n;
      data := Some(buf[readPos..readPos + ret]);
      assert buf[readPos..writePos][..ret] == buf[readPos..readPos + ret];
      assert buf[readPos..writePos][ret..] == buf[readPos + ret..writePos];
      readPos := readPos + ret;
    }

    /** GetRawData (ExBuff.cpp:103-109): the unread bytes and their count;
        nothing changes. */
    method GetRawData() returns (ret: int, data: seq<byte>, size: int)
      requires Valid()
      ensures ret == 0 && data == Contents() && size == |Contents()|
    {
      data := buf[readPos..writePos];
      size := writePos - readPos;
      ret := 0;
    }

    /** ClearBuff (ExBuff.cpp:111-122): a bound above the capacity releases
        the storage; otherwise both positions return to 0 and the storage
        is kept. Either way nothing is left unread. */
    method ClearBuff(max: int := DefaultClearMax) returns (ret: int)
      requires Valid() && 0 <= max < U32
      modifies this`buf, this`owned, this`readPos, this`writePos
      ensures Valid() && ret == 0 && Contents() == []
      ensures max > old(buf.Length) ==> !owned && buf.Length == 0
      ensures max <= old(buf.Length) ==> buf == old(buf) && owned == old(owned) && readPos == 0 && writePos == 0
    {
      if max > buf.Length {
        ret := ReleaseAll();
        return;
      }
      readPos, writePos := 0, 0;
      ret := 0;
    }
  }
}
