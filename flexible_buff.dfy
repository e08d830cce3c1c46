/** FlexibleBuff (BaseClass/CommonTools/FlexibleBuff.cpp): a growable byte
    buffer holding its data from the front, with the same allocation rule
    as ExBuff. Allocation failure is an input of Append. */
module FlexibleBuffer {
  import opened Bytes
  import opened ExBuffer

  /** ClearBuff's default bound (BaseClass/CommonTools/FlexibleBuff.h:11). */
  const DefaultKeepMax: int := 512 * 1024

  class FlexibleBuff {
    /** m_pBuff (an empty array while it is null) and whether it is set;
        m_nBuffSIze is buf.Length. */
    var buf: array<byte>
    var owned: bool
    /** m_nDataSize. */
    var dataSize: int

    ghost predicate Valid()
      reads this`buf, this`owned, this`dataSize
    {
      0 <= dataSize <= buf.Length < U32 && (!owned ==> buf.Length == 0)
    }

    /** The bytes held. */
    ghost function Contents(): (r: seq<byte>)
      requires Valid()
      reads this`buf, this`owned, this`dataSize, buf
      ensures |r| == dataSize
    {
      buf[..dataSize]
    }

    /** GetDataSize (BaseClass/CommonTools/FlexibleBuff.h:13). */
    function DataSize(): (n: int)
      requires Valid()
      reads this`buf, this`owned, this`dataSize
      ensures n == |Contents()|
    {
      dataSize
    }

    /** The constructor (FlexibleBuff.cpp:5-10): no storage, no data. */
    constructor ()
      ensures Valid() && !owned && buf.Length == 0 && Contents() == []
    {
      buf := new byte[0];
      owned := false;
      dataSize := 0;
    }

    /** ReleaseAll (FlexibleBuff.cpp:17-25). */
    method ReleaseAll() returns (ret: int)
      modifies this`buf, this`owned, this`dataSize
      ensures Valid() && ret == 0 && !owned && buf.Length == 0 && Contents() == []
    {
      buf := new byte[0];
      owned := false;
      dataSize := 0;
      ret := 0;
    }

    /** Append (FlexibleBuff.cpp:27-68). On success the data is the old
        data followed by d: in place when it fits the capacity, otherwise
        in a new buffer of GrownCapacity; the first allocation has
        FirstCapacity. A failed first allocation gives -1, a failed
        reallocation -2, and both leave everything as it was. */
    method Append(d: seq<byte>, mallocOk: bool) returns (ret: int)
      requires Valid() && dataSize + |d| < U32 && (!owned ==> 2 * |d| < U32)
      modifies this`buf, this`owned, this`dataSize, buf
      ensures Valid()
      ensures ret == -1 <==> !old(owned) && !mallocOk
      ensures ret == -2 <==> old(owned) && !mallocOk && old(dataSize) + |d| > old(buf.Length)
      ensures ret == 0 || ret == -1 || ret == -2
      ensures ret == 0 ==> owned && Contents() == old(Contents()) + d
      ensures ret == 0 && !old(owned) ==> buf.Length == FirstCapacity(|d|)
      ensures ret == 0 && old(owned) && old(dataSize) + |d| <= old(buf.Length) ==> buf == old(buf)
      ensures ret == 0 && old(owned) && old(dataSize) + |d| > old(buf.Length) ==>
                buf.Length == GrownCapacity(old(buf.Length), old(dataSize) + |d|)
      ensures ret != 0 ==>
                (buf == old(buf) && buf[..] == old(buf[..]) && owned == old(owned) && dataSize == old(dataSize))
    {
      if !owned {
        if !mallocOk {
          return -1;
        }
        AppendFirst(d);
      } else if dataSize + |d| <= buf.Length {
        AppendInPlace(d);
      } else {
        if !mallocOk {
          return -2;
        }
        AppendMoved(d);
      }
      ret := 0;
    }

    /** The first allocation, holding d. */
    method AppendFirst(d: seq<byte>)
      requires Valid() && !owned && 2 * |d| < U32
      modifies this`buf, this`owned, this`dataSize
      ensures Valid() && owned && buf.Length == FirstCapacity(|d|)
      ensures Contents() == old(Contents()) + d
    {
      var nb := new byte[FirstCapacity(|d|)];
      CopyIn(nb, 0, d);
      buf, owned, dataSize := nb, true, |d|;
      assert buf[0..|d|] == d;
    }

    /** d written after the data. */
    method AppendInPlace(d: seq<byte>)
      requires Valid() && owned && dataSize + |d| <= buf.Length
      modifies this`dataSize, buf
      ensures Valid() && Contents() == old(Contents()) + d
    {
      CopyIn(buf, dataSize, d);
      assert buf[..dataSize + |d|] == buf[..dataSize] + buf[dataSize..dataSize + |d|];
      dataSize := dataSize + |d|;
    }

    /** A new buffer of GrownCapacity holding the data, then d. */
    method AppendMoved(d: seq<byte>)
      requires Valid() && owned && dataSize + |d| < U32
      modifies this`buf, this`dataSize
      ensures Valid() && Contents() == old(Contents()) + d
      ensures buf.Length == GrownCapacity(old(buf.Length), old(dataSize) + |d|)
    {
      var live := buf[..dataSize];
      var n := |live|;
      var nb := new byte[GrownCapacity(buf.Length, n + |d|)];
      CopyIn(nb, 0, live);
      assert nb[0..n] == live;
      CopyIn(nb, n, d);
      assert nb[0..n] == nb[..n];
      assert nb[..n + |d|] == nb[0..n] + nb[n..n + |d|];
      buf, dataSize := nb, n + |d|;
    }

    /** ClearBuff (FlexibleBuff.cpp:70-82): a capacity above the bound is
        released; otherwise the data is dropped and the storage kept. */
    method ClearBuff(max: int := DefaultKeepMax) returns (ret: int)
      requires Valid() && 0 <= max < U32
      modifies this`buf, this`owned, this`dataSize
      ensures Valid() && ret == 0 && Contents() == []
      ensures old(buf.Length) > max ==> !owned && buf.Length == 0
      ensures old(buf.Length) <= max ==> buf == old(buf) && owned == old(owned)
    {
      if buf.Length > max {
        ret := ReleaseAll();
        return;
      }
      dataSize := 0;
      ret := 0;
    }

    /** GetRawData (FlexibleBuff.cpp:84-89): the buffer (null before the
        first Append) and the data size; nothing changes. */
    method GetRawData() returns (ret: int, data: Option<seq<byte>>, size: int)
      requires Valid()
      ensures ret == 0 && size == |Contents()|
      ensures data == (if owned then Some(Contents()) else None)
    {
      data := if owned then Some(buf[..dataSize]) else None;
      size := dataSize;
      ret := 0;
    }
  }
}
