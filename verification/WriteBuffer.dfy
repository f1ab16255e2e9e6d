/** The growing output buffer: checked growth, then pushes that check nothing. */
module WriteBuffer {
  import opened Json
  import opened Memory

  class WriteBuffer {
    var buf: array<byte>
    var top: nat

    ghost predicate Valid()
      reads this
    {
      top <= buf.Length && buf.Length > 0
    }

    /** What has been written. */
    ghost function Contents(): Bytes
      reads this, buf
      requires Valid()
    {
      buf[..top]
    }

    constructor ()
      ensures Valid() && fresh(buf) && Contents() == []
    {
      buf := new byte[256];
      top := 0;
    }

    method Clear()
      requires Valid()
      modifies this`top
      ensures Valid() && Contents() == []
    {
      top := 0;
    }

    /** At least newCap bytes; contents are kept. */
    method Reserve(newCap: nat)
      requires Valid()
      modifies this`buf
      ensures Valid() && newCap <= buf.Length && Contents() == old(Contents()) && (fresh(buf) || buf == old(buf))
      ensures buf.Length == if newCap < old(buf.Length) then old(buf.Length) else newCap
    {
      if newCap < buf.Length {
        return;
      }
      var tmp := new byte[newCap];
      forall k | 0 <= k < top {
        tmp[k] := buf[k];
      }
      buf := tmp;
    }

    /** The capacity doubles, or is half as much again as is needed. */
    static function GrownCapacity(capacity: nat, needed: nat): nat {
      if needed < capacity then capacity else if needed <= 2 * capacity then 2 * capacity else needed + needed / 2
    }

    /** Room for cnt more bytes. */
    method Grow(cnt: nat)
      requires Valid()
      modifies this`buf
      ensures Valid() && top + cnt <= buf.Length && Contents() == old(Contents()) && (fresh(buf) || buf == old(buf))
      ensures buf.Length == GrownCapacity(old(buf.Length), top + cnt)
    {
      if top + cnt >= buf.Length {
        if top + cnt > 2 * buf.Length {
          var needed := top + cnt;
          Reserve(needed + needed / 2);
        } else {
          Reserve(buf.Length * 2);
        }
      }
    }

    method PushUnsafe(c: byte)
      requires Valid() && top + 1 <= buf.Length
      modifies this`top, buf
      ensures Valid() && Contents() == old(Contents()) + [c] && top == old(top) + 1
    {
      buf[top] := c;
      top := top + 1;
    }

    /** The bytes up to `end` have been written behind the contents. */
    method PushSizeUnsafe(end: nat)
      requires Valid() && top <= end <= buf.Length
      modifies this`top
      ensures Valid() && top == end && Contents() == old(Contents()) + buf[old(top)..end]
    {
      top := end;
      assert buf[..end] == buf[..old(top)] + buf[old(top)..end];
    }

    /** Eight bytes at once, of which n count. */
    method Push5_8(bytes8: Bytes, n: nat)
      requires Valid() && |bytes8| == 8 && n <= 8
      modifies this, buf
      ensures Valid() && Contents() == old(Contents()) + bytes8[..n] && (fresh(buf) || buf == old(buf))
    {
      Grow(8);
      ghost var before := Contents();
      var t := top;
      Store(buf, t, bytes8);
      assert buf[t..t + n] == buf[t..t + 8][..n];
      assert buf[..t + n] == buf[..t] + buf[t..t + n];
      assert buf[..top] == before;
      top := top + n;
    }

    /** Takes n bytes back. */
    method Pop(n: nat)
      requires Valid() && n <= top
      modifies this`top
      ensures Valid() && top == old(top) - n && Contents() == old(Contents())[..old(top) - n]
    {
      top := top - n;
    }
  }
}
