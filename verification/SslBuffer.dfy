/** A queue of bytes in a buffer with an aligned start, as records are read
    into and written from. */
module SslBuffer {
  import opened Bytes

  const ALIGN: nat := 8
  const MAX_CAP: nat := 0xffff

  /** Where in a new allocation at `address` a buffer starts, for the byte after
      `headerLen` bytes to be aligned. */
  function Slack(headerLen: nat, address: nat): (offset: nat)
    ensures offset < ALIGN && (address + offset + headerLen) % ALIGN == 0
  {
    var r := (headerLen + address) % ALIGN;
    if r == 0 then 0 else ALIGN - r
  }

  class Buffer {
    var buf: array?<byte>
    var offset: nat
    var size: nat
    var cap: nat
    ghost var Repr: set<object>

    ghost predicate Valid()
      reads this, Repr
    {
      && this in Repr && size <= cap <= MAX_CAP && offset <= MAX_CAP
      && (if buf == null then cap == 0 else buf in Repr && offset + cap <= buf.Length)
    }

    /** Consuming all of it does not make the 16-bit offset wrap. */
    predicate NoWrap()
      reads this
    {
      offset + cap <= MAX_CAP
    }

    function Contents(): seq<byte>
      requires Valid()
      reads this, Repr
    {
      if buf == null then [] else buf[offset..offset + size]
    }

    constructor ()
      ensures Valid() && NoWrap() && fresh(Repr) && Contents() == [] && cap == 0 && size == 0
    {
      buf, offset, size, cap := null, 0, 0, 0;
      Repr := {this};
    }

    method Clear()
      requires Valid()
      modifies this
      ensures Valid() && NoWrap() && Repr == old(Repr) && Contents() == [] && cap == 0 && size == 0
    {
      buf, offset, size, cap := null, 0, 0, 0;
    }

    /** Room for `newCap` bytes in all; `address` is what the allocator gives. */
    method EnsureCap(headerLen: nat, newCap: nat, address: nat) returns (ok: bool)
      requires Valid()
      modifies this
      ensures Valid() && fresh(Repr - old(Repr)) && old(Repr) <= Repr
      ensures ok <==> newCap <= MAX_CAP
      ensures Contents() == old(Contents()) && size == old(size) && (ok ==> cap >= newCap)
      ensures if old(cap) < newCap <= MAX_CAP then (offset, cap) == (Slack(headerLen, address), newCap)
              else (offset, cap) == old((offset, cap))
    {
      if newCap > MAX_CAP {
        return false;
      }
      ok := true;
      if cap >= newCap {
        return;
      }
      var newBuf := new byte[newCap + ALIGN - 1];
      var newOffset := Slack(headerLen, address);
      if buf != null {
        CopyInto(newBuf, newOffset, buf[offset..offset + size]);
      }
      buf, offset, cap := newBuf, newOffset, newCap;
      Repr := Repr + {newBuf};
    }

    /** Writes behind the contents and counts it in. */
    method Put(data: seq<byte>)
      requires Valid() && |data| <= cap - size
      modifies this, Repr
      ensures Valid() && Repr == old(Repr) && Contents() == old(Contents()) + data
      ensures (offset, cap) == old((offset, cap)) && size == old(size) + |data|
    {
      if data == [] {
        return;
      }
      ghost var before := Contents();
      CopyInto(buf, offset + size, data);
      assert buf[offset..offset + size] == before by {
        assert buf[..offset + size] == old(buf[..offset + size]);
        assert buf[offset..offset + size] == buf[..offset + size][offset..];
      }
      size := size + |data|;
      assert Contents() == before + data;
    }

    /** Drops bytes in front, as long as the offset fits its 16 bits; if it does
        not, what counts as the contents lies 2^16 bytes too far in front. */
    method Consume(n: nat)
      requires Valid() && n <= size
      modifies this
      ensures Valid() && Repr == old(Repr) && size == old(size) - n
      ensures if old(offset) + n <= MAX_CAP then Contents() == old(Contents())[n..]
              else buf != null && offset + 0x1_0000 == old(offset) + n && offset + size <= buf.Length &&
                   Contents() == buf[offset..offset + size]
      ensures old(NoWrap()) ==> NoWrap()
    {
      offset, size, cap := (offset + n) % 0x1_0000, size - n, cap - n;
    }

    method DiscardConsumed()
      requires Valid()
      modifies this
      ensures Valid() && Repr == old(Repr) && Contents() == old(Contents()) && (old(NoWrap()) ==> NoWrap())
      ensures size == old(size) && (size == 0 ==> cap == 0)
    {
      if size == 0 {
        Clear();
      }
    }
  }
}
