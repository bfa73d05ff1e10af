/** The TLS write path in memory. */
module TlsWriter {
  import opened Bytes
  import opened RecordTypes
  import opened TlsWrite
  import SslBuffer

  class RecordWriter {
    const config: Config
    var pendingFlight: Option<seq<byte>>
    var pendingFlightOffset: nat
    const writeBuffer: SslBuffer.Buffer
    var wpendPending: bool
    var wpendTot: nat
    var wpendBuf: int
    var wpendType: byte
    var wpendRet: nat
    var wnum: nat
    var shutdown: bool
    var seals: nat
    var calls: nat
    var transport: seq<byte>
    ghost var sealed: seq<Sealed>

    ghost predicate Valid()
      reads this, writeBuffer, writeBuffer.Repr
    {
      && config.Valid() && writeBuffer.Valid() && writeBuffer.NoWrap() && this !in writeBuffer.Repr
      && (pendingFlight.Some? ==> pendingFlightOffset <= |pendingFlight.value|)
      && (pendingFlight.None? ==> pendingFlightOffset == 0)
      && (wpendPending ==> wpendRet == wpendTot)
    }

    ghost function View(): Writer
      requires Valid()
      reads this, writeBuffer, writeBuffer.Repr
    {
      Writer(pendingFlight, pendingFlightOffset, writeBuffer.Contents(),
             if wpendPending then Some(Pending(wpendTot, wpendBuf, wpendType)) else None,
             wnum, shutdown, seals, calls, transport, sealed)
    }

    constructor (config: Config)
      requires config.Valid()
      ensures Valid() && fresh(writeBuffer.Repr)
      ensures View() == Writer(None, 0, [], None, 0, false, 0, 0, [], [])
    {
      this.config := config;
      pendingFlight, pendingFlightOffset := None, 0;
      wpendPending, wpendTot, wpendBuf, wpendType, wpendRet := false, 0, 0, 0, 0;
      wnum, shutdown, seals, calls := 0, false, 0, 0;
      transport, sealed := [], [];
      writeBuffer := new SslBuffer.Buffer();
    }

    /** One call of the transport with the write buffer. */
    method WriteBuffer() returns (ret: int)
      requires Valid() && writeBuffer.size != 0
      modifies this, writeBuffer
      ensures Valid() && writeBuffer.Repr == old(writeBuffer.Repr)
      ensures var w, w' := old(View()), View();
              && ret == config.bio(w.calls)
              && w' == (if ret <= 0 then w.(calls := w.calls + 1) else
                        var n := Min(ret, |w.buffer|);
                        w.(calls := w.calls + 1, transport := w.transport + w.buffer[..n], buffer := w.buffer[n..]))
      ensures ret > 0 ==> writeBuffer.size < old(writeBuffer.size)
    {
      ret := config.bio(calls);
      calls := calls + 1;
      if ret > 0 {
        var n := Min(ret, writeBuffer.size);
        transport := transport + writeBuffer.Contents()[..n];
        writeBuffer.Consume(n);
      }
    }

    method FlushBuffer() returns (ret: int)
      requires Valid()
      modifies this, writeBuffer
      ensures Valid() && writeBuffer.Repr == old(writeBuffer.Repr)
      ensures (View(), ret) == TlsWrite.FlushBuffer(config, old(View()))
    {
      ghost var start := View();
      while writeBuffer.size != 0
        invariant Valid() && writeBuffer.Repr == old(writeBuffer.Repr)
        invariant TlsWrite.FlushBuffer(config, start) == TlsWrite.FlushBuffer(config, View())
        decreases writeBuffer.size
      {
        assert View().buffer != [];
        ret := WriteBuffer();
        if ret <= 0 {
          return;
        }
      }
      ghost var w := View();
      writeBuffer.Clear();
      assert View() == w;
      ret := 1;
    }

    method FlushFlight() returns (ret: int)
      requires Valid()
      modifies this, writeBuffer
      ensures Valid() && writeBuffer.Repr == old(writeBuffer.Repr)
      ensures (View(), ret) == TlsWrite.FlushFlight(config, old(View()))
    {
      hide TlsWrite.FlushBuffer, TlsWrite.SendFlight;
      if pendingFlight.None? {
        return 1;
      }
      if shutdown || |pendingFlight.value| > INT_MAX {
        return -1;
      }
      FlushBufferKeepsFlight(config, View());
      if writeBuffer.size != 0 {
        ret := FlushBuffer();
        if ret <= 0 {
          return;
        }
      } else {
        EmptyFlushes(config, View());
      }
      ret := SendFlight();
    }

    /** One call of the transport with the rest of the flight. */
    method WriteFlight() returns (ret: int)
      requires Valid() && pendingFlight.Some? && pendingFlightOffset < |pendingFlight.value|
      modifies this
      ensures Valid() && pendingFlight == old(pendingFlight)
      ensures var w, w' := old(View()), View();
              && ret == config.bio(w.calls)
              && w' == (if ret <= 0 then w.(calls := w.calls + 1) else
                        var n := Min(ret, |w.flight.value| - w.offset);
                        w.(calls := w.calls + 1, offset := w.offset + n,
                           transport := w.transport + w.flight.value[w.offset..w.offset + n]))
      ensures ret > 0 ==> pendingFlightOffset > old(pendingFlightOffset)
    {
      ret := config.bio(calls);
      calls := calls + 1;
      if ret > 0 {
        var n := Min(ret, |pendingFlight.value| - pendingFlightOffset);
        transport := transport + pendingFlight.value[pendingFlightOffset..pendingFlightOffset + n];
        pendingFlightOffset := pendingFlightOffset + n;
      }
    }

    method SendFlight() returns (ret: int)
      requires Valid() && pendingFlight.Some?
      modifies this
      ensures Valid()
      ensures (View(), ret) == TlsWrite.SendFlight(config, old(View()))
    {
      ghost var start := View();
      while pendingFlightOffset < |pendingFlight.value|
        invariant Valid() && pendingFlight.Some?
        invariant TlsWrite.SendFlight(config, start) == TlsWrite.SendFlight(config, View())
        decreases |pendingFlight.value| - pendingFlightOffset
      {
        ret := WriteFlight();
        if ret <= 0 {
          return;
        }
      }
      ret := config.bio(calls);
      calls := calls + 1;
      if ret <= 0 {
        return -1;
      }
      pendingFlight, pendingFlightOffset := None, 0;
      ret := 1;
    }

    method AddRecord(typ: byte, plain: seq<byte>) returns (ok: bool)
      requires Valid() && pendingFlightOffset == 0
      modifies this
      ensures Valid() && pendingFlightOffset == 0
      ensures (View(), ok) == TlsWrite.AddRecord(config, old(View()), typ, plain)
    {
      if pendingFlight.None? {
        pendingFlight := Some([]);
      }
      var record := config.sealer.seal(seals, typ, plain);
      seals := seals + 1;
      if record.None? {
        return false;
      }
      pendingFlight := Some(pendingFlight.value + record.value);
      sealed := sealed + [Sealed(typ, plain, record.value)];
      ok := true;
    }

    method AddMessage(msg: seq<byte>) returns (ok: bool)
      requires Valid() && pendingFlightOffset == 0
      modifies this
      ensures Valid() && pendingFlightOffset == 0
      ensures (View(), ok) == TlsWrite.AddMessage(config, old(View()), msg)
    {
      hide TlsWrite.AddRecord;
      var rest := msg;
      ghost var start := View();
      var more := true;
      while more
        invariant Valid() && pendingFlightOffset == 0
        invariant if more then TlsWrite.AddMessage(config, start, msg) == TlsWrite.AddMessage(config, View(), rest)
                  else TlsWrite.AddMessage(config, start, msg) == (View(), true)
        decreases more, |rest|
      {
        var chunk := rest[..Min(config.maxFragment, |rest|)];
        rest := rest[|chunk|..];
        ok := AddRecord(RT_HANDSHAKE, chunk);
        if !ok {
          return;
        }
        more := rest != [];
      }
      ok := true;
    }

    method WritePending(typ: byte, addr: int, len: nat) returns (ret: int)
      requires Valid() && wpendPending
      modifies this, writeBuffer
      ensures Valid() && writeBuffer.Repr == old(writeBuffer.Repr)
      ensures (View(), ret) == TlsWrite.WritePending(config, old(View()), typ, addr, len)
    {
      if wpendTot > len || (!config.movingBuffer && wpendBuf != addr) || wpendType != typ {
        return -1;
      }
      FlushBufferKeepsFlight(config, View());
      ret := FlushBuffer();
      if ret <= 0 {
        return;
      }
      wpendPending := false;
      ret := wpendRet;
    }

    /** The unflushed flight goes in front of the next record. */
    method MoveFlight()
      requires Valid() && |View().FlightRest()| <= writeBuffer.cap - writeBuffer.size
      modifies this, writeBuffer, writeBuffer.Repr
      ensures Valid() && writeBuffer.Repr == old(writeBuffer.Repr) && writeBuffer.cap == old(writeBuffer.cap)
      ensures writeBuffer.size == old(writeBuffer.size) + |old(View()).FlightRest()|
      ensures View() == old(View()).(buffer := old(View()).buffer + old(View()).FlightRest(), flight := None, offset := 0)
    {
      if pendingFlight.Some? {
        writeBuffer.Put(pendingFlight.value[pendingFlightOffset..]);
        pendingFlight, pendingFlightOffset := None, 0;
      } else {
        assert View().buffer + [] == View().buffer;
      }
    }

    method SealInto(typ: byte, addr: int, data: seq<byte>) returns (ok: bool)
      requires Valid() && writeBuffer.size == 0 && !wpendPending
      requires |data| + config.sealer.overhead + |View().FlightRest()| <= writeBuffer.cap
      modifies this, writeBuffer, writeBuffer.Repr
      ensures Valid() && writeBuffer.Repr == old(writeBuffer.Repr)
      ensures (View(), ok) == TlsWrite.SealInto(config, old(View()), typ, addr, data)
      ensures ok ==> wpendPending
    {
      hide SslBuffer.Buffer.Contents;
      MoveFlight();
      var record := config.sealer.seal(seals, typ, data);
      seals := seals + 1;
      if record.None? {
        return false;
      }
      assert |record.value| <= |data| + config.sealer.overhead;
      PutRecord(Sealed(typ, data, record.value), addr);
      ok := true;
    }

    /** The sealed record is in the buffer, and its write is pending. */
    method PutRecord(s: Sealed, addr: int)
      requires Valid() && |s.wire| <= writeBuffer.cap - writeBuffer.size
      modifies this, writeBuffer, writeBuffer.Repr
      ensures Valid() && writeBuffer.Repr == old(writeBuffer.Repr) && wpendPending
      ensures View() == old(View()).(buffer := old(View()).buffer + s.wire, sealed := old(View()).sealed + [s],
                                     pending := Some(Pending(|s.plain|, addr, s.typ)))
    {
      writeBuffer.Put(s.wire);
      sealed := sealed + [s];
      wpendPending, wpendTot, wpendBuf, wpendType, wpendRet := true, |s.plain|, addr, s.typ, |s.plain|;
    }

    /** `address` is where the allocator puts a new buffer.  A capacity within
        the alignment slack of 16 bits is left out. */
    method WriteRecord(typ: byte, addr: int, data: seq<byte>, address: nat) returns (ret: int)
      requires Valid()
      requires var room := |data| + config.sealer.overhead + |View().FlightRest()|;
               room + SslBuffer.ALIGN - 1 <= MAX_CAP || room > MAX_CAP
      modifies this, writeBuffer, writeBuffer.Repr
      ensures Valid() && fresh(writeBuffer.Repr - old(writeBuffer.Repr)) && old(writeBuffer.Repr) <= writeBuffer.Repr
      ensures (View(), ret) == TlsWrite.WriteRecord(config, old(View()), typ, addr, data)
    {
      hide TlsWrite.WritePending, TlsWrite.SealInto;
      if wpendPending {
        ret := WritePending(typ, addr, |data|);
        return;
      }
      if |data| > MAX_PLAIN || writeBuffer.size > 0 {
        return -1;
      }
      if |data| == 0 {
        return 0;
      }
      ghost var start := View();
      var flightLen := if pendingFlight.Some? then |pendingFlight.value| - pendingFlightOffset else 0;
      var ok := writeBuffer.EnsureCap(flightLen, |data| + config.sealer.overhead + flightLen, address);
      assert View() == start;
      if !ok {
        return -1;
      }
      ok := SealInto(typ, addr, data);
      if !ok {
        return -1;
      }
      ret := WritePending(typ, addr, |data|);
    }

    /** No capacity that a write of application data asks for is within the
        alignment slack of 16 bits. */
    ghost predicate RoomForApp()
      requires Valid()
      reads this, writeBuffer, writeBuffer.Repr
    {
      var most := config.maxFragment + config.sealer.overhead + SslBuffer.ALIGN - 1;
      && most <= MAX_CAP
      && (|View().FlightRest()| + most <= MAX_CAP || |View().FlightRest()| > MAX_CAP)
    }

    /** One chunk of application data. */
    method WriteChunk(addr: int, chunk: seq<byte>, address: nat) returns (ret: int)
      requires Valid() && RoomForApp() && |chunk| <= config.maxFragment
      modifies this, writeBuffer, writeBuffer.Repr
      ensures Valid() && RoomForApp()
      ensures fresh(writeBuffer.Repr - old(writeBuffer.Repr)) && old(writeBuffer.Repr) <= writeBuffer.Repr
      ensures (View(), ret) == TlsWrite.WriteRecord(config, old(View()), RT_APPLICATION_DATA, addr, chunk)
    {
      hide TlsWrite.WriteRecord, Config.Valid;
      RecordFlight(config, View(), RT_APPLICATION_DATA, addr, chunk);
      ret := WriteRecord(RT_APPLICATION_DATA, addr, chunk, address);
    }

    /** Chunk by chunk, from byte `from` on. */
    method WriteFrom(addr: int, input: seq<byte>, from: nat, addresses: nat -> nat) returns (ret: int)
      requires Valid() && RoomForApp() && from <= |input|
      modifies this, writeBuffer, writeBuffer.Repr
      ensures Valid() && fresh(writeBuffer.Repr - old(writeBuffer.Repr)) && old(writeBuffer.Repr) <= writeBuffer.Repr
      ensures (View(), ret) == WriteLoop(config, old(View()), addr, input, from)
    {
      hide TlsWrite.WriteRecord, WriteLoop, Config.Valid;
      var tot := from;
      ghost var result := WriteLoop(config, View(), addr, input, from);
      var n := |input| - tot;
      while true
        invariant Valid() && RoomForApp() && tot <= |input| && n == |input| - tot
        invariant fresh(writeBuffer.Repr - old(writeBuffer.Repr)) && old(writeBuffer.Repr) <= writeBuffer.Repr
        invariant result == WriteLoop(config, View(), addr, input, tot)
        decreases n
      {
        var nw := Min(n, config.maxFragment);
        ghost var before := View();
        ret := WriteChunk(addr + tot, input[tot..tot + nw], addresses(tot));
        LoopUnfolds(config, before, addr, input, tot, View(), ret);
        if ret <= 0 {
          wnum := tot;
          return;
        }
        if ret >= n || config.partialWrite {
          return tot + ret;
        }
        n := n - ret;
        tot := tot + ret;
      }
    }

    /** Application data; `addresses` is where the allocator puts new buffers. */
    method WriteAppData(addr: int, input: seq<byte>, addresses: nat -> nat) returns (ret: int)
      requires Valid() && RoomForApp()
      modifies this, writeBuffer, writeBuffer.Repr
      ensures Valid() && fresh(writeBuffer.Repr - old(writeBuffer.Repr)) && old(writeBuffer.Repr) <= writeBuffer.Repr
      ensures (View(), ret) == WriteApp(config, old(View()), addr, input)
    {
      hide WriteLoop, Config.Valid;
      if shutdown {
        return -1;
      }
      var tot := wnum;
      wnum := 0;
      if |input| < tot {
        return -1;
      }
      ret := WriteFrom(addr, input, tot, addresses);
    }
  }

  lemma {:induction false} FlushBufferKeepsFlight(c: Config, w: Writer)
    ensures var w' := TlsWrite.FlushBuffer(c, w).0;
            w'.flight == w.flight && w'.offset == w.offset && w'.pending == w.pending
    decreases |w.buffer|
  {
    if w.buffer != [] && c.bio(w.calls) > 0 {
      var n := Min(c.bio(w.calls), |w.buffer|);
      FlushBufferKeepsFlight(c, w.(calls := w.calls + 1, transport := w.transport + w.buffer[..n], buffer := w.buffer[n..]));
    }
  }

  lemma EmptyFlushes(c: Config, w: Writer)
    requires w.buffer == []
    ensures TlsWrite.FlushBuffer(c, w) == (w, 1)
  {
  }

  /** After a record, the flight is as it was or in the buffer. */
  lemma RecordFlight(c: Config, w: Writer, typ: byte, addr: int, data: seq<byte>)
    ensures var w' := TlsWrite.WriteRecord(c, w, typ, addr, data).0;
            w'.FlightRest() == w.FlightRest() || w'.FlightRest() == []
  {
    hide TlsWrite.FlushBuffer;
    if w.pending.Some? {
      FlushBufferKeepsFlight(c, w);
    } else {
      var w1 := TlsWrite.SealInto(c, w, typ, addr, data).0;
      FlushBufferKeepsFlight(c, w1);
    }
  }

  lemma LoopUnfolds(c: Config, w: Writer, addr: int, input: seq<byte>, tot: nat, w1: Writer, ret: int)
    requires tot <= |input|
    requires (w1, ret) ==
             TlsWrite.WriteRecord(c, w, RT_APPLICATION_DATA, addr + tot, input[tot..tot + Min(|input| - tot, c.maxFragment)])
    ensures ret <= 0 ==> WriteLoop(c, w, addr, input, tot) == (w1.(wnum := tot), ret)
    ensures ret > 0 && (ret >= |input| - tot || c.partialWrite) ==>
              WriteLoop(c, w, addr, input, tot) == (w1, tot + ret)
    ensures 0 < ret < |input| - tot && !c.partialWrite ==>
              WriteLoop(c, w, addr, input, tot) == WriteLoop(c, w1, addr, input, tot + ret)
  {
  }
}
