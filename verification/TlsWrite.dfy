/** The TLS write path as a value: a pending flight of handshake records, a
    write buffer, and a record whose write was blocked. */
module TlsWrite {
  import opened Bytes
  import opened RecordTypes

  const MAX_CAP: nat := 0xffff
  const INT_MAX: nat := 0x7fff_ffff
  const CCS_BODY: seq<byte> := [1]

  /** One record that was sealed: its type, its plaintext, its bytes. */
  datatype Sealed = Sealed(typ: byte, plain: seq<byte>, wire: seq<byte>)

  /** Sealing for the n-th time may fail. */
  datatype Sealer = Sealer(overhead: nat, seal: (nat, byte, seq<byte>) -> Option<seq<byte>>)
  {
    ghost predicate Valid() {
      forall n: nat, typ: byte, plain: seq<byte> ::
        seal(n, typ, plain).Some? ==> |seal(n, typ, plain).value| <= |plain| + overhead
    }
  }

  /** A record in the write buffer whose write has not been reported. */
  datatype Pending = Pending(tot: nat, addr: int, typ: byte)

  datatype Config = Config(maxFragment: nat, partialWrite: bool, movingBuffer: bool, sealer: Sealer, bio: nat -> int)
  {
    ghost predicate Valid() {
      512 <= maxFragment <= MAX_PLAIN && sealer.Valid()
    }
  }

  /** `bio(k)` is the transport's answer to its k-th call; `transport` and
      `sealed` are what it took and what was sealed so far. */
  datatype Writer = Writer(flight: Option<seq<byte>>, offset: nat, buffer: seq<byte>, pending: Option<Pending>,
                           wnum: nat, shutdown: bool, seals: nat, calls: nat,
                           transport: seq<byte>, sealed: seq<Sealed>)
  {
    /** The part of the flight that is not written. */
    function FlightRest(): seq<byte> {
      if flight.Some? && offset <= |flight.value| then flight.value[offset..] else []
    }

    /** Bytes that are past the flight. */
    function Out(): nat { |transport| + |buffer| }
  }

  // ----- Flushing ---------------------------------------------------------

  function FlushBuffer(c: Config, w: Writer): (Writer, int)
    decreases |w.buffer|
  {
    if w.buffer == [] then (w, 1) else
    var ret := c.bio(w.calls);
    if ret <= 0 then (w.(calls := w.calls + 1), ret) else
    var n := Min(ret, |w.buffer|);
    FlushBuffer(c, w.(calls := w.calls + 1, transport := w.transport + w.buffer[..n], buffer := w.buffer[n..]))
  }

  function SendFlight(c: Config, w: Writer): (Writer, int)
    requires w.flight.Some?
    decreases |w.flight.value| - w.offset
  {
    var ret := c.bio(w.calls);
    if w.offset >= |w.flight.value| then
      if ret <= 0 then (w.(calls := w.calls + 1), -1)
      else (w.(calls := w.calls + 1, flight := None, offset := 0), 1)
    else if ret <= 0 then (w.(calls := w.calls + 1), ret)
    else
      var n := Min(ret, |w.flight.value| - w.offset);
      SendFlight(c, w.(calls := w.calls + 1, offset := w.offset + n,
                       transport := w.transport + w.flight.value[w.offset..w.offset + n]))
  }

  /** What is in the write buffer goes out before the flight. */
  function FlushFlight(c: Config, w: Writer): (Writer, int) {
    if w.flight.None? then (w, 1)
    else if w.shutdown || |w.flight.value| > INT_MAX then (w, -1)
    else
      var (w1, ret) := FlushBuffer(c, w);
      if ret <= 0 || w1.flight.None? then (w1, ret) else SendFlight(c, w1)
  }

  // ----- Adding to the flight ---------------------------------------------

  function AddRecord(c: Config, w: Writer, typ: byte, plain: seq<byte>): (Writer, bool) {
    var flight := if w.flight.Some? then w.flight.value else [];
    match c.sealer.seal(w.seals, typ, plain)
    case None => (w.(flight := Some(flight), seals := w.seals + 1), false)
    case Some(wire) =>
      (w.(flight := Some(flight + wire), seals := w.seals + 1, sealed := w.sealed + [Sealed(typ, plain, wire)]), true)
  }

  /** A handshake message, split into records; an empty one is one record. */
  function AddMessage(c: Config, w: Writer, msg: seq<byte>): (Writer, bool)
    requires c.maxFragment > 0
    decreases |msg|
  {
    var n := Min(c.maxFragment, |msg|);
    var (w1, ok) := AddRecord(c, w, RT_HANDSHAKE, msg[..n]);
    if !ok || n == |msg| then (w1, ok) else AddMessage(c, w1, msg[n..])
  }

  // ----- Writing a record -------------------------------------------------

  function WritePending(c: Config, w: Writer, typ: byte, addr: int, len: nat): (Writer, int)
    requires w.pending.Some?
  {
    var p := w.pending.value;
    if p.tot > len || (!c.movingBuffer && p.addr != addr) || p.typ != typ then (w, -1) else
    var (w1, ret) := FlushBuffer(c, w);
    if ret <= 0 then (w1, ret) else (w1.(pending := None), p.tot)
  }

  function SealInto(c: Config, w: Writer, typ: byte, addr: int, data: seq<byte>): (Writer, bool) {
    var w1 := w.(buffer := w.buffer + w.FlightRest(), flight := None, offset := 0, seals := w.seals + 1);
    match c.sealer.seal(w.seals, typ, data)
    case None => (w1, false)
    case Some(wire) =>
      (w1.(buffer := w1.buffer + wire, sealed := w1.sealed + [Sealed(typ, data, wire)],
           pending := Some(Pending(|data|, addr, typ))), true)
  }

  /** A record of its own; the flight's rest goes in front of it. */
  function WriteRecord(c: Config, w: Writer, typ: byte, addr: int, data: seq<byte>): (Writer, int) {
    if w.pending.Some? then WritePending(c, w, typ, addr, |data|)
    else if |data| > MAX_PLAIN || w.buffer != [] then (w, -1)
    else if data == [] then (w, 0)
    else if |data| + c.sealer.overhead + |w.FlightRest()| > MAX_CAP then (w, -1)
    else
      var (w1, ok) := SealInto(c, w, typ, addr, data);
      if !ok || w1.pending.None? then (w1, -1) else WritePending(c, w1, typ, addr, |data|)
  }

  function WriteLoop(c: Config, w: Writer, addr: int, input: seq<byte>, tot: nat): (Writer, int)
    requires tot <= |input|
    decreases |input| - tot
  {
    var n := |input| - tot;
    var nw := Min(n, c.maxFragment);
    var (w1, ret) := WriteRecord(c, w, RT_APPLICATION_DATA, addr + tot, input[tot..tot + nw]);
    if ret <= 0 then (w1.(wnum := tot), ret)
    else if ret >= n || c.partialWrite then (w1, tot + ret)
    else WriteLoop(c, w1, addr, input, tot + ret)
  }

  /** Application data at address `addr`; what a blocked call got done is
      skipped when the call is repeated. */
  function WriteApp(c: Config, w: Writer, addr: int, input: seq<byte>): (Writer, int) {
    if w.shutdown then (w, -1)
    else if |input| < w.wnum then (w.(wnum := 0), -1)
    else WriteLoop(c, w.(wnum := 0), addr, input, w.wnum)
  }

  // ----- Wire order is seal order -----------------------------------------

  function Wire(sealed: seq<Sealed>): seq<byte> {
    if sealed == [] then [] else Wire(sealed[..|sealed| - 1]) + sealed[|sealed| - 1].wire
  }

  /** What the transport took, the write buffer and the flight's rest are all
      records ever sealed, in the order they were sealed. */
  ghost predicate InOrder(w: Writer) {
    && (w.flight.Some? ==> w.offset <= |w.flight.value|) && (w.flight.None? ==> w.offset == 0)
    && w.transport + w.buffer + w.FlightRest() == Wire(w.sealed)
  }

  /** What flushing leaves alone. */
  ghost predicate OnlyFlushed(w: Writer, w': Writer) {
    w' == w.(buffer := w'.buffer, flight := w'.flight, offset := w'.offset, calls := w'.calls, transport := w'.transport)
  }

  /** Handing on the first bytes of `x` loses none. */
  lemma HandOn(t: seq<byte>, x: seq<byte>, n: nat, rest: seq<byte>)
    requires n <= |x|
    ensures (t + x[..n]) + x[n..] + rest == t + x + rest
  {
  }

  lemma {:induction false} FlushBufferInOrder(c: Config, w: Writer)
    requires InOrder(w)
    ensures var (w', ret) := FlushBuffer(c, w);
            && InOrder(w') && OnlyFlushed(w, w') && w'.flight == w.flight && w'.offset == w.offset
            && w.transport <= w'.transport && (ret > 0 ==> w'.buffer == [] && ret == 1)
            && w'.Out() == w.Out()
    decreases |w.buffer|
  {
    hide Wire;
    if w.buffer != [] && c.bio(w.calls) > 0 {
      var n := Min(c.bio(w.calls), |w.buffer|);
      HandOn(w.transport, w.buffer, n, w.FlightRest());
      FlushBufferInOrder(c, w.(calls := w.calls + 1, transport := w.transport + w.buffer[..n], buffer := w.buffer[n..]));
    }
  }

  lemma SendStep(w: Writer, n: nat)
    requires InOrder(w) && w.flight.Some? && w.buffer == [] && n <= |w.flight.value| - w.offset
    ensures InOrder(w.(calls := w.calls + 1, offset := w.offset + n,
                       transport := w.transport + w.flight.value[w.offset..w.offset + n]))
  {
  }

  lemma {:induction false} SendFlightInOrder(c: Config, w: Writer)
    requires InOrder(w) && w.flight.Some? && w.buffer == []
    ensures var (w', ret) := SendFlight(c, w);
            && InOrder(w') && OnlyFlushed(w, w') && w'.buffer == [] && w.transport <= w'.transport
            && w.Out() <= w'.Out() && (ret > 0 ==> w'.flight.None?)
    decreases |w.flight.value| - w.offset
  {
    hide Wire;
    var ret := c.bio(w.calls);
    if w.offset < |w.flight.value| && ret > 0 {
      var n := Min(ret, |w.flight.value| - w.offset);
      SendStep(w, n);
      SendFlightInOrder(c, w.(calls := w.calls + 1, offset := w.offset + n,
                              transport := w.transport + w.flight.value[w.offset..w.offset + n]));
    } else {
      assert w.FlightRest() == [] || w.offset < |w.flight.value|;
    }
  }

  /** A flushed flight means that every record sealed so far is on the wire. */
  lemma FlushFlightInOrder(c: Config, w: Writer)
    requires InOrder(w)
    ensures var (w', ret) := FlushFlight(c, w);
            && InOrder(w') && OnlyFlushed(w, w') && w.transport <= w'.transport && w.Out() <= w'.Out()
            && (ret > 0 && w.flight.Some? ==> w'.flight.None? && w'.transport == Wire(w'.sealed))
  {
    hide Wire, FlushBuffer, SendFlight;
    FlushBufferInOrder(c, w);
    if w.flight.Some? && !w.shutdown && FlushBuffer(c, w).1 > 0 {
      SendFlightInOrder(c, FlushBuffer(c, w).0);
      var w' := SendFlight(c, FlushBuffer(c, w).0).0;
      assert w'.flight.None? ==> w'.transport + [] + [] == w'.transport;
    }
  }

  /** One more record was sealed. */
  ghost predicate Grew(w: Writer, w': Writer, typ: byte, plain: seq<byte>) {
    && |w'.sealed| == |w.sealed| + 1 && w'.sealed[..|w.sealed|] == w.sealed
    && w'.sealed[|w.sealed|].typ == typ && w'.sealed[|w.sealed|].plain == plain
  }

  lemma WireSnoc(sealed: seq<Sealed>, s: Sealed)
    ensures Wire(sealed + [s]) == Wire(sealed) + s.wire
  {
  }

  lemma AddRecordInOrder(c: Config, w: Writer, typ: byte, plain: seq<byte>)
    requires InOrder(w) && w.offset == 0
    ensures var (w', ok) := AddRecord(c, w, typ, plain);
            && InOrder(w') && w'.offset == 0
            && w' == w.(flight := w'.flight, seals := w'.seals, sealed := w'.sealed)
            && (if ok then Grew(w, w', typ, plain) else w'.sealed == w.sealed)
  {
    hide Wire;
    var (w', ok) := AddRecord(c, w, typ, plain);
    if ok {
      var s := w'.sealed[|w.sealed|];
      WireSnoc(w.sealed, s);
      assert w'.FlightRest() == w.FlightRest() + s.wire;
      AppendAssoc(w.transport + w.buffer, w.FlightRest(), s.wire);
    }
  }

  /** The plaintexts of the records of a type, one behind another. */
  function PlainOf(sealed: seq<Sealed>, typ: byte): seq<byte> {
    if sealed == [] then [] else
    var last := sealed[|sealed| - 1];
    PlainOf(sealed[..|sealed| - 1], typ) + (if last.typ == typ then last.plain else [])
  }

  /** Adding a message seals its bytes as handshake records, and nothing else. */
  lemma {:induction false} AddMessageInOrder(c: Config, w: Writer, msg: seq<byte>)
    requires InOrder(w) && w.offset == 0 && c.maxFragment > 0
    ensures var (w', ok) := AddMessage(c, w, msg);
            && InOrder(w') && w'.offset == 0
            && w' == w.(flight := w'.flight, seals := w'.seals, sealed := w'.sealed)
            && PlainOf(w'.sealed, RT_APPLICATION_DATA) == PlainOf(w.sealed, RT_APPLICATION_DATA)
            && (ok ==> PlainOf(w'.sealed, RT_HANDSHAKE) == PlainOf(w.sealed, RT_HANDSHAKE) + msg)
    decreases |msg|
  {
    hide AddRecord, InOrder;
    var n := Min(c.maxFragment, |msg|);
    var (w1, ok) := AddRecord(c, w, RT_HANDSHAKE, msg[..n]);
    AddRecordInOrder(c, w, RT_HANDSHAKE, msg[..n]);
    if ok {
      GrewPlain(w, w1, RT_HANDSHAKE, msg[..n]);
      assert PlainOf(w.sealed, RT_APPLICATION_DATA) + [] == PlainOf(w.sealed, RT_APPLICATION_DATA);
      if n == |msg| {
        assert msg[..n] == msg;
      } else {
        AddMessageInOrder(c, w1, msg[n..]);
        assert (PlainOf(w.sealed, RT_HANDSHAKE) + msg[..n]) + msg[n..] == PlainOf(w.sealed, RT_HANDSHAKE) + msg;
      }
    }
  }

  lemma SealIntoInOrder(c: Config, w: Writer, typ: byte, addr: int, data: seq<byte>)
    requires InOrder(w)
    ensures var (w', ok) := SealInto(c, w, typ, addr, data);
            && InOrder(w') && w'.wnum == w.wnum && w'.transport == w.transport && w'.shutdown == w.shutdown
            && w'.flight.None? && w.Out() <= w'.Out()
            && (if ok then Grew(w, w', typ, data) && w'.pending == Some(Pending(|data|, addr, typ))
                else w'.sealed == w.sealed && w'.pending == w.pending)
  {
    hide Wire;
    var (w', ok) := SealInto(c, w, typ, addr, data);
    var moved := w.buffer + w.FlightRest();
    assert w.transport + moved == w.transport + w.buffer + w.FlightRest();
    if ok {
      var s := w'.sealed[|w.sealed|];
      WireSnoc(w.sealed, s);
      assert w.transport + (moved + s.wire) + [] == (w.transport + moved) + s.wire;
    } else {
      assert w.transport + moved + [] == w.transport + moved;
    }
  }

  /** Bytes of a pending record of application data. */
  function AppPending(w: Writer): nat {
    if w.pending.Some? && w.pending.value.typ == RT_APPLICATION_DATA then w.pending.value.tot else 0
  }

  /** No record is pending without bytes. */
  predicate PendingSome(w: Writer) {
    w.pending.Some? ==> w.pending.value.tot > 0
  }

  /** One record: in order; a positive result means that it is out, whole, and
      counts its bytes; otherwise it is sealed and pending, or not sealed. */
  lemma WriteRecordInOrder(c: Config, w: Writer, typ: byte, addr: int, data: seq<byte>)
    requires InOrder(w) && PendingSome(w)
    ensures var (w', ret) := WriteRecord(c, w, typ, addr, data);
            && InOrder(w') && PendingSome(w') && w'.wnum == w.wnum && w'.shutdown == w.shutdown
            && w.transport <= w'.transport && w.Out() <= w'.Out() && (w'.sealed == w.sealed || w'.flight.None?)
            && (ret > 0 ==> w'.pending.None? && w'.buffer == [])
            && (w.pending.Some? ==>
                  w'.sealed == w.sealed &&
                  (if ret > 0 then ret == w.pending.value.tot <= |data| && w.pending.value.typ == typ
                   else w'.pending == w.pending))
            && (w.pending.None? ==>
                  if w'.sealed == w.sealed then ret <= 0 && w'.pending.None?
                  else Grew(w, w', typ, data) &&
                       (if ret > 0 then ret == |data| else w'.pending == Some(Pending(|data|, addr, typ))))
  {
    hide Wire, FlushBuffer, SealInto;
    if w.pending.Some? {
      FlushBufferInOrder(c, w);
    } else {
      SealIntoInOrder(c, w, typ, addr, data);
      FlushBufferInOrder(c, SealInto(c, w, typ, addr, data).0);
    }
  }

  // ----- Application data is sealed once, in order ------------------------

  /** One record of a write, new or pending. */
  lemma WriteChunk(c: Config, w: Writer, acked: seq<byte>, addr: int, input: seq<byte>, tot: nat, data: seq<byte>)
    requires InOrder(w) && PendingSome(w) && w.wnum == 0
    requires tot + |data| <= |input| && data == input[tot..tot + |data|] && tot + AppPending(w) <= |input|
    requires PlainOf(w.sealed, RT_APPLICATION_DATA) == acked + input[..tot + AppPending(w)]
    ensures var (w', ret) := WriteRecord(c, w, RT_APPLICATION_DATA, addr, data);
            && InOrder(w') && PendingSome(w') && w'.shutdown == w.shutdown && w'.wnum == 0
            && (if ret > 0 then
                  tot + ret <= |input| && ret <= |data| && w'.pending.None? && w'.buffer == [] &&
                  PlainOf(w'.sealed, RT_APPLICATION_DATA) == acked + input[..tot + ret]
                else
                  tot + AppPending(w') <= |input| &&
                  PlainOf(w'.sealed, RT_APPLICATION_DATA) == acked + input[..tot + AppPending(w')])
  {
    hide WriteRecord, InOrder, PlainOf, Grew;
    WriteRecordInOrder(c, w, RT_APPLICATION_DATA, addr, data);
    var w' := WriteRecord(c, w, RT_APPLICATION_DATA, addr, data).0;
    if w.pending.None? && w'.sealed != w.sealed {
      GrewPlain(w, w', RT_APPLICATION_DATA, data);
      assert input[..tot] + data == input[..tot + |data|];
      assert acked + input[..tot] + data == acked + (input[..tot] + data);
    }
  }

  lemma {:induction false} WriteLoopConserves(c: Config, w: Writer, acked: seq<byte>, addr: int, input: seq<byte>, tot: nat)
    requires c.maxFragment > 0 && InOrder(w) && PendingSome(w) && w.wnum == 0
    requires tot + AppPending(w) <= |input|
    requires PlainOf(w.sealed, RT_APPLICATION_DATA) == acked + input[..tot + AppPending(w)]
    ensures var (w', ret) := WriteLoop(c, w, addr, input, tot);
            && InOrder(w') && PendingSome(w') && w'.shutdown == w.shutdown
            && (if ret > 0 then
                  ret <= |input| && w'.pending.None? && w'.buffer == [] && w'.wnum == 0 &&
                  PlainOf(w'.sealed, RT_APPLICATION_DATA) == acked + input[..ret]
                else
                  tot <= w'.wnum && w'.wnum + AppPending(w') <= |input| &&
                  PlainOf(w'.sealed, RT_APPLICATION_DATA) == acked + input[..w'.wnum + AppPending(w')])
    decreases |input| - tot
  {
    hide WriteRecord, InOrder, PlainOf;
    var n := |input| - tot;
    var data := input[tot..tot + Min(n, c.maxFragment)];
    WriteChunk(c, w, acked, addr + tot, input, tot, data);
    var (w1, ret) := WriteRecord(c, w, RT_APPLICATION_DATA, addr + tot, data);
    WnumIrrelevant(w1, tot);
    if 0 < ret < n && !c.partialWrite {
      WriteLoopConserves(c, w1, acked, addr, input, tot + ret);
    }
  }

  lemma GrewPlain(w: Writer, w': Writer, typ: byte, plain: seq<byte>)
    requires Grew(w, w', typ, plain)
    ensures forall t: byte :: PlainOf(w'.sealed, t) == PlainOf(w.sealed, t) + (if t == typ then plain else [])
  {
  }

  /** Application data: `acked` was reported as written, `inflight` are the
      bytes of the current input that are sealed and not yet reported. */
  ghost predicate Progress(w: Writer, acked: seq<byte>, inflight: seq<byte>) {
    && PlainOf(w.sealed, RT_APPLICATION_DATA) == acked + inflight
    && |inflight| == w.wnum + AppPending(w)
  }

  /** The same bytes, as far as both go. */
  predicate Consistent(a: seq<byte>, b: seq<byte>) { a <= b || b <= a }

  function Longer(a: seq<byte>, b: seq<byte>): seq<byte> { if |a| < |b| then b else a }

  /** What is in flight after a call that did not report anything. */
  function StillInFlight(w: Writer, inflight: seq<byte>, input: seq<byte>): seq<byte> {
    Longer(inflight, input)[..Min(w.wnum + AppPending(w), |Longer(inflight, input)|)]
  }

  /** A call that offers the same bytes, and no fewer than were written, seals
      each byte once and in order; a positive result reports bytes that are all
      out of the write buffer. */
  lemma WriteAppConserves(c: Config, w: Writer, acked: seq<byte>, inflight: seq<byte>, addr: int, input: seq<byte>)
    requires c.maxFragment > 0 && InOrder(w) && PendingSome(w) && Progress(w, acked, inflight)
    requires Consistent(inflight, input) && (w.shutdown || |input| >= w.wnum)
    ensures var (w', ret) := WriteApp(c, w, addr, input);
            && InOrder(w') && PendingSome(w') && w'.shutdown == w.shutdown
            && (if ret > 0 then
                  ret <= |input| && w'.buffer == [] && w'.pending.None? && Progress(w', acked + input[..ret], [])
                else
                  w'.wnum + AppPending(w') <= |Longer(inflight, input)| &&
                  Progress(w', acked, StillInFlight(w', inflight, input)))
  {
    hide WriteLoop, InOrder, PlainOf;
    assert Longer(inflight, input)[..|inflight|] == inflight;
    if !w.shutdown {
      if |input| < |inflight| {
        BetweenIsRefused(c, w, addr, input);
      } else {
        WnumIrrelevant(w, 0);
        WriteLoopConserves(c, w.(wnum := 0), acked, addr, input, w.wnum);
        var (w', ret) := WriteApp(c, w, addr, input);
        if ret > 0 {
          assert (acked + input[..ret]) + [] == acked + input[..ret];
        } else if |input| == |inflight| {
          assert input == inflight;
        }
      }
    }
  }

  /** Fewer bytes than are in flight, but no fewer than were written: the pending
      record does not fit them, and nothing changes. */
  lemma BetweenIsRefused(c: Config, w: Writer, addr: int, input: seq<byte>)
    requires !w.shutdown && PendingSome(w) && w.wnum <= |input| < w.wnum + AppPending(w)
    ensures WriteApp(c, w, addr, input) == (w, -1)
  {
  }

  lemma WnumIrrelevant(w: Writer, n: nat)
    requires InOrder(w)
    ensures InOrder(w.(wnum := n))
  {
  }

  /** The writer stands for what was reported and for some bytes in flight. */
  ghost predicate Stands(w: Writer, acked: seq<byte>) {
    exists x: seq<byte> :: Progress(w, acked, x)
  }

  /** The bound is exact: with the same bytes offered to an open writer, it still
      stands for what is reported and in flight if and only if the call offers no
      fewer bytes than were written. */
  lemma RetryExactly(c: Config, w: Writer, acked: seq<byte>, inflight: seq<byte>, addr: int, input: seq<byte>)
    requires c.maxFragment > 0 && InOrder(w) && PendingSome(w) && Progress(w, acked, inflight)
    requires Consistent(inflight, input) && !w.shutdown
    ensures var (w', ret) := WriteApp(c, w, addr, input);
            |input| >= w.wnum <==> Stands(w', acked + input[..Min(if ret > 0 then ret else 0, |input|)])
  {
    hide WriteLoop, InOrder, PlainOf;
    var (w', ret) := WriteApp(c, w, addr, input);
    assert acked + input[..0] == acked;
    if |input| >= w.wnum {
      WriteAppConserves(c, w, acked, inflight, addr, input);
      assert Progress(w', acked + input[..Min(if ret > 0 then ret else 0, |input|)],
                      if ret > 0 then [] else StillInFlight(w', inflight, input));
    } else {
      forall x
        ensures !Progress(w', acked, x)
      {
        if acked + x == acked + inflight {
          assert x == (acked + x)[|acked|..] == inflight;
        }
      }
    }
  }

  lemma {:induction false} LoopOnlySeals(c: Config, w: Writer, addr: int, input: seq<byte>, tot: nat)
    requires c.maxFragment > 0 && tot <= |input| && InOrder(w) && PendingSome(w)
    ensures var w' := WriteLoop(c, w, addr, input, tot).0;
            && PlainOf(w.sealed, RT_APPLICATION_DATA) <= PlainOf(w'.sealed, RT_APPLICATION_DATA)
            && PlainOf(w'.sealed, RT_HANDSHAKE) == PlainOf(w.sealed, RT_HANDSHAKE)
    decreases |input| - tot
  {
    hide WriteRecord, InOrder, PlainOf;
    var n := |input| - tot;
    var data := input[tot..tot + Min(n, c.maxFragment)];
    WriteRecordInOrder(c, w, RT_APPLICATION_DATA, addr + tot, data);
    var (w1, ret) := WriteRecord(c, w, RT_APPLICATION_DATA, addr + tot, data);
    if w1.sealed != w.sealed {
      GrewPlain(w, w1, RT_APPLICATION_DATA, data);
      assert PlainOf(w.sealed, RT_HANDSHAKE) + [] == PlainOf(w.sealed, RT_HANDSHAKE);
    }
    if 0 < ret < n && !c.partialWrite {
      LoopOnlySeals(c, w1, addr, input, tot + ret);
    }
  }

  /** And what it means to fall short of it with no record pending: the writer
      forgets what it has sealed, so that a later retry with all the bytes seals
      the first of them again. */
  lemma ForgottenIsRepeated(c: Config, w: Writer, acked: seq<byte>, inflight: seq<byte>, addr: int,
                            short: seq<byte>, again: seq<byte>)
    requires 0 < c.maxFragment <= MAX_PLAIN && InOrder(w) && PendingSome(w) && Progress(w, acked, inflight)
    requires !w.shutdown && w.pending.None? && w.buffer == [] && |short| < w.wnum && inflight <= again
    requires var chunk := again[..Min(|again|, c.maxFragment)];
             |chunk| + c.sealer.overhead + |w.FlightRest()| <= MAX_CAP &&
             c.sealer.seal(w.seals, RT_APPLICATION_DATA, chunk).Some?
    ensures var refused := WriteApp(c, w, addr, short);
            var w' := WriteApp(c, refused.0, addr, again).0;
            && refused.1 == -1 && |inflight| > 0
            && acked + inflight + again[..Min(|again|, c.maxFragment)] <= PlainOf(w'.sealed, RT_APPLICATION_DATA)
  {
    hide InOrder, PlainOf, WritePending;
    var w1 := WriteApp(c, w, addr, short).0;
    var n := Min(|again|, c.maxFragment);
    var chunk := again[0..0 + n];
    assert chunk == again[..n];
    WnumIrrelevant(w, 0);
    WriteRecordInOrder(c, w1, RT_APPLICATION_DATA, addr + 0, chunk);
    var (w2, ret) := WriteRecord(c, w1, RT_APPLICATION_DATA, addr + 0, chunk);
    SealIntoInOrder(c, w1, RT_APPLICATION_DATA, addr + 0, chunk);
    PendingKeepsSealed(c, SealInto(c, w1, RT_APPLICATION_DATA, addr + 0, chunk).0, RT_APPLICATION_DATA, addr + 0, |chunk|);
    GrewPlain(w1, w2, RT_APPLICATION_DATA, chunk);
    if 0 < ret < |again| && !c.partialWrite {
      LoopOnlySeals(c, w2, addr, again, ret);
    }
  }

  lemma PendingKeepsSealed(c: Config, w: Writer, typ: byte, addr: int, len: nat)
    requires InOrder(w) && w.pending.Some?
    ensures WritePending(c, w, typ, addr, len).0.sealed == w.sealed
  {
    hide InOrder, FlushBuffer;
    FlushBufferInOrder(c, w);
  }

  // ----- Room behind an unsent flight --------------------------------------

  /** From now on the transport takes something each time. */
  ghost predicate Ready(c: Config, w: Writer) {
    forall k: nat :: k >= w.calls ==> c.bio(k) > 0
  }

  lemma {:induction false} ReadyFlushes(c: Config, w: Writer)
    requires Ready(c, w)
    ensures var (w', ret) := FlushBuffer(c, w);
            && ret == 1 && Ready(c, w') && w'.buffer == []
            && w' == w.(buffer := [], calls := w'.calls, transport := w'.transport)
    decreases |w.buffer|
  {
    if w.buffer != [] {
      var n := Min(c.bio(w.calls), |w.buffer|);
      ReadyFlushes(c, w.(calls := w.calls + 1, transport := w.transport + w.buffer[..n], buffer := w.buffer[n..]));
    }
  }

  lemma {:induction false} ReadySends(c: Config, w: Writer)
    requires Ready(c, w) && w.flight.Some?
    ensures var (w', ret) := SendFlight(c, w);
            && ret == 1 && Ready(c, w')
            && w' == w.(flight := None, offset := 0, calls := w'.calls, transport := w'.transport)
    decreases |w.flight.value| - w.offset
  {
    if w.offset < |w.flight.value| {
      var n := Min(c.bio(w.calls), |w.flight.value| - w.offset);
      ReadySends(c, w.(calls := w.calls + 1, offset := w.offset + n,
                       transport := w.transport + w.flight.value[w.offset..w.offset + n]));
    }
  }

  /** A record that could be sealed, on a transport that takes everything, goes
      out if and only if there is room for it behind the unsent flight; and if
      there is not, flushing the flight makes room. */
  lemma RoomExactly(c: Config, w: Writer, typ: byte, addr: int, data: seq<byte>)
    requires Ready(c, w) && !w.shutdown && w.pending.None? && w.buffer == []
    requires 0 < |data| <= MAX_PLAIN && |data| + c.sealer.overhead <= MAX_CAP
    requires c.sealer.seal(w.seals, typ, data).Some?
    requires w.flight.Some? ==> w.offset <= |w.flight.value| <= INT_MAX
    ensures WriteRecord(c, w, typ, addr, data).1 > 0 <==>
            |data| + c.sealer.overhead + |w.FlightRest()| <= MAX_CAP
    ensures var flushed := FlushFlight(c, w);
            flushed.1 > 0 && WriteRecord(c, flushed.0, typ, addr, data).1 == |data|
  {
    hide FlushBuffer, SendFlight;
    ReadyRecord(c, w, typ, addr, data);
    var w' := FlushFlight(c, w).0;
    if w.flight.Some? {
      ReadyFlushes(c, w);
      ReadySends(c, FlushBuffer(c, w).0);
    }
    ReadyRecord(c, w', typ, addr, data);
  }

  lemma ReadyRecord(c: Config, w: Writer, typ: byte, addr: int, data: seq<byte>)
    requires Ready(c, w) && w.pending.None? && w.buffer == []
    requires 0 < |data| <= MAX_PLAIN && c.sealer.seal(w.seals, typ, data).Some?
    ensures var (w', ret) := WriteRecord(c, w, typ, addr, data);
            if |data| + c.sealer.overhead + |w.FlightRest()| <= MAX_CAP then
              && ret == |data| && Grew(w, w', typ, data) && Ready(c, w')
              && w'.pending.None? && w'.buffer == [] && w'.flight.None? && w'.wnum == w.wnum
            else (w', ret) == (w, -1)
  {
    hide FlushBuffer;
    var w1 := SealInto(c, w, typ, addr, data).0;
    assert Ready(c, w1);
    ReadyFlushes(c, w1);
  }

  // ----- Whole runs -------------------------------------------------------

  /** From record `j` on, no application data. */
  predicate NoAppFrom(sealed: seq<Sealed>, j: nat) {
    j <= |sealed| && forall i :: j <= i < |sealed| ==> sealed[i].typ != RT_APPLICATION_DATA
  }

  /** The flight's rest lies behind all application data. */
  ghost predicate AppFirst(w: Writer) {
    exists j: nat :: NoAppFrom(w.sealed, j) && |Wire(w.sealed[..j])| <= w.Out()
  }

  /** Every record of application data is on the wire. */
  ghost predicate AppOut(w: Writer) {
    exists j: nat :: NoAppFrom(w.sealed, j) && Wire(w.sealed[..j]) <= w.transport
  }

  lemma {:induction false} WirePrefix(sealed: seq<Sealed>, j: nat)
    requires j <= |sealed|
    ensures Wire(sealed[..j]) <= Wire(sealed)
    decreases |sealed| - j
  {
    if j < |sealed| {
      WirePrefix(sealed, j + 1);
      assert sealed[..j + 1] == sealed[..j] + [sealed[j]];
      WireSnoc(sealed[..j], sealed[j]);
    } else {
      assert sealed[..j] == sealed;
    }
  }

  lemma AllAppOut(w: Writer)
    requires InOrder(w) && AppFirst(w) && w.buffer == []
    ensures AppOut(w)
  {
    hide Wire;
    var j: nat :| NoAppFrom(w.sealed, j) && |Wire(w.sealed[..j])| <= w.Out();
    WirePrefix(w.sealed, j);
    assert w.transport + w.buffer == w.transport;
    assert w.transport <= Wire(w.sealed);
  }

  /** Flushing keeps application data in front. */
  lemma FlushKeepsAppFirst(w: Writer, w': Writer)
    requires AppFirst(w) && w'.sealed == w.sealed
    requires w.Out() <= w'.Out()
    ensures AppFirst(w')
  {
  }

  /** With no flight, everything is in front. */
  lemma NoFlightAppFirst(w: Writer)
    requires InOrder(w) && w.FlightRest() == []
    ensures AppFirst(w)
  {
    hide Wire;
    assert w.sealed[..|w.sealed|] == w.sealed;
    assert NoAppFrom(w.sealed, |w.sealed|);
  }

  lemma GrewAppFirst(w: Writer, w': Writer, typ: byte, plain: seq<byte>)
    requires AppFirst(w) && Grew(w, w', typ, plain) && typ != RT_APPLICATION_DATA
    requires w.Out() <= w'.Out()
    ensures AppFirst(w')
  {
    hide Wire;
    var j: nat :| NoAppFrom(w.sealed, j) && |Wire(w.sealed[..j])| <= w.Out();
    assert w'.sealed[..j] == w.sealed[..j];
    assert NoAppFrom(w'.sealed, j);
  }

  datatype Event =
    | Message(msg: seq<byte>)
    | Ccs
    | Alert(alert: seq<byte>)
    | Flush
    | App(addr: int, input: seq<byte>)
    | Dispatch(addr: int, alert: seq<byte>)
    | Close

  /** The writer, the application data it reported as written, and the bytes
      of the current write that it has sealed. */
  datatype Run = Run(w: Writer, acked: seq<byte>, inflight: seq<byte>)

  /** Records are not added to a flight while it is being written; application
      data that was refused is offered again, the same bytes and no fewer than
      were written. */
  predicate Allowed(run: Run, e: Event) {
    match e
    case Message(_) | Ccs | Alert(_) => run.w.offset == 0
    case App(_, input) => Consistent(run.inflight, input) && (run.w.shutdown || |input| >= run.w.wnum)
    case _ => true
  }

  function Step(c: Config, run: Run, e: Event): Run
    requires c.maxFragment > 0
  {
    match e
    case Message(msg) => run.(w := AddMessage(c, run.w, msg).0)
    case Ccs => run.(w := AddRecord(c, run.w, RT_CHANGE_CIPHER_SPEC, CCS_BODY).0)
    case Alert(alert) => run.(w := AddRecord(c, run.w, RT_ALERT, alert).0)
    case Flush => run.(w := FlushFlight(c, run.w).0)
    case Dispatch(addr, alert) => run.(w := WriteRecord(c, run.w, RT_ALERT, addr, alert).0)
    case Close => run.(w := run.w.(shutdown := true))
    case App(addr, input) =>
      var (w', ret) := WriteApp(c, run.w, addr, input);
      if ret > 0 then Run(w', run.acked + input[..Min(ret, |input|)], [])
      else Run(w', run.acked, StillInFlight(w', run.inflight, input))
  }

  ghost predicate Allowable(c: Config, run: Run, events: seq<Event>)
    requires c.maxFragment > 0
    decreases |events|
  {
    events == [] || (Allowed(run, events[0]) && Allowable(c, Step(c, run, events[0]), events[1..]))
  }

  function RunAll(c: Config, run: Run, events: seq<Event>): Run
    requires c.maxFragment > 0
    decreases |events|
  {
    if events == [] then run else RunAll(c, Step(c, run, events[0]), events[1..])
  }

  ghost predicate Inv(run: Run) {
    InOrder(run.w) && PendingSome(run.w) && AppFirst(run.w) && Progress(run.w, run.acked, run.inflight)
  }

  lemma AddKeepsInv(c: Config, run: Run, typ: byte, plain: seq<byte>)
    requires Inv(run) && run.w.offset == 0 && typ != RT_APPLICATION_DATA
    ensures Inv(run.(w := AddRecord(c, run.w, typ, plain).0)) && AddRecord(c, run.w, typ, plain).0.offset == 0
  {
    hide AddRecord, PlainOf, Wire;
    AddRecordInOrder(c, run.w, typ, plain);
    var (w', ok) := AddRecord(c, run.w, typ, plain);
    if ok {
      GrewPlain(run.w, w', typ, plain);
      GrewAppFirst(run.w, w', typ, plain);
    }
  }

  lemma {:induction false} MessageKeepsInv(c: Config, run: Run, msg: seq<byte>)
    requires Inv(run) && run.w.offset == 0 && c.maxFragment > 0
    ensures Inv(run.(w := AddMessage(c, run.w, msg).0))
    decreases |msg|
  {
    hide AddRecord, Inv;
    var n := Min(c.maxFragment, |msg|);
    AddKeepsInv(c, run, RT_HANDSHAKE, msg[..n]);
    var (w1, ok) := AddRecord(c, run.w, RT_HANDSHAKE, msg[..n]);
    if ok && n < |msg| {
      MessageKeepsInv(c, run.(w := w1), msg[n..]);
    }
  }

  lemma FlushKeepsInv(c: Config, run: Run)
    requires Inv(run)
    ensures Inv(run.(w := FlushFlight(c, run.w).0))
  {
    hide FlushFlight, PlainOf, Wire;
    FlushFlightInOrder(c, run.w);
    FlushKeepsAppFirst(run.w, FlushFlight(c, run.w).0);
  }

  lemma WriteRecordAppFirst(c: Config, w: Writer, typ: byte, addr: int, data: seq<byte>)
    requires InOrder(w) && PendingSome(w) && AppFirst(w)
    ensures AppFirst(WriteRecord(c, w, typ, addr, data).0)
  {
    hide WriteRecord, Wire, AppFirst;
    WriteRecordInOrder(c, w, typ, addr, data);
    var w' := WriteRecord(c, w, typ, addr, data).0;
    if w'.sealed == w.sealed {
      FlushKeepsAppFirst(w, w');
    } else {
      NoFlightAppFirst(w');
    }
  }

  lemma {:induction false} WriteLoopAppFirst(c: Config, w: Writer, addr: int, input: seq<byte>, tot: nat)
    requires c.maxFragment > 0 && tot <= |input| && InOrder(w) && PendingSome(w) && AppFirst(w)
    ensures AppFirst(WriteLoop(c, w, addr, input, tot).0)
    decreases |input| - tot
  {
    hide WriteRecord, Wire, AppFirst, InOrder;
    var n := |input| - tot;
    var data := input[tot..tot + Min(n, c.maxFragment)];
    WriteRecordInOrder(c, w, RT_APPLICATION_DATA, addr + tot, data);
    WriteRecordAppFirst(c, w, RT_APPLICATION_DATA, addr + tot, data);
    var (w1, ret) := WriteRecord(c, w, RT_APPLICATION_DATA, addr + tot, data);
    FlushedIsAppFirst(w1, tot);
    if 0 < ret < n && !c.partialWrite {
      WriteLoopAppFirst(c, w1, addr, input, tot + ret);
    }
  }

  lemma FlushedIsAppFirst(w: Writer, n: nat)
    requires AppFirst(w)
    ensures AppFirst(w.(wnum := n))
  {
  }

  /** A write of the same bytes keeps all this exactly if it is allowed. */
  lemma AppKeepsInv(c: Config, run: Run, addr: int, input: seq<byte>)
    requires Inv(run) && Consistent(run.inflight, input) && c.maxFragment > 0
    ensures Inv(Step(c, run, App(addr, input))) <==> Allowed(run, App(addr, input))
  {
    hide WriteLoop, InOrder, AppFirst;
    FlushedIsAppFirst(run.w, 0);
    WnumIrrelevant(run.w, 0);
    if Allowed(run, App(addr, input)) {
      WriteAppConserves(c, run.w, run.acked, run.inflight, addr, input);
      if !run.w.shutdown {
        WriteLoopAppFirst(c, run.w.(wnum := 0), addr, input, run.w.wnum);
      }
    } else {
      ShortBreaks(c, run, addr, input);
    }
  }

  lemma ShortBreaks(c: Config, run: Run, addr: int, input: seq<byte>)
    requires Inv(run) && Consistent(run.inflight, input) && c.maxFragment > 0
    requires !run.w.shutdown && |input| < run.w.wnum
    ensures !Inv(Step(c, run, App(addr, input)))
  {
    hide WriteLoop, InOrder, AppFirst, PlainOf;
    var end := Step(c, run, App(addr, input));
    if run.acked + end.inflight == run.acked + run.inflight {
      assert |end.inflight| == |run.inflight|;
    }
  }

  lemma DispatchKeepsInv(c: Config, run: Run, addr: int, alert: seq<byte>)
    requires Inv(run)
    ensures Inv(run.(w := WriteRecord(c, run.w, RT_ALERT, addr, alert).0))
  {
    hide WriteRecord, InOrder, AppFirst, PlainOf;
    WriteRecordInOrder(c, run.w, RT_ALERT, addr, alert);
    WriteRecordAppFirst(c, run.w, RT_ALERT, addr, alert);
    var w' := WriteRecord(c, run.w, RT_ALERT, addr, alert).0;
    if w'.sealed != run.w.sealed {
      GrewPlain(run.w, w', RT_ALERT, alert);
    }
  }

  lemma CloseKeepsInv(c: Config, run: Run)
    requires Inv(run)
    ensures Inv(run.(w := run.w.(shutdown := true)))
  {
  }

  lemma StepKeepsInv(c: Config, run: Run, e: Event)
    requires Inv(run) && Allowed(run, e) && c.maxFragment > 0
    ensures Inv(Step(c, run, e))
  {
    hide Inv, AddMessage, AddRecord, FlushFlight, WriteRecord, WriteApp;
    match e
    case Message(msg) => MessageKeepsInv(c, run, msg);
    case Ccs => AddKeepsInv(c, run, RT_CHANGE_CIPHER_SPEC, CCS_BODY);
    case Alert(alert) => AddKeepsInv(c, run, RT_ALERT, alert);
    case Flush => FlushKeepsInv(c, run);
    case Dispatch(addr, alert) => DispatchKeepsInv(c, run, addr, alert);
    case Close => CloseKeepsInv(c, run);
    case App(addr, input) => AppKeepsInv(c, run, addr, input);
  }

  /** Wire order is seal order.  Over any run of adding messages, flushing,
      alerts and application data, however short or blocked each transport
      write is, what the transport took is a prefix of all sealed records in
      sealing order; the application data sealed is what was reported as
      written and then the bytes in flight, each once and in order. */
  lemma {:induction false} WireOrder(c: Config, run: Run, events: seq<Event>)
    requires c.maxFragment > 0 && Inv(run) && Allowable(c, run, events)
    ensures var end := RunAll(c, run, events);
            && Inv(end)
            && end.w.transport <= Wire(end.w.sealed)
            && PlainOf(end.w.sealed, RT_APPLICATION_DATA) == end.acked + end.inflight
            && (end.w.buffer == [] ==> AppOut(end.w))
    decreases |events|
  {
    hide Step, Allowed;
    if events == [] {
      hide Wire, PlainOf, AppOut;
      assert InOrder(run.w);
      if run.w.buffer == [] {
        AllAppOut(run.w);
      }
    } else {
      StepKeepsInv(c, run, events[0]);
      WireOrder(c, Step(c, run, events[0]), events[1..]);
    }
  }

  /** A positive result of a write, at any point of a run: its bytes, and all
      application data before them, are on the wire. */
  lemma ReportedIsOut(c: Config, run: Run, addr: int, input: seq<byte>)
    requires c.maxFragment > 0 && Inv(run) && Allowed(run, App(addr, input))
    ensures var (w', ret) := WriteApp(c, run.w, addr, input);
            ret > 0 ==> ret <= |input| && AppOut(w') &&
                        PlainOf(w'.sealed, RT_APPLICATION_DATA) == run.acked + input[..ret]
  {
    hide WriteApp, AppOut, InOrder, AppFirst;
    var (w', ret) := WriteApp(c, run.w, addr, input);
    WriteAppConserves(c, run.w, run.acked, run.inflight, addr, input);
    AppKeepsInv(c, run, addr, input);
    if ret > 0 {
      AllAppOut(w');
    }
  }

  /** At the start nothing is sealed. */
  lemma StartInv(w: Writer)
    requires w.flight.None? && w.offset == 0 && w.buffer == [] && w.pending.None? && w.wnum == 0
    requires w.transport == [] && w.sealed == []
    ensures Inv(Run(w, [], []))
  {
    NoFlightAppFirst(w);
  }
}
