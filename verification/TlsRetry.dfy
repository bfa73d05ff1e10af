/** A write that was blocked, tried again with too few bytes and then with all
    of them: what the writer has forgotten, and what it makes of it. */
module TlsRetry {
  import opened Bytes
  import opened RecordTypes
  import opened TlsWrite

  /** An open writer in the middle of a write from `addr`: what is pending, if
      anything, is the next record of that write. */
  ghost predicate Midway(c: Config, w: Writer, acked: seq<byte>, inflight: seq<byte>, addr: int) {
    && 0 < c.maxFragment <= MAX_PLAIN && !w.shutdown
    && InOrder(w) && Progress(w, acked, inflight) && NextPends(c, w, addr + w.wnum)
    && (w.pending.None? ==> w.buffer == [])
  }

  /** A pending record is application data from `addr`. */
  predicate NextPends(c: Config, w: Writer, addr: int) {
    w.pending.Some? ==>
      var p := w.pending.value;
      p.typ == RT_APPLICATION_DATA && 0 < p.tot <= c.maxFragment && (c.movingBuffer || p.addr == addr)
  }

  /** Nothing stands in the way of writing: the transport takes something each
      time, sealing works, and a record has room behind the flight. */
  ghost predicate Unblocked(c: Config, w: Writer) {
    && Ready(c, w)
    && (forall n: nat, plain: seq<byte> :: c.sealer.seal(n, RT_APPLICATION_DATA, plain).Some?)
    && c.maxFragment + c.sealer.overhead + |w.FlightRest()| <= MAX_CAP
  }

  // ----- Blocked in the middle --------------------------------------------

  lemma RecordPends(c: Config, w: Writer, addr: int, data: seq<byte>)
    requires NextPends(c, w, addr) && |data| <= c.maxFragment
    ensures var (w', ret) := WriteRecord(c, w, RT_APPLICATION_DATA, addr, data);
            NextPends(c, w', addr) && (ret > 0 ==> w'.pending.None?)
  {
    hide FlushBuffer;
    FlushKeepsPending(c, w);
    FlushKeepsPending(c, SealInto(c, w, RT_APPLICATION_DATA, addr, data).0);
  }

  lemma {:induction false} FlushKeepsPending(c: Config, w: Writer)
    ensures FlushBuffer(c, w).0.pending == w.pending
    decreases |w.buffer|
  {
    if w.buffer != [] && c.bio(w.calls) > 0 {
      var n := Min(c.bio(w.calls), |w.buffer|);
      FlushKeepsPending(c, w.(calls := w.calls + 1, transport := w.transport + w.buffer[..n], buffer := w.buffer[n..]));
    }
  }

  lemma {:induction false} LoopPends(c: Config, w: Writer, addr: int, input: seq<byte>, tot: nat)
    requires c.maxFragment > 0 && tot <= |input| && NextPends(c, w, addr + tot)
    ensures var (w', ret) := WriteLoop(c, w, addr, input, tot);
            ret <= 0 ==> NextPends(c, w', addr + w'.wnum)
    decreases |input| - tot
  {
    hide WriteRecord;
    var n := |input| - tot;
    var data := input[tot..tot + Min(n, c.maxFragment)];
    RecordPends(c, w, addr + tot, data);
    var (w1, ret) := WriteRecord(c, w, RT_APPLICATION_DATA, addr + tot, data);
    if 0 < ret < n && !c.partialWrite {
      LoopPends(c, w1, addr, input, tot + ret);
    }
  }

  /** A write of the same bytes that is blocked, however often, stays midway,
      unless sealing failed behind a flight that was already moved. */
  lemma BlockedStaysMidway(c: Config, w: Writer, acked: seq<byte>, inflight: seq<byte>, addr: int, input: seq<byte>)
    requires Midway(c, w, acked, inflight, addr) && Consistent(inflight, input) && |input| >= w.wnum
    ensures var (w', ret) := WriteApp(c, w, addr, input);
            ret <= 0 && (w'.pending.None? ==> w'.buffer == []) ==>
              Midway(c, w', acked, StillInFlight(w', inflight, input), addr)
  {
    hide WriteLoop, InOrder, PlainOf;
    WriteAppConserves(c, w, acked, inflight, addr, input);
    LoopPends(c, w.(wnum := 0), addr, input, w.wnum);
  }

  /** Nothing is waiting to be written. */
  predicate Idle(w: Writer) {
    w.flight.None? && w.offset == 0 && w.buffer == [] && w.pending.None? && w.wnum == 0 && !w.shutdown
  }

  /** Such a state is reached from an idle writer: the transport takes the first
      record whole and is then blocked. */
  lemma BlockedWriteIsMidway(c: Config, w: Writer, acked: seq<byte>, addr: int, input: seq<byte>)
    requires Inv(Run(w, acked, [])) && Idle(w)
    requires c.Valid() && !c.partialWrite && |input| > c.maxFragment && c.maxFragment + c.sealer.overhead <= MAX_CAP
    requires var first := c.sealer.seal(w.seals, RT_APPLICATION_DATA, input[..c.maxFragment]);
             first.Some? && 0 < |first.value| <= c.bio(w.calls)
    requires var second := c.sealer.seal(w.seals + 1, RT_APPLICATION_DATA, input[c.maxFragment..SecondEnd(c, input)]);
             second.Some? && second.value != [] && c.bio(w.calls + 1) <= 0
    ensures var (w', ret) := WriteApp(c, w, addr, input);
            && ret == c.bio(w.calls + 1) && w'.wnum == c.maxFragment
            && w'.pending == Some(Pending(SecondEnd(c, input) - c.maxFragment, addr + c.maxFragment, RT_APPLICATION_DATA))
            && Midway(c, w', acked, input[..SecondEnd(c, input)], addr)
  {
    hide InOrder, PlainOf, AppFirst;
    WriteAppConserves(c, w, acked, [], addr, input);
    LoopPends(c, w, addr, input, 0);
    var m := c.maxFragment;
    var w1 := TakenWhole(c, w, addr, input[0..0 + m]);
    assert input[0..0 + m] == input[..m];
    var w2 := NotTaken(c, w1, addr + m, input[m..m + Min(|input| - m, m)]);
  }

  function SecondEnd(c: Config, input: seq<byte>): int { Min(2 * c.maxFragment, |input|) }

  lemma TakenWhole(c: Config, w: Writer, addr: int, data: seq<byte>) returns (w': Writer)
    requires Idle(w) && 0 < |data| <= MAX_PLAIN && |data| + c.sealer.overhead <= MAX_CAP
    requires var sealed := c.sealer.seal(w.seals, RT_APPLICATION_DATA, data);
             sealed.Some? && 0 < |sealed.value| <= c.bio(w.calls)
    ensures WriteRecord(c, w, RT_APPLICATION_DATA, addr, data) == (w', |data|)
    ensures Idle(w') && w'.calls == w.calls + 1 && w'.seals == w.seals + 1
  {
    w' := WriteRecord(c, w, RT_APPLICATION_DATA, addr, data).0;
    FlushOnce(c, SealInto(c, w, RT_APPLICATION_DATA, addr, data).0);
  }

  lemma FlushOnce(c: Config, w: Writer)
    requires 0 < |w.buffer| <= c.bio(w.calls)
    ensures FlushBuffer(c, w) == (w.(calls := w.calls + 1, transport := w.transport + w.buffer, buffer := []), 1)
  {
    assert w.buffer[..|w.buffer|] == w.buffer && w.buffer[|w.buffer|..] == [];
  }

  lemma NotTaken(c: Config, w: Writer, addr: int, data: seq<byte>) returns (w': Writer)
    requires Idle(w) && 0 < |data| <= MAX_PLAIN && |data| + c.sealer.overhead <= MAX_CAP
    requires var sealed := c.sealer.seal(w.seals, RT_APPLICATION_DATA, data);
             sealed.Some? && sealed.value != [] && c.bio(w.calls) <= 0
    ensures WriteRecord(c, w, RT_APPLICATION_DATA, addr, data) == (w', c.bio(w.calls))
    ensures w'.pending == Some(Pending(|data|, addr, RT_APPLICATION_DATA))
  {
    w' := WriteRecord(c, w, RT_APPLICATION_DATA, addr, data).0;
  }

  // ----- Tried again --------------------------------------------------------

  /** What is left of an input goes out, sealed once. */
  lemma {:induction false} LoopGoesOut(c: Config, w: Writer, addr: int, input: seq<byte>, tot: nat)
    requires 0 < c.maxFragment <= MAX_PLAIN && Unblocked(c, w) && w.pending.None? && w.buffer == [] && tot < |input|
    ensures var (w', ret) := WriteLoop(c, w, addr, input, tot);
            && tot < ret <= |input|
            && PlainOf(w'.sealed, RT_APPLICATION_DATA) == PlainOf(w.sealed, RT_APPLICATION_DATA) + input[tot..ret]
    decreases |input| - tot
  {
    hide WriteRecord, PlainOf;
    var n := |input| - tot;
    var data := input[tot..tot + Min(n, c.maxFragment)];
    ReadyRecord(c, w, RT_APPLICATION_DATA, addr + tot, data);
    var (w1, ret) := WriteRecord(c, w, RT_APPLICATION_DATA, addr + tot, data);
    GrewPlain(w, w1, RT_APPLICATION_DATA, data);
    if ret < n && !c.partialWrite {
      LoopGoesOut(c, w1, addr, input, tot + ret);
      var end := WriteLoop(c, w, addr, input, tot).1;
      assert data + input[tot + ret..end] == input[tot..end];
      AppendAssoc(PlainOf(w.sealed, RT_APPLICATION_DATA), data, input[tot + ret..end]);
    }
  }

  /** The loop from `tot`, where a pending record counts as the next bytes
      whatever it holds. */
  lemma LoopFinishes(c: Config, w: Writer, addr: int, input: seq<byte>, tot: nat)
    requires 0 < c.maxFragment <= MAX_PLAIN && Unblocked(c, w) && NextPends(c, w, addr + tot)
    requires (w.pending.None? ==> w.buffer == []) && tot + AppPending(w) <= |input| && tot < |input|
    ensures var (w', ret) := WriteLoop(c, w, addr, input, tot);
            && tot < ret && tot + AppPending(w) <= ret <= |input|
            && PlainOf(w'.sealed, RT_APPLICATION_DATA) ==
               PlainOf(w.sealed, RT_APPLICATION_DATA) + input[tot + AppPending(w)..ret]
  {
    hide PlainOf, FlushBuffer;
    if w.pending.None? {
      LoopGoesOut(c, w, addr, input, tot);
    } else {
      var p := w.pending.value;
      ReadyFlushes(c, w);
      var data := input[tot..tot + Min(|input| - tot, c.maxFragment)];
      var (w1, ret) := WriteRecord(c, w, RT_APPLICATION_DATA, addr + tot, data);
      assert ret == p.tot && w1.sealed == w.sealed;
      assert PlainOf(w.sealed, RT_APPLICATION_DATA) + [] == PlainOf(w.sealed, RT_APPLICATION_DATA);
      if ret < |input| - tot && !c.partialWrite {
        LoopGoesOut(c, w1, addr, input, tot + ret);
      }
    }
  }

  /** What a write reports as written is not what was sealed. */
  ghost predicate Misreports(w: Writer, acked: seq<byte>, input: seq<byte>, ret: int) {
    0 < ret <= |input| && PlainOf(w.sealed, RT_APPLICATION_DATA) != acked + input[..ret]
  }

  /** Sealing again or reporting wrongly, exactly.  A call that offers fewer of
      the same bytes than are in flight is refused; then all of them are offered
      to a writer that nothing blocks.  The second call reports other bytes than
      were sealed if and only if the first offered fewer than were written, and
      either no record is pending or the buffer may move: then everything sealed
      in excess is as long as what was forgotten, and with no record pending all
      bytes in flight are sealed a second time.  If the first call offered no
      fewer than were written, it changed nothing; and with a record pending at
      its place the second is refused as well. */
  lemma ShortThenFull(c: Config, w: Writer, acked: seq<byte>, inflight: seq<byte>, addr: int,
                      short: seq<byte>, again: seq<byte>)
    requires Midway(c, w, acked, inflight, addr) && Unblocked(c, w)
    requires short <= inflight <= again && |short| < |inflight|
    ensures var (w1, r1) := WriteApp(c, w, addr, short);
            var (w2, r2) := WriteApp(c, w1, addr, again);
            && r1 == -1
            && (Misreports(w2, acked, again, r2) <==> |short| < w.wnum && (w.pending.None? || c.movingBuffer))
            && if |short| >= w.wnum then
                 w1 == w && 0 < r2 <= |again| && PlainOf(w2.sealed, RT_APPLICATION_DATA) == acked + again[..r2]
               else if w.pending.None? || c.movingBuffer then
                 && 0 < r2 <= |again| && AppPending(w) <= r2
                 && PlainOf(w2.sealed, RT_APPLICATION_DATA) == acked + inflight + again[AppPending(w)..r2]
                 && |PlainOf(w2.sealed, RT_APPLICATION_DATA)| == |acked| + r2 + w.wnum
               else
                 InOrder(w1) && Lost(c, w1, addr) && (w2, r2) == (w1, -1)
  {
    hide WriteLoop, InOrder, PlainOf;
    var w1 := WriteApp(c, w, addr, short).0;
    if |short| >= w.wnum {
      BetweenIsRefused(c, w, addr, short);
      LoopFinishes(c, w.(wnum := 0), addr, again, w.wnum);
      var r2 := WriteApp(c, w1, addr, again).1;
      assert inflight + again[|inflight|..r2] == again[..r2];
      AppendAssoc(acked, inflight, again[|inflight|..r2]);
    } else if w.pending.None? || c.movingBuffer {
      LoopFinishes(c, w1, addr, again, 0);
    } else {
      WnumIrrelevant(w, 0);
      LostIsRefused(c, w1, addr, again);
    }
  }

  // ----- Refused for good ---------------------------------------------------

  /** A record is pending at a place that the writer has forgotten. */
  predicate Lost(c: Config, w: Writer, addr: int) {
    && !c.movingBuffer && w.wnum == 0 && w.pending.Some?
    && w.pending.value.typ == RT_APPLICATION_DATA && w.pending.value.tot > 0 && w.pending.value.addr != addr
  }

  lemma LostIsRefused(c: Config, w: Writer, addr: int, input: seq<byte>)
    requires Lost(c, w, addr) && c.maxFragment > 0
    ensures WriteApp(c, w, addr, input) == (w, -1)
  {
  }

  /** Anything but a write from the place of the pending record; nothing is added
      to a flight that is being written. */
  predicate Later(w: Writer, addr: int, e: Event) {
    match e
    case Message(_) | Ccs | Alert(_) => w.offset == 0
    case App(a, _) => a == addr
    case _ => true
  }

  ghost predicate AllLater(c: Config, run: Run, addr: int, events: seq<Event>)
    requires c.maxFragment > 0
    decreases |events|
  {
    events == [] || (Later(run.w, addr, events[0]) && AllLater(c, Step(c, run, events[0]), addr, events[1..]))
  }

  lemma AddSealsNoData(c: Config, w: Writer, typ: byte, plain: seq<byte>)
    requires InOrder(w) && w.offset == 0 && typ != RT_APPLICATION_DATA
    ensures var w' := AddRecord(c, w, typ, plain).0;
            && InOrder(w') && w' == w.(flight := w'.flight, seals := w'.seals, sealed := w'.sealed)
            && PlainOf(w'.sealed, RT_APPLICATION_DATA) == PlainOf(w.sealed, RT_APPLICATION_DATA)
  {
    hide AddRecord, InOrder, PlainOf;
    AddRecordInOrder(c, w, typ, plain);
    var w' := AddRecord(c, w, typ, plain).0;
    if w'.sealed != w.sealed {
      GrewPlain(w, w', typ, plain);
    }
  }

  lemma ClosedInOrder(w: Writer)
    requires InOrder(w)
    ensures InOrder(w.(shutdown := true))
  {
  }

  /** No step frees it. */
  lemma LostStays(c: Config, run: Run, addr: int, e: Event)
    requires c.maxFragment > 0 && InOrder(run.w) && Lost(c, run.w, addr) && Later(run.w, addr, e)
    ensures var w' := Step(c, run, e).w;
            && InOrder(w') && Lost(c, w', addr) && w'.pending == run.w.pending
            && PlainOf(w'.sealed, RT_APPLICATION_DATA) == PlainOf(run.w.sealed, RT_APPLICATION_DATA)
            && (e.App? ==> WriteApp(c, run.w, addr, e.input) == (run.w, -1))
  {
    hide AddMessage, AddRecord, FlushFlight, WriteApp, InOrder, PlainOf;
    var w := run.w;
    match e
    case Message(msg) => AddMessageInOrder(c, w, msg);
    case Ccs => AddSealsNoData(c, w, RT_CHANGE_CIPHER_SPEC, CCS_BODY);
    case Alert(alert) => AddSealsNoData(c, w, RT_ALERT, alert);
    case Flush => FlushFlightInOrder(c, w);
    case Dispatch(_, _) =>
    case Close => ClosedInOrder(w);
    case App(_, input) => LostIsRefused(c, w, addr, input);
  }

  /** Refused for good: over any later run of adding messages, flushing, alerts,
      closing and writes from the same place, whatever they offer and whatever
      the transport takes, every write fails, the record stays pending and no
      application data is sealed. */
  lemma {:induction false} RefusedForGood(c: Config, run: Run, addr: int, events: seq<Event>)
    requires c.maxFragment > 0 && InOrder(run.w) && Lost(c, run.w, addr) && AllLater(c, run, addr, events)
    ensures var w' := RunAll(c, run, events).w;
            && Lost(c, w', addr) && w'.pending == run.w.pending
            && PlainOf(w'.sealed, RT_APPLICATION_DATA) == PlainOf(run.w.sealed, RT_APPLICATION_DATA)
            && forall input :: WriteApp(c, w', addr, input) == (w', -1)
    decreases |events|
  {
    hide Step, Later, PlainOf, InOrder, WriteApp;
    if events == [] {
      forall input
        ensures WriteApp(c, run.w, addr, input) == (run.w, -1)
      {
        LostIsRefused(c, run.w, addr, input);
      }
    } else {
      LostStays(c, run, addr, events[0]);
      RefusedForGood(c, Step(c, run, events[0]), addr, events[1..]);
    }
  }
}
