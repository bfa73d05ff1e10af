/** How the TLS write path cuts messages and application data into records. */
module TlsFragments {
  import opened Bytes
  import opened RecordTypes
  import opened TlsWrite

  /** All records but the last hold exactly `max` bytes, and that one no more;
      only an empty message is an empty record. */
  predicate Cut(records: seq<Sealed>, max: nat, total: nat) {
    && (forall i :: 0 <= i < |records| - 1 ==> |records[i].plain| == max)
    && (records != [] ==> |records[|records| - 1].plain| <= max)
    && (total > 0 ==> forall i :: 0 <= i < |records| ==> records[i].plain != [])
  }

  predicate AllOf(records: seq<Sealed>, typ: byte) {
    forall i :: 0 <= i < |records| ==> records[i].typ == typ
  }

  /** What was sealed after `w`. */
  function Since(w: Writer, w': Writer): seq<Sealed>
    requires |w.sealed| <= |w'.sealed|
  {
    w'.sealed[|w.sealed|..]
  }

  /** A message is cut into handshake records of the largest size, with a shorter
      one at the end; an empty message is one empty record; and if sealing fails,
      what was sealed before is records of the largest size. */
  lemma {:induction false} MessageIsCut(c: Config, w: Writer, msg: seq<byte>)
    requires c.maxFragment > 0
    ensures var (w', ok) := AddMessage(c, w, msg);
            && w.sealed <= w'.sealed && AllOf(Since(w, w'), RT_HANDSHAKE)
            && Cut(Since(w, w'), c.maxFragment, |msg|)
            && (ok ==> Since(w, w') != [] && (msg == [] ==> |Since(w, w')| == 1 && Since(w, w')[0].plain == []))
            && (!ok ==> forall i :: 0 <= i < |Since(w, w')| ==> |Since(w, w')[i].plain| == c.maxFragment)
    decreases |msg|
  {
    hide AddRecord;
    var n := Min(c.maxFragment, |msg|);
    var (w1, ok) := AddRecord(c, w, RT_HANDSHAKE, msg[..n]);
    OneRecord(c, w, RT_HANDSHAKE, msg[..n]);
    if ok && n < |msg| {
      MessageIsCut(c, w1, msg[n..]);
      var w' := AddMessage(c, w, msg).0;
      assert Since(w, w') == [w1.sealed[|w.sealed|]] + Since(w1, w');
    }
  }

  lemma OneRecord(c: Config, w: Writer, typ: byte, plain: seq<byte>)
    ensures var (w', ok) := AddRecord(c, w, typ, plain);
            if ok then Grew(w, w', typ, plain) else w'.sealed == w.sealed
  {
  }

  /** A write of application data seals records of the largest size, with a
      shorter one only at its end. */
  lemma {:induction false} WriteIsCut(c: Config, w: Writer, addr: int, input: seq<byte>, tot: nat)
    requires c.maxFragment > 0 && tot <= |input| && InOrder(w) && PendingSome(w)
    ensures var w' := WriteLoop(c, w, addr, input, tot).0;
            && w.sealed <= w'.sealed && AllOf(Since(w, w'), RT_APPLICATION_DATA)
            && Cut(Since(w, w'), c.maxFragment, 1)
    decreases |input| - tot
  {
    hide WriteRecord, InOrder;
    var n := |input| - tot;
    var data := input[tot..tot + Min(n, c.maxFragment)];
    WriteRecordInOrder(c, w, RT_APPLICATION_DATA, addr + tot, data);
    if data == [] {
      NeverEmpty(c, w, RT_APPLICATION_DATA, addr + tot, data);
    }
    var (w1, ret) := WriteRecord(c, w, RT_APPLICATION_DATA, addr + tot, data);
    if 0 < ret < n && !c.partialWrite {
      WriteIsCut(c, w1, addr, input, tot + ret);
      var w' := WriteLoop(c, w, addr, input, tot).0;
      if w1.sealed == w.sealed {
        assert Since(w, w') == Since(w1, w');
      } else {
        assert Since(w, w') == [w1.sealed[|w.sealed|]] + Since(w1, w');
      }
    }
  }

  /** A record of its own is never empty. */
  lemma NeverEmpty(c: Config, w: Writer, typ: byte, addr: int, data: seq<byte>)
    requires data == [] && InOrder(w)
    ensures WriteRecord(c, w, typ, addr, data).0.sealed == w.sealed
  {
    hide FlushBuffer;
    FlushBufferInOrder(c, w);
  }

  // ----- Whole runs -------------------------------------------------------

  /** No record of handshake or application data is larger than the largest
      fragment, and none of application data is empty. */
  predicate Within(c: Config, sealed: seq<Sealed>) {
    forall i :: 0 <= i < |sealed| ==>
      (sealed[i].typ == RT_HANDSHAKE || sealed[i].typ == RT_APPLICATION_DATA ==> |sealed[i].plain| <= c.maxFragment) &&
      (sealed[i].typ == RT_APPLICATION_DATA ==> sealed[i].plain != [])
  }

  lemma StepWithin(c: Config, run: Run, e: Event)
    requires c.maxFragment > 0 && Inv(run) && Within(c, run.w.sealed)
    ensures Within(c, Step(c, run, e).w.sealed)
  {
    hide AddMessage, FlushFlight, WriteRecord, WriteLoop, InOrder, Progress, AppFirst;
    var w := run.w;
    match e
    case Message(msg) =>
      MessageIsCut(c, w, msg);
      JoinWithin(c, w, AddMessage(c, w, msg).0, RT_HANDSHAKE);
    case Ccs => OneRecord(c, w, RT_CHANGE_CIPHER_SPEC, CCS_BODY);
    case Alert(alert) => OneRecord(c, w, RT_ALERT, alert);
    case Flush => FlushFlightInOrder(c, w);
    case Dispatch(addr, alert) => WriteRecordInOrder(c, w, RT_ALERT, addr, alert);
    case Close =>
    case App(addr, input) =>
      if !w.shutdown && |input| >= w.wnum {
        WnumIrrelevant(w, 0);
        WriteIsCut(c, w.(wnum := 0), addr, input, w.wnum);
        JoinWithin(c, w, WriteApp(c, w, addr, input).0, RT_APPLICATION_DATA);
      }
  }

  lemma JoinWithin(c: Config, w: Writer, w': Writer, typ: byte)
    requires Within(c, w.sealed) && w.sealed <= w'.sealed && AllOf(Since(w, w'), typ)
    requires Cut(Since(w, w'), c.maxFragment, if typ == RT_APPLICATION_DATA then 1 else 0)
    ensures Within(c, w'.sealed)
  {
    forall i | |w.sealed| <= i < |w'.sealed|
      ensures w'.sealed[i].typ == typ && |w'.sealed[i].plain| <= c.maxFragment
    {
      assert Since(w, w')[i - |w.sealed|] == w'.sealed[i];
    }
  }

  /** Over any run. */
  lemma {:induction false} RunWithin(c: Config, run: Run, events: seq<Event>)
    requires c.maxFragment > 0 && Inv(run) && Allowable(c, run, events) && Within(c, run.w.sealed)
    ensures Within(c, RunAll(c, run, events).w.sealed)
    decreases |events|
  {
    hide Step, Inv, Allowed, Within;
    if events != [] {
      StepWithin(c, run, events[0]);
      StepKeepsInv(c, run, events[0]);
      RunWithin(c, Step(c, run, events[0]), events[1..]);
    }
  }

  // ----- When a record is sealed, and a flight is out ----------------------

  /** A record of its own is sealed exactly if none is pending, it holds something
      and no more than a record may, nothing is left in the buffer, there is room
      for it behind the flight, and the cipher seals it. */
  lemma SealsExactly(c: Config, w: Writer, typ: byte, addr: int, data: seq<byte>)
    requires InOrder(w)
    ensures var (w', ret) := WriteRecord(c, w, typ, addr, data);
            && (w'.sealed != w.sealed <==>
                  w.pending.None? && 0 < |data| <= 16384 && w.buffer == [] &&
                  |data| + c.sealer.overhead + |w.FlightRest()| <= 0xffff && c.sealer.seal(w.seals, typ, data).Some?)
            && (w.pending.None? && w'.sealed == w.sealed ==> ret == if data == [] && w.buffer == [] then 0 else -1)
  {
    hide InOrder, FlushBuffer;
    SealIntoInOrder(c, w, typ, addr, data);
    var w1 := SealInto(c, w, typ, addr, data).0;
    FlushBufferInOrder(c, w);
    FlushBufferInOrder(c, w1);
  }

  /** What the transport answered last. */
  function LastAnswer(c: Config, w: Writer): int {
    if w.calls == 0 then 0 else c.bio(w.calls - 1)
  }

  lemma {:induction false} SendEnds(c: Config, w: Writer)
    requires w.flight.Some?
    ensures var (w', ret) := SendFlight(c, w); w'.calls > w.calls && (ret > 0 <==> LastAnswer(c, w') > 0)
    decreases |w.flight.value| - w.offset
  {
    var ret := c.bio(w.calls);
    if w.offset < |w.flight.value| && ret > 0 {
      var n := Min(ret, |w.flight.value| - w.offset);
      SendEnds(c, w.(calls := w.calls + 1, offset := w.offset + n,
                     transport := w.transport + w.flight.value[w.offset..w.offset + n]));
    }
  }

  /** A flight is reported out only by a transport whose last answer, to the flush
      itself, was good; one that is too long for the transport, or of an end that
      was shut down, is not even begun. */
  lemma FlushedExactly(c: Config, w: Writer)
    requires w.flight.Some?
    ensures var (w', ret) := FlushFlight(c, w);
            && (w.shutdown || |w.flight.value| > 0x7fff_ffff ==> (w', ret) == (w, -1))
            && (ret > 0 ==> !w.shutdown && |w.flight.value| <= 0x7fff_ffff && w'.flight.None? && LastAnswer(c, w') > 0)
  {
    hide FlushBuffer, SendFlight;
    BufferKeepsFlight(c, w);
    SendEnds(c, FlushBuffer(c, w).0);
    SendClears(c, FlushBuffer(c, w).0);
  }

  lemma {:induction false} BufferKeepsFlight(c: Config, w: Writer)
    ensures FlushBuffer(c, w).0.flight == w.flight
    decreases |w.buffer|
  {
    if w.buffer != [] && c.bio(w.calls) > 0 {
      var n := Min(c.bio(w.calls), |w.buffer|);
      BufferKeepsFlight(c, w.(calls := w.calls + 1, transport := w.transport + w.buffer[..n], buffer := w.buffer[n..]));
    }
  }

  lemma {:induction false} SendClears(c: Config, w: Writer)
    requires w.flight.Some?
    ensures SendFlight(c, w).1 > 0 ==> SendFlight(c, w).0.flight.None?
    decreases |w.flight.value| - w.offset
  {
    if w.offset < |w.flight.value| && c.bio(w.calls) > 0 {
      var n := Min(c.bio(w.calls), |w.flight.value| - w.offset);
      SendClears(c, w.(calls := w.calls + 1, offset := w.offset + n,
                       transport := w.transport + w.flight.value[w.offset..w.offset + n]));
    }
  }
}
