/** Handshake messages from the TLS write path to the read path. */
module TlsStream {
  import opened Bytes
  import opened RecordTypes
  import W = TlsWrite
  import R = TlsRead

  /** The handshake messages that are added over a run. */
  function Added(events: seq<W.Event>): seq<seq<byte>> {
    if events == [] then [] else (if events[0].Message? then [events[0].msg] else []) + Added(events[1..])
  }

  /** No adding of a message fails over the run. */
  predicate AllAdded(c: W.Config, run: W.Run, events: seq<W.Event>)
    requires c.maxFragment > 0
    decreases |events|
  {
    events == [] ||
    ((events[0].Message? ==> W.AddMessage(c, run.w, events[0].msg).1) && AllAdded(c, W.Step(c, run, events[0]), events[1..]))
  }

  /** The bodies of the handshake records, in order. */
  function Bodies(sealed: seq<W.Sealed>): seq<seq<byte>> {
    if sealed == [] then [] else
    var last := sealed[|sealed| - 1];
    Bodies(sealed[..|sealed| - 1]) + (if last.typ == RT_HANDSHAKE then [last.plain] else [])
  }

  lemma {:induction false} BodiesConcat(sealed: seq<W.Sealed>)
    ensures R.Concat(Bodies(sealed)) == W.PlainOf(sealed, RT_HANDSHAKE)
  {
    if sealed != [] {
      var front, last := sealed[..|sealed| - 1], sealed[|sealed| - 1];
      BodiesConcat(front);
      if last.typ == RT_HANDSHAKE {
        R.ConcatSnoc(Bodies(front), last.plain);
      } else {
        assert Bodies(front) + [] == Bodies(front);
      }
    }
  }

  /** One step seals a message that it adds, and no other handshake bytes. */
  lemma StepSeals(c: W.Config, run: W.Run, e: W.Event)
    requires c.maxFragment > 0 && W.Inv(run) && W.Allowed(run, e)
    requires e.Message? ==> W.AddMessage(c, run.w, e.msg).1
    ensures W.PlainOf(W.Step(c, run, e).w.sealed, RT_HANDSHAKE) ==
            W.PlainOf(run.w.sealed, RT_HANDSHAKE) + if e.Message? then e.msg else []
  {
    hide W.AddMessage, W.AddRecord, W.FlushFlight, W.WriteRecord, W.WriteLoop, W.InOrder, W.PlainOf, W.AppFirst;
    var w := run.w;
    assert W.PlainOf(w.sealed, RT_HANDSHAKE) + [] == W.PlainOf(w.sealed, RT_HANDSHAKE);
    match e
    case Message(msg) => W.AddMessageInOrder(c, w, msg);
    case Ccs => OtherRecord(c, w, RT_CHANGE_CIPHER_SPEC, W.CCS_BODY);
    case Alert(alert) => OtherRecord(c, w, RT_ALERT, alert);
    case Flush => W.FlushFlightInOrder(c, w);
    case Dispatch(addr, alert) =>
      W.WriteRecordInOrder(c, w, RT_ALERT, addr, alert);
      var w' := W.WriteRecord(c, w, RT_ALERT, addr, alert).0;
      if w'.sealed != w.sealed {
        W.GrewPlain(w, w', RT_ALERT, alert);
      }
    case Close =>
    case App(addr, input) =>
      if !w.shutdown {
        W.WnumIrrelevant(w, 0);
        W.LoopOnlySeals(c, w.(wnum := 0), addr, input, w.wnum);
      }
  }

  lemma OtherRecord(c: W.Config, w: W.Writer, typ: byte, plain: seq<byte>)
    requires W.InOrder(w) && w.offset == 0 && typ != RT_HANDSHAKE
    ensures W.PlainOf(W.AddRecord(c, w, typ, plain).0.sealed, RT_HANDSHAKE) == W.PlainOf(w.sealed, RT_HANDSHAKE)
  {
    hide W.AddRecord, W.InOrder, W.PlainOf;
    W.AddRecordInOrder(c, w, typ, plain);
    var (w', ok) := W.AddRecord(c, w, typ, plain);
    if ok {
      W.GrewPlain(w, w', typ, plain);
      assert W.PlainOf(w.sealed, RT_HANDSHAKE) + [] == W.PlainOf(w.sealed, RT_HANDSHAKE);
    }
  }

  /** Over any run, the handshake plaintext sealed is the messages added, one
      behind another. */
  lemma {:induction false} RunSeals(c: W.Config, run: W.Run, events: seq<W.Event>)
    requires c.maxFragment > 0 && W.Inv(run) && W.Allowable(c, run, events) && AllAdded(c, run, events)
    ensures W.PlainOf(W.RunAll(c, run, events).w.sealed, RT_HANDSHAKE) ==
            W.PlainOf(run.w.sealed, RT_HANDSHAKE) + R.Concat(Added(events))
    decreases |events|
  {
    hide W.Step, W.Inv, W.Allowed, W.PlainOf, W.AddMessage;
    var before := W.PlainOf(run.w.sealed, RT_HANDSHAKE);
    if events == [] {
      assert before + R.Concat([]) == before;
    } else {
      var e := events[0];
      StepSeals(c, run, e);
      W.StepKeepsInv(c, run, e);
      RunSeals(c, W.Step(c, run, e), events[1..]);
      var rest := Added(events[1..]);
      if e.Message? {
        assert ([e.msg] + rest)[1..] == rest;
        assert (before + e.msg) + R.Concat(rest) == before + (e.msg + R.Concat(rest));
      } else {
        assert before + [] == before && [] + rest == rest;
      }
    }
  }

  /** However a writer cuts messages into records, over any run with flushes,
      alerts, application data and blocked writes in between, the reader of its
      handshake records gets the very messages that were added. */
  lemma ChunkingIsUndone(c: W.Config, run: W.Run, events: seq<W.Event>, maxLen: nat, inInit: bool)
    requires c.maxFragment > 0 && W.Inv(run) && run.w.sealed == []
    requires W.Allowable(c, run, events) && AllAdded(c, run, events)
    requires R.AllFrames(Added(events)) && R.NotTooLong(Added(events), maxLen)
    ensures var end := R.Feed(R.START, maxLen, inInit, Bodies(W.RunAll(c, run, events).w.sealed));
            !end.failed && end.taken == Added(events) && end.r.Bytes() == []
  {
    hide W.Inv, W.RunAll, R.AllFrames, R.NotTooLong, Bodies, Added, AllAdded;
    var bodies, ms := Bodies(W.RunAll(c, run, events).w.sealed), Added(events);
    RunSeals(c, run, events);
    BodiesConcat(W.RunAll(c, run, events).w.sealed);
    assert W.PlainOf([], RT_HANDSHAKE) == [];
    assert [] + R.Concat(ms) == R.Concat(ms) == R.START.received + R.Concat(bodies);
    assert R.Concat([]) == [];
    R.FeedDelivers(R.START, maxLen, inInit, ms, bodies);
  }
}
