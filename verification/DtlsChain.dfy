/** Flights one after another and changes of keys between them, while records of
    earlier flights and earlier epochs still arrive. */
module DtlsChain {
  import opened Bytes
  import opened RecordTypes
  import opened DtlsRecord
  import opened HandshakeFragment
  import opened DtlsReceiver
  import opened DtlsSender
  import opened DtlsSession
  import opened DtlsEndToEnd

  /** One flight, with the attempts to send it and what happens at the receiver
      until the next part begins; or the receiver changes to new keys.  A flight
      that goes out in two epochs is two parts, with the change between them. */
  datatype Part = Flight(s: Sender, attempts: seq<Attempt>, events: seq<Event>) | NewKeys(cipher: ReadCipher)

  /** The handshake has read the ChangeCipherSpec, and the next epoch begins,
      unless anything is still buffered. */
  function ChangeKeys(run: Run, cipher: ReadCipher): Run
    requires |run.ring.slots| == DtlsReceiver.MAX_FLIGHT
  {
    var ring, reader := run.ring.(hasCcs := false), NewReadEpoch(run.reader, cipher);
    if run.failed then run
    else if HasUnprocessed(ring) then run.(ring := ring, failed := true)
    else run.(reader := reader, ring := ring.(readEpoch := reader.epoch, nullCipher := cipher.isNull))
  }

  function RunPart(run: Run, part: Part): (r: Run)
    requires |run.ring.slots| == DtlsReceiver.MAX_FLIGHT
    ensures |r.ring.slots| == DtlsReceiver.MAX_FLIGHT
  {
    match part
    case Flight(_, _, events) => RunAll(run, events)
    case NewKeys(cipher) => ChangeKeys(run, cipher)
  }

  function RunParts(run: Run, parts: seq<Part>): (r: Run)
    requires |run.ring.slots| == DtlsReceiver.MAX_FLIGHT
    ensures |r.ring.slots| == DtlsReceiver.MAX_FLIGHT
    decreases |parts|
  {
    if parts == [] then run else RunParts(RunPart(run, parts[0]), parts[1..])
  }

  predicate SafeParts(run: Run, parts: seq<Part>)
    requires |run.ring.slots| == DtlsReceiver.MAX_FLIGHT
    decreases |parts|
  {
    parts == [] ||
    ((parts[0].Flight? ==> Safe(run, parts[0].events)) && SafeParts(RunPart(run, parts[0]), parts[1..]))
  }

  function EpochAfter(part: Part, epoch: nat): nat {
    if part.NewKeys? then (epoch + 1) % EPOCH_RANGE else epoch
  }

  /** The messages that a part brings in the epoch it is in. */
  function Brings(part: Part, epoch: nat): seq<Fragment> {
    if part.Flight? then InEpoch(part.s.msgs, epoch) else []
  }

  /** All messages of all epochs, part by part. */
  function AllMessages(parts: seq<Part>, epoch: nat): seq<Fragment> {
    if parts == [] then [] else Brings(parts[0], epoch) + AllMessages(parts[1..], EpochAfter(parts[0], epoch))
  }

  /** The records of this epoch sent so far. */
  function LogAfter(log: seq<Sent>, part: Part): seq<Sent> {
    if part.Flight? then log + Session(part.s, part.attempts) else []
  }

  /** A part begins after the receiver has taken all messages before it, as the
      handshake waits for them; messages are numbered on.  What arrives in a
      flight is a record of it, or of any before it in the epoch, or does not
      open, or is of another epoch. */
  ghost predicate Honest(run: Run, msgs: seq<Fragment>, log: seq<Sent>, parts: seq<Part>, base: nat)
    requires |run.ring.slots| == DtlsReceiver.MAX_FLIGHT
    decreases |parts|
  {
    parts == [] || run.failed ||
    (var part := parts[0];
     var all, sent := msgs + Brings(part, run.reader.epoch), LogAfter(log, part);
     && |run.taken| == |msgs| && Numbered(all, base, run.ring.maxMsgLen)
     && (part.Flight? ==>
           && InPlace(part.s) && part.s.w.Valid() && part.s.written <= |part.s.msgs| <= DtlsReceiver.MAX_FLIGHT
           && FromNetwork(run, sent, part.events))
     && Honest(RunPart(run, part), all, sent, parts[1..], base))
  }

  /** A record of another epoch changes nothing. */
  lemma OtherEpochIgnored(run: Run, input: seq<byte>)
    requires |run.ring.slots| == DtlsReceiver.MAX_FLIGHT
    requires ParseRecord(input).Some? && ParseRecord(input).value.0.epoch != run.reader.epoch
    ensures Step(run, Arrive(input)) == run
  {
  }

  lemma {:induction false} FailedParts(run: Run, parts: seq<Part>)
    requires |run.ring.slots| == DtlsReceiver.MAX_FLIGHT && run.failed
    ensures RunParts(run, parts) == run
    decreases |parts|
  {
    hide RunAll;
    if parts != [] {
      if parts[0].Flight? {
        FailedStays(run, parts[0].events);
      }
      FailedParts(run, parts[1..]);
    }
  }

  lemma LogsJoin(a: seq<Sent>, msgs: seq<Fragment>, b: seq<Sent>, more: seq<Fragment>, epoch: nat)
    requires LogOf(a, msgs, epoch) && LogOf(b, more, epoch)
    ensures LogOf(a + b, msgs + more, epoch)
  {
    hide FragmentBytes;
    var log, all := a + b, msgs + more;
    forall i | 0 <= i < |log| && log[i].rec.epoch == epoch && log[i].rec.typ == RT_HANDSHAKE
      ensures SomePiece(all, log[i].plain)
    {
      if i < |a| {
        assert SomePiece(msgs, a[i].plain);
        var j: nat, off: nat, len: nat :| PieceOf(msgs, a[i].plain, j, off, len);
        assert PieceOf(all, log[i].plain, j, off, len);
      } else {
        assert SomePiece(more, b[i - |a|].plain);
        var j: nat, off: nat, len: nat :| PieceOf(more, b[i - |a|].plain, j, off, len);
        assert PieceOf(all, log[i].plain, |msgs| + j, off, len);
      }
    }
  }

  /** One more flight. */
  lemma FlightExactly(run: Run, msgs: seq<Fragment>, log: seq<Sent>, parts: seq<Part>, base: nat)
    requires RunInv(run, msgs, base) && LogOf(log, msgs, run.reader.epoch)
    requires |run.ring.slots| == DtlsReceiver.MAX_FLIGHT && parts != [] && parts[0].Flight?
    requires Honest(run, msgs, log, parts, base) && !run.failed
    ensures var part := parts[0];
            var all := msgs + Brings(part, run.reader.epoch);
            && (!RunPart(run, part).failed <==> Safe(run, part.events))
            && (Safe(run, part.events) ==> RunInv(RunPart(run, part), all, base))
            && RunPart(run, part).reader.epoch == run.reader.epoch
            && LogOf(LogAfter(log, part), all, run.reader.epoch)
  {
    hide RunInv, LogOf, FromNetwork, RunAll, Safe, InEpoch, Session;
    var part := parts[0];
    var more := InEpoch(part.s.msgs, run.reader.epoch);
    InEpochLength(part.s.msgs, run.reader.epoch);
    SessionIsLog(part.s, part.attempts, run.reader.epoch);
    LogsJoin(log, msgs, Session(part.s, part.attempts), more, run.reader.epoch);
    NewFlightKeepsInv(run, msgs, more, base);
    RunExactly(run, msgs + more, base, LogAfter(log, part), part.events);
    RunKeepsSetting(run, part.events);
  }

  /** A fragment of message `j` has arrived. */
  predicate Arrived(run: Run, base: nat, j: nat) { Touched(run.accepted, base + j) }

  /** New keys are refused if and only if a fragment has arrived of a message
      that was not taken. */
  lemma ChangeExactly(run: Run, msgs: seq<Fragment>, base: nat, cipher: ReadCipher)
    requires RunInv(run, msgs, base)
    ensures |run.ring.slots| == DtlsReceiver.MAX_FLIGHT
    ensures var run' := ChangeKeys(run, cipher);
            && (!run.ring.hasMessage || |run.taken| == |msgs| ==>
                  (run'.failed <==> exists j: nat :: |run.taken| <= j < |msgs| && Arrived(run, base, j)))
            && (!run'.failed ==> RunInv(run', msgs, base) && run'.reader.epoch == (run.reader.epoch + 1) % EPOCH_RANGE)
  {
    hide Touched, Covered, Restrict;
    var run' := ChangeKeys(run, cipher);
    forall j: nat | |run.taken| <= j < |msgs|
      ensures InSlot(run', msgs, base, j)
      ensures Arrived(run, base, j) <==> run.ring.slots[(base + j) % DtlsReceiver.MAX_FLIGHT].Some?
    {
      assert InSlot(run, msgs, base, j);
    }
    if i :| 0 <= i < DtlsReceiver.MAX_FLIGHT && run.ring.slots[i].Some? {
      var j := run.ring.slots[i].value.seqNum - base;
      assert InSlot(run, msgs, base, j) && Arrived(run, base, j);
    }
  }

  /** Over a chain of flights and changes of keys, with records of earlier flights
      and epochs arriving among new ones: the receiver fails exactly if something
      fatal arrives, no change of keys is refused, and otherwise the handshake
      gets all messages of all epochs in order. */
  lemma {:induction false} ChainOfFlights(run: Run, msgs: seq<Fragment>, log: seq<Sent>, parts: seq<Part>, base: nat)
    requires RunInv(run, msgs, base) && LogOf(log, msgs, run.reader.epoch)
    requires |run.ring.slots| == DtlsReceiver.MAX_FLIGHT && Honest(run, msgs, log, parts, base)
    ensures var end := RunParts(run, parts);
            && (!end.failed <==> SafeParts(run, parts))
            && (!end.failed ==> GetsInOrder(end, msgs + AllMessages(parts, run.reader.epoch), base))
    decreases |parts|
  {
    hide RunInv, LogOf, FromNetwork, RunAll, Safe, InEpoch, Session, GetsInOrder, ChangeKeys;
    RunInvLength(run, msgs, base);
    if parts == [] {
      InvGetsInOrder(run, msgs, base);
      assert msgs + AllMessages(parts, run.reader.epoch) == msgs;
    } else {
      var part, next := parts[0], RunPart(run, parts[0]);
      var more := Brings(part, run.reader.epoch);
      if part.Flight? {
        FlightExactly(run, msgs, log, parts, base);
      } else {
        ChangeExactly(run, msgs, base, part.cipher);
        assert msgs + more == msgs;
        assert LogOf([], msgs, next.reader.epoch) by { EmptyLog(msgs, next.reader.epoch); }
      }
      if next.failed {
        FailedParts(next, parts[1..]);
      } else {
        ChainOfFlights(next, msgs + more, LogAfter(log, part), parts[1..], base);
        assert (msgs + more) + AllMessages(parts[1..], next.reader.epoch) == msgs + AllMessages(parts, run.reader.epoch);
      }
    }
  }

  lemma EmptyLog(msgs: seq<Fragment>, epoch: nat)
    ensures LogOf([], msgs, epoch)
  {
  }

  /** From the first flight on. */
  lemma ChainFromStart(run: Run, parts: seq<Part>, base: nat)
    requires AtStart(run, base) && base < U16 && Honest(run, [], [], parts, base)
    ensures var end := RunParts(run, parts);
            && (!end.failed <==> SafeParts(run, parts))
            && (!end.failed ==> GetsInOrder(end, AllMessages(parts, run.reader.epoch), base))
  {
    hide Honest, GetsInOrder, RunParts, SafeParts;
    StartInv(run, [], base);
    ChainOfFlights(run, [], [], parts, base);
    assert [] + AllMessages(parts, run.reader.epoch) == AllMessages(parts, run.reader.epoch);
  }
}
