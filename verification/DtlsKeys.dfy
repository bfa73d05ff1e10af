/** The keys of a DTLS handshake: what a chain of flights and key changes opens,
    and the end-to-end theorems for a reader that undoes the writer's ciphers. */
module DtlsKeys {
  import opened Bytes
  import opened RecordTypes
  import opened DtlsRecord
  import opened ReplayWindow
  import opened HandshakeFragment
  import opened DtlsWriter
  import opened DtlsReceiver
  import opened DtlsSender
  import opened DtlsSession
  import opened DtlsEndToEnd
  import opened DtlsChain

  // ----- What a chain opens -----------------------------------------------

  /** What the record layer sees of the receiver's events. */
  function Reads(run: Run, events: seq<Event>): seq<ReadEvent>
    requires |run.ring.slots| == DtlsReceiver.MAX_FLIGHT
    decreases |events|
  {
    if events == [] || run.failed then [] else
    StepKeepsLength(run, events[0]);
    (match events[0] case Arrive(input) => [Arrives(input)] case Take => []) + Reads(Step(run, events[0]), events[1..])
  }

  function PartReads(run: Run, part: Part): seq<ReadEvent>
    requires |run.ring.slots| == DtlsReceiver.MAX_FLIGHT
  {
    match part
    case Flight(_, _, events) => Reads(run, events)
    case NewKeys(cipher) => if ChangeKeys(run, cipher).failed then [] else [NewEpoch(cipher)]
  }

  function ChainReads(run: Run, parts: seq<Part>): seq<ReadEvent>
    requires |run.ring.slots| == DtlsReceiver.MAX_FLIGHT
    decreases |parts|
  {
    if parts == [] then [] else PartReads(run, parts[0]) + ChainReads(RunPart(run, parts[0]), parts[1..])
  }

  /** The keys changed to, in order. */
  function NewCiphers(parts: seq<Part>): seq<ReadCipher> {
    if parts == [] then [] else CipherOfPart(parts[0]) + NewCiphers(parts[1..])
  }

  function CipherOfPart(part: Part): seq<ReadCipher> {
    match part case NewKeys(cipher) => [cipher] case Flight(_, _, _) => []
  }

  lemma {:induction false} ReadAllJoins(run: ReadRun, a: seq<ReadEvent>, b: seq<ReadEvent>)
    ensures ReadAll(run, a + b) == ReadAll(ReadAll(run, a), b)
    decreases |b|
  {
    hide ReadStep;
    if b == [] {
      assert a + b == a;
    } else {
      assert (a + b)[..|a + b| - 1] == a + b[..|b| - 1];
      ReadAllJoins(run, a, b[..|b| - 1]);
    }
  }

  lemma {:induction false} ChangesJoin(first: ReadCipher, a: seq<ReadEvent>, b: seq<ReadEvent>)
    ensures EpochChanges(a + b) == EpochChanges(a) + EpochChanges(b)
    ensures KeysRead(first, a + b) == KeysRead(first, a) + KeysRead(first, b)[1..]
    ensures KeysRead(first, b)[0] == first
    decreases |b|
  {
    if b == [] {
      assert a + b == a;
    } else {
      assert (a + b)[..|a + b| - 1] == a + b[..|b| - 1];
      ChangesJoin(first, a, b[..|b| - 1]);
    }
  }

  lemma {:induction false} ReaderFollows(from: ReadRun, run: Run, events: seq<Event>, first: ReadCipher)
    requires |run.ring.slots| == DtlsReceiver.MAX_FLIGHT && from.state == run.reader
    ensures ReadAll(from, Reads(run, events)).state == RunAll(run, events).reader
    ensures EpochChanges(Reads(run, events)) == 0 && KeysRead(first, Reads(run, events)) == [first]
    decreases |events|
  {
    hide OpenRecord, HandleRecord, GetMessage;
    if run.failed {
      FailedStays(run, events);
    } else if events != [] {
      StepKeepsLength(run, events[0]);
      var head := match events[0] case Arrive(input) => [Arrives(input)] case Take => [];
      var next := ReadAll(from, head);
      assert next.state == Step(run, events[0]).reader by {
        if head != [] {
          assert head[..0] == [] && ReadAll(from, []) == from;
        }
      }
      var tail := Reads(Step(run, events[0]), events[1..]);
      ReaderFollows(next, Step(run, events[0]), events[1..], first);
      ReadAllJoins(from, head, tail);
      ChangesJoin(first, head, tail);
    }
  }

  lemma PartFollows(from: ReadRun, run: Run, part: Part, first: ReadCipher)
    requires |run.ring.slots| == DtlsReceiver.MAX_FLIGHT && from.state == run.reader && !run.failed
    ensures ReadAll(from, PartReads(run, part)).state == RunPart(run, part).reader
    ensures !RunPart(run, part).failed ==> KeysRead(first, PartReads(run, part)) == [first] + CipherOfPart(part)
  {
    hide RunAll, Reads, ReadStep, HasUnprocessed;
    if part.Flight? {
      ReaderFollows(from, run, part.events, first);
    } else {
      KeyChangeReads(from, part.cipher, first);
    }
  }

  lemma {:induction false} ReaderFollowsChain(from: ReadRun, run: Run, parts: seq<Part>, first: ReadCipher)
    requires |run.ring.slots| == DtlsReceiver.MAX_FLIGHT && from.state == run.reader && !run.failed
    ensures ReadAll(from, ChainReads(run, parts)).state == RunParts(run, parts).reader
    ensures !RunParts(run, parts).failed ==> KeysRead(first, ChainReads(run, parts)) == [first] + NewCiphers(parts)
    decreases |parts|
  {
    hide RunPart, PartReads, ReadAll, KeysRead, CipherOfPart;
    if parts == [] {
      NoReads(from, first);
    } else {
      var next := RunPart(run, parts[0]);
      var head, tail := PartReads(run, parts[0]), ChainReads(next, parts[1..]);
      PartFollows(from, run, parts[0], first);
      ReadAllJoins(from, head, tail);
      ChangesJoin(first, head, tail);
      if next.failed {
        FailedChain(next, parts[1..]);
        assert head + tail == head;
      } else {
        ReaderFollowsChain(ReadAll(from, head), next, parts[1..], first);
        if !RunParts(next, parts[1..]).failed {
          KeysFollow(first, KeysRead(first, head), CipherOfPart(parts[0]), KeysRead(first, tail), NewCiphers(parts[1..]));
        }
      }
    }
  }

  lemma KeysFollow(first: ReadCipher, a: seq<ReadCipher>, c: seq<ReadCipher>, b: seq<ReadCipher>, d: seq<ReadCipher>)
    requires a == [first] + c && b == [first] + d
    ensures a + b[1..] == [first] + (c + d)
  {
  }

  lemma NoReads(from: ReadRun, first: ReadCipher)
    ensures ReadAll(from, []) == from && KeysRead(first, []) == [first]
  {
  }

  lemma {:induction false} FailedChain(run: Run, parts: seq<Part>)
    requires |run.ring.slots| == DtlsReceiver.MAX_FLIGHT && run.failed
    ensures ChainReads(run, parts) == [] && RunParts(run, parts) == run
    decreases |parts|
  {
    hide RunAll, HasUnprocessed;
    if parts != [] {
      if parts[0].Flight? {
        FailedStays(run, parts[0].events);
      }
      FailedChain(run, parts[1..]);
    }
  }

  lemma KeyChangeReads(from: ReadRun, cipher: ReadCipher, first: ReadCipher)
    ensures ReadAll(from, [NewEpoch(cipher)]).state == NewReadEpoch(from.state, cipher)
    ensures KeysRead(first, [NewEpoch(cipher)]) == [first, cipher]
  {
    var one := [NewEpoch(cipher)];
    assert one[..0] == [];
    assert ReadAll(from, one) == ReadStep(ReadAll(from, []), one[0]);
    assert KeysRead(first, one) == KeysRead(first, []) + [cipher];
  }

  /** At the end of any chain of flights and accepted key changes, whatever has
      arrived: the next record is opened to `plain` exactly if it is of the epoch
      that the last change began, fresh in it, not too long, and the key given to
      that change makes `plain` of it. */
  lemma ChainDeliversExactly(first: ReadCipher, run: Run, parts: seq<Part>, r: WireRecord, rest: seq<byte>,
                             plain: seq<byte>)
    requires |run.ring.slots| == DtlsReceiver.MAX_FLIGHT && !run.failed
    requires run.reader == ReadState(0, EMPTY_WINDOW, first, false)
    requires |NewCiphers(parts)| < EPOCH_RANGE && r.Valid() && !RunParts(run, parts).failed
    ensures var keys := [first] + NewCiphers(parts);
            var delivered := ReadAll(StartReading(first), ChainReads(run, parts)).delivered;
            var (result, _, next) := OpenRecord(RunParts(run, parts).reader, RecordBytes(r) + rest);
            && ((result.Opened? || result.Alert?) && result.content == plain <==>
                  |r.body| <= 16704 && r.epoch == |keys| - 1 && Fresh(delivered, r.epoch, r.seqNum) &&
                  Yields(keys[|keys| - 1], r, plain) && |plain| <= 16384)
            && (result.Opened? ==> result.typ == r.typ && r.typ != 21) && (result.Alert? ==> r.typ == 21)
            && (YieldsNothing(keys[|keys| - 1], r) ==>
                  result == Discard && next == RunParts(run, parts).reader)
  {
    hide OpenRecord, RunParts, ChainReads, ReadAll, Fresh, RecordBytes;
    ReaderFollowsChain(StartReading(first), run, parts, first);
    DeliveredExactly(first, ChainReads(run, parts), r, rest, plain);
  }

  lemma {:induction false} ChainJoins(run: Run, a: seq<Part>, b: seq<Part>)
    requires |run.ring.slots| == DtlsReceiver.MAX_FLIGHT
    ensures RunParts(run, a + b) == RunParts(RunParts(run, a), b)
    ensures ChainReads(run, a + b) == ChainReads(run, a) + ChainReads(RunParts(run, a), b)
    ensures NewCiphers(a + b) == NewCiphers(a) + NewCiphers(b)
    decreases |a|
  {
    hide RunPart, PartReads, CipherOfPart;
    if a == [] {
      assert a + b == b;
    } else {
      assert (a + b)[1..] == a[1..] + b;
      ChainJoins(RunPart(run, a[0]), a[1..], b);
    }
  }

  /** Nothing was delivered in an epoch that just began. */
  lemma NothingYet(first: ReadCipher, run: Run, parts: seq<Part>, next: ReadCipher, seqNum: nat)
    requires |run.ring.slots| == DtlsReceiver.MAX_FLIGHT && !run.failed
    requires run.reader == ReadState(0, EMPTY_WINDOW, first, false)
    requires |NewCiphers(parts)| + 1 < EPOCH_RANGE && !RunParts(run, parts + [NewKeys(next)]).failed
    ensures Fresh(ReadAll(StartReading(first), ChainReads(run, parts + [NewKeys(next)])).delivered,
                  |NewCiphers(parts)| + 1, seqNum)
  {
    hide ReadAll, Represents, RunParts, ChainReads, NewCiphers, RunPart, PartReads;
    ChainJoins(run, parts, [NewKeys(next)]);
    var before := RunParts(run, parts);
    if before.failed {
      FailedChain(before, [NewKeys(next)]);
    } else {
      var seen := ChainReads(run, parts);
      ReaderFollowsChain(StartReading(first), run, parts, first);
      NoRecordTwice(first, seen);
      OnePart(before, NewKeys(next));
      AcceptedChange(before, next);
      ReadAllJoins(StartReading(first), seen, [NewEpoch(next)]);
      ChangeDelivers(ReadAll(StartReading(first), seen), next);
    }
  }

  lemma OnePart(run: Run, part: Part)
    requires |run.ring.slots| == DtlsReceiver.MAX_FLIGHT
    ensures ChainReads(run, [part]) == PartReads(run, part) && NewCiphers([part]) == CipherOfPart(part)
    ensures RunParts(run, [part]) == RunPart(run, part)
  {
    hide RunPart, PartReads, CipherOfPart;
    var run' := RunPart(run, part);
    assert [part][1..] == [];
    assert RunParts(run', []) == run' && ChainReads(run', []) == [] && NewCiphers([]) == [];
  }

  lemma AcceptedChange(run: Run, next: ReadCipher)
    requires |run.ring.slots| == DtlsReceiver.MAX_FLIGHT && !RunPart(run, NewKeys(next)).failed
    ensures PartReads(run, NewKeys(next)) == [NewEpoch(next)] && CipherOfPart(NewKeys(next)) == [next]
    ensures var ring := RunPart(run, NewKeys(next)).ring;
            ring.nullCipher == next.isNull && ring.readEpoch == RunPart(run, NewKeys(next)).reader.epoch
  {
    hide HasUnprocessed;
  }

  lemma ChangeDelivers(from: ReadRun, next: ReadCipher)
    ensures ReadAll(from, [NewEpoch(next)]).delivered == from.delivered
  {
    var one := [NewEpoch(next)];
    assert one[..0] == [];
    assert ReadAll(from, one) == ReadStep(ReadAll(from, []), one[0]);
  }

  /** So once a change of keys is accepted: a record of the new epoch is opened to
      `plain` exactly if the cipher given to the change opens it to that, and is
      dropped if that does not open it. */
  lemma FirstUnderNewKeys(first: ReadCipher, run: Run, parts: seq<Part>, next: ReadCipher, r: WireRecord,
                          rest: seq<byte>, plain: seq<byte>)
    requires |run.ring.slots| == DtlsReceiver.MAX_FLIGHT && !run.failed && !next.isNull
    requires run.reader == ReadState(0, EMPTY_WINDOW, first, false)
    requires |NewCiphers(parts)| + 1 < EPOCH_RANGE && r.Valid() && !RunParts(run, parts + [NewKeys(next)]).failed
    requires r.epoch == |NewCiphers(parts)| + 1 && r.typ != 21 && r.version == next.version && |r.body| <= 16704
    ensures var end := RunParts(run, parts + [NewKeys(next)]);
            var result := OpenRecord(end.reader, RecordBytes(r) + rest).0;
            && (result == Opened(r.typ, plain) <==> next.open(r) == Some(plain) && |plain| <= 16384)
            && (next.open(r).None? ==> result == Discard)
            && end.ring.readEpoch == r.epoch && !end.ring.nullCipher
  {
    hide OpenRecord, Fresh, RecordBytes, RunParts, ChainReads, ReadAll, NewCiphers, RunPart, PartReads;
    var all := parts + [NewKeys(next)];
    ChainJoins(run, parts, [NewKeys(next)]);
    if RunParts(run, parts).failed {
      FailedChain(RunParts(run, parts), [NewKeys(next)]);
    }
    OnePart(RunParts(run, parts), NewKeys(next));
    AcceptedChange(RunParts(run, parts), next);
    ReaderFollowsChain(StartReading(first), run, all, first);
    HoldsKey(first, ChainReads(run, all));
    ChainDeliversExactly(first, run, all, r, rest, plain);
    NothingYet(first, run, parts, next, r.seqNum);
    var keys := [first] + NewCiphers(all);
    assert |keys| == |NewCiphers(parts)| + 2 && keys[|keys| - 1] == next;
    assert Yields(next, r, plain) <==> next.open(r) == Some(plain);
    if next.open(r).None? {
      assert YieldsNothing(next, r);
    }
  }

  // ----- End to end under keys --------------------------------------------

  /** A record of this epoch that opens is a record of the log. */
  ghost predicate IsSent(reader: ReadState, log: seq<Sent>, rec: WireRecord) {
    rec.epoch == reader.epoch && reader.cipher.VersionOk(rec.version) && reader.cipher.Open(rec).Some? ==>
      exists i :: 0 <= i < |log| && log[i].rec == rec
  }

  /** Nobody but the sender can make a record that opens; otherwise the network
      does as it likes. */
  ghost predicate Authentic(reader: ReadState, log: seq<Sent>, events: seq<Event>) {
    forall i :: 0 <= i < |events| && events[i].Arrive? && ParseRecord(events[i].input).Some? ==>
      IsSent(reader, log, ParseRecord(events[i].input).value.0)
  }

  ghost predicate OpensLog(reader: ReadState, log: seq<Sent>) {
    forall i :: 0 <= i < |log| && log[i].rec.epoch == reader.epoch ==>
      reader.cipher.Open(log[i].rec) == Some(log[i].plain)
  }

  function LargestMtu(attempts: seq<Attempt>): (mtu: nat)
    ensures forall i :: 0 <= i < |attempts| ==> attempts[i].mtu <= mtu
  {
    if attempts == [] then 0 else
    var rest := LargestMtu(attempts[1..]);
    if attempts[0].mtu > rest then attempts[0].mtu else rest
  }

  /** A reader that undoes the cipher of its epoch opens every record of that
      epoch in a session to what was sealed in it. */
  lemma SessionOpens(s: Sender, attempts: seq<Attempt>, reader: ReadState)
    requires s.w.Valid() && Undoes(reader.cipher, CipherOf(s.w, reader.epoch))
    ensures OpensLog(reader, Session(s, attempts))
  {
    hide Session, RecordSize;
    var log := Session(s, attempts);
    SessionFits(s, attempts, LargestMtu(attempts));
    forall i | 0 <= i < |log| && log[i].rec.epoch == reader.epoch
      ensures reader.cipher.Open(log[i].rec) == Some(log[i].plain)
    {
      assert Fits(s.w, log[i], LargestMtu(attempts));
    }
  }

  lemma AuthenticIsFromNetwork(run: Run, log: seq<Sent>, events: seq<Event>)
    requires OpensLog(run.reader, log) && Authentic(run.reader, log, events)
    ensures FromNetwork(run, log, events)
  {
    hide ParseRecord;
    forall i | 0 <= i < |events| && events[i].Arrive? && ParseRecord(events[i].input).Some?
      ensures FromLog(run.reader.cipher, run.reader.epoch, log, ParseRecord(events[i].input).value.0)
    {
      assert IsSent(run.reader, log, ParseRecord(events[i].input).value.0);
    }
  }

  /** End to end, with the ciphers: the reader undoes the cipher of its epoch, and
      what opens in that epoch was sealed by the sender.  Then the receiver fails
      exactly if something fatal arrives, and otherwise the handshake gets the
      flight in order. */
  lemma EndToEndUnderKeys(s: Sender, attempts: seq<Attempt>, run: Run, events: seq<Event>, base: nat)
    requires InPlace(s) && s.w.Valid() && s.written <= |s.msgs| <= DtlsReceiver.MAX_FLIGHT
    requires AtStart(run, base) && Numbered(InEpoch(s.msgs, run.reader.epoch), base, run.ring.maxMsgLen)
    requires Undoes(run.reader.cipher, CipherOf(s.w, run.reader.epoch))
    requires Authentic(run.reader, Session(s, attempts), events)
    ensures var end := RunAll(run, events);
            && (!end.failed <==> Safe(run, events))
            && (!end.failed ==> GetsInOrder(end, InEpoch(s.msgs, run.reader.epoch), base))
  {
    hide RunAll, Safe, Authentic, FromNetwork, OpensLog, Session, InEpoch, GetsInOrder, Undoes;
    SessionOpens(s, attempts, run.reader);
    AuthenticIsFromNetwork(run, Session(s, attempts), events);
    EndToEnd(s, attempts, run, events, base);
  }

  /** Every handshake record that a session puts on the network is accepted with
      its plaintext where it arrives fresh and is not fatal. */
  lemma SentIsAccepted(s: Sender, attempts: seq<Attempt>, run: Run, i: nat, rest: seq<byte>)
    requires s.w.Valid() && i < |Session(s, attempts)|
    requires |run.ring.slots| == DtlsReceiver.MAX_FLIGHT && !run.failed && !run.reader.closed
    requires Undoes(run.reader.cipher, CipherOf(s.w, run.reader.epoch)) && Admits(run.reader.cipher, s.w.cipher)
    requires Session(s, attempts)[i].rec.typ == RT_HANDSHAKE
    requires !Stale(run.reader, Session(s, attempts)[i].rec) && |Session(s, attempts)[i].rec.body| <= MAX_ENCRYPTED
    ensures var x := Session(s, attempts)[i];
            var input := RecordBytes(x.rec) + rest;
            && (Harmless(run, input) ==> |x.plain| <= MAX_PLAIN)
            && (Harmless(run, input) ==> Step(run, Arrive(input)).accepted == run.accepted + [x.plain])
            && OpenRecord(run.reader, input).1 == RecordSize(x.rec)
  {
    hide Session, RecordBytes, ParseRecord, HandleRecord, ShouldDiscard, Record, Carries;
    var x := Session(s, attempts)[i];
    SessionOpens(s, attempts, run.reader);
    SessionFits(s, attempts, LargestMtu(attempts));
    assert Fits(s.w, x, LargestMtu(attempts));
    RecordRoundTrip(x.rec, rest);
  }

  /** A chain whose parts are as `Honest` has them, but stated with the ciphers:
      each flight is sealed under what the reader of its time undoes, and what
      opens was sealed by a sender of the chain. */
  ghost predicate HonestUnderKeys(run: Run, msgs: seq<Fragment>, log: seq<Sent>, parts: seq<Part>, base: nat)
    requires |run.ring.slots| == DtlsReceiver.MAX_FLIGHT
    decreases |parts|
  {
    parts == [] || run.failed ||
    (var part := parts[0];
     var all, sent := msgs + Brings(part, run.reader.epoch), LogAfter(log, part);
     && |run.taken| == |msgs| && Numbered(all, base, run.ring.maxMsgLen)
     && (part.Flight? ==>
           && InPlace(part.s) && part.s.w.Valid() && part.s.written <= |part.s.msgs| <= DtlsReceiver.MAX_FLIGHT
           && Undoes(run.reader.cipher, CipherOf(part.s.w, run.reader.epoch))
           && Authentic(run.reader, sent, part.events))
     && HonestUnderKeys(RunPart(run, part), all, sent, parts[1..], base))
  }

  lemma {:induction false} KeysAreHonest(run: Run, msgs: seq<Fragment>, log: seq<Sent>, parts: seq<Part>, base: nat)
    requires |run.ring.slots| == DtlsReceiver.MAX_FLIGHT && HonestUnderKeys(run, msgs, log, parts, base)
    requires OpensLog(run.reader, log)
    ensures Honest(run, msgs, log, parts, base)
    decreases |parts|
  {
    hide RunAll, ChangeKeys, Session, InEpoch, Numbered, Authentic, FromNetwork, Undoes, InPlace;
    if parts != [] && !run.failed {
      var part := parts[0];
      if part.Flight? {
        SessionOpens(part.s, part.attempts, run.reader);
        AuthenticIsFromNetwork(run, LogAfter(log, part), part.events);
        RunKeepsSetting(run, part.events);
      }
      KeysAreHonest(RunPart(run, part), msgs + Brings(part, run.reader.epoch), LogAfter(log, part), parts[1..], base);
    }
  }

  /** A whole chain from the first flight on, with the ciphers. */
  lemma ChainUnderKeys(run: Run, parts: seq<Part>, base: nat)
    requires AtStart(run, base) && base < U16 && HonestUnderKeys(run, [], [], parts, base)
    ensures var end := RunParts(run, parts);
            && (!end.failed <==> SafeParts(run, parts))
            && (!end.failed ==> GetsInOrder(end, AllMessages(parts, run.reader.epoch), base))
  {
    hide Honest, HonestUnderKeys, GetsInOrder, RunParts, SafeParts, AllMessages;
    KeysAreHonest(run, [], [], parts, base);
    ChainFromStart(run, parts, base);
  }
}
