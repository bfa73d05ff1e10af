/** What is fatal to an honest DTLS handshake: records that are too long, and in
    epoch 1 whatever comes after the message was taken. */
module DtlsLimits {
  import opened Bytes
  import opened RecordTypes
  import opened DtlsRecord
  import opened ReplayWindow
  import opened HandshakeFragment
  import opened DtlsSender
  import opened DtlsSession
  import opened DtlsEndToEnd

  // ----- Long records -----------------------------------------------------

  /** A record is fatal by its length exactly if its body is admitted, it opens,
      and its plaintext is longer than a record may hold.  If its body is longer
      than any receiver admits, it is dropped with the rest of its packet. */
  lemma OverlongExactly(s: ReadState, r: WireRecord, rest: seq<byte>)
    requires r.Valid() && !s.closed
    ensures var input := RecordBytes(r) + rest;
            var out := OpenRecord(s, input);
            && (out.0.Failed? <==>
                  |r.body| <= MAX_ENCRYPTED && s.cipher.VersionOk(r.version) && !Stale(s, r) &&
                  s.cipher.Open(r).Some? && |s.cipher.Open(r).value| > MAX_PLAIN)
            && (|r.body| > MAX_ENCRYPTED ==> out == (Discard, |input|, s))
  {
    hide RecordBytes, ParseRecord, ShouldDiscard, Record;
    RecordRoundTrip(r, rest);
  }

  /** A sender's record is too long exactly if its MTU leaves room for more than
      a record may hold, and there is as much to send.  Delivered to a receiver
      that can open it, such a record is fatal, unless sealing made its body so
      long that it is dropped. */
  lemma LargeMtuFatal(s: Sender, mtu: nat, run: Run, rest: seq<byte>)
    requires CanSend(s) && s.written < |s.msgs| && !s.msgs[s.written].isCcs && UsableMtu(s.w, mtu)
    requires |run.ring.slots| == DtlsReceiver.MAX_FLIGHT && !run.failed && !run.reader.closed
    ensures var left := |WholeMessage(s.msgs[s.written].data).value.body| - s.offset;
            var r := SealNextMessage(s, mtu);
            && (r.SealPartial? || r.SealSuccess?)
            && var x := r.sent;
            && (|x.plain| > MAX_PLAIN <==>
                  mtu > MAX_PLAIN + Overhead(s.w, x.rec.epoch) && HM_HEADER_LENGTH + left > MAX_PLAIN)
            && (!Stale(run.reader, x.rec) && run.reader.cipher.VersionOk(x.rec.version) &&
                run.reader.cipher.Open(x.rec) == Some(x.plain) ==>
                  var input := RecordBytes(x.rec) + rest;
                  && (OpenRecord(run.reader, input).0.Failed? <==> |x.rec.body| <= MAX_ENCRYPTED && |x.plain| > MAX_PLAIN)
                  && (OpenRecord(run.reader, input).0.Failed? ==> Step(run, Arrive(input)).failed)
                  && (|x.rec.body| > MAX_ENCRYPTED ==> Step(run, Arrive(input)) == run))
  {
    hide SealFragment, RecordBytes, OpenRecord, FragmentBytes, ShouldDiscard;
    NextMessageSucceeds(s, mtu);
    var msg := s.msgs[s.written];
    var previous := UsePrevious(s.w, msg).value;
    FragmentFits(s, previous, WholeMessage(msg.data).value, mtu);
    OverlongExactly(run.reader, SealNextMessage(s, mtu).sent.rec, rest);
  }

  // ----- When nothing fatal can arrive -------------------------------------

  /** The log's records of the epoch hold no more than a record may, and it has a
      ChangeCipherSpec in the epoch only if that is not encrypted. */
  ghost predicate Within(log: seq<Sent>, epoch: nat, nullCipher: bool) {
    forall i :: 0 <= i < |log| && log[i].rec.epoch == epoch ==>
      |log[i].plain| <= MAX_PLAIN && (log[i].rec.typ == RT_CHANGE_CIPHER_SPEC ==> nullCipher)
  }

  /** Once its message was taken, nothing opens any more. */
  predicate QuietOnceTaken(run: Run, events: seq<Event>)
    requires |run.ring.slots| == DtlsReceiver.MAX_FLIGHT
    decreases |events|
  {
    events == [] ||
    (StepKeepsLength(run, events[0]);
     (events[0].Arrive? && run.taken != [] ==> !OpenRecord(run.reader, events[0].input).0.Opened?) &&
     QuietOnceTaken(Step(run, events[0]), events[1..]))
  }

  lemma HarmlessWithin(run: Run, msgs: seq<Fragment>, base: nat, log: seq<Sent>, input: seq<byte>)
    requires RunInv(run, msgs, base) && LogOf(log, msgs, run.reader.epoch)
    requires Within(log, run.reader.epoch, run.ring.nullCipher)
    requires ParseRecord(input).Some? ==>
               FromLog(run.reader.cipher, run.reader.epoch, log, ParseRecord(input).value.0)
    ensures run.ring.readEpoch != 1 ==> Harmless(run, input)
    ensures run.ring.readEpoch == 1 && !run.ring.nullCipher && |msgs| <= 1 ==>
              (Harmless(run, input) <==> run.taken == [] || !OpenRecord(run.reader, input).0.Opened?)
  {
    hide ParseRecord, SomePiece, ShouldDiscard, Carries, InSlot;
    ArrivalIsHonest(run, msgs, log, input);
    var result := OpenRecord(run.reader, input).0;
    if result.Opened? && result.typ == RT_HANDSHAKE && |msgs| <= 1 {
      OnlyPiece(msgs, result.content, base);
    }
  }

  lemma OnlyPiece(msgs: seq<Fragment>, plain: seq<byte>, base: nat)
    requires SomePiece(msgs, plain) && |msgs| <= 1
    requires forall j :: 0 <= j < |msgs| ==> msgs[j].hdr.Valid() && msgs[j].hdr.seqNum == base + j &&
                                             msgs[j].hdr.msgLen == |msgs[j].body|
    ensures forall n: nat :: Carries(plain, n) <==> n == base
  {
    hide FragmentBytes, ParseFragment;
    var j: nat, off: nat, len: nat :| PieceOf(msgs, plain, j, off, len);
    FragmentRoundTrip(Cut(msgs[j].hdr, msgs[j].body, off, len), []);
    assert plain + [] == plain;
  }

  /** Within the limits, nothing fatal arrives in any epoch but 1; and in epoch 1,
      encrypted and with one message, exactly if nothing opens after the message
      was taken. */
  lemma {:induction false} SafeExactly(run: Run, msgs: seq<Fragment>, base: nat, log: seq<Sent>, events: seq<Event>)
    requires RunInv(run, msgs, base) && LogOf(log, msgs, run.reader.epoch)
    requires Within(log, run.reader.epoch, run.ring.nullCipher) && FromNetwork(run, log, events)
    ensures |run.ring.slots| == DtlsReceiver.MAX_FLIGHT
    ensures run.ring.readEpoch != 1 ==> Safe(run, events)
    ensures run.ring.readEpoch == 1 && !run.ring.nullCipher && |msgs| <= 1 ==>
              (Safe(run, events) <==> QuietOnceTaken(run, events))
    decreases |events|
  {
    hide RunInv, FromLog, LogOf, Within, Step, Harmless, OpenRecord;
    RunInvLength(run, msgs, base);
    if events != [] {
      assert [events[0]][0] == events[0];
      StepExactly(run, msgs, base, log, events[0]);
      if events[0].Arrive? {
        HarmlessWithin(run, msgs, base, log, events[0].input);
      }
      var next := Step(run, events[0]);
      if !next.failed {
        forall i | 0 <= i < |events[1..]| && events[1..][i].Arrive? && ParseRecord(events[1..][i].input).Some?
          ensures FromLog(next.reader.cipher, next.reader.epoch, log, ParseRecord(events[1..][i].input).value.0)
        {
          assert events[1..][i] == events[i + 1];
        }
        SafeExactly(next, msgs, base, log, events[1..]);
      }
    }
  }

  /** The MTU leaves room for no more than a record may hold, or no message of
      the epoch is longer. */
  predicate LengthsOk(s: Sender, mtu: nat, epoch: nat) {
    mtu <= MAX_PLAIN + Overhead(s.w, epoch) ||
    forall j :: 0 <= j < |InEpoch(s.msgs, epoch)| ==> HM_HEADER_LENGTH + |InEpoch(s.msgs, epoch)[j].body| <= MAX_PLAIN
  }

  predicate NoCcsIn(msgs: seq<OutMsg>, epoch: nat) {
    forall i :: 0 <= i < |msgs| ==> !(msgs[i].isCcs && msgs[i].epoch == epoch)
  }

  lemma SessionWithin(s: Sender, attempts: seq<Attempt>, mtu: nat, epoch: nat, nullCipher: bool)
    requires InPlace(s) && s.w.Valid() && s.written <= |s.msgs|
    requires forall i :: 0 <= i < |attempts| ==> attempts[i].mtu <= mtu
    requires LengthsOk(s, mtu, epoch) && (nullCipher || NoCcsIn(s.msgs, epoch))
    ensures Within(Session(s, attempts), epoch, nullCipher)
  {
    hide IsPiece, SomePiece, InEpoch, Session;
    var log := Session(s, attempts);
    SessionSendsPieces(s, attempts);
    SessionFits(s, attempts, mtu);
    forall i | 0 <= i < |log| && log[i].rec.epoch == epoch
      ensures |log[i].plain| <= MAX_PLAIN && (log[i].rec.typ == RT_CHANGE_CIPHER_SPEC ==> nullCipher)
    {
      assert IsPiece(s.msgs, log[i]);
      PieceInEpoch(s.msgs, log[i], epoch);
      CcsPieceMessage(s.msgs, log[i]);
      assert Fits(s.w, log[i], mtu);
      if log[i].rec.typ == RT_HANDSHAKE {
        PieceLength(InEpoch(s.msgs, epoch), log[i].plain);
      }
    }
  }

  lemma PieceLength(msgs: seq<Fragment>, plain: seq<byte>)
    requires SomePiece(msgs, plain)
    ensures exists j :: 0 <= j < |msgs| && |plain| <= HM_HEADER_LENGTH + |msgs[j].body|
  {
    hide FragmentBytes;
    var j: nat, off: nat, len: nat :| PieceOf(msgs, plain, j, off, len);
    FragmentLength(Cut(msgs[j].hdr, msgs[j].body, off, len));
  }

  /** End to end within the limits: the receiver never fails in an epoch other
      than 1; in epoch 1, encrypted and with its one message, exactly if nothing
      opens after the message was taken. */
  lemma EndToEndWithinLimits(s: Sender, attempts: seq<Attempt>, mtu: nat, run: Run, events: seq<Event>, base: nat)
    requires InPlace(s) && s.w.Valid() && s.written <= |s.msgs| <= DtlsReceiver.MAX_FLIGHT
    requires AtStart(run, base) && Numbered(InEpoch(s.msgs, run.reader.epoch), base, run.ring.maxMsgLen)
    requires FromNetwork(run, Session(s, attempts), events)
    requires forall i :: 0 <= i < |attempts| ==> attempts[i].mtu <= mtu
    requires LengthsOk(s, mtu, run.reader.epoch)
    requires run.reader.cipher.isNull || NoCcsIn(s.msgs, run.reader.epoch)
    ensures var end := RunAll(run, events);
            && (run.reader.epoch != 1 ==> !end.failed)
            && (run.reader.epoch == 1 && !run.reader.cipher.isNull && |InEpoch(s.msgs, 1)| <= 1 ==>
                  (!end.failed <==> QuietOnceTaken(run, events)))
            && (!end.failed ==> GetsInOrder(end, InEpoch(s.msgs, run.reader.epoch), base))
  {
    hide FromLog, LogOf, Within, InEpoch, Session, GetsInOrder, RunInv, Safe, QuietOnceTaken, LengthsOk, NoCcsIn;
    var msgs := InEpoch(s.msgs, run.reader.epoch);
    EndToEnd(s, attempts, run, events, base);
    InEpochLength(s.msgs, run.reader.epoch);
    StartInv(run, msgs, base);
    SessionIsLog(s, attempts, run.reader.epoch);
    SessionWithin(s, attempts, mtu, run.reader.epoch, run.ring.nullCipher);
    SafeExactly(run, msgs, base, Session(s, attempts), events);
  }
}
