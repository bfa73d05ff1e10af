/** How a flight comes to be numbered: built message by message, with cipher
    changes in between; and what becomes of it. */
module DtlsFlight {
  import opened Bytes
  import opened DtlsRecord
  import opened HandshakeFragment
  import opened DtlsWriter
  import opened DtlsSender
  import opened DtlsSession
  import opened DtlsEndToEnd

  datatype Addition = AddMessage(typ: byte, body: seq<byte>) | AddCcs | NewCipher(cipher: WriteCipher)

  function Add(s: Sender, a: Addition): (bool, Sender) {
    match a
    case AddMessage(typ, body) => AddOutgoing(s, false, NewMessage(s, typ, body))
    case AddCcs => AddOutgoing(s, true, [])
    case NewCipher(cipher) => (true, s.(w := NewWriteEpoch(s.w, cipher)))
  }

  function AddAll(s: Sender, additions: seq<Addition>): Sender {
    if additions == [] then s
    else Add(AddAll(s, additions[..|additions| - 1]), additions[|additions| - 1]).1
  }

  /** The number of the first message of `epoch`: the writer's next number, moved
      on by the messages added before the writer reached that epoch. */
  function BaseOf(s: Sender, additions: seq<Addition>, epoch: nat): nat {
    if additions == [] then s.handshakeSeq else
    var front, last := additions[..|additions| - 1], additions[|additions| - 1];
    var before := AddAll(s, front);
    BaseOf(s, front, epoch) + (if last.AddMessage? && Add(before, last).0 && before.w.epoch < epoch then 1 else 0)
  }

  /** The messages of an epoch are whole and numbered on from `base`; the next
      number continues the current epoch. */
  ghost predicate BuiltFrom(s: Sender, epoch: nat, base: nat) {
    var flight := InEpoch(s.msgs, epoch);
    && (forall j :: 0 <= j < |flight| ==>
          flight[j].hdr == Header(flight[j].hdr.typ, |flight[j].body|, base + j, 0, |flight[j].body|) &&
          flight[j].hdr.Valid())
    && base + |flight| <= s.handshakeSeq && (epoch >= s.w.epoch ==> base + |flight| == s.handshakeSeq)
    && (epoch > s.w.epoch ==> flight == [])
    && s.written == 0 && s.offset == 0 && !s.complete && s.w.Valid() && |s.msgs| <= DtlsReceiver.MAX_FLIGHT
  }

  lemma NewMessageIsWhole(s: Sender, typ: byte, body: seq<byte>)
    requires |body| < U24 && s.handshakeSeq < U16
    ensures WholeMessage(NewMessage(s, typ, body)) ==
            Some(Fragment(Header(typ, |body|, s.handshakeSeq, 0, |body|), body))
  {
    hide FragmentBytes, ParseFragment;
    var f := Fragment(Header(typ, |body|, s.handshakeSeq, 0, |body|), body);
    FragmentRoundTrip(f, []);
    assert FragmentBytes(f) + [] == FragmentBytes(f);
  }

  predicate BodyOk(a: Addition) {
    a.AddMessage? ==> |a.body| < U24
  }

  ghost predicate CipherOk(a: Addition) {
    a.NewCipher? ==> a.cipher.Valid()
  }

  /** One more message in a flight, of whatever epoch the writer is in. */
  lemma OneMoreInEpoch(msgs: seq<OutMsg>, m: OutMsg, epoch: nat)
    ensures InEpoch(msgs + [m], epoch) ==
            InEpoch(msgs, epoch) + (if m.epoch == epoch && !m.isCcs && WholeMessage(m.data).Some?
                                    then [WholeMessage(m.data).value] else [])
  {
    hide WholeMessage;
    var more := msgs + [m];
    assert more[..|more| - 1] == msgs && more[|more| - 1] == m;
  }

  lemma AddKeepsBuilt(s: Sender, a: Addition, epoch: nat, base: nat)
    requires BuiltFrom(s, epoch, base) && BodyOk(a) && CipherOk(a)
    requires s.handshakeSeq + 1 < U16 && s.w.epoch + 1 < EPOCH_RANGE
    ensures BuiltFrom(Add(s, a).1, epoch, base + if a.AddMessage? && Add(s, a).0 && s.w.epoch < epoch then 1 else 0)
    ensures s.handshakeSeq <= Add(s, a).1.handshakeSeq <= s.handshakeSeq + 1
    ensures s.w.epoch <= Add(s, a).1.w.epoch <= s.w.epoch + 1
  {
    hide WholeMessage, FragmentBytes, InEpoch, NewMessage;
    if a.AddMessage? {
      NewMessageIsWhole(s, a.typ, a.body);
      OneMoreInEpoch(s.msgs, OutMsg(NewMessage(s, a.typ, a.body), s.w.epoch, false), epoch);
    } else if a.AddCcs? {
      OneMoreInEpoch(s.msgs, OutMsg([], s.w.epoch, true), epoch);
      assert InEpoch(s.msgs, epoch) + [] == InEpoch(s.msgs, epoch);
    }
  }

  /** A flight built message by message, with cipher changes in between, has in
      each epoch whole messages numbered on from there; in the epoch the writer
      began in, from its next number. */
  lemma {:induction false} BuiltFlightIsNumbered(s: Sender, additions: seq<Addition>, epoch: nat)
    requires s.msgs == [] && s.written == 0 && s.offset == 0 && !s.complete && s.w.Valid()
    requires s.handshakeSeq + |additions| < U16 && s.w.epoch + |additions| < EPOCH_RANGE
    requires forall i :: 0 <= i < |additions| ==> BodyOk(additions[i]) && CipherOk(additions[i])
    ensures var built := AddAll(s, additions);
            && BuiltFrom(built, epoch, BaseOf(s, additions, epoch))
            && s.handshakeSeq <= built.handshakeSeq <= s.handshakeSeq + |additions|
            && s.w.epoch <= built.w.epoch <= s.w.epoch + |additions|
    ensures epoch <= s.w.epoch ==> BaseOf(s, additions, epoch) == s.handshakeSeq
    decreases |additions|
  {
    hide Add, BuiltFrom;
    if additions == [] {
      assert BuiltFrom(s, epoch, s.handshakeSeq) by { EmptyIsBuilt(s, epoch); }
    } else {
      var front := additions[..|additions| - 1];
      BuiltFlightIsNumbered(s, front, epoch);
      AddKeepsBuilt(AddAll(s, front), additions[|additions| - 1], epoch, BaseOf(s, front, epoch));
    }
  }

  lemma EmptyIsBuilt(s: Sender, epoch: nat)
    requires s.msgs == [] && s.written == 0 && s.offset == 0 && !s.complete && s.w.Valid()
    ensures BuiltFrom(s, epoch, s.handshakeSeq)
  {
  }

  lemma BuiltIsNumbered(s: Sender, epoch: nat, base: nat, maxMsgLen: nat)
    requires BuiltFrom(s, epoch, base) && s.handshakeSeq < U16
    requires forall j :: 0 <= j < |InEpoch(s.msgs, epoch)| ==> |InEpoch(s.msgs, epoch)[j].body| <= maxMsgLen
    ensures Numbered(InEpoch(s.msgs, epoch), base, maxMsgLen)
  {
  }

  /** From a flight as it is built to the messages its receiver gets. */
  lemma BuiltEndToEnd(s: Sender, additions: seq<Addition>, attempts: seq<Attempt>, run: Run, events: seq<Event>)
    requires s.msgs == [] && s.written == 0 && s.offset == 0 && !s.complete && s.w.Valid()
    requires s.handshakeSeq + |additions| < U16 && s.w.epoch + |additions| < EPOCH_RANGE
    requires forall i :: 0 <= i < |additions| ==> BodyOk(additions[i]) && CipherOk(additions[i])
    requires AtStart(run, BaseOf(s, additions, run.reader.epoch))
    requires var flight := InEpoch(AddAll(s, additions).msgs, run.reader.epoch);
             forall j :: 0 <= j < |flight| ==> |flight[j].body| <= run.ring.maxMsgLen
    requires FromNetwork(run, Session(AddAll(s, additions), attempts), events)
    ensures var end := RunAll(run, events);
            var flight, base := InEpoch(AddAll(s, additions).msgs, run.reader.epoch), BaseOf(s, additions, run.reader.epoch);
            && (!end.failed <==> Safe(run, events))
            && (!end.failed ==> GetsInOrder(end, flight, base))
  {
    hide FromNetwork, Safe, GetsInOrder, Session, InEpoch, Add;
    var built, epoch := AddAll(s, additions), run.reader.epoch;
    BuiltFlightIsNumbered(s, additions, epoch);
    InEpochLength(built.msgs, epoch);
    BuiltIsNumbered(built, epoch, BaseOf(s, additions, epoch), run.ring.maxMsgLen);
    EndToEnd(built, attempts, run, events, BaseOf(s, additions, epoch));
  }
}
