/** From a DTLS sender, over a network that loses, duplicates and reorders
    records, to the messages its receiver hands out. */
module DtlsEndToEnd {
  import opened Bytes
  import opened RecordTypes
  import opened DtlsRecord
  import opened ReplayWindow
  import opened HandshakeFragment
  import opened DtlsReceiver
  import opened DtlsSender
  import opened DtlsSession

  // ----- The receiver's run -----------------------------------------------

  /** Bytes arrive, a packet or what is left of one, and their first record is
      opened; or the handshake looks for a message and takes it if it is there. */
  datatype Event = Arrive(input: seq<byte>) | Take

  /** The receiver, the handshake payloads it has accepted, and the messages
      the handshake has taken. */
  datatype Run = Run(reader: ReadState, ring: Receiver, accepted: seq<seq<byte>>,
                     taken: seq<(byte, seq<byte>)>, failed: bool)

  function DeliverTo(run: Run, input: seq<byte>): Run
    requires |run.ring.slots| == DtlsReceiver.MAX_FLIGHT
  {
    var (result, _, reader') := OpenRecord(run.reader, input);
    match result
    case Failed(_) => run.(reader := reader', failed := true)
    case Alert(_) => run.(reader := reader', failed := true)
    case Opened(typ, plain) =>
      var out := HandleRecord(run.ring, typ, plain);
      run.(reader := reader', ring := out.r, failed := out.Rejected?,
           accepted := if typ == RT_HANDSHAKE then run.accepted + [plain] else run.accepted)
    case _ => run.(reader := reader')
  }

  function TakeFrom(run: Run): Run
    requires |run.ring.slots| == DtlsReceiver.MAX_FLIGHT
  {
    match GetMessage(run.ring)
    case None => run
    case Some(m) => run.(ring := NextMessage(Looked(run.ring)), taken := run.taken + [m])
  }

  function Step(run: Run, e: Event): Run
    requires |run.ring.slots| == DtlsReceiver.MAX_FLIGHT
  {
    if run.failed then run else
    match e
    case Arrive(input) => DeliverTo(run, input)
    case Take => TakeFrom(run)
  }

  lemma StepKeepsLength(run: Run, e: Event)
    requires |run.ring.slots| == DtlsReceiver.MAX_FLIGHT
    ensures |Step(run, e).ring.slots| == DtlsReceiver.MAX_FLIGHT
  {
    hide OpenRecord, HandleRecord;
    if e.Arrive? && OpenRecord(run.reader, e.input).0.Opened? {
      var result := OpenRecord(run.reader, e.input).0;
      HandleRecordFrame(run.ring, result.typ, result.content);
    }
  }

  function RunAll(run: Run, events: seq<Event>): (r: Run)
    requires |run.ring.slots| == DtlsReceiver.MAX_FLIGHT
    ensures |r.ring.slots| == DtlsReceiver.MAX_FLIGHT
    decreases |events|
  {
    if events == [] then run else
    StepKeepsLength(run, events[0]);
    RunAll(Step(run, events[0]), events[1..])
  }

  // ----- What the accepted fragments cover --------------------------------

  predicate Carries(plain: seq<byte>, n: nat) {
    ParseFragment(plain).Some? && ParseFragment(plain).value.0.hdr.seqNum == n
  }

  /** The body positions of message number `n` that accepted fragments carried. */
  function Covered(accepted: seq<seq<byte>>, n: nat): set<nat> {
    if accepted == [] then {} else
    var last := accepted[|accepted| - 1];
    Covered(accepted[..|accepted| - 1], n) +
    (if Carries(last, n)
     then Span(ParseFragment(last).value.0.hdr.fragOff, |ParseFragment(last).value.0.body|) else {})
  }

  /** Some accepted fragment belonged to message number `n`. */
  predicate Touched(accepted: seq<seq<byte>>, n: nat) {
    exists i :: 0 <= i < |accepted| && Carries(accepted[i], n)
  }

  lemma CoveredSnoc(accepted: seq<seq<byte>>, plain: seq<byte>, f: Fragment, n: nat)
    requires plain == FragmentBytes(f) && f.hdr.Valid() && f.hdr.fragLen == |f.body|
    ensures Covered(accepted + [plain], n) ==
            Covered(accepted, n) + (if f.hdr.seqNum == n then Span(f.hdr.fragOff, |f.body|) else {})
    ensures Touched(accepted + [plain], n) <==> Touched(accepted, n) || f.hdr.seqNum == n
    ensures ParseFragment(plain) == Some((f, []))
  {
    hide FragmentBytes, ParseFragment;
    assert plain + [] == plain;
    FragmentRoundTrip(f, []);
    var acc := accepted + [plain];
    assert acc[..|acc| - 1] == accepted;
    assert acc[|accepted|] == plain;
    if Touched(accepted, n) {
      var i :| 0 <= i < |accepted| && Carries(accepted[i], n);
      assert Carries(acc[i], n);
    }
  }

  // ----- What every step of the receiver keeps ----------------------------

  /** Whole messages numbered from `base`, that the receiver admits. */
  predicate Numbered(msgs: seq<Fragment>, base: nat, maxMsgLen: nat) {
    && base + |msgs| < U16
    && forall j :: 0 <= j < |msgs| ==>
         msgs[j].hdr == Header(msgs[j].hdr.typ, |msgs[j].body|, base + j, 0, |msgs[j].body|) &&
         msgs[j].hdr.Valid() && |msgs[j].body| <= maxMsgLen
  }

  function Restrict(body: seq<byte>, at: set<nat>): map<nat, byte> {
    map p | p in at && p < |body| :: body[p]
  }

  /** What a slot holds for message `m` when the positions `at` have arrived. */
  function SlotFor(m: Fragment, at: set<nat>, touched: bool): Option<Partial> {
    if touched then Some(Partial(m.hdr.typ, m.hdr.seqNum, |m.body|, Restrict(m.body, at))) else None
  }

  function Delivered(m: Fragment): (byte, seq<byte>) {
    (m.hdr.typ, FragmentBytes(m))
  }

  /** The messages `msgs` are all that was sent so far in this epoch, at most
      seven of them beyond those taken.  From the current one on they are in
      their slots as far as they were covered, nothing else is in the ring, and
      those before were taken. */
  ghost predicate RunInv(run: Run, msgs: seq<Fragment>, base: nat) {
    && !run.failed && |run.ring.slots| == DtlsReceiver.MAX_FLIGHT
    && Numbered(msgs, base, run.ring.maxMsgLen)
    && |run.taken| <= |msgs| <= |run.taken| + DtlsReceiver.MAX_FLIGHT
    && run.ring.readSeq == base + |run.taken|
    && (forall j :: 0 <= j < |run.taken| ==> run.taken[j] == Delivered(msgs[j]))
    && (forall j :: |run.taken| <= j < |msgs| ==> InSlot(run, msgs, base, j))
    && (forall i :: 0 <= i < DtlsReceiver.MAX_FLIGHT && run.ring.slots[i].Some? ==>
          base + |run.taken| <= run.ring.slots[i].value.seqNum < base + |msgs| &&
          run.ring.slots[i].value.seqNum % DtlsReceiver.MAX_FLIGHT == i)
    && (forall i, n: nat :: 0 <= i < |run.accepted| && Carries(run.accepted[i], n) ==> n < base + |msgs|)
  }

  predicate InSlot(run: Run, msgs: seq<Fragment>, base: nat, j: nat)
    requires j < |msgs| && |run.ring.slots| == DtlsReceiver.MAX_FLIGHT
  {
    && run.ring.slots[(base + j) % DtlsReceiver.MAX_FLIGHT] ==
         SlotFor(msgs[j], Covered(run.accepted, base + j), Touched(run.accepted, base + j))
    && Covered(run.accepted, base + j) <= Interval(0, |msgs[j].body|)
  }

  lemma RestrictCompletes(body: seq<byte>, at: set<nat>)
    requires at <= Interval(0, |body|)
    ensures Restrict(body, at).Keys == at
  {
  }

  /** Another piece of the same body extends what is restricted to. */
  lemma ReceivePiece(m: Fragment, at: set<nat>, off: nat, len: nat)
    requires at <= Interval(0, |m.body|) && off + len <= |m.body|
    ensures Receive(Partial(m.hdr.typ, m.hdr.seqNum, |m.body|, Restrict(m.body, at)), off, m.body[off..off + len])
            == Partial(m.hdr.typ, m.hdr.seqNum, |m.body|, Restrict(m.body, at + Span(off, len)))
    ensures at + Span(off, len) <= Interval(0, |m.body|)
  {
  }

  lemma DistinctSlots(a: nat, b: nat)
    requires a < b < a + DtlsReceiver.MAX_FLIGHT
    ensures a % DtlsReceiver.MAX_FLIGHT != b % DtlsReceiver.MAX_FLIGHT
  {
  }

  /** An accepted piece of message `j`: ignored if that message was taken, else
      put in its slot. */
  lemma AcceptPiece(run: Run, msgs: seq<Fragment>, base: nat, j: nat, off: nat, len: nat)
    requires RunInv(run, msgs, base) && j < |msgs| && off + len <= |msgs[j].body|
    requires run.ring.readEpoch == 1 ==> j == |run.taken|
    ensures var r := run.ring;
            var f := Cut(msgs[j].hdr, msgs[j].body, off, len);
            var at := Covered(run.accepted, base + j) + Span(off, len);
            AcceptFragment(r, f) ==
            Accepted(if j < |run.taken| then r else
                     r.(slots := r.slots[(base + j) % DtlsReceiver.MAX_FLIGHT := SlotFor(msgs[j], at, true)]))
    ensures j >= |run.taken| ==>
              Covered(run.accepted, base + j) + Span(off, len) <= Interval(0, |msgs[j].body|)
  {
    hide Covered, Touched, Receive;
    if j >= |run.taken| {
      assert InSlot(run, msgs, base, j);
      var touched := Touched(run.accepted, base + j);
      var at := if touched then Covered(run.accepted, base + j) else {};
      if !touched {
        UntouchedUncovered(run.accepted, base + j);
        assert Restrict(msgs[j].body, {}) == map[];
      }
      ReceivePiece(msgs[j], at, off, len);
    }
  }

  lemma {:induction false} UntouchedUncovered(accepted: seq<seq<byte>>, n: nat)
    requires !Touched(accepted, n)
    ensures Covered(accepted, n) == {}
  {
    hide Carries;
    if accepted != [] {
      var front := accepted[..|accepted| - 1];
      forall i | 0 <= i < |front|
        ensures !Carries(front[i], n)
      {
        assert !Carries(accepted[i], n);
      }
      UntouchedUncovered(front, n);
      assert !Carries(accepted[|accepted| - 1], n);
    }
  }

  /** The state after accepting a piece of message `j`. */
  function AfterPiece(run: Run, msgs: seq<Fragment>, base: nat, j: nat, plain: seq<byte>, at: set<nat>): Run
    requires j < |msgs| && |run.ring.slots| == DtlsReceiver.MAX_FLIGHT
  {
    run.(accepted := run.accepted + [plain],
         ring := if j < |run.taken| then run.ring else
                 run.ring.(slots := run.ring.slots[(base + j) % DtlsReceiver.MAX_FLIGHT := SlotFor(msgs[j], at, true)]))
  }

  lemma AfterPieceInv(run: Run, msgs: seq<Fragment>, base: nat, j: nat, off: nat, len: nat)
    requires RunInv(run, msgs, base) && j < |msgs| && off + len <= |msgs[j].body|
    requires j >= |run.taken| ==>
               Covered(run.accepted, base + j) + Span(off, len) <= Interval(0, |msgs[j].body|)
    ensures RunInv(AfterPiece(run, msgs, base, j, FragmentBytes(Cut(msgs[j].hdr, msgs[j].body, off, len)),
                              Covered(run.accepted, base + j) + Span(off, len)), msgs, base)
  {
    hide FragmentBytes, ParseFragment, Covered, Touched, SlotFor;
    var f := Cut(msgs[j].hdr, msgs[j].body, off, len);
    var run' := AfterPiece(run, msgs, base, j, FragmentBytes(f), Covered(run.accepted, base + j) + Span(off, len));
    forall k | |run'.taken| <= k < |msgs|
      ensures InSlot(run', msgs, base, k)
    {
      assert InSlot(run, msgs, base, k);
      CoveredSnoc(run.accepted, FragmentBytes(f), f, base + k);
      if k != j {
        if j >= |run.taken| {
          DistinctSlots(base + if j < k then j else k, base + if j < k then k else j);
        }
        assert Covered(run.accepted, base + k) + {} == Covered(run.accepted, base + k);
      }
    }
    SlotForNumber(msgs[j], Covered(run.accepted, base + j) + Span(off, len));
    CoveredSnoc(run.accepted, FragmentBytes(f), f, base + j);
  }

  lemma SlotForNumber(m: Fragment, at: set<nat>)
    ensures SlotFor(m, at, true).Some? && SlotFor(m, at, true).value.seqNum == m.hdr.seqNum
  {
  }

  // ----- Steps ------------------------------------------------------------

  /** What an honest network can make the receiver see. */
  ghost predicate HonestArrival(run: Run, msgs: seq<Fragment>, input: seq<byte>) {
    match OpenRecord(run.reader, input).0
    case Opened(typ, plain) =>
      (typ == RT_HANDSHAKE && SomePiece(msgs, plain)) || (typ == RT_CHANGE_CIPHER_SPEC && plain == CCS_BODY)
    case Alert(_) => false
    case _ => true
  }

  /** Bytes that are not fatal: their record does not open to more than a record
      may hold; a ChangeCipherSpec comes while records are not encrypted; and in
      epoch 1 a fragment is of the message waited for. */
  predicate Harmless(run: Run, input: seq<byte>) {
    match OpenRecord(run.reader, input).0
    case Failed(_) => false
    case Alert(_) => false
    case Opened(typ, plain) =>
      (typ == RT_CHANGE_CIPHER_SPEC ==> run.ring.nullCipher) &&
      (typ == RT_HANDSHAKE && run.ring.readEpoch == 1 ==> Carries(plain, run.ring.readSeq))
    case _ => true
  }

  /** A record of one fragment is handled as that fragment. */
  lemma SingleFragmentRecord(r: Receiver, f: Fragment)
    requires |r.slots| == DtlsReceiver.MAX_FLIGHT && f.hdr.Valid() && f.hdr.fragLen == |f.body|
    ensures HandleRecord(r, RT_HANDSHAKE, FragmentBytes(f)) == AcceptFragment(r, f)
  {
    hide FragmentBytes, ParseFragment;
    var plain := FragmentBytes(f);
    assert plain + [] == plain;
    FragmentRoundTrip(f, []);
    FragmentLength(f);
    var step := AcceptFragment(r, f);
    if step.Accepted? {
      assert AcceptFragments(step.r, []) == Accepted(step.r);
    }
  }

  lemma RunInvLength(run: Run, msgs: seq<Fragment>, base: nat)
    requires RunInv(run, msgs, base)
    ensures |run.ring.slots| == DtlsReceiver.MAX_FLIGHT && !run.failed
  {
  }

  /** An honest arrival is fatal exactly if it is not harmless; otherwise it
      keeps the correspondence and takes nothing. */
  lemma DeliverExactly(run: Run, msgs: seq<Fragment>, base: nat, input: seq<byte>)
    requires RunInv(run, msgs, base) && HonestArrival(run, msgs, input)
    ensures |run.ring.slots| == DtlsReceiver.MAX_FLIGHT
    ensures DeliverTo(run, input).failed <==> !Harmless(run, input)
    ensures Harmless(run, input) ==>
              RunInv(DeliverTo(run, input), msgs, base) && DeliverTo(run, input).taken == run.taken
  {
    hide RunInv, HandleRecord, OpenRecord, SomePiece;
    RunInvLength(run, msgs, base);
    var (result, _, reader') := OpenRecord(run.reader, input);
    if result.Opened? {
      if result.typ == RT_HANDSHAKE {
        DeliverPiece(run, msgs, base, result.content, reader');
      } else {
        DeliverCcs(run, msgs, base, reader');
      }
    } else {
      ReaderIrrelevant(run, reader', msgs, base);
    }
  }

  lemma DeliverPiece(run: Run, msgs: seq<Fragment>, base: nat, plain: seq<byte>, reader: ReadState)
    requires RunInv(run, msgs, base) && SomePiece(msgs, plain)
    ensures |run.ring.slots| == DtlsReceiver.MAX_FLIGHT
    ensures var out := HandleRecord(run.ring, RT_HANDSHAKE, plain);
            if run.ring.readEpoch == 1 && !Carries(plain, run.ring.readSeq) then out.Rejected?
            else
              out.Accepted? &&
              RunInv(run.(reader := reader, ring := out.r, accepted := run.accepted + [plain]), msgs, base)
  {
    hide Covered, Touched, FragmentBytes, ParseFragment, SlotFor, HandleRecord, PlaceFragment, InSlot;
    var j: nat, off: nat, len: nat :| PieceOf(msgs, plain, j, off, len);
    var f := Cut(msgs[j].hdr, msgs[j].body, off, len);
    SingleFragmentRecord(run.ring, f);
    CoveredSnoc(run.accepted, plain, f, base + j);
    if run.ring.readEpoch != 1 || j == |run.taken| {
      AcceptPiece(run, msgs, base, j, off, len);
      AfterPieceInv(run, msgs, base, j, off, len);
      ReaderIrrelevant(AfterPiece(run, msgs, base, j, plain, Covered(run.accepted, base + j) + Span(off, len)),
                       reader, msgs, base);
    }
  }

  lemma ReaderIrrelevant(run: Run, reader: ReadState, msgs: seq<Fragment>, base: nat)
    requires RunInv(run, msgs, base)
    ensures RunInv(run.(reader := reader), msgs, base)
  {
    hide Covered, Touched, SlotFor;
    forall j | |run.taken| <= j < |msgs|
      ensures InSlot(run.(reader := reader), msgs, base, j)
    {
      assert InSlot(run, msgs, base, j);
    }
  }

  lemma DeliverCcs(run: Run, msgs: seq<Fragment>, base: nat, reader: ReadState)
    requires RunInv(run, msgs, base)
    ensures |run.ring.slots| == DtlsReceiver.MAX_FLIGHT
    ensures var out := HandleRecord(run.ring, RT_CHANGE_CIPHER_SPEC, CCS_BODY);
            if run.ring.nullCipher then out == Accepted(run.ring.(hasCcs := true)) else out.Rejected?
    ensures RunInv(run.(reader := reader, ring := run.ring.(hasCcs := true)), msgs, base)
  {
    hide Covered, Touched, SlotFor, AcceptFragments;
    var run' := run.(reader := reader, ring := run.ring.(hasCcs := true));
    forall j | |run.taken| <= j < |msgs|
      ensures InSlot(run', msgs, base, j)
    {
      assert InSlot(run, msgs, base, j);
    }
  }

  /** The current message is handed out exactly when the accepted fragments
      cover it, and then it is the sender's message, header and all. */
  lemma CurrentMessage(run: Run, msgs: seq<Fragment>, base: nat)
    requires RunInv(run, msgs, base)
    ensures GetMessage(run.ring).Some? <==>
              |run.taken| < |msgs| && Touched(run.accepted, base + |run.taken|) &&
              Covered(run.accepted, base + |run.taken|) == Interval(0, |msgs[|run.taken|].body|)
    ensures GetMessage(run.ring).Some? ==> GetMessage(run.ring).value == Delivered(msgs[|run.taken|])
  {
    hide Covered, Touched, FragmentBytes;
    var j := |run.taken|;
    var i := run.ring.readSeq % DtlsReceiver.MAX_FLIGHT;
    if j < |msgs| {
      assert InSlot(run, msgs, base, j);
      var at := Covered(run.accepted, base + j);
      RestrictCompletes(msgs[j].body, at);
      if Touched(run.accepted, base + j) && at == Interval(0, |msgs[j].body|) {
        var m := run.ring.slots[i].value;
        assert m.Body() == msgs[j].body;
      }
    } else if run.ring.slots[i].Some? {
      assert false;
    }
  }

  lemma TakeKeepsInv(run: Run, msgs: seq<Fragment>, base: nat)
    requires RunInv(run, msgs, base)
    ensures RunInv(TakeFrom(run), msgs, base)
  {
    hide Covered, Touched, FragmentBytes, SlotFor, GetMessage;
    CurrentMessage(run, msgs, base);
    if GetMessage(run.ring).Some? {
      var run' := TakeFrom(run);
      forall k | |run'.taken| <= k < |msgs|
        ensures InSlot(run', msgs, base, k)
      {
        assert InSlot(run, msgs, base, k);
        DistinctSlots(base + |run.taken|, base + k);
      }
      CurrentSlot(run, msgs, base);
    }
  }

  /** A message of the ring with the current number is in the current slot. */
  lemma CurrentSlot(run: Run, msgs: seq<Fragment>, base: nat)
    requires RunInv(run, msgs, base)
    ensures forall i :: 0 <= i < DtlsReceiver.MAX_FLIGHT && run.ring.slots[i].Some? ==>
              run.ring.slots[i].value.seqNum == base + |run.taken| ==>
                i == run.ring.readSeq % DtlsReceiver.MAX_FLIGHT
  {
  }

  /** A new flight may start once all before it were taken. */
  lemma NewFlightKeepsInv(run: Run, msgs: seq<Fragment>, more: seq<Fragment>, base: nat)
    requires RunInv(run, msgs, base) && |run.taken| == |msgs|
    requires |more| <= DtlsReceiver.MAX_FLIGHT && Numbered(msgs + more, base, run.ring.maxMsgLen)
    ensures RunInv(run, msgs + more, base)
  {
    hide Covered, Delivered;
    forall j | |msgs| <= j < |msgs + more|
      ensures InSlot(run, msgs + more, base, j)
    {
      UntouchedUncovered(run.accepted, base + j);
    }
  }

  // ----- Whole runs -------------------------------------------------------

  /** A record of this epoch that opens was sealed by the sender, as it is. */
  ghost predicate FromLog(cipher: ReadCipher, epoch: nat, log: seq<Sent>, rec: WireRecord) {
    rec.epoch == epoch && cipher.VersionOk(rec.version) && cipher.Open(rec).Some? ==>
      exists i :: 0 <= i < |log| && log[i].rec == rec && cipher.Open(rec) == Some(log[i].plain)
  }

  /** What arrives is anything whose first record is from the log or does not
      open: the network loses, repeats, reorders and adds what it likes. */
  ghost predicate FromNetwork(run: Run, log: seq<Sent>, events: seq<Event>) {
    forall i :: 0 <= i < |events| && events[i].Arrive? && ParseRecord(events[i].input).Some? ==>
      FromLog(run.reader.cipher, run.reader.epoch, log, ParseRecord(events[i].input).value.0)
  }

  /** A packet as it was sent, and what is left of it after each of its records,
      come from the network. */
  lemma PacketIsFromNetwork(run: Run, log: seq<Sent>, sent: seq<Sent>, i: nat)
    requires i < |sent| && sent[i] in log && sent[i].rec.Valid()
    requires run.reader.cipher.Open(sent[i].rec).Some? ==> run.reader.cipher.Open(sent[i].rec) == Some(sent[i].plain)
    ensures FromNetwork(run, log, [Arrive(PacketBytes(sent[i..]))])
    ensures var out := OpenRecord(run.reader, PacketBytes(sent[i..]));
            !run.reader.closed && run.reader.cipher.VersionOk(sent[i].rec.version) && |sent[i].rec.body| <= MAX_ENCRYPTED ==>
              out.1 == RecordSize(sent[i].rec) && (out.0, out.2) == OpenParsed(run.reader, sent[i].rec)
  {
    hide RecordBytes, ParseRecord, OpenParsed;
    PacketParses(sent, i);
    assert sent[i..][1..] == sent[i + 1..];
  }

  /** The log's records of the epoch are pieces of the messages, or their
      ChangeCipherSpec. */
  ghost predicate LogOf(log: seq<Sent>, msgs: seq<Fragment>, epoch: nat) {
    forall i :: 0 <= i < |log| && log[i].rec.epoch == epoch ==>
      (log[i].rec.typ == RT_HANDSHAKE && SomePiece(msgs, log[i].plain)) ||
      (log[i].rec.typ == RT_CHANGE_CIPHER_SPEC && log[i].plain == CCS_BODY)
  }

  /** The receiver as a flight finds it: nothing of it has arrived. */
  predicate AtStart(run: Run, base: nat) {
    && !run.failed && run.accepted == [] && run.taken == []
    && run.ring.readSeq == base && run.ring.readEpoch == run.reader.epoch
    && run.ring.nullCipher == run.reader.cipher.isNull
    && run.ring.slots == [None, None, None, None, None, None, None]
  }

  lemma StartInv(run: Run, msgs: seq<Fragment>, base: nat)
    requires AtStart(run, base) && |msgs| <= DtlsReceiver.MAX_FLIGHT && Numbered(msgs, base, run.ring.maxMsgLen)
    ensures RunInv(run, msgs, base)
  {
    hide FragmentBytes;
  }

  lemma ArrivalIsHonest(run: Run, msgs: seq<Fragment>, log: seq<Sent>, input: seq<byte>)
    requires LogOf(log, msgs, run.reader.epoch)
    requires ParseRecord(input).Some? ==>
               FromLog(run.reader.cipher, run.reader.epoch, log, ParseRecord(input).value.0)
    ensures HonestArrival(run, msgs, input)
  {
    hide ParseRecord, SomePiece, ShouldDiscard;
  }

  /** The epoch, the cipher and the ring's parameters stay as they are. */
  ghost predicate SameSetting(a: Run, b: Run) {
    && a.ring == b.ring.(slots := a.ring.slots, readSeq := a.ring.readSeq, hasMessage := a.ring.hasMessage,
                         hasCcs := a.ring.hasCcs, flightHasReply := a.ring.flightHasReply)
    && a.reader.epoch == b.reader.epoch && a.reader.cipher == b.reader.cipher
  }

  lemma StepKeepsSetting(run: Run, e: Event)
    requires |run.ring.slots| == DtlsReceiver.MAX_FLIGHT
    ensures SameSetting(Step(run, e), run)
  {
    hide HandleRecord, ShouldDiscard, Record, GetMessage, ParseRecord;
    if e.Arrive? && OpenRecord(run.reader, e.input).0.Opened? {
      var result := OpenRecord(run.reader, e.input).0;
      HandleRecordFrame(run.ring, result.typ, result.content);
    }
  }

  lemma {:induction false} RunKeepsSetting(run: Run, events: seq<Event>)
    requires |run.ring.slots| == DtlsReceiver.MAX_FLIGHT
    ensures SameSetting(RunAll(run, events), run)
    decreases |events|
  {
    hide Step;
    if events != [] {
      StepKeepsSetting(run, events[0]);
      StepKeepsLength(run, events[0]);
      RunKeepsSetting(Step(run, events[0]), events[1..]);
    }
  }

  /** Nothing fatal arrives over the run. */
  predicate Safe(run: Run, events: seq<Event>)
    requires |run.ring.slots| == DtlsReceiver.MAX_FLIGHT
    decreases |events|
  {
    events == [] ||
    (StepKeepsLength(run, events[0]);
     (events[0].Arrive? ==> Harmless(run, events[0].input)) && Safe(Step(run, events[0]), events[1..]))
  }

  lemma {:induction false} FailedStays(run: Run, events: seq<Event>)
    requires |run.ring.slots| == DtlsReceiver.MAX_FLIGHT && run.failed
    ensures RunAll(run, events) == run
    decreases |events|
  {
    hide DeliverTo, TakeFrom;
    if events != [] {
      FailedStays(run, events[1..]);
    }
  }

  lemma StepExactly(run: Run, msgs: seq<Fragment>, base: nat, log: seq<Sent>, e: Event)
    requires RunInv(run, msgs, base) && LogOf(log, msgs, run.reader.epoch)
    requires FromNetwork(run, log, [e])
    ensures |run.ring.slots| == DtlsReceiver.MAX_FLIGHT && SameSetting(Step(run, e), run)
    ensures Step(run, e).failed <==> e.Arrive? && !Harmless(run, e.input)
    ensures !Step(run, e).failed ==> RunInv(Step(run, e), msgs, base)
  {
    hide RunInv, FromLog, LogOf, DeliverTo, TakeFrom, HonestArrival, Harmless;
    RunInvLength(run, msgs, base);
    StepKeepsSetting(run, e);
    if e.Arrive? {
      assert [e][0] == e;
      ArrivalIsHonest(run, msgs, log, e.input);
      DeliverExactly(run, msgs, base, e.input);
    } else {
      TakeKeepsInv(run, msgs, base);
      RunInvLength(TakeFrom(run), msgs, base);
    }
  }

  /** Over any run of an honest network, the receiver fails exactly if something
      fatal arrives; and otherwise it stands for what was sent and accepted. */
  lemma {:induction false} RunExactly(run: Run, msgs: seq<Fragment>, base: nat, log: seq<Sent>, events: seq<Event>)
    requires RunInv(run, msgs, base) && LogOf(log, msgs, run.reader.epoch)
    requires FromNetwork(run, log, events)
    ensures |run.ring.slots| == DtlsReceiver.MAX_FLIGHT
    ensures !RunAll(run, events).failed <==> Safe(run, events)
    ensures Safe(run, events) ==> RunInv(RunAll(run, events), msgs, base)
    decreases |events|
  {
    hide RunInv, FromLog, LogOf, Step, Harmless;
    RunInvLength(run, msgs, base);
    if events != [] {
      assert [events[0]][0] == events[0];
      StepExactly(run, msgs, base, log, events[0]);
      var next := Step(run, events[0]);
      if next.failed {
        StepKeepsLength(run, events[0]);
        FailedStays(next, events[1..]);
      } else {
        forall i | 0 <= i < |events[1..]| && events[1..][i].Arrive? && ParseRecord(events[1..][i].input).Some?
          ensures FromLog(next.reader.cipher, next.reader.epoch, log, ParseRecord(events[1..][i].input).value.0)
        {
          assert events[1..][i] == events[i + 1];
        }
        RunExactly(next, msgs, base, log, events[1..]);
      }
    }
  }

  /** The records of a session are pieces of the flight. */
  lemma SessionIsLog(s: Sender, attempts: seq<Attempt>, epoch: nat)
    requires InPlace(s) && s.w.Valid() && s.written <= |s.msgs|
    ensures LogOf(Session(s, attempts), InEpoch(s.msgs, epoch), epoch)
  {
    hide IsPiece, SomePiece, InEpoch, Session;
    var log := Session(s, attempts);
    SessionSendsPieces(s, attempts);
    forall i | 0 <= i < |log| && log[i].rec.epoch == epoch
      ensures (log[i].rec.typ == RT_HANDSHAKE && SomePiece(InEpoch(s.msgs, epoch), log[i].plain)) ||
              (log[i].rec.typ == RT_CHANGE_CIPHER_SPEC && log[i].plain == CCS_BODY)
    {
      assert IsPiece(s.msgs, log[i]);
      PieceInEpoch(s.msgs, log[i], epoch);
    }
  }

  // ----- Draining the ring -------------------------------------------------

  function Takes(n: nat): (es: seq<Event>)
    ensures |es| == n
  {
    seq(n, i => Take)
  }

  /** Every byte of message `k` has been carried by an accepted fragment. */
  predicate IsCovered(accepted: seq<seq<byte>>, flight: seq<Fragment>, base: nat, k: nat)
    requires k < |flight|
  {
    Touched(accepted, base + k) && Interval(0, |flight[k].body|) <= Covered(accepted, base + k)
  }

  ghost predicate AllCovered(accepted: seq<seq<byte>>, flight: seq<Fragment>, base: nat) {
    forall k: nat :: k < |flight| ==> IsCovered(accepted, flight, base, k)
  }

  /** Taking as many messages as are missing gives exactly these. */
  predicate DrainsTo(run: Run, flight: seq<Fragment>)
    requires |run.ring.slots| == DtlsReceiver.MAX_FLIGHT
  {
    && |run.taken| <= |flight|
    && var end := RunAll(run, Takes(|flight| - |run.taken|));
    && !end.failed && |end.taken| == |flight|
    && forall j :: 0 <= j < |flight| ==> end.taken[j] == Delivered(flight[j])
  }

  /** Once the rest of the flight is covered, taking as many messages as are
      missing takes exactly those. */
  lemma {:induction false} Drain(run: Run, flight: seq<Fragment>, base: nat)
    requires RunInv(run, flight, base) && AllCovered(run.accepted, flight, base)
    ensures |run.ring.slots| == DtlsReceiver.MAX_FLIGHT && DrainsTo(run, flight)
    decreases |flight| - |run.taken|
  {
    hide Covered, Touched, GetMessage, Looked, NextMessage, InSlot, Delivered;
    if |run.taken| < |flight| {
      assert IsCovered(run.accepted, flight, base, |run.taken|);
      CurrentCovered(run, flight, base);
      CurrentMessage(run, flight, base);
      TakeKeepsInv(run, flight, base);
      assert Takes(|flight| - |run.taken|)[1..] == Takes(|flight| - |run.taken| - 1);
      Drain(Step(run, Take), flight, base);
    }
  }

  lemma CurrentCovered(run: Run, flight: seq<Fragment>, base: nat)
    requires RunInv(run, flight, base) && |run.taken| < |flight|
    requires IsCovered(run.accepted, flight, base, |run.taken|)
    ensures Covered(run.accepted, base + |run.taken|) == Interval(0, |flight[|run.taken|].body|)
  {
    hide Covered, Touched, SlotFor;
    assert InSlot(run, flight, base, |run.taken|);
  }

  // ----- A complete transmission covers every message ----------------------

  lemma {:induction false} CoveredHas(accepted: seq<seq<byte>>, i: nat, n: nat)
    requires i < |accepted| && Carries(accepted[i], n)
    ensures Touched(accepted, n)
    ensures var f := ParseFragment(accepted[i]).value.0;
            Span(f.hdr.fragOff, |f.body|) <= Covered(accepted, n)
  {
    hide ParseFragment;
    if i < |accepted| - 1 {
      var front := accepted[..|accepted| - 1];
      assert front[i] == accepted[i];
      CoveredHas(front, i, n);
    }
  }

  /** The handshake records of `epoch` among `sent` were all accepted. */
  predicate AllAccepted(sent: seq<Sent>, epoch: nat, accepted: seq<seq<byte>>) {
    forall i :: 0 <= i < |sent| && sent[i].rec.epoch == epoch && sent[i].rec.typ == RT_HANDSHAKE ==>
      sent[i].plain in accepted
  }

  /** One accepted piece of message `w` covers its bytes. */
  lemma PieceCovers(msgs: seq<OutMsg>, p: Pos, x: Sent, accepted: seq<seq<byte>>)
    requires PieceAt(msgs, p, x).Some? && !msgs[p.written].isCcs && x.plain in accepted
    ensures var f := WholeMessage(msgs[p.written].data).value;
            Touched(accepted, f.hdr.seqNum) && p.offset + x.len <= |f.body| &&
            Span(p.offset, x.len) <= Covered(accepted, f.hdr.seqNum) &&
            PieceAt(msgs, p, x).value == if p.offset + x.len == |f.body| then Pos(p.written + 1, 0)
                                         else Pos(p.written, p.offset + x.len)
  {
    hide WholeMessage, FragmentBytes, ParseFragment, Covered, Touched;
    var f := WholeMessage(msgs[p.written].data).value;
    var cut := Cut(f.hdr, f.body, p.offset, x.len);
    var i :| 0 <= i < |accepted| && accepted[i] == x.plain;
    FragmentRoundTrip(cut, []);
    assert FragmentBytes(cut) + [] == FragmentBytes(cut);
    assert Carries(accepted[i], f.hdr.seqNum);
    CoveredHas(accepted, i, f.hdr.seqNum);
  }

  /** Records that carry the flight past message `w` cover that message, from
      where they start. */
  lemma {:induction false} TilesCover(msgs: seq<OutMsg>, p: Pos, sent: seq<Sent>, q: Pos, w: nat,
                                      accepted: seq<seq<byte>>)
    requires Tiles(Pieces(msgs), p, sent, q) && p.written <= w < q.written && w < |msgs|
    requires !msgs[w].isCcs && WholeMessage(msgs[w].data).Some?
    requires p.written == w ==> p.offset <= |WholeMessage(msgs[w].data).value.body|
    requires AllAccepted(sent, msgs[w].epoch, accepted)
    ensures var f := WholeMessage(msgs[w].data).value;
            Touched(accepted, f.hdr.seqNum) &&
            Interval(if p.written == w then p.offset else 0, |f.body|) <= Covered(accepted, f.hdr.seqNum)
    decreases |sent|
  {
    hide WholeMessage, FragmentBytes, ParseFragment, Covered, Touched;
    var x := sent[0];
    var next := PieceAt(msgs, p, x).value;
    assert forall i :: 0 <= i < |sent[1..]| ==> sent[1..][i] == sent[i + 1];
    if p.written == w {
      PieceCovers(msgs, p, x, accepted);
      if next.written == w {
        TilesCover(msgs, next, sent[1..], q, w, accepted);
      }
    } else {
      TilesCover(msgs, next, sent[1..], q, w, accepted);
    }
  }

  /** If one whole transmission of the flight got through, all of it is covered. */
  lemma TransmissionCovers(msgs: seq<OutMsg>, sent: seq<Sent>, epoch: nat, accepted: seq<seq<byte>>,
                           base: nat, maxMsgLen: nat)
    requires Tiles(Pieces(msgs), Pos(0, 0), sent, Pos(|msgs|, 0))
    requires AllAccepted(sent, epoch, accepted)
    requires Numbered(InEpoch(msgs, epoch), base, maxMsgLen)
    ensures AllCovered(accepted, InEpoch(msgs, epoch), base)
  {
    hide WholeMessage, Covered, Touched, Pieces, InEpoch;
    forall k: nat | k < |InEpoch(msgs, epoch)|
      ensures IsCovered(accepted, InEpoch(msgs, epoch), base, k)
    {
      var w := InEpochFrom(msgs, epoch, k);
      TilesCover(msgs, Pos(0, 0), sent, Pos(|msgs|, 0), w, accepted);
    }
  }

  // ----- The theorem ------------------------------------------------------

  /** The next message, if it is covered. */
  function NextOne(end: Run, msgs: seq<Fragment>, base: nat): Option<(byte, seq<byte>)> {
    var j := |end.taken|;
    if j < |msgs| && IsCovered(end.accepted, msgs, base, j) then Some(Delivered(msgs[j])) else None
  }

  /** What the handshake got and gets: the first messages in order, header and
      all, and the next one exactly when the accepted fragments cover it. */
  predicate GetsInOrder(end: Run, msgs: seq<Fragment>, base: nat)
    requires |end.ring.slots| == DtlsReceiver.MAX_FLIGHT
  {
    var j := |end.taken|;
    && j <= |msgs|
    && (forall i :: 0 <= i < j ==> end.taken[i] == Delivered(msgs[i]))
    && GetMessage(end.ring) == NextOne(end, msgs, base)
  }

  lemma InvGetsInOrder(run: Run, msgs: seq<Fragment>, base: nat)
    requires RunInv(run, msgs, base)
    ensures |run.ring.slots| == DtlsReceiver.MAX_FLIGHT && GetsInOrder(run, msgs, base)
  {
    hide Touched, Covered, GetMessage, SlotFor, Delivered;
    CurrentMessage(run, msgs, base);
    if |run.taken| < |msgs| {
      assert InSlot(run, msgs, base, |run.taken|);
    }
  }

  /** End to end.  A sender sends and resends a flight under any MTUs and any
      blocked writes; the network loses, duplicates and reorders the records of
      that session and may add records that do not open; the handshake looks for
      messages whenever it likes.  Then the receiver fails exactly if something
      fatal arrives, and otherwise the handshake gets the flight in order. */
  lemma EndToEnd(s: Sender, attempts: seq<Attempt>, run: Run, events: seq<Event>, base: nat)
    requires InPlace(s) && s.w.Valid() && s.written <= |s.msgs| <= DtlsReceiver.MAX_FLIGHT
    requires AtStart(run, base) && Numbered(InEpoch(s.msgs, run.reader.epoch), base, run.ring.maxMsgLen)
    requires FromNetwork(run, Session(s, attempts), events)
    ensures var end := RunAll(run, events);
            && (!end.failed <==> Safe(run, events))
            && (!end.failed ==> GetsInOrder(end, InEpoch(s.msgs, run.reader.epoch), base))
  {
    hide FromLog, LogOf, InEpoch, Session, Step, GetsInOrder, RunInv;
    var msgs := InEpoch(s.msgs, run.reader.epoch);
    InEpochLength(s.msgs, run.reader.epoch);
    SessionIsLog(s, attempts, run.reader.epoch);
    StartInv(run, msgs, base);
    RunExactly(run, msgs, base, Session(s, attempts), events);
    if Safe(run, events) {
      InvGetsInOrder(RunAll(run, events), msgs, base);
    }
  }

  lemma {:induction false} InEpochLength(msgs: seq<OutMsg>, epoch: nat)
    ensures |InEpoch(msgs, epoch)| <= |msgs|
  {
    hide WholeMessage;
    if msgs != [] {
      InEpochLength(msgs[..|msgs| - 1], epoch);
    }
  }

  /** Nothing is lost for good: if the receiver accepted the records of one
      whole transmission of the flight, in any order and among any others, the
      handshake gets the whole flight by taking the messages still missing. */
  lemma CompleteTransmission(s: Sender, attempts: seq<Attempt>, run: Run, events: seq<Event>, base: nat,
                             sent: seq<Sent>)
    requires InPlace(s) && s.w.Valid() && s.written <= |s.msgs| <= DtlsReceiver.MAX_FLIGHT
    requires AtStart(run, base) && Numbered(InEpoch(s.msgs, run.reader.epoch), base, run.ring.maxMsgLen)
    requires FromNetwork(run, Session(s, attempts), events) && !RunAll(run, events).failed
    requires Tiles(Pieces(s.msgs), Pos(0, 0), sent, Pos(|s.msgs|, 0))
    requires AllAccepted(sent, run.reader.epoch, RunAll(run, events).accepted)
    ensures DrainsTo(RunAll(run, events), InEpoch(s.msgs, run.reader.epoch))
  {
    hide FromLog, LogOf, InEpoch, Session, Touched, Covered, GetMessage, Step, Pieces;
    var flight := InEpoch(s.msgs, run.reader.epoch);
    InEpochLength(s.msgs, run.reader.epoch);
    SessionIsLog(s, attempts, run.reader.epoch);
    StartInv(run, flight, base);
    RunExactly(run, flight, base, Session(s, attempts), events);
    TransmissionCovers(s.msgs, sent, run.reader.epoch, RunAll(run, events).accepted, base, run.ring.maxMsgLen);
    Drain(RunAll(run, events), flight, base);
  }
}
