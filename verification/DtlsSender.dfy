/** The sending end of the DTLS handshake transport: a flight of messages cut
    into records and packets, resumed after blocked writes and sent again. */
module DtlsSender {
  import opened Bytes
  import opened RecordTypes
  import opened DtlsRecord
  import opened DtlsWriter
  import opened HandshakeFragment
  import DtlsReceiver

  const MAX_FLIGHT: nat := DtlsReceiver.MAX_FLIGHT
  const CCS_BODY: seq<byte> := [DtlsReceiver.MT_CCS]

  datatype OutMsg = OutMsg(data: seq<byte>, epoch: nat, isCcs: bool)

  datatype Sender = Sender(msgs: seq<OutMsg>, written: nat, offset: nat, complete: bool,
                           hasReply: bool, handshakeSeq: nat, w: WriteState)
  {
    /** How much is left: whole messages, and bytes of the current one. */
    function MessagesLeft(): nat { if written < |msgs| then |msgs| - written else 0 }
    function BytesLeft(): nat {
      if written < |msgs| && offset < |msgs[written].data| then |msgs[written].data| - offset else 0
    }
  }

  /** A record that was sealed, with its plaintext and, for a handshake
      fragment, the number of body bytes it carries. */
  datatype Sent = Sent(rec: WireRecord, plain: seq<byte>, len: nat)

  datatype SealResult =
    | SealError(s: Sender)
    | NoProgress(s: Sender)
    | SealPartial(sent: Sent, s: Sender)
    | SealSuccess(sent: Sent, s: Sender)

  function Cleared(s: Sender): Sender {
    s.(msgs := [], written := 0, offset := 0, complete := false, hasReply := false)
  }

  /** Adding a message; a flight that was flushed gives way to a new one. */
  function AddOutgoing(s: Sender, isCcs: bool, data: seq<byte>): (bool, Sender) {
    var s1 := if s.complete then Cleared(s) else s;
    if |s1.msgs| >= MAX_FLIGHT || |data| > 0xffff_ffff then (false, s1)
    else (true, s1.(msgs := s1.msgs + [OutMsg(data, s1.w.epoch, isCcs)],
                    handshakeSeq := if isCcs then s1.handshakeSeq else (s1.handshakeSeq + 1) % U16))
  }

  /** A message as it is built for a flight: unfragmented, under the next number. */
  function NewMessage(s: Sender, typ: byte, body: seq<byte>): seq<byte> {
    FragmentBytes(Fragment(Header(typ, |body|, s.handshakeSeq, 0, |body|), body))
  }

  /** Bytes [off, off + len) of a message's body as a fragment. */
  function Cut(h: Header, body: seq<byte>, off: nat, len: nat): Fragment
    requires off + len <= |body|
  {
    Fragment(h.(fragOff := off, fragLen := len), body[off..off + len])
  }

  /** The whole message, when `data` is one unfragmented message. */
  function WholeMessage(data: seq<byte>): (r: Option<Fragment>)
    ensures r.Some? ==> r.value.hdr.msgLen == |r.value.body| == r.value.hdr.fragLen && r.value.hdr.Valid()
    ensures r.Some? ==> |r.value.body| <= |data|
  {
    match ParseFragment(data)
    case None => None
    case Some((f, rest)) =>
      if f.hdr.fragOff == 0 && f.hdr.msgLen == |f.body| && rest == [] then Some(f) else None
  }

  /** The cipher a message goes out under: the epoch it was added in. */
  function UsePrevious(w: WriteState, msg: OutMsg): Option<bool> {
    if w.epoch >= 1 && msg.epoch == w.epoch - 1 then Some(true)
    else if msg.epoch == w.epoch then Some(false)
    else None
  }

  function SealCcs(s: Sender, previous: bool, maxOut: nat): SealResult
    requires previous ==> s.w.epoch >= 1
  {
    if maxOut < 1 + s.w.MaxSealOverhead(previous) then NoProgress(s) else
    var sealing := SealRecord(s.w, previous, RT_CHANGE_CIPHER_SPEC, CCS_BODY, maxOut);
    match sealing.rec
    case None => SealError(s.(w := sealing.state))
    case Some(rec) => SealSuccess(Sent(rec, CCS_BODY, 0), s.(w := sealing.state))
  }

  /** As much of the current message as the room allows. */
  function SealFragment(s: Sender, previous: bool, f: Fragment, maxOut: nat): SealResult
    requires previous ==> s.w.epoch >= 1
  {
    var overhead := s.w.MaxSealOverhead(previous);
    if s.offset > |f.body| then SealError(s)
    else if maxOut < HM_HEADER_LENGTH + 1 + overhead || maxOut < s.w.SealPrefixLen(previous) then NoProgress(s)
    else
      var left, room := |f.body| - s.offset, maxOut - HM_HEADER_LENGTH - overhead;
      var todo := if left > room then room else left;
      var plain := FragmentBytes(Cut(f.hdr, f.body, s.offset, todo));
      var sealing := SealRecord(s.w, previous, RT_HANDSHAKE, plain, maxOut);
      match sealing.rec
      case None => SealError(s.(w := sealing.state))
      case Some(rec) =>
        if todo == left then SealSuccess(Sent(rec, plain, todo), s.(w := sealing.state, offset := 0))
        else SealPartial(Sent(rec, plain, todo), s.(w := sealing.state, offset := s.offset + todo))
  }

  function SealNextMessage(s: Sender, maxOut: nat): SealResult
    requires s.written < |s.msgs|
  {
    var msg := s.msgs[s.written];
    match UsePrevious(s.w, msg)
    case None => SealError(s)
    case Some(previous) =>
      if msg.isCcs then SealCcs(s, previous, maxOut)
      else match WholeMessage(msg.data)
        case None => SealError(s)
        case Some(f) => SealFragment(s, previous, f, maxOut)
  }

  function RecordSize(r: WireRecord): nat { HEADER_LENGTH + |r.body| }

  function PacketSize(sent: seq<Sent>): nat {
    if sent == [] then 0 else RecordSize(sent[0].rec) + PacketSize(sent[1..])
  }

  datatype Packet = Packet(ok: bool, sent: seq<Sent>, s: Sender)

  /** As many records as fit: the loop of one packet. */
  function FillPacket(s: Sender, maxOut: nat): Packet
    decreases s.MessagesLeft()
  {
    if s.written >= |s.msgs| then Packet(true, [], s) else
    match SealNextMessage(s, maxOut)
    case SealError(s') => Packet(false, [], s')
    case NoProgress(s') => Packet(true, [], s')
    case SealPartial(sent, s') => Packet(true, [sent], s')
    case SealSuccess(sent, s') =>
      if RecordSize(sent.rec) > maxOut then Packet(false, [sent], s') else
      var rest := FillPacket(s'.(written := s'.written + 1), maxOut - RecordSize(sent.rec));
      Packet(rest.ok, [sent] + rest.sent, rest.s)
  }

  /** A packet without a record means the MTU is too small. */
  function SealNextPacket(s: Sender, maxOut: nat): Packet {
    var p := FillPacket(s, maxOut);
    if p.sent == [] then p.(ok := false) else p
  }

  /** The position moved on: fewer messages left, or fewer bytes. */
  predicate Ahead(s': Sender, s: Sender) {
    s'.MessagesLeft() < s.MessagesLeft() ||
    (s'.MessagesLeft() == s.MessagesLeft() && s'.BytesLeft() < s.BytesLeft())
  }

  /** The new sender differs from the old one in position and counters only. */
  ghost predicate Moved(s: Sender, s': Sender) {
    s' == s.(written := s'.written, offset := s'.offset, w := s'.w)
  }

  lemma NextMessageAdvances(s: Sender, maxOut: nat)
    requires s.written < |s.msgs|
    ensures var r := SealNextMessage(s, maxOut);
            && Moved(s, r.s) && r.s.written == s.written
            && (r.NoProgress? ==> r.s == s)
            && (r.SealPartial? ==> r.s.BytesLeft() < s.BytesLeft())
  {
    hide FragmentBytes, SealRecord, WholeMessage;
  }

  lemma {:induction false} FillPacketAdvances(s: Sender, maxOut: nat)
    requires FillPacket(s, maxOut).ok
    ensures var p := FillPacket(s, maxOut);
            && p.s.msgs == s.msgs && p.s.MessagesLeft() <= s.MessagesLeft()
            && (p.sent != [] ==> Ahead(p.s, s))
            && (p.sent == [] ==> p.s == s)
    decreases s.MessagesLeft()
  {
    hide SealNextMessage;
    if s.written < |s.msgs| {
      NextMessageAdvances(s, maxOut);
      var r := SealNextMessage(s, maxOut);
      if r.SealSuccess? {
        FillPacketAdvances(r.s.(written := r.s.written + 1), maxOut - RecordSize(r.sent.rec));
      }
    }
  }

  /** Why an attempt to send a flight ended, with the transport's answer when
      it did not take a packet. */
  datatype Ending = AllSent | Blocked(ret: int) | SealFailed | IsShutdown | NotFlushed

  /** What one attempt to send the flight does: its ending, the packets the
      transport took, and the sender after it. */
  datatype Sending = Sending(ending: Ending, packets: seq<seq<Sent>>, s: Sender)

  /** `bio(k)` is the transport's answer to the k-th packet of this attempt;
      a packet it does not take is rewound. */
  function SendLoop(s: Sender, mtu: nat, bio: nat -> int, k: nat): Sending
    decreases s.MessagesLeft(), s.BytesLeft()
  {
    if s.written >= |s.msgs| then Sending(AllSent, [], s) else
    var p := SealNextPacket(s, mtu);
    if !p.ok then Sending(SealFailed, [], p.s)
    else if bio(k) <= 0 then Sending(Blocked(bio(k)), [], p.s.(written := s.written, offset := s.offset))
    else
      FillPacketAdvances(s, mtu);
      var rest := SendLoop(p.s, mtu, bio, k + 1);
      rest.(packets := [p.sent] + rest.packets)
  }

  function SendFlight(s: Sender, shutdown: bool, mtu: nat, bio: nat -> int, flushed: bool): Sending {
    if shutdown then Sending(IsShutdown, [], s) else
    var sending := SendLoop(s, mtu, bio, 0);
    if sending.ending.AllSent? && !flushed then sending.(ending := NotFlushed) else sending
  }

  function Rewound(s: Sender): Sender {
    s.(written := 0, offset := 0)
  }

  // ----- What is sent -----------------------------------------------------

  function Flatten(packets: seq<seq<Sent>>): seq<Sent> {
    if packets == [] then [] else packets[0] + Flatten(packets[1..])
  }

  datatype Pos = Pos(written: nat, offset: nat)

  /** The position after `x`, if `x` carries a piece of the flight that starts
      at `p`: the change-cipher-spec message, or bytes of a body, which are none
      only when the body is empty. */
  function PieceAt(msgs: seq<OutMsg>, p: Pos, x: Sent): Option<Pos> {
    if p.written >= |msgs| || |x.plain| > |x.rec.body| then None
    else if msgs[p.written].isCcs then
      if p.offset == 0 && x.rec.typ == RT_CHANGE_CIPHER_SPEC && x.plain == CCS_BODY &&
         x.rec.epoch == msgs[p.written].epoch
      then Some(Pos(p.written + 1, 0)) else None
    else match WholeMessage(msgs[p.written].data)
      case None => None
      case Some(f) => if x.rec.epoch == msgs[p.written].epoch then FragmentAt(f, p, x) else None
  }

  function FragmentAt(f: Fragment, p: Pos, x: Sent): Option<Pos> {
    if p.offset + x.len <= |f.body| && (x.len > 0 || f.body == []) && x.rec.typ == RT_HANDSHAKE &&
       x.plain == FragmentBytes(Cut(f.hdr, f.body, p.offset, x.len))
    then Some(if p.offset + x.len == |f.body| then Pos(p.written + 1, 0)
              else Pos(p.written, p.offset + x.len))
    else None
  }

  function Pieces(msgs: seq<OutMsg>): (Pos, Sent) -> Option<Pos> {
    (p, x) => PieceAt(msgs, p, x)
  }

  /** The records `sent` carry the flight from `p` to `p'`, each piece starting
      where the one before it ended. */
  predicate Tiles(piece: (Pos, Sent) -> Option<Pos>, p: Pos, sent: seq<Sent>, p': Pos)
    decreases |sent|
  {
    if sent == [] then p == p'
    else piece(p, sent[0]).Some? && Tiles(piece, piece(p, sent[0]).value, sent[1..], p')
  }

  lemma {:induction false} TilesAppend(piece: (Pos, Sent) -> Option<Pos>, p: Pos, sent: seq<Sent>, q: Pos,
                                       more: seq<Sent>, r: Pos)
    requires Tiles(piece, p, sent, q) && Tiles(piece, q, more, r)
    ensures Tiles(piece, p, sent + more, r)
    decreases |sent|
  {
    if sent == [] {
      assert sent + more == more;
    } else {
      assert (sent + more)[1..] == sent[1..] + more;
      TilesAppend(piece, piece(p, sent[0]).value, sent[1..], q, more, r);
    }
  }

  function PosOf(s: Sender): Pos { Pos(s.written, s.offset) }

  /** Not in the middle of a message, or in a handshake message not all sent. */
  predicate InPlace(s: Sender) {
    s.offset > 0 ==>
      s.written < |s.msgs| && !s.msgs[s.written].isCcs &&
      WholeMessage(s.msgs[s.written].data).Some? &&
      s.offset < |WholeMessage(s.msgs[s.written].data).value.body|
  }

  lemma SealCcsTiles(s: Sender, previous: bool, maxOut: nat)
    requires s.w.Valid() && (previous ==> s.w.epoch >= 1)
    ensures var r := SealCcs(s, previous, maxOut);
            && r.s.w.Valid() && Moved(s, r.s) && PosOf(r.s) == PosOf(s) && !r.SealPartial?
            && (r.NoProgress? ==> r.s == s)
            && (r.SealSuccess? ==>
                  RecordSize(r.sent.rec) <= maxOut && r.sent.plain == CCS_BODY &&
                  r.sent.rec.typ == RT_CHANGE_CIPHER_SPEC && r.sent.rec.epoch == s.w.Epoch(previous) &&
                  |r.sent.plain| <= |r.sent.rec.body|)
  {
  }

  lemma SealFragmentTiles(s: Sender, previous: bool, f: Fragment, maxOut: nat)
    requires s.w.Valid() && (previous ==> s.w.epoch >= 1)
    requires s.offset > 0 ==> s.offset < |f.body|
    ensures var r := SealFragment(s, previous, f, maxOut);
            && r.s.w.Valid() && Moved(s, r.s) && r.s.written == s.written && (r.NoProgress? ==> r.s == s)
            && (r.SealError? ==> r.s.offset == s.offset)
            && (r.SealSuccess? ==>
                  RecordSize(r.sent.rec) <= maxOut && r.s.offset == 0 &&
                  r.sent.rec.epoch == s.w.Epoch(previous) && |r.sent.plain| <= |r.sent.rec.body| &&
                  FragmentAt(f, PosOf(s), r.sent) == Some(Pos(s.written + 1, 0)))
            && (r.SealPartial? ==>
                  RecordSize(r.sent.rec) <= maxOut && 0 < r.s.offset < |f.body| &&
                  r.sent.rec.epoch == s.w.Epoch(previous) && |r.sent.plain| <= |r.sent.rec.body| &&
                  FragmentAt(f, PosOf(s), r.sent) == Some(PosOf(r.s)))
  {
    hide FragmentBytes, SealRecord;
    var overhead := s.w.MaxSealOverhead(previous);
    if s.offset <= |f.body| && maxOut >= HM_HEADER_LENGTH + 1 + overhead {
      var left, room := |f.body| - s.offset, maxOut - HM_HEADER_LENGTH - overhead;
      var todo := if left > room then room else left;
      SealedRecordFits(s.w, previous, RT_HANDSHAKE, FragmentBytes(Cut(f.hdr, f.body, s.offset, todo)), maxOut);
    }
  }

  /** One sealed record carries the next piece of the flight. */
  lemma NextMessageTiles(s: Sender, maxOut: nat)
    requires InPlace(s) && s.w.Valid() && s.written < |s.msgs|
    ensures var r := SealNextMessage(s, maxOut);
            && r.s.w.Valid() && Moved(s, r.s) && r.s.written == s.written && (r.NoProgress? ==> r.s == s)
            && (r.SealError? ==> PosOf(r.s) == PosOf(s))
            && (r.SealSuccess? ==>
                  RecordSize(r.sent.rec) <= maxOut && r.s.offset == 0 &&
                  PieceAt(s.msgs, PosOf(s), r.sent) == Some(Pos(s.written + 1, 0)))
            && (r.SealPartial? ==>
                  RecordSize(r.sent.rec) <= maxOut && InPlace(r.s) &&
                  PieceAt(s.msgs, PosOf(s), r.sent) == Some(PosOf(r.s)))
  {
    hide SealFragment, SealCcs, FragmentAt, WholeMessage;
    var msg := s.msgs[s.written];
    var use := UsePrevious(s.w, msg);
    if use.Some? {
      if msg.isCcs {
        SealCcsTiles(s, use.value, maxOut);
      } else if WholeMessage(msg.data).Some? {
        SealFragmentTiles(s, use.value, WholeMessage(msg.data).value, maxOut);
      }
    }
  }

  /** One packet, even one on which sealing failed, carries the flight from the
      old position to the new one, and fits its room. */
  lemma {:induction false} PacketTiles(s: Sender, maxOut: nat)
    requires InPlace(s) && s.w.Valid() && s.written <= |s.msgs|
    ensures var p := FillPacket(s, maxOut);
            && Moved(s, p.s) && p.s.w.Valid() && p.s.written <= |s.msgs| && InPlace(p.s)
            && PacketSize(p.sent) <= maxOut && Tiles(Pieces(s.msgs), PosOf(s), p.sent, PosOf(p.s))
    decreases s.MessagesLeft()
  {
    hide SealNextMessage, PieceAt, WholeMessage, RecordSize;
    if s.written < |s.msgs| {
      NextMessageTiles(s, maxOut);
      var r := SealNextMessage(s, maxOut);
      if r.SealSuccess? {
        var next := r.s.(written := r.s.written + 1);
        var rest := FillPacket(next, maxOut - RecordSize(r.sent.rec));
        PacketTiles(next, maxOut - RecordSize(r.sent.rec));
        assert ([r.sent] + rest.sent)[1..] == rest.sent;
      } else if r.SealPartial? {
        assert PacketSize([r.sent]) == RecordSize(r.sent.rec) + PacketSize([]);
        assert Tiles(Pieces(s.msgs), PosOf(r.s), [r.sent][1..], PosOf(r.s));
      }
    }
  }

  /** The records of the packet on which sealing failed; nobody sends them. */
  function Unsent(s: Sender, mtu: nat, bio: nat -> int, k: nat): seq<Sent>
    decreases s.MessagesLeft(), s.BytesLeft()
  {
    if s.written >= |s.msgs| then [] else
    var p := SealNextPacket(s, mtu);
    if !p.ok then p.sent else if bio(k) <= 0 then [] else
    FillPacketAdvances(s, mtu);
    Unsent(p.s, mtu, bio, k + 1)
  }

  /** However the transport answers, the packets it took, and then those records
      that a failure to seal left behind, carry the flight from the position
      before the attempt to the position after it; every packet fits the MTU; and
      the attempt ends well only at the end of the flight. */
  lemma {:induction false} SendTiles(s: Sender, mtu: nat, bio: nat -> int, k: nat)
    requires InPlace(s) && s.w.Valid() && s.written <= |s.msgs|
    ensures var sending := SendLoop(s, mtu, bio, k);
            && Moved(s, sending.s) && sending.s.w.Valid() && InPlace(sending.s) && sending.s.written <= |s.msgs|
            && (forall i :: 0 <= i < |sending.packets| ==>
                  sending.packets[i] != [] && PacketSize(sending.packets[i]) <= mtu)
            && Tiles(Pieces(s.msgs), PosOf(s), Flatten(sending.packets) + Unsent(s, mtu, bio, k), PosOf(sending.s))
            && (!sending.ending.SealFailed? ==> Unsent(s, mtu, bio, k) == [])
            && (sending.ending.AllSent? ==> PosOf(sending.s) == Pos(|s.msgs|, 0))
            && (sending.ending.Blocked? ==> sending.ending.ret <= 0 && sending.s.written < |s.msgs|)
    decreases s.MessagesLeft(), s.BytesLeft()
  {
    hide FillPacket, Pieces, WholeMessage;
    if s.written < |s.msgs| {
      PacketTiles(s, mtu);
      var p := SealNextPacket(s, mtu);
      if p.ok && bio(k) > 0 {
        FillPacketAdvances(s, mtu);
        SendTiles(p.s, mtu, bio, k + 1);
        var rest, sending := SendLoop(p.s, mtu, bio, k + 1), SendLoop(s, mtu, bio, k);
        assert sending.packets[1..] == rest.packets;
        var unsent := Unsent(p.s, mtu, bio, k + 1);
        TilesAppend(Pieces(s.msgs), PosOf(s), p.sent, PosOf(p.s), Flatten(rest.packets) + unsent, PosOf(rest.s));
        assert p.sent + (Flatten(rest.packets) + unsent) == Flatten(sending.packets) + unsent;
      } else {
        assert [] + Unsent(s, mtu, bio, k) == Unsent(s, mtu, bio, k);
      }
    }
  }

  // ----- When sending cannot fail -----------------------------------------

  /** An upper bound on the records still to seal. */
  function Budget(msgs: seq<OutMsg>, written: nat, offset: nat): int
    decreases |msgs| - written
  {
    if written >= |msgs| then 0
    else |msgs[written].data| + 1 - offset + Budget(msgs, written + 1, 0)
  }

  lemma {:induction false} BudgetNonNegative(msgs: seq<OutMsg>, written: nat)
    ensures Budget(msgs, written, 0) >= 0
    decreases |msgs| - written
  {
    if written < |msgs| {
      BudgetNonNegative(msgs, written + 1);
    }
  }

  /** Every message is whole and of the current or the previous epoch. */
  predicate FlightReady(msgs: seq<OutMsg>, epoch: nat) {
    forall i :: 0 <= i < |msgs| ==>
      (msgs[i].isCcs || WholeMessage(msgs[i].data).Some?) &&
      (msgs[i].epoch == epoch || (epoch >= 1 && msgs[i].epoch == epoch - 1))
  }

  /** The flight can be sent: no counter is near its end. */
  ghost predicate CanSend(s: Sender) {
    && s.w.Valid() && InPlace(s) && s.written <= |s.msgs|
    && FlightReady(s.msgs, s.w.epoch)
    && s.w.seqNum + Budget(s.msgs, s.written, s.offset) < SEQ_RANGE
    && s.w.lastSeqNum + Budget(s.msgs, s.written, s.offset) < SEQ_RANGE
  }

  /** Room for a header and one byte under either cipher, and no more than the
      16-bit length field can say. */
  predicate UsableMtu(w: WriteState, mtu: nat) {
    && HM_HEADER_LENGTH + 1 + w.MaxSealOverhead(false) <= mtu
    && HM_HEADER_LENGTH + 1 + w.MaxSealOverhead(true) <= mtu
    && mtu < 0x1_0000
  }

  lemma SealFragmentSucceeds(s: Sender, previous: bool, f: Fragment, maxOut: nat)
    requires s.w.Valid() && (previous ==> s.w.epoch >= 1) && s.offset <= |f.body|
    requires s.w.seqNum + 1 < SEQ_RANGE && s.w.lastSeqNum + 1 < SEQ_RANGE && maxOut < 0x1_0000
    ensures var r := SealFragment(s, previous, f, maxOut);
            && !r.SealError?
            && (maxOut >= HM_HEADER_LENGTH + 1 + s.w.MaxSealOverhead(previous) ==> !r.NoProgress?)
            && r.s.w == s.w.(seqNum := r.s.w.seqNum, lastSeqNum := r.s.w.lastSeqNum)
            && r.s.w.seqNum <= s.w.seqNum + 1 && r.s.w.lastSeqNum <= s.w.lastSeqNum + 1
            && (r.SealPartial? ==> r.s.offset > s.offset)
  {
  }

  lemma FragmentLength(f: Fragment)
    ensures |FragmentBytes(f)| == HM_HEADER_LENGTH + |f.body|
  {
  }

  lemma SealCcsSucceeds(s: Sender, previous: bool, maxOut: nat)
    requires s.w.Valid() && (previous ==> s.w.epoch >= 1)
    requires s.w.seqNum + 1 < SEQ_RANGE && s.w.lastSeqNum + 1 < SEQ_RANGE && maxOut < 0x1_0000
    ensures var r := SealCcs(s, previous, maxOut);
            && !r.SealError?
            && (maxOut >= 1 + s.w.MaxSealOverhead(previous) ==> !r.NoProgress?)
            && r.s.w == s.w.(seqNum := r.s.w.seqNum, lastSeqNum := r.s.w.lastSeqNum)
            && r.s.w.seqNum <= s.w.seqNum + 1 && r.s.w.lastSeqNum <= s.w.lastSeqNum + 1
  {
  }

  /** Sealing the next message never fails, and makes progress given room. */
  lemma NextMessageSucceeds(s: Sender, maxOut: nat)
    requires CanSend(s) && s.written < |s.msgs| && maxOut < 0x1_0000
    ensures var r := SealNextMessage(s, maxOut);
            && !r.SealError?
            && (UsableMtu(s.w, maxOut) ==> !r.NoProgress?)
            && r.s.w == s.w.(seqNum := r.s.w.seqNum, lastSeqNum := r.s.w.lastSeqNum)
            && (r.SealSuccess? ==> CanSend(r.s.(written := r.s.written + 1)))
            && (r.SealPartial? ==> CanSend(r.s))
  {
    hide SealFragment, SealCcs, WholeMessage;
    var msg := s.msgs[s.written];
    assert msg.epoch == s.w.epoch || (s.w.epoch >= 1 && msg.epoch == s.w.epoch - 1);
    BudgetNonNegative(s.msgs, s.written + 1);
    NextMessageTiles(s, maxOut);
    var previous := UsePrevious(s.w, msg).value;
    if msg.isCcs {
      SealCcsSucceeds(s, previous, maxOut);
    } else {
      var f := WholeMessage(msg.data).value;
      SealFragmentSucceeds(s, previous, f, maxOut);
    }
  }

  lemma {:induction false} FillPacketSucceeds(s: Sender, maxOut: nat)
    requires CanSend(s) && maxOut < 0x1_0000
    ensures var p := FillPacket(s, maxOut);
            && p.ok && CanSend(p.s)
            && p.s.w == s.w.(seqNum := p.s.w.seqNum, lastSeqNum := p.s.w.lastSeqNum)
            && (s.written < |s.msgs| && UsableMtu(s.w, maxOut) ==> p.sent != [])
    decreases s.MessagesLeft()
  {
    hide SealNextMessage, CanSend;
    if s.written < |s.msgs| {
      NextMessageSucceeds(s, maxOut);
      assert InPlace(s) && s.w.Valid() by { CanSendIsInPlace(s); }
      NextMessageTiles(s, maxOut);
      var r := SealNextMessage(s, maxOut);
      if r.SealSuccess? {
        FillPacketSucceeds(r.s.(written := r.s.written + 1), maxOut - RecordSize(r.sent.rec));
      }
    }
  }

  lemma CanSendIsInPlace(s: Sender)
    requires CanSend(s)
    ensures InPlace(s) && s.w.Valid() && s.written <= |s.msgs|
  {
  }

  /** With a usable MTU and counters not at their end, sending a flight ends
      only by having sent it all or by a packet the transport did not take. */
  lemma {:induction false} SendSucceeds(s: Sender, mtu: nat, bio: nat -> int, k: nat)
    requires CanSend(s) && UsableMtu(s.w, mtu)
    ensures var ending := SendLoop(s, mtu, bio, k).ending; ending.AllSent? || ending.Blocked?
    ensures (forall i: nat :: bio(i) > 0) ==> SendLoop(s, mtu, bio, k).ending.AllSent?
    decreases s.MessagesLeft(), s.BytesLeft()
  {
    hide FillPacket, CanSend;
    if s.written < |s.msgs| {
      FillPacketSucceeds(s, mtu);
      FillPacketAdvances(s, mtu);
      if bio(k) > 0 {
        SendSucceeds(FillPacket(s, mtu).s, mtu, bio, k + 1);
      }
    }
  }

  // ----- The sender in memory ---------------------------------------------

  class FlightSender {
    var outgoing: seq<OutMsg>
    var outgoingWritten: nat
    var outgoingOffset: nat
    var complete: bool
    var hasReply: bool
    var handshakeWriteSeq: nat
    var writer: WriteState

    ghost function View(): Sender
      reads this
    {
      Sender(outgoing, outgoingWritten, outgoingOffset, complete, hasReply, handshakeWriteSeq, writer)
    }

    constructor (writer: WriteState)
      ensures View() == Sender([], 0, 0, false, false, 0, writer)
    {
      outgoing, outgoingWritten, outgoingOffset := [], 0, 0;
      complete, hasReply, handshakeWriteSeq, this.writer := false, false, 0, writer;
    }

    method Clear()
      modifies this
      ensures View() == Cleared(old(View()))
    {
      outgoing, outgoingWritten, outgoingOffset, complete, hasReply := [], 0, 0, false, false;
    }

    method Add(isCcs: bool, data: seq<byte>) returns (ok: bool)
      modifies this
      ensures (ok, View()) == AddOutgoing(old(View()), isCcs, data)
    {
      if complete {
        Clear();
      }
      if |outgoing| >= MAX_FLIGHT || |data| > 0xffff_ffff {
        return false;
      }
      if !isCcs {
        handshakeWriteSeq := (handshakeWriteSeq + 1) % U16;
      }
      outgoing := outgoing + [OutMsg(data, writer.epoch, isCcs)];
      ok := true;
    }

    method SealNext(maxOut: nat) returns (result: SealResult)
      requires outgoingWritten < |outgoing|
      modifies this
      ensures result == SealNextMessage(old(View()), maxOut) && View() == result.s
    {
      hide FragmentBytes, WholeMessage, SealRecord;
      var msg := outgoing[outgoingWritten];
      var previous := UsePrevious(writer, msg);
      var whole := WholeMessage(msg.data);
      var before := Sender(outgoing, outgoingWritten, outgoingOffset, complete, hasReply,
                           handshakeWriteSeq, writer);
      if previous.None? || (!msg.isCcs && (whole.None? || outgoingOffset > |whole.value.body|)) {
        return SealError(before);
      }
      var overhead := writer.MaxSealOverhead(previous.value);
      if msg.isCcs {
        if maxOut < 1 + overhead {
          return NoProgress(before);
        }
        var sealing := SealRecord(writer, previous.value, RT_CHANGE_CIPHER_SPEC, CCS_BODY, maxOut);
        writer := sealing.state;
        if sealing.rec.None? {
          return SealError(before.(w := writer));
        }
        return SealSuccess(Sent(sealing.rec.value, CCS_BODY, 0), before.(w := writer));
      }
      if maxOut < HM_HEADER_LENGTH + 1 + overhead || maxOut < writer.SealPrefixLen(previous.value) {
        return NoProgress(before);
      }
      var f := whole.value;
      var todo := |f.body| - outgoingOffset;
      if todo > maxOut - HM_HEADER_LENGTH - overhead {
        todo := maxOut - HM_HEADER_LENGTH - overhead;
      }
      var plain := FragmentBytes(Cut(f.hdr, f.body, outgoingOffset, todo));
      var sealing := SealRecord(writer, previous.value, RT_HANDSHAKE, plain, maxOut);
      writer := sealing.state;
      if sealing.rec.None? {
        return SealError(before.(w := writer));
      }
      var sent := Sent(sealing.rec.value, plain, todo);
      if todo == |f.body| - outgoingOffset {
        outgoingOffset := 0;
        return SealSuccess(sent, before.(w := writer, offset := 0));
      }
      outgoingOffset := outgoingOffset + todo;
      result := SealPartial(sent, before.(w := writer, offset := outgoingOffset));
    }

    /** Fills one packet of at most `mtu` bytes. */
    method SealPacket(mtu: nat) returns (ok: bool, sent: seq<Sent>)
      requires writer.Valid() && InPlace(View()) && outgoingWritten <= |outgoing|
      modifies this
      ensures Packet(ok, sent, View()) == SealNextPacket(old(View()), mtu)
    {
      hide SealNextMessage, WholeMessage, PieceAt, RecordSize;
      sent, ok := [], true;
      var maxOut := mtu;
      ghost var start := View();
      while outgoingWritten < |outgoing|
        invariant maxOut >= 0 && outgoingWritten <= |outgoing|
        invariant writer.Valid() && InPlace(View())
        invariant var rest := FillPacket(View(), maxOut);
                  FillPacket(start, mtu) == Packet(rest.ok, sent + rest.sent, rest.s)
        decreases |outgoing| - outgoingWritten
      {
        NextMessageTiles(View(), maxOut);
        ghost var before := View();
        var result := SealNext(maxOut);
        if result.SealError? {
          assert sent + [] == sent;
          return false, sent;
        }
        if result.NoProgress? {
          assert sent + [] == sent;
          return sent != [], sent;
        }
        if result.SealPartial? {
          return true, sent + [result.sent];
        }
        ghost var next := View().(written := View().written + 1);
        ghost var rest := FillPacket(next, maxOut - RecordSize(result.sent.rec));
        assert sent + ([result.sent] + rest.sent) == (sent + [result.sent]) + rest.sent;
        sent := sent + [result.sent];
        maxOut := maxOut - RecordSize(result.sent.rec);
        outgoingWritten := outgoingWritten + 1;
      }
      assert sent + [] == sent;
      ok := sent != [];
    }

    /** Sends what is left of the flight; `bio(k)` answers the k-th packet, and
        a packet it does not take is rewound. */
    method Send(shutdown: bool, mtu: nat, bio: nat -> int, flushed: bool)
      returns (ending: Ending, packets: seq<seq<Sent>>)
      requires writer.Valid() && InPlace(View()) && outgoingWritten <= |outgoing|
      modifies this
      ensures Sending(ending, packets, View()) == SendFlight(old(View()), shutdown, mtu, bio, flushed)
    {
      hide SealNextPacket, WholeMessage, Pieces;
      packets := [];
      if shutdown {
        return IsShutdown, [];
      }
      var k := 0;
      ghost var start := View();
      while outgoingWritten < |outgoing|
        invariant writer.Valid() && InPlace(View()) && outgoingWritten <= |outgoing|
        invariant var rest := SendLoop(View(), mtu, bio, k);
                  SendLoop(start, mtu, bio, 0) == Sending(rest.ending, packets + rest.packets, rest.s)
        decreases View().MessagesLeft(), View().BytesLeft()
      {
        ghost var before := View();
        PacketFacts(before, mtu);
        var oldWritten, oldOffset := outgoingWritten, outgoingOffset;
        var ok, sent := SealPacket(mtu);
        if !ok {
          assert packets + [] == packets;
          return SealFailed, packets;
        }
        var ret := bio(k);
        if ret <= 0 {
          outgoingWritten, outgoingOffset := oldWritten, oldOffset;
          assert packets + [] == packets;
          return Blocked(ret), packets;
        }
        ghost var rest := SendLoop(View(), mtu, bio, k + 1);
        assert packets + ([sent] + rest.packets) == (packets + [sent]) + rest.packets;
        packets := packets + [sent];
        k := k + 1;
      }
      assert packets + [] == packets;
      ending := if flushed then AllSent else NotFlushed;
    }

    method Flush(shutdown: bool, mtu: nat, bio: nat -> int, flushed: bool)
      returns (ending: Ending, packets: seq<seq<Sent>>)
      requires writer.Valid() && InPlace(View()) && outgoingWritten <= |outgoing|
      modifies this
      ensures Sending(ending, packets, View()) ==
              SendFlight(old(View()).(complete := true), shutdown, mtu, bio, flushed)
    {
      complete := true;
      ending, packets := Send(shutdown, mtu, bio, flushed);
    }

    /** Sends the whole flight again from its start. */
    method Retransmit(shutdown: bool, mtu: nat, bio: nat -> int, flushed: bool)
      returns (ending: Ending, packets: seq<seq<Sent>>)
      requires writer.Valid()
      modifies this
      ensures Sending(ending, packets, View()) ==
              SendFlight(Rewound(old(View())), shutdown, mtu, bio, flushed)
    {
      outgoingWritten, outgoingOffset := 0, 0;
      ending, packets := Send(shutdown, mtu, bio, flushed);
    }
  }

  lemma PacketFacts(s: Sender, mtu: nat)
    requires s.w.Valid() && InPlace(s) && s.written < |s.msgs|
    ensures var p := SealNextPacket(s, mtu);
            p.ok ==> p.s.w.Valid() && InPlace(p.s) && p.s.written <= |s.msgs| && Moved(s, p.s) && Ahead(p.s, s)
  {
    hide FillPacket, Pieces, WholeMessage;
    PacketTiles(s, mtu);
    if SealNextPacket(s, mtu).ok {
      FillPacketAdvances(s, mtu);
    }
  }
}
