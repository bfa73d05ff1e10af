/** The outgoing flight over any run of adding, flushing, sending again and
    clearing: what it holds, and what a flush that succeeds has put out. */
module DtlsOutgoing {
  import opened Bytes
  import opened HandshakeFragment
  import opened DtlsWriter
  import opened DtlsSender

  /** `bio` and `flushed` are the transport's answers. */
  datatype Call =
    | Adds(isCcs: bool, data: seq<byte>)
    | Flushes(shutdown: bool, mtu: nat, bio: nat -> int, flushed: bool)
    | Resends(shutdown: bool, mtu: nat, bio: nat -> int, flushed: bool)
    | Clears
    | Replied
    | ChangesCipher(cipher: WriteCipher)

  /** What was done to the flight. */
  datatype Deed = Added(m: OutMsg) | Flushed | Dropped

  datatype Outgoing = Outgoing(s: Sender, deeds: seq<Deed>)

  function Calls(o: Outgoing, call: Call): Outgoing {
    var s := o.s;
    match call
    case Adds(isCcs, data) =>
      var (ok, s') := AddOutgoing(s, isCcs, data);
      Outgoing(s', o.deeds + if ok then [Added(OutMsg(data, s.w.epoch, isCcs))] else if s.complete then [Dropped] else [])
    case Flushes(shutdown, mtu, bio, flushed) =>
      Outgoing(SendFlight(s.(complete := true), shutdown, mtu, bio, flushed).s, o.deeds + [Flushed])
    case Resends(shutdown, mtu, bio, flushed) =>
      o.(s := SendFlight(Rewound(s), shutdown, mtu, bio, flushed).s)
    case Clears => Outgoing(Cleared(s), o.deeds + [Dropped])
    case Replied => o.(s := s.(hasReply := true))
    case ChangesCipher(cipher) => o.(s := s.(w := NewWriteEpoch(s.w, cipher)))
  }

  function AllCalls(o: Outgoing, calls: seq<Call>): Outgoing {
    if calls == [] then o else Calls(AllCalls(o, calls[..|calls| - 1]), calls[|calls| - 1])
  }

  // ----- What the deeds say -----------------------------------------------

  /** The flight was flushed after its last message. */
  predicate Done(deeds: seq<Deed>) { deeds != [] && deeds[|deeds| - 1].Flushed? }

  /** The messages added since the flight was dropped, or since the first one
      behind a flush. */
  function Flight(deeds: seq<Deed>): seq<OutMsg> {
    if deeds == [] then [] else
    var front, last := deeds[..|deeds| - 1], deeds[|deeds| - 1];
    match last
    case Dropped => []
    case Flushed => Flight(front)
    case Added(m) => (if Done(front) then [] else Flight(front)) + [m]
  }

  /** How many handshake messages were added. */
  function HandshakeCount(deeds: seq<Deed>): nat {
    if deeds == [] then 0 else
    var last := deeds[|deeds| - 1];
    HandshakeCount(deeds[..|deeds| - 1]) + (if last.Added? && !last.m.isCcs then 1 else 0)
  }

  ghost predicate OutgoingInv(o: Outgoing) {
    && o.s.msgs == Flight(o.deeds) && |o.s.msgs| <= 7 && o.s.complete == Done(o.deeds)
    && o.s.handshakeSeq == HandshakeCount(o.deeds) % 0x1_0000
    && o.s.w.Valid() && InPlace(o.s) && o.s.written <= |o.s.msgs|
    && forall i :: 0 <= i < |o.s.msgs| ==> |o.s.msgs[i].data| < 0x1_0000_0000
  }

  lemma {:induction false} SnocDeed(deeds: seq<Deed>, d: Deed)
    ensures Done(deeds + [d]) <==> d.Flushed?
    ensures Flight(deeds + [d]) ==
            match d
            case Dropped => []
            case Flushed => Flight(deeds)
            case Added(m) => (if Done(deeds) then [] else Flight(deeds)) + [m]
    ensures HandshakeCount(deeds + [d]) == HandshakeCount(deeds) + (if d.Added? && !d.m.isCcs then 1 else 0)
  {
    var more := deeds + [d];
    assert more[..|more| - 1] == deeds && more[|more| - 1] == d;
  }

  /** Adding succeeds exactly if the flight was flushed or has room, and the data
      is not too long; behind a flush it begins a flight of its own. */
  lemma {:induction false} AddExactly(o: Outgoing, isCcs: bool, data: seq<byte>)
    requires OutgoingInv(o)
    ensures var (ok, s') := AddOutgoing(o.s, isCcs, data);
            && (ok <==> (Done(o.deeds) || |Flight(o.deeds)| < 7) && |data| < 0x1_0000_0000)
            && (ok && Done(o.deeds) ==> s'.msgs == [OutMsg(data, o.s.w.epoch, isCcs)])
            && (Done(o.deeds) ==> !s'.hasReply && PosOf(s') == Pos(0, 0))
            && (!Done(o.deeds) ==> s'.hasReply == o.s.hasReply && PosOf(s') == PosOf(o.s))
  {
    hide Flight, Done, HandshakeCount;
  }

  // ----- What a flush has put out -----------------------------------------

  /** A flight counts as sent exactly if this end was not shut down, the transport
      took all that was left of it, and was flushed; and an end that was shut down
      sends nothing. */
  lemma {:induction false} SentExactly(s: Sender, shutdown: bool, mtu: nat, bio: nat -> int, flushed: bool)
    requires InPlace(s) && s.w.Valid() && s.written <= |s.msgs|
    ensures var sending := SendFlight(s, shutdown, mtu, bio, flushed);
            && (sending.ending.AllSent? ==>
                  Tiles(Pieces(s.msgs), PosOf(s), Flatten(sending.packets), Pos(|s.msgs|, 0)))
            && (sending.ending.AllSent? <==>
                  !shutdown && flushed && sending.s.written == |s.msgs| && !sending.ending.SealFailed?)
            && (shutdown ==> sending.packets == [] && sending.s == s)
            && Moved(s, sending.s) && sending.s.w.Valid() && InPlace(sending.s) && sending.s.written <= |s.msgs|
  {
    hide SendLoop, Pieces, Unsent;
    SendTiles(s, mtu, bio, 0);
    var sending := SendLoop(s, mtu, bio, 0);
    assert Flatten(sending.packets) + [] == Flatten(sending.packets);
    EndsAtEnd(s, mtu, bio, 0);
  }

  /** The loop stops at the end of the flight only when all was taken, or when
      sealing fails there. */
  lemma {:induction false} EndsAtEnd(s: Sender, mtu: nat, bio: nat -> int, k: nat)
    requires InPlace(s) && s.w.Valid() && s.written <= |s.msgs|
    ensures var sending := SendLoop(s, mtu, bio, k);
            && !sending.ending.IsShutdown? && !sending.ending.NotFlushed?
            && (sending.ending.AllSent? ==> sending.s.written == |s.msgs|)
            && (sending.ending.Blocked? ==> sending.s.written < |s.msgs|)
    decreases s.MessagesLeft(), s.BytesLeft()
  {
    hide SealNextPacket, Pieces, WholeMessage;
    if s.written < |s.msgs| {
      PacketFacts(s, mtu);
      var p := SealNextPacket(s, mtu);
      if p.ok && bio(k) > 0 {
        EndsAtEnd(p.s, mtu, bio, k + 1);
      }
    }
  }

  /** A retransmission that counts as sent has carried the whole flight again,
      from its first message to its last. */
  lemma {:induction false} ResentWhole(s: Sender, shutdown: bool, mtu: nat, bio: nat -> int, flushed: bool)
    requires s.w.Valid()
    ensures var sending := SendFlight(Rewound(s), shutdown, mtu, bio, flushed);
            sending.ending.AllSent? ==>
              Tiles(Pieces(s.msgs), Pos(0, 0), Flatten(sending.packets), Pos(|s.msgs|, 0))
  {
    hide SendFlight, Pieces;
    SentExactly(Rewound(s), shutdown, mtu, bio, flushed);
  }

  /** Only data that is one whole message and nothing else goes out. */
  lemma {:induction false} WholeExactly(data: seq<byte>, f: Fragment)
    ensures WholeMessage(data) == Some(f) <==>
              f.hdr.Valid() && f.hdr.fragOff == 0 && f.hdr.fragLen == f.hdr.msgLen == |f.body| && data == FragmentBytes(f)
  {
    hide ParseFragment, FragmentBytes;
    FragmentParsesExactly(data, f, []);
    assert FragmentBytes(f) + [] == FragmentBytes(f);
    if ParseFragment(data).Some? && ParseFragment(data).value.1 == [] {
      var g := ParseFragment(data).value.0;
      FragmentParsesExactly(data, g, []);
    }
  }

  // ----- Whole runs -------------------------------------------------------

  ghost predicate GoodCipher(call: Call) { call.ChangesCipher? ==> call.cipher.Valid() }

  lemma {:induction false} CallKeepsInv(o: Outgoing, call: Call)
    requires OutgoingInv(o) && GoodCipher(call)
    ensures OutgoingInv(Calls(o, call))
  {
    hide SendFlight, Flight, Done, HandshakeCount, WholeMessage;
    match call
    case Adds(isCcs, data) =>
      var (ok, s') := AddOutgoing(o.s, isCcs, data);
      if ok {
        SnocDeed(o.deeds, Added(OutMsg(data, o.s.w.epoch, isCcs)));
        CountWraps(HandshakeCount(o.deeds));
      } else if o.s.complete {
        SnocDeed(o.deeds, Dropped);
      } else {
        assert o.deeds + [] == o.deeds;
      }
    case Flushes(shutdown, mtu, bio, flushed) =>
      SentExactly(o.s.(complete := true), shutdown, mtu, bio, flushed);
      SnocDeed(o.deeds, Flushed);
    case Resends(shutdown, mtu, bio, flushed) => SentExactly(Rewound(o.s), shutdown, mtu, bio, flushed);
    case Clears => SnocDeed(o.deeds, Dropped);
    case Replied =>
    case ChangesCipher(_) =>
  }

  lemma {:induction false} CountWraps(n: nat)
    ensures (n % 0x1_0000 + 1) % 0x1_0000 == (n + 1) % 0x1_0000
  {
  }

  function Fresh(w: WriteState): Outgoing { Outgoing(Sender([], 0, 0, false, false, 0, w), []) }

  /** Over any run the flight is the messages added since it was last dropped or,
      behind a flush, since the one that began it: never more than seven; and the
      next number is that of the handshake messages added so far. */
  lemma {:induction false} FlightOverRuns(w: WriteState, calls: seq<Call>)
    requires w.Valid() && forall i :: 0 <= i < |calls| ==> GoodCipher(calls[i])
    ensures OutgoingInv(AllCalls(Fresh(w), calls))
  {
    hide Calls;
    if calls == [] {
      assert Flight([]) == [] && HandshakeCount([]) == 0;
    } else {
      FlightOverRuns(w, calls[..|calls| - 1]);
      CallKeepsInv(AllCalls(Fresh(w), calls[..|calls| - 1]), calls[|calls| - 1]);
    }
  }
}
