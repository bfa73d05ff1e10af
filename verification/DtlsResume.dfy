/** Where the next attempt to send a DTLS flight resumes. */
module DtlsResume {
  import opened DtlsRecord
  import opened HandshakeFragment
  import opened DtlsSender

  /** Records that carry the flight can be parted anywhere. */
  lemma {:induction false} TilesSplit(msgs: seq<OutMsg>, p: Pos, sent: seq<Sent>, more: seq<Sent>, r: Pos) returns (q: Pos)
    requires Tiles(Pieces(msgs), p, sent + more, r)
    ensures Tiles(Pieces(msgs), p, sent, q) && Tiles(Pieces(msgs), q, more, r)
    ensures forall other :: Tiles(Pieces(msgs), p, sent, other) ==> other == q
    decreases |sent|
  {
    hide PieceAt;
    if sent == [] {
      assert sent + more == more;
      q := p;
    } else {
      assert (sent + more)[1..] == sent[1..] + more;
      q := TilesSplit(msgs, PieceAt(msgs, p, sent[0]).value, sent[1..], more, r);
    }
  }

  /** Pieces only go forward. */
  lemma {:induction false} TilesGoOn(msgs: seq<OutMsg>, p: Pos, sent: seq<Sent>, q: Pos)
    requires Tiles(Pieces(msgs), p, sent, q)
    ensures p.written <= q.written && (p.written == q.written ==> p.offset <= q.offset)
    ensures sent != [] ==> p != q
    decreases |sent|
  {
    hide WholeMessage, FragmentBytes;
    if sent != [] {
      TilesGoOn(msgs, PieceAt(msgs, p, sent[0]).value, sent[1..], q);
    }
  }

  /** The next attempt resumes exactly where what the transport took ended, if
      and only if no records were sealed into a packet before it failed: only a
      packet that was not taken is rewound. */
  lemma ResumesExactly(s: Sender, mtu: nat, bio: nat -> int)
    requires InPlace(s) && s.w.Valid() && s.written <= |s.msgs|
    ensures var sending := SendLoop(s, mtu, bio, 0);
            Tiles(Pieces(s.msgs), PosOf(s), Flatten(sending.packets), PosOf(sending.s)) <==> Unsent(s, mtu, bio, 0) == []
  {
    hide SendLoop, Unsent, Pieces;
    SendTiles(s, mtu, bio, 0);
    var sending, unsent := SendLoop(s, mtu, bio, 0), Unsent(s, mtu, bio, 0);
    var q := TilesSplit(s.msgs, PosOf(s), Flatten(sending.packets), unsent, PosOf(sending.s));
    TilesGoOn(s.msgs, q, unsent, PosOf(sending.s));
  }

  /** Such a failure: the second to last record number goes to one message, the
      next message cannot be sealed behind it, and the first was not sent and will
      not be, unless the flight is sent again from its start. */
  lemma LastNumberSkips(s: Sender, mtu: nat, bio: nat -> int)
    requires InPlace(s) && s.w.Valid() && s.written + 1 < |s.msgs| && s.w.seqNum + 2 == SEQ_RANGE
    requires forall i :: s.written <= i <= s.written + 1 ==>
               s.msgs[i].epoch == s.w.epoch && !s.msgs[i].isCcs && WholeMessage(s.msgs[i].data).Some?
    requires |WholeMessage(s.msgs[s.written].data).value.body| + 2 * HM_HEADER_LENGTH + 1 +
             2 * s.w.MaxSealOverhead(false) <= mtu < 0x1_0000
    ensures var sending := SendLoop(s, mtu, bio, 0);
            && sending.ending.SealFailed? && sending.packets == []
            && |Unsent(s, mtu, bio, 0)| == 1 && PosOf(sending.s) == Pos(s.written + 1, 0)
  {
    hide WholeMessage, SealNextMessage;
    var f := WholeMessage(s.msgs[s.written].data).value;
    FirstFills(s, f, mtu);
    var r := SealNextMessage(s, mtu);
    var next := r.s.(written := r.s.written + 1);
    var room := mtu - RecordSize(r.sent.rec);
    LastFails(next, room);
    assert FillPacket(next, room) == Packet(false, [], SealNextMessage(next, room).s);
    assert FillPacket(s, mtu).sent == [r.sent] + [];
  }

  lemma FirstFills(s: Sender, f: Fragment, mtu: nat)
    requires InPlace(s) && s.w.Valid() && s.written < |s.msgs| && s.w.seqNum + 1 < SEQ_RANGE && mtu < 0x1_0000
    requires s.msgs[s.written].epoch == s.w.epoch && !s.msgs[s.written].isCcs
    requires WholeMessage(s.msgs[s.written].data).Some? && WholeMessage(s.msgs[s.written].data).value == f
    requires |f.body| + HM_HEADER_LENGTH + 1 + s.w.MaxSealOverhead(false) <= mtu
    ensures var r := SealNextMessage(s, mtu);
            && r.SealSuccess? && r.s == s.(offset := 0, w := s.w.Bumped(false))
            && RecordSize(r.sent.rec) <= |f.body| + HM_HEADER_LENGTH + s.w.MaxSealOverhead(false)
  {
    hide WholeMessage, FragmentBytes, SealFragment;
    SealFragmentTiles(s, false, f, mtu);
    FragmentFills(s, f, mtu);
  }

  lemma LastFails(s: Sender, maxOut: nat)
    requires s.w.Valid() && s.written < |s.msgs| && s.w.seqNum + 1 == SEQ_RANGE && s.offset == 0
    requires s.msgs[s.written].epoch == s.w.epoch && !s.msgs[s.written].isCcs
    requires WholeMessage(s.msgs[s.written].data).Some?
    requires HM_HEADER_LENGTH + 1 + s.w.MaxSealOverhead(false) <= maxOut
    ensures SealNextMessage(s, maxOut).SealError? && PosOf(SealNextMessage(s, maxOut).s) == PosOf(s)
  {
    hide WholeMessage, FragmentBytes;
  }

  lemma FragmentFills(s: Sender, f: Fragment, maxOut: nat)
    requires s.w.Valid() && s.offset <= |f.body| && s.w.seqNum + 1 < SEQ_RANGE && maxOut < 0x1_0000
    requires |f.body| + HM_HEADER_LENGTH + 1 + s.w.MaxSealOverhead(false) <= maxOut
    ensures var r := SealFragment(s, false, f, maxOut);
            && r.SealSuccess? && r.s == s.(offset := 0, w := s.w.Bumped(false))
            && RecordSize(r.sent.rec) <= |f.body| + HM_HEADER_LENGTH + s.w.MaxSealOverhead(false)
  {
  }
}
