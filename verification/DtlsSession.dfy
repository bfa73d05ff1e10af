/** What a DTLS sender puts on the network over any number of attempts to send
    one flight. */
module DtlsSession {
  import opened Bytes
  import opened RecordTypes
  import opened DtlsRecord
  import opened HandshakeFragment
  import opened DtlsWriter
  import opened DtlsSender

  // ----- Attempts ------------------------

  /** One attempt to send: from where the last one stopped, or from the start. */
  datatype Attempt = Attempt(rewind: bool, mtu: nat, bio: nat -> int)

  function StartOf(s: Sender, a: Attempt): Sender {
    if a.rewind then Rewound(s) else s
  }

  /** All records the transport took over any number of attempts, under any MTUs
      and with any blocked writes and failures to seal. */
  function Session(s: Sender, attempts: seq<Attempt>): seq<Sent>
    decreases |attempts|
  {
    if attempts == [] then [] else
    var a := attempts[0];
    var sending := SendLoop(StartOf(s, a), a.mtu, a.bio, 0);
    Flatten(sending.packets) + Session(sending.s, attempts[1..])
  }

  ghost predicate IsPiece(msgs: seq<OutMsg>, x: Sent) {
    exists p: Pos :: PieceAt(msgs, p, x).Some?
  }

  ghost predicate AllPieces(msgs: seq<OutMsg>, sent: seq<Sent>) {
    forall i :: 0 <= i < |sent| ==> IsPiece(msgs, sent[i])
  }

  lemma {:induction false} TilesArePieces(msgs: seq<OutMsg>, p: Pos, sent: seq<Sent>, q: Pos)
    requires Tiles(Pieces(msgs), p, sent, q)
    ensures AllPieces(msgs, sent)
    decreases |sent|
  {
    hide PieceAt;
    if sent != [] {
      assert PieceAt(msgs, p, sent[0]).Some?;
      TilesArePieces(msgs, PieceAt(msgs, p, sent[0]).value, sent[1..], q);
      forall i | 0 <= i < |sent|
        ensures IsPiece(msgs, sent[i])
      {
        if i > 0 {
          assert sent[i] == sent[1..][i - 1];
        }
      }
    }
  }

  lemma {:induction false} SendsPieces(s: Sender, mtu: nat, bio: nat -> int, k: nat)
    requires InPlace(s) && s.w.Valid() && s.written <= |s.msgs|
    ensures AllPieces(s.msgs, Flatten(SendLoop(s, mtu, bio, k).packets))
    decreases s.MessagesLeft(), s.BytesLeft()
  {
    hide FillPacket, PieceAt, Pieces, WholeMessage, IsPiece;
    if s.written < |s.msgs| {
      PacketTiles(s, mtu);
      var p := SealNextPacket(s, mtu);
      if p.ok && bio(k) > 0 {
        FillPacketAdvances(s, mtu);
        TilesArePieces(s.msgs, PosOf(s), p.sent, PosOf(p.s));
        SendsPieces(p.s, mtu, bio, k + 1);
        assert SendLoop(s, mtu, bio, k).packets[1..] == SendLoop(p.s, mtu, bio, k + 1).packets;
      }
    }
  }

  /** Every record of a session is a piece of the flight. */
  lemma {:induction false} SessionSendsPieces(s: Sender, attempts: seq<Attempt>)
    requires InPlace(s) && s.w.Valid() && s.written <= |s.msgs|
    ensures AllPieces(s.msgs, Session(s, attempts))
    decreases |attempts|
  {
    hide SendLoop, WholeMessage, IsPiece, Pieces;
    if attempts != [] {
      var a := attempts[0];
      var from := StartOf(s, a);
      SendsPieces(from, a.mtu, a.bio, 0);
      SendTiles(from, a.mtu, a.bio, 0);
      SessionSendsPieces(SendLoop(from, a.mtu, a.bio, 0).s, attempts[1..]);
    }
  }

  /** The handshake messages of a flight that go out in one epoch. */
  function InEpoch(msgs: seq<OutMsg>, epoch: nat): seq<Fragment> {
    if msgs == [] then [] else
    var last := msgs[|msgs| - 1];
    InEpoch(msgs[..|msgs| - 1], epoch) +
    (if last.epoch == epoch && !last.isCcs && WholeMessage(last.data).Some?
     then [WholeMessage(last.data).value] else [])
  }

  lemma {:induction false} InEpochHas(msgs: seq<OutMsg>, epoch: nat, i: nat)
    requires i < |msgs| && msgs[i].epoch == epoch && !msgs[i].isCcs && WholeMessage(msgs[i].data).Some?
    ensures WholeMessage(msgs[i].data).value in InEpoch(msgs, epoch)
    decreases |msgs|
  {
    hide WholeMessage;
    if i < |msgs| - 1 {
      InEpochHas(msgs[..|msgs| - 1], epoch, i);
    }
  }

  /** `plain` is bytes [off, off + len) of message `j`, none only if it is empty. */
  predicate PieceOf(flight: seq<Fragment>, plain: seq<byte>, j: nat, off: nat, len: nat) {
    && j < |flight| && off + len <= |flight[j].body| && (len > 0 || flight[j].body == [])
    && plain == FragmentBytes(Cut(flight[j].hdr, flight[j].body, off, len))
  }

  ghost predicate SomePiece(flight: seq<Fragment>, plain: seq<byte>) {
    exists j: nat, off: nat, len: nat :: PieceOf(flight, plain, j, off, len)
  }

  lemma PieceInEpoch(msgs: seq<OutMsg>, x: Sent, epoch: nat)
    requires IsPiece(msgs, x) && x.rec.epoch == epoch
    ensures (x.rec.typ == RT_HANDSHAKE && SomePiece(InEpoch(msgs, epoch), x.plain)) ||
            (x.rec.typ == RT_CHANGE_CIPHER_SPEC && x.plain == CCS_BODY)
  {
    hide WholeMessage, FragmentBytes;
    var p: Pos :| PieceAt(msgs, p, x).Some?;
    if !msgs[p.written].isCcs {
      var f := WholeMessage(msgs[p.written].data).value;
      InEpochHas(msgs, epoch, p.written);
      var flight := InEpoch(msgs, epoch);
      var j :| 0 <= j < |flight| && flight[j] == f;
      assert PieceOf(flight, x.plain, j, p.offset, x.len);
    }
  }

  lemma CcsPieceMessage(msgs: seq<OutMsg>, x: Sent)
    requires IsPiece(msgs, x)
    ensures |x.plain| <= |x.rec.body|
    ensures x.rec.typ == RT_CHANGE_CIPHER_SPEC ==>
              exists i :: 0 <= i < |msgs| && msgs[i].isCcs && msgs[i].epoch == x.rec.epoch
  {
  }

  lemma {:induction false} InEpochFrom(msgs: seq<OutMsg>, epoch: nat, j: nat) returns (w: nat)
    requires j < |InEpoch(msgs, epoch)|
    ensures w < |msgs| && msgs[w].epoch == epoch && !msgs[w].isCcs && WholeMessage(msgs[w].data).Some?
    ensures WholeMessage(msgs[w].data).value == InEpoch(msgs, epoch)[j]
    decreases |msgs|
  {
    hide WholeMessage;
    var front := msgs[..|msgs| - 1];
    if j < |InEpoch(front, epoch)| {
      w := InEpochFrom(front, epoch, j);
    } else {
      w := |msgs| - 1;
    }
  }

  // ----- How large the records are ----------------------------------------

  /** What sealing adds to a plaintext of that epoch. */
  function Overhead(w: WriteState, epoch: nat): nat {
    w.MaxSealOverhead(epoch != w.epoch)
  }

  /** The cipher of an epoch, the writer's current one or the one before. */
  function CipherOf(w: WriteState, epoch: nat): WriteCipher {
    if epoch == w.epoch then w.cipher else w.lastCipher
  }

  /** The record's body is its plaintext, sealed by the cipher of its epoch under
      its own epoch and number. */
  predicate SealedAs(w: WriteState, x: Sent) {
    && (x.rec.epoch == w.epoch || x.rec.epoch + 1 == w.epoch) && x.rec.version == w.cipher.version
    && x.rec.body == CipherOf(w, x.rec.epoch).seal(x.rec.typ, x.rec.epoch, x.rec.seqNum, x.plain)
  }

  /** A valid record of at most `mtu` bytes, sealed under its own epoch and
      number, whose handshake plaintext leaves room for everything that sealing
      may add. */
  predicate Fits(w: WriteState, x: Sent, mtu: nat) {
    && x.rec.Valid() && RecordSize(x.rec) <= mtu && SealedAs(w, x)
    && (x.rec.typ == RT_HANDSHAKE ==> |x.plain| + Overhead(w, x.rec.epoch) <= mtu)
  }

  predicate AllFit(w: WriteState, sent: seq<Sent>, mtu: nat) {
    forall i :: 0 <= i < |sent| ==> Fits(w, sent[i], mtu)
  }

  /** Only the counters of the two writers differ. */
  ghost predicate SameCiphers(w: WriteState, w': WriteState) {
    w' == w.(seqNum := w'.seqNum, lastSeqNum := w'.lastSeqNum)
  }

  lemma SealFits(w: WriteState, previous: bool, typ: byte, plain: seq<byte>, maxOut: nat)
    requires w.Valid() && (previous ==> w.epoch >= 1)
    ensures var sealing := SealRecord(w, previous, typ, plain, maxOut);
            && SameCiphers(w, sealing.state) && sealing.state.Valid()
            && (sealing.rec.Some? ==>
                  sealing.rec.value.Valid() && sealing.rec.value.typ == typ &&
                  RecordSize(sealing.rec.value) <= maxOut && sealing.rec.value.epoch == w.Epoch(previous) &&
                  forall len :: SealedAs(w, Sent(sealing.rec.value, plain, len)))
  {
  }

  /** The room left for a fragment is what remains of the MTU after both headers
      and the most that sealing may add. */
  lemma FragmentFits(s: Sender, previous: bool, f: Fragment, maxOut: nat)
    requires s.w.Valid() && (previous ==> s.w.epoch >= 1)
    ensures var r := SealFragment(s, previous, f, maxOut);
            && SameCiphers(s.w, r.s.w) && r.s.w.Valid()
            && (r.SealSuccess? || r.SealPartial? ==>
                  Fits(s.w, r.sent, maxOut) && s.offset <= |f.body| && r.sent.rec.epoch == s.w.Epoch(previous) &&
                  |r.sent.plain| == HM_HEADER_LENGTH +
                    Min(|f.body| - s.offset, maxOut - HM_HEADER_LENGTH - s.w.MaxSealOverhead(previous)))
  {
    hide SealRecord, FragmentBytes;
    var overhead := s.w.MaxSealOverhead(previous);
    if s.offset <= |f.body| && maxOut >= HM_HEADER_LENGTH + 1 + overhead {
      var todo := Min(|f.body| - s.offset, maxOut - HM_HEADER_LENGTH - overhead);
      var cut := Cut(f.hdr, f.body, s.offset, todo);
      FragmentLength(cut);
      SealFits(s.w, previous, RT_HANDSHAKE, FragmentBytes(cut), maxOut);
    }
  }

  lemma NextMessageFits(s: Sender, maxOut: nat)
    requires s.w.Valid() && s.written < |s.msgs|
    ensures var r := SealNextMessage(s, maxOut);
            && SameCiphers(s.w, r.s.w) && r.s.w.Valid()
            && (r.SealSuccess? || r.SealPartial? ==> Fits(s.w, r.sent, maxOut))
  {
    hide SealFragment, SealRecord, WholeMessage;
    var msg := s.msgs[s.written];
    var use := UsePrevious(s.w, msg);
    if use.Some? {
      if msg.isCcs {
        SealFits(s.w, use.value, RT_CHANGE_CIPHER_SPEC, CCS_BODY, maxOut);
      } else if WholeMessage(msg.data).Some? {
        FragmentFits(s, use.value, WholeMessage(msg.data).value, maxOut);
      }
    }
  }

  lemma {:induction false} PacketFits(s: Sender, maxOut: nat)
    requires s.w.Valid()
    ensures var p := FillPacket(s, maxOut);
            SameCiphers(s.w, p.s.w) && p.s.w.Valid() && AllFit(s.w, p.sent, maxOut)
    decreases s.MessagesLeft()
  {
    hide SealNextMessage, RecordSize;
    if s.written < |s.msgs| {
      NextMessageFits(s, maxOut);
      NextMessageAdvances(s, maxOut);
      var r := SealNextMessage(s, maxOut);
      if r.SealSuccess? && RecordSize(r.sent.rec) <= maxOut {
        PacketFits(r.s.(written := r.s.written + 1), maxOut - RecordSize(r.sent.rec));
      }
    }
  }

  lemma {:induction false} SendFits(s: Sender, mtu: nat, bio: nat -> int, k: nat)
    requires s.w.Valid()
    ensures var sending := SendLoop(s, mtu, bio, k);
            SameCiphers(s.w, sending.s.w) && sending.s.w.Valid() && AllFit(s.w, Flatten(sending.packets), mtu)
    decreases s.MessagesLeft(), s.BytesLeft()
  {
    hide FillPacket, RecordSize;
    if s.written < |s.msgs| {
      PacketFits(s, mtu);
      var p := SealNextPacket(s, mtu);
      if p.ok && bio(k) > 0 {
        FillPacketAdvances(s, mtu);
        SendFits(p.s, mtu, bio, k + 1);
        assert SendLoop(s, mtu, bio, k).packets[1..] == SendLoop(p.s, mtu, bio, k + 1).packets;
      }
    }
  }

  /** No record of a session is larger than the largest MTU used. */
  lemma {:induction false} SessionFits(s: Sender, attempts: seq<Attempt>, mtu: nat)
    requires s.w.Valid()
    requires forall i :: 0 <= i < |attempts| ==> attempts[i].mtu <= mtu
    ensures AllFit(s.w, Session(s, attempts), mtu)
    decreases |attempts|
  {
    hide SendLoop, RecordSize;
    if attempts != [] {
      var a := attempts[0];
      var sending := SendLoop(StartOf(s, a), a.mtu, a.bio, 0);
      SendFits(StartOf(s, a), a.mtu, a.bio, 0);
      SessionFits(sending.s, attempts[1..], mtu);
    }
  }

  // ----- What a packet is on the wire -------------------------------------

  function PacketBytes(sent: seq<Sent>): seq<byte> {
    if sent == [] then [] else RecordBytes(sent[0].rec) + PacketBytes(sent[1..])
  }

  /** What is left of a packet parses as its next record, unless that is longer
      than any receiver admits. */
  lemma PacketParses(sent: seq<Sent>, i: nat)
    requires i < |sent| && sent[i].rec.Valid()
    ensures ParseRecord(PacketBytes(sent[i..])) ==
            if |sent[i].rec.body| <= MAX_ENCRYPTED then Some((sent[i].rec, PacketBytes(sent[i + 1..]))) else None
  {
    hide RecordBytes, ParseRecord;
    assert sent[i..][1..] == sent[i + 1..];
    RecordRoundTrip(sent[i].rec, PacketBytes(sent[i + 1..]));
  }
}
