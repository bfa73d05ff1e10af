/** Whole runs of the handshake over real records: agreement, and completion. */
module HandshakeRecordRuns {
  import opened Bytes
  import opened HandshakeScript
  import opened HandshakeMachines
  import opened HandshakeProduct
  import opened HandshakeRuns
  import opened HandshakeRecords
  import opened HandshakeFollows

  // ----- How the writer cuts -----------------------------------------------

  /** One message in records of at most `max` bytes. */
  function Chunks(bytes: seq<byte>, encrypted: bool, max: nat): seq<Piece>
    requires max > 0
    decreases |bytes|
  {
    var n := Min(max, |bytes|);
    [Part(bytes[..n], encrypted)] + (if n == |bytes| then [] else Chunks(bytes[n..], encrypted, max))
  }

  /** A flight message by message. */
  function ChunkedFlight(codec: Codec, flight: seq<Record>, max: nat): seq<Piece>
    requires max > 0
  {
    if flight == [] then [] else
    (match flight[0].content
     case Handshake(m) => Chunks(codec.encode(m), flight[0].encrypted, max)
     case ChangeCipherSpec => [CcsPiece(flight[0].encrypted)]) + ChunkedFlight(codec, flight[1..], max)
  }

  lemma TaggedSplit(s: seq<byte>, n: nat, enc: bool)
    requires n <= |s|
    ensures Tagged(s[..n], enc) + Tagged(s[n..], enc) == Tagged(s, enc)
  {
  }

  lemma {:induction false} ChunksJoin(bytes: seq<byte>, encrypted: bool, max: nat)
    requires max > 0 && bytes != []
    ensures Flat(Chunks(bytes, encrypted, max)) == Tagged(bytes, encrypted) && NoneEmpty(Chunks(bytes, encrypted, max))
    decreases |bytes|
  {
    hide Tagged;
    var n := Min(max, |bytes|);
    var rest := if n == |bytes| then [] else Chunks(bytes[n..], encrypted, max);
    assert ([Part(bytes[..n], encrypted)] + rest)[1..] == rest;
    TaggedSplit(bytes, n, encrypted);
    if n < |bytes| {
      ChunksJoin(bytes[n..], encrypted, max);
    } else {
      assert bytes[..n] == bytes;
      assert Tagged(bytes, encrypted) + [] == Tagged(bytes, encrypted);
    }
  }

  /** That is one of the ways to cut it. */
  lemma {:induction false} ChunkedFlightCuts(codec: Codec, maxLen: nat, flight: seq<Record>, max: nat)
    requires max > 0 && AllEncodable(codec, maxLen, flight)
    ensures Cuts(codec, ChunkedFlight(codec, flight, max), flight)
  {
    hide Chunks, R.BodyLength;
    if flight != [] {
      ChunkedFlightCuts(codec, maxLen, flight[1..], max);
      var rest := ChunkedFlight(codec, flight[1..], max);
      match flight[0].content
      case Handshake(m) =>
        assert Encodable(codec, maxLen, flight[0].content.m);
        ChunksJoin(codec.encode(m), flight[0].encrypted, max);
        FlatJoin(Chunks(codec.encode(m), flight[0].encrypted, max), rest);
      case ChangeCipherSpec =>
        FlatJoin([CcsPiece(flight[0].encrypted)], rest);
    }
  }

  // ----- Agreement --------------------------------------------------------

  function RunPair(p: Params, codec: Codec, maxLen: nat, pair: Pair, ds: seq<Doing>): Pair
    decreases |ds|
  {
    if ds == [] then pair else RunPair(p, codec, maxLen, StepPair(p, codec, maxLen, pair, ds[0]), ds[1..])
  }

  function Unwired(n: Node): Wired { Wired(n, R.Reader(None, false), [], []) }

  function StartPair(p: Params): Pair {
    Pair(Unwired(ClientNode(Start(p).client)), Unwired(ServerNode(Start(p).server)))
  }

  lemma StartsTogether(p: Params, codec: Codec)
    ensures Both(p, codec, StartPair(p), Start(p))
  {
  }

  /** One act is followed by some steps of the two ends that exchange one message
      to a record. */
  lemma {:induction false} ActFollows(p: Params, codec: Codec, maxLen: nat, pair: Pair, sys: System, d: Doing)
    returns (gs: seq<Happening>)
    requires Inv(p, sys) && CodecOk(p, codec, maxLen) && Both(p, codec, pair, sys)
    ensures Both(p, codec, StepPair(p, codec, maxLen, pair, d), RunAll(p, sys, gs)) && Inv(p, RunAll(p, sys, gs))
  {
    hide Inv, CodecOk, Both, StepPair, Step;
    gs := [];
    match d.a {
      case Proceed(retry, cut) => gs := ProceedFollows(p, codec, maxLen, pair, sys, d.atClient, retry, cut);
      case Send(n) => SendFollows(p, codec, maxLen, pair, sys, d.atClient, n);
      case Receive => gs := ReceiveFollows(p, codec, maxLen, pair, sys, d.atClient);
      case Wake => gs := WakeFollows(p, codec, maxLen, pair, sys, d.atClient);
    }
    RunKeepsInv(p, sys, gs);
  }

  /** Whatever two ends do over real records, two ends that exchange one message
      to a record can do so that they are followed. */
  lemma {:induction false} RunFollows(p: Params, codec: Codec, maxLen: nat, pair: Pair, sys: System, ds: seq<Doing>)
    returns (gs: seq<Happening>)
    requires Inv(p, sys) && CodecOk(p, codec, maxLen) && Both(p, codec, pair, sys)
    ensures Both(p, codec, RunPair(p, codec, maxLen, pair, ds), RunAll(p, sys, gs)) && Inv(p, RunAll(p, sys, gs))
    decreases |ds|
  {
    hide Inv, CodecOk, Both, StepPair, Step;
    gs := [];
    if ds != [] {
      gs := ActFollows(p, codec, maxLen, pair, sys, ds[0]);
      var more := RunFollows(p, codec, maxLen, StepPair(p, codec, maxLen, pair, ds[0]), RunAll(p, sys, gs), ds[1..]);
      RunAllJoins(p, sys, gs, more);
      gs := gs + more;
    }
  }

  predicate DonePair(pair: Pair) {
    && pair.client.node.ClientNode? && pair.client.node.c.state == ClientDone
    && pair.server.node.ServerNode? && pair.server.node.s.state == ServerDone
  }

  /** Agreement however messages are cut into records: several in one record, one
      in several, records that end in the middle of a header, flights written in
      any portions.  Neither end fails, transcripts are prefixes of the script,
      and when both are done they are all of it, with the same secret, and no
      byte is left in a buffer or on the way. */
  lemma {:induction false} AgreementHoweverCut(p: Params, codec: Codec, maxLen: nat, ds: seq<Doing>)
    requires p.Valid() && CodecOk(p, codec, maxLen)
    ensures var end := RunPair(p, codec, maxLen, StartPair(p), ds);
            var (messages, secret) := Progress(p, End(p));
            var c, s := end.client, end.server;
            && !c.node.Wait().Failed? && !s.node.Wait().Failed?
            && c.node.Core().transcript <= messages && s.node.Core().transcript <= messages
            && (DonePair(end) ==>
                  c.node.Core().transcript == messages == s.node.Core().transcript &&
                  c.node.Core().secret == secret == s.node.Core().secret &&
                  c.hs.Bytes() == [] && s.hs.Bytes() == [] &&
                  c.incoming == [] && s.incoming == [] && c.out == [] && s.out == [])
  {
    hide Inv, CodecOk, Both, Progress, RunPair;
    StartInv(p);
    StartsTogether(p, codec);
    var gs := RunFollows(p, codec, maxLen, StartPair(p), Start(p), ds);
    var end, sys := RunPair(p, codec, maxLen, StartPair(p), ds), RunAll(p, Start(p), gs);
    Agreement(p, gs);
    BothKnow(p, codec, end, sys);
    if DonePair(end) {
      DoneHoldsNothing(p, sys);
      DoneHasNothing(p, codec, end, sys);
    }
  }

  lemma DoneHoldsNothing(p: Params, sys: System)
    requires Inv(p, sys) && Done(sys)
    ensures sys.client.core.buf.None? && sys.server.core.buf.None?
  {
    hide Linked;
  }

  lemma {:induction false} BothKnow(p: Params, codec: Codec, pair: Pair, sys: System)
    requires Both(p, codec, pair, sys) && !sys.client.wait.Failed? && !sys.server.wait.Failed?
    ensures var c, s := pair.client.node, pair.server.node;
            && !c.Wait().Failed? && !s.Wait().Failed?
            && c.Core().transcript == sys.client.core.transcript && s.Core().transcript == sys.server.core.transcript
            && c.Core().secret == sys.client.core.secret && s.Core().secret == sys.server.core.secret
            && (DonePair(pair) <==> Done(sys))
  {
    hide SameStream, AsksFor, Look;
  }

  lemma {:induction false} DoneHasNothing(p: Params, codec: Codec, pair: Pair, sys: System)
    requires Both(p, codec, pair, sys) && Done(sys) && sys.c2s == [] && sys.s2c == []
    requires sys.client.core.buf.None? && sys.server.core.buf.None?
    ensures var c, s := pair.client, pair.server;
            && c.hs.Bytes() == [] && s.hs.Bytes() == []
            && c.incoming == [] && s.incoming == [] && c.out == [] && s.out == []
  {
    hide AsksFor, Look, PieceItems;
    NoItems(codec);
  }

  // ----- Completion -------------------------------------------------------

  predicate IsDone(n: Node) { if n.ClientNode? then n.c.state == ClientDone else n.s.state == ServerDone }

  function Rank(p: Params, n: Node): nat {
    if n.ClientNode? then ClientRank(p, n.c.state) else ServerRank(p, n.s.state)
  }

  /** What an end can do if the world is willing; it cuts its flights as the writer
      does. */
  function NextAct(p: Params, codec: Codec, w: Wired, max: nat): Option<Act>
    requires max > 0
  {
    match w.node.Wait()
    case Ok =>
      if IsDone(w.node) then None
      else Some(Proceed(false, ChunkedFlight(codec, NodeStep(p, Looking(codec, w), false).Core().flight, max)))
    case FlushFlight => Some(Send(|w.out|))
    case Paused => Some(Wake)
    case ReadMessage | ReadChangeCipherSpec => if w.incoming == [] then None else Some(Receive)
    case Failed(_) => None
  }

  function NextDoing(p: Params, codec: Codec, pair: Pair, max: nat): Option<Doing>
    requires max > 0
  {
    match NextAct(p, codec, pair.client, max)
    case Some(a) => Some(Doing(true, a))
    case None =>
      match NextAct(p, codec, pair.server, max)
      case Some(a) => Some(Doing(false, a))
      case None => None
  }

  function Ranks(p: Params, pair: Pair): nat { Rank(p, pair.client.node) + Rank(p, pair.server.node) }

  function WireLeft(codec: Codec, w: Wired): nat {
    2 * |w.incoming| + 3 * |w.out| + WaitRank(w.node.Wait(), Look(codec, w.hs))
  }

  function BothLeft(codec: Codec, pair: Pair): nat { WireLeft(codec, pair.client) + WireLeft(codec, pair.server) }

  ghost predicate Nearer(p: Params, codec: Codec, pair': Pair, pair: Pair) {
    || Ranks(p, pair') < Ranks(p, pair)
    || (Ranks(p, pair') == Ranks(p, pair) && BothLeft(codec, pair') < BothLeft(codec, pair))
  }

  /** The writer's cut of a flight is a proper one. */
  lemma {:induction false} CutIsProper(p: Params, codec: Codec, maxLen: nat, pair: Pair, sys: System, b: bool, max: nat)
    requires Inv(p, sys) && CodecOk(p, codec, maxLen) && Both(p, codec, pair, sys)
    requires EndOf(pair, b).node.Wait() == Ok && max > 0
    ensures var next := NodeStep(p, Looking(codec, EndOf(pair, b)), false);
            next.Wait() == FlushFlight ==> Cuts(codec, ChunkedFlight(codec, next.Core().flight, max), next.Core().flight)
  {
    hide Inv, CodecOk, Look, AsksFor, Step, NodeStep, Cuts, SameStream;
    var w := EndOf(pair, b);
    var gs := CatchUp(p, codec, maxLen, pair, sys, b, false);
    var sys1 := RunAll(p, sys, gs);
    RunKeepsInv(p, sys, gs);
    WhereFollowed(p, codec, maxLen, pair, sys1, b);
    var n := NodeOf(sys1, b);
    if n.Wait() == Ok {
      var run := Happening(b, HandshakeMachines.Run(false));
      RunMoves(p, sys1, b, false);
      RunOne(p, sys1, run);
      RunKeepsInv(p, sys1, [run]);
      FlightEncodable(p, codec, maxLen, Step(p, sys1, run), b);
      ChunkedFlightCuts(codec, maxLen, NodeStep(p, n, false).Core().flight, max);
      if n.Core().buf == Look(codec, w.hs) {
        assert Looking(codec, w) == n;
      } else {
        assert Looking(codec, w) == n.With(Ok, n.Core().(buf := Look(codec, w.hs)));
      }
    } else {
      assert Looking(codec, w) == n.With(Ok, n.Core());
      AsksAgain(p, n.With(Ok, n.Core()), false);
    }
  }

  /** A step of the machine that does not fail. */
  lemma StepNearer(p: Params, n: Node)
    requires n.Wait() == Ok && !IsDone(n) && !NodeStep(p, n, false).Wait().Failed?
    ensures var next := NodeStep(p, n, false);
            || Rank(p, next) < Rank(p, n)
            || (Rank(p, next) == Rank(p, n) && n.Core().buf.None? && next.Wait() == ReadMessage)
  {
    hide ClientStep, ServerStep, ClientRank, ServerRank, AsksFor, Ignores;
    StepLooksRight(p, n, false);
    if n.ClientNode? {
      ClientStepNearer(p, n.c);
    } else {
      ServerStepNearer(p, n.s);
    }
  }

  /** What an act leaves of an end's part of the measure. */
  lemma {:induction false} WireActNearer(p: Params, codec: Codec, maxLen: nat, w: Wired, max: nat)
    requires max > 0 && NextAct(p, codec, w, max).Some? && !NextAct(p, codec, w, max).value.Proceed?
    requires !ActWired(p, codec, maxLen, w, NextAct(p, codec, w, max).value).0.node.Wait().Failed?
    ensures var (w', sent) := ActWired(p, codec, maxLen, w, NextAct(p, codec, w, max).value);
            Rank(p, w'.node) == Rank(p, w.node) && WireLeft(codec, w') + 2 * |sent| < WireLeft(codec, w)
  {
    hide Look, Chunks, ChunkedFlight, NodeStep, R.AcceptRecord, ClientRank, ServerRank;
  }

  lemma {:induction false} ProceedNearer(p: Params, codec: Codec, w: Wired, max: nat)
    requires max > 0 && w.node.Wait() == Ok && !IsDone(w.node) && w.out == []
    requires var cut := NextAct(p, codec, w, max).value.cut;
             var next := NodeStep(p, Looking(codec, w), false);
             && !ProceedWired(p, codec, w, false, cut).node.Wait().Failed?
             && (next.Wait() == FlushFlight ==> Cuts(codec, cut, next.Core().flight))
    ensures var w' := ProceedWired(p, codec, w, false, NextAct(p, codec, w, max).value.cut);
            || Rank(p, w'.node) < Rank(p, w.node)
            || (Rank(p, w'.node) == Rank(p, w.node) && WireLeft(codec, w') < WireLeft(codec, w))
  {
    hide Chunks, ChunkedFlight, NodeStep, Cuts, ClientRank, ServerRank, R.ParseMessage;
    StepNearer(p, Looking(codec, w));
  }

  lemma {:induction false} NextIsNearer(p: Params, codec: Codec, maxLen: nat, pair: Pair, sys: System, max: nat)
    returns (gs: seq<Happening>)
    requires Inv(p, sys) && CodecOk(p, codec, maxLen) && Both(p, codec, pair, sys) && max > 0
    requires NextDoing(p, codec, pair, max).Some?
    ensures var pair' := StepPair(p, codec, maxLen, pair, NextDoing(p, codec, pair, max).value);
            Nearer(p, codec, pair', pair) && Both(p, codec, pair', RunAll(p, sys, gs)) && Inv(p, RunAll(p, sys, gs))
  {
    hide Inv, CodecOk, Follows, Look, NextAct, ActWired, Rank, WireLeft, NodeStep;
    var d := NextDoing(p, codec, pair, max).value;
    var b := d.atClient;
    var w, peer := EndOf(pair, b), EndOf(pair, !b);
    gs := ActFollows(p, codec, maxLen, pair, sys, d);
    var pair' := StepPair(p, codec, maxLen, pair, d);
    NobodyFailed(p, codec, pair', RunAll(p, sys, gs));
    assert NextAct(p, codec, w, max) == Some(d.a) && EndOf(pair', b) == ActWired(p, codec, maxLen, w, d.a).0;
    PeerWireLeft(codec, peer, ActWired(p, codec, maxLen, w, d.a).1);
    if d.a.Proceed? {
      ProceedsOk(p, codec, maxLen, pair, sys, b, max);
    } else {
      WireActNearer(p, codec, maxLen, w, max);
    }
  }

  lemma PeerWireLeft(codec: Codec, w: Wired, sent: seq<Piece>)
    ensures WireLeft(codec, w.(incoming := w.incoming + sent)) == WireLeft(codec, w) + 2 * |sent|
  {
  }

  lemma {:induction false} NobodyFailed(p: Params, codec: Codec, pair: Pair, sys: System)
    requires Inv(p, sys) && Both(p, codec, pair, sys)
    ensures forall b :: !EndOf(pair, b).node.Wait().Failed?
  {
    hide Inv, SameStream, AsksFor, Look;
    NotFailed(p, sys);
  }

  lemma {:induction false} ProceedsOk(p: Params, codec: Codec, maxLen: nat, pair: Pair, sys: System, b: bool, max: nat)
    requires Inv(p, sys) && CodecOk(p, codec, maxLen) && Both(p, codec, pair, sys) && max > 0
    requires var w := EndOf(pair, b);
             NextAct(p, codec, w, max).Some? && NextAct(p, codec, w, max).value.Proceed? &&
             !ActWired(p, codec, maxLen, w, NextAct(p, codec, w, max).value).0.node.Wait().Failed?
    ensures var w := EndOf(pair, b);
            var (w', sent) := ActWired(p, codec, maxLen, w, NextAct(p, codec, w, max).value);
            && sent == []
            && (|| Rank(p, w'.node) < Rank(p, w.node)
                || (Rank(p, w'.node) == Rank(p, w.node) && WireLeft(codec, w') < WireLeft(codec, w)))
  {
    hide Inv, CodecOk, Look, Rank, WireLeft, NodeStep, ProceedWired, Cuts, SameStream, AsksFor;
    CutIsProper(p, codec, maxLen, pair, sys, b, max);
    ProceedNearer(p, codec, EndOf(pair, b), max);
  }

  /** An end with nothing on the wire to it follows one with nothing on its way. */
  lemma {:induction false} NothingOnTheWay(p: Params, codec: Codec, maxLen: nat, pair: Pair, sys: System, b: bool)
    requires Inv(p, sys) && CodecOk(p, codec, maxLen) && Both(p, codec, pair, sys)
    requires EndOf(pair, b).incoming == [] && EndOf(pair, !b).out == []
    requires EndOf(pair, b).node.Wait() == ReadMessage || EndOf(pair, b).node.Wait() == ReadChangeCipherSpec
    ensures Incoming(sys, b) == [] && NodeOf(sys, b).Wait() == EndOf(pair, b).node.Wait()
  {
    hide Inv, CodecOk, AsksFor, Items, Flat, Tagged, R.ParseMessage;
    var w, n, incoming := EndOf(pair, b), NodeOf(sys, b), Incoming(sys, b);
    InvWaits(p, sys, b);
    NoItems(codec);
    NoBytes(n.Core().readEnc);
    var all := Tagged(w.hs.Bytes(), n.Core().readEnc);
    assert Held(n.Core()) + incoming == incoming;
    assert all + [] + [] == all == Items(codec, incoming);
    if incoming != [] {
      OnTheWay(p, codec, maxLen, sys, b);
      ArriveMoves(p, sys, b);
      AtLeastFirst(codec, maxLen, incoming);
      if w.hs.Bytes() != [] {
        FirstMessage(codec, maxLen, w.hs.Bytes(), n.Core().readEnc, [], incoming);
      }
    }
  }

  lemma {:induction false} AtLeastFirst(codec: Codec, maxLen: nat, records: seq<Record>)
    requires records != [] && AllEncodable(codec, maxLen, records)
    ensures 0 < |RecordItems(codec, records[0])| <= |Items(codec, records)|
  {
    if records[0].content.Handshake? {
      assert Encodable(codec, maxLen, records[0].content.m);
    }
  }

  lemma {:induction false} NoDeadlockPair(p: Params, codec: Codec, maxLen: nat, pair: Pair, sys: System, max: nat)
    requires Inv(p, sys) && CodecOk(p, codec, maxLen) && Both(p, codec, pair, sys) && max > 0
    ensures NextDoing(p, codec, pair, max).None? ==> DonePair(pair)
  {
    hide Inv, CodecOk, SameStream, AsksFor, Look, ChunkedFlight, NodeStep;
    if NextDoing(p, codec, pair, max).None? {
      NotFailed(p, sys);
      DoneWaitsOk(p, sys);
      forall b
        ensures NodeAt(sys, b).None?
      {
        assert NextAct(p, codec, EndOf(pair, b), max).None? && NextAct(p, codec, EndOf(pair, !b), max).None?;
        assert EndOf(pair, !b).out == [];
        if EndOf(pair, b).node.Wait() != Ok {
          NothingOnTheWay(p, codec, maxLen, pair, sys, b);
        }
      }
      assert NodeAt(sys, true).None? && NodeAt(sys, false).None?;
      NoDeadlock(p, sys);
    }
  }

  /** What can happen at an end of the system that is followed. */
  function NodeAt(sys: System, b: bool): Option<HandshakeMachines.Event> {
    var n := NodeOf(sys, b);
    NextAt(n.Wait(), IsDone(n), n.Core(), Incoming(sys, b))
  }

  lemma DoneWaitsOk(p: Params, sys: System)
    requires Inv(p, sys)
    ensures sys.client.state == ClientDone ==> sys.client.wait == Ok
    ensures sys.server.state == ServerDone ==> sys.server.wait == Ok
  {
    hide Linked;
  }

  lemma {:induction false} CompletesFrom(p: Params, codec: Codec, maxLen: nat, pair: Pair, sys: System, max: nat)
    returns (ds: seq<Doing>)
    requires Inv(p, sys) && CodecOk(p, codec, maxLen) && Both(p, codec, pair, sys) && max > 0
    ensures DonePair(RunPair(p, codec, maxLen, pair, ds))
    decreases Ranks(p, pair), BothLeft(codec, pair)
  {
    hide Inv, CodecOk, Both, StepPair, NextDoing, Ranks, BothLeft, DonePair;
    NoDeadlockPair(p, codec, maxLen, pair, sys, max);
    if NextDoing(p, codec, pair, max).None? {
      ds := [];
    } else {
      var d := NextDoing(p, codec, pair, max).value;
      var gs := NextIsNearer(p, codec, maxLen, pair, sys, max);
      var rest := CompletesFrom(p, codec, maxLen, StepPair(p, codec, maxLen, pair, d), RunAll(p, sys, gs), max);
      ds := [d] + rest;
      assert ds[1..] == rest;
    }
  }

  lemma {:induction false} RunPairJoins(p: Params, codec: Codec, maxLen: nat, pair: Pair, a: seq<Doing>, b: seq<Doing>)
    ensures RunPair(p, codec, maxLen, pair, a + b) == RunPair(p, codec, maxLen, RunPair(p, codec, maxLen, pair, a), b)
    decreases |a|
  {
    hide StepPair;
    if a == [] {
      assert a + b == b;
    } else {
      assert (a + b)[1..] == a[1..] + b;
      RunPairJoins(p, codec, maxLen, StepPair(p, codec, maxLen, pair, a[0]), a[1..], b);
    }
  }

  /** From wherever a run over real records has got to, the handshake can be
      completed, with records of any size. */
  lemma {:induction false} CompletesHoweverCut(p: Params, codec: Codec, maxLen: nat, ds: seq<Doing>, max: nat)
    returns (more: seq<Doing>)
    requires p.Valid() && CodecOk(p, codec, maxLen) && max > 0
    ensures DonePair(RunPair(p, codec, maxLen, StartPair(p), ds + more))
  {
    hide Inv, CodecOk, Both, RunPair, DonePair;
    StartInv(p);
    StartsTogether(p, codec);
    var gs := RunFollows(p, codec, maxLen, StartPair(p), Start(p), ds);
    more := CompletesFrom(p, codec, maxLen, RunPair(p, codec, maxLen, StartPair(p), ds), RunAll(p, Start(p), gs), max);
    RunPairJoins(p, codec, maxLen, StartPair(p), ds, more);
  }
}
