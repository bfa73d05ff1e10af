/** How an end over real records follows one that exchanges one message to a
    record, step by step. */
module HandshakeFollows {
  import opened Bytes
  import opened HandshakeScript
  import opened HandshakeMachines
  import opened HandshakeProduct
  import opened HandshakeRuns
  import opened HandshakeRecords

  // ----- What the machines do with a message ------------------------------

  /** A step keeps the message it looks at or is done with it, and keeps the read
      keys, but where it changes them. */
  predicate KeepsOrTakes(c: Core, c': Core, inCcs: bool) {
    (c'.buf == c.buf || c'.buf.None?) && (!inCcs ==> c'.readEnc == c.readEnc)
  }

  /** It asks for a message only if it has none, and takes one step to change the
      read keys. */
  predicate WaitsRight(needsNone: bool, inCcs: bool, wait: Wait) {
    (needsNone ==> wait != ReadMessage) && !(inCcs && wait == Ok)
  }

  /** Without a message it asks for one, in any way it is run. */
  ghost predicate AsksFor(p: Params, n: Node) {
    n.Core().buf.None? && forall retry :: NodeStep(p, n, retry) == n.With(ReadMessage, n.Core())
  }

  /** It does not care for one. */
  ghost predicate Ignores(p: Params, n: Node, retry: bool) {
    forall m :: var next := NodeStep(p, n, retry);
      NodeStep(p, n.With(n.Wait(), n.Core().(buf := Some(m))), retry) ==
      next.With(next.Wait(), next.Core().(buf := Some(m)))
  }

  predicate ClientEmits(state: ClientState) {
    state.StartConnect? || state.SendClientCertificate? || state.SendClientKeyExchange? ||
    state.SendClientCertificateVerify? || state.SendClientFinished?
  }

  lemma ClientEmitsKeeps(p: Params, c: Client, retry: bool)
    requires c.wait == Ok && ClientEmits(c.state)
    ensures KeepsOrTakes(c.core, ClientStep(p, c, retry).core, c.state == ProcessServerCcs)
  {
    hide Accept, Read, ReadChecked, BodyOf;
  }

  lemma ClientChecksKeeps(p: Params, c: Client, retry: bool)
    requires c.wait == Ok && (c.state.ReadServerFinished?)
    ensures KeepsOrTakes(c.core, ClientStep(p, c, retry).core, c.state == ProcessServerCcs)
  {
    hide BodyOf, SecretAfter;
  }

  lemma ClientKeepsOrTakes(p: Params, c: Client, retry: bool)
    requires c.wait == Ok
    ensures KeepsOrTakes(c.core, ClientStep(p, c, retry).core, c.state == ProcessServerCcs)
  {
    hide Emit, EmitIf, EmitCcs, ReadChecked, BodyOf, SecretAfter;
    if ClientEmits(c.state) {
      ClientEmitsKeeps(p, c, retry);
    } else if c.state.ReadServerFinished? {
      ClientChecksKeeps(p, c, retry);
    }
  }

  lemma ClientWaitsRight(p: Params, c: Client, retry: bool)
    requires c.wait == Ok
    ensures var next := ClientStep(p, c, retry);
            WaitsRight(c.core.buf.Some? || c.state == ProcessServerCcs, next.state == ProcessServerCcs, next.wait)
  {
    hide Emit, EmitIf, EmitCcs, Accept, Hash, BodyOf;
    match c.state
    case ReadServerKeyExchange =>
    case ReadCertificateRequest =>
    case ReadServerFinished =>
    case _ =>
  }

  predicate ServerEmits(state: ServerState) {
    state.SendServerHello? || state.SendServerCertificate? || state.SendServerKeyExchange? ||
    state.SendServerHelloDone? || state.SendServerFinished?
  }

  lemma ServerEmitsKeeps(p: Params, s: Server, retry: bool)
    requires s.wait == Ok && ServerEmits(s.state)
    ensures KeepsOrTakes(s.core, ServerStep(p, s, retry).core, s.state == ProcessClientCcs)
  {
    hide Accept, Read, ReadChecked, BodyOf;
  }

  lemma ServerChecksKeeps(p: Params, s: Server, retry: bool)
    requires s.wait == Ok && (s.state.ReadClientFinished? || s.state.ReadChannelId? || s.state.ReadClientCertificateVerify?)
    ensures KeepsOrTakes(s.core, ServerStep(p, s, retry).core, s.state == ProcessClientCcs)
  {
    hide BodyOf, SecretAfter;
  }

  lemma ServerKeepsOrTakes(p: Params, s: Server, retry: bool)
    requires s.wait == Ok
    ensures KeepsOrTakes(s.core, ServerStep(p, s, retry).core, s.state == ProcessClientCcs)
  {
    hide Emit, EmitIf, EmitCcs, ReadChecked, BodyOf, SecretAfter;
    if ServerEmits(s.state) {
      ServerEmitsKeeps(p, s, retry);
    } else if s.state.ReadClientFinished? || s.state.ReadChannelId? || s.state.ReadClientCertificateVerify? {
      ServerChecksKeeps(p, s, retry);
    }
  }

  lemma ServerWaitsRight(p: Params, s: Server, retry: bool)
    requires s.wait == Ok
    ensures var next := ServerStep(p, s, retry);
            WaitsRight(s.core.buf.Some? || s.state == ProcessClientCcs, next.state == ProcessClientCcs, next.wait)
  {
    hide Emit, EmitIf, EmitCcs, Accept, Hash, BodyOf;
    match s.state
    case ReadClientCertificate =>
    case ReadClientKeyExchange =>
    case ReadClientFinished =>
    case _ =>
  }

  lemma ClientAsksOrIgnores(p: Params, c: Client, retry: bool)
    requires c.wait == Ok && c.core.buf.None? && c.state != ProcessServerCcs
    ensures if ClientStep(p, c, retry).wait == ReadMessage then AsksFor(p, ClientNode(c))
            else Ignores(p, ClientNode(c), retry)
  {
    hide BodyOf;
  }

  lemma ServerAsksOrIgnores(p: Params, s: Server, retry: bool)
    requires s.wait == Ok && s.core.buf.None? && s.state != ProcessClientCcs
    ensures if ServerStep(p, s, retry).wait == ReadMessage then AsksFor(p, ServerNode(s))
            else Ignores(p, ServerNode(s), retry)
  {
    hide BodyOf;
    match s.state
    case SendServerCertificate =>
    case SendServerHelloDone =>
    case SendServerFinished =>
    case _ =>
  }

  // ----- How a real end follows one with a message to a record -------------

  function NodeOf(sys: System, atClient: bool): Node {
    if atClient then ClientNode(sys.client) else ServerNode(sys.server)
  }

  function Incoming(sys: System, atClient: bool): seq<Record> { if atClient then sys.s2c else sys.c2s }

  /** The message an end looks at, as a record. */
  function Held(core: Core): seq<Record> {
    if core.buf.Some? then [Record(Handshake(core.buf.value), core.readEnc)] else []
  }

  /** The bytes in the buffer, on their way and still to write are the messages
      looked at and on their way. */
  ghost predicate SameStream(codec: Codec, w: Wired, peerOut: seq<Piece>, n: Node, incoming: seq<Record>) {
    Tagged(w.hs.Bytes(), n.Core().readEnc) + Flat(w.incoming) + Flat(peerOut) == Items(codec, Held(n.Core()) + incoming)
  }

  /** An end that still writes a flight follows one that has written it; an end
      that has got some bytes, one that still waits for its message. */
  ghost predicate WaitFollows(p: Params, wait: Wait, n: Node) {
    && (n.Wait() == wait || (wait == FlushFlight && n.Wait() == Ok) || (wait == Ok && n.Wait() == ReadMessage))
    && n.Wait() != FlushFlight && (n.Wait() == ReadMessage ==> AsksFor(p, n.With(Ok, n.Core())))
  }

  ghost predicate Follows(p: Params, codec: Codec, w: Wired, peerOut: seq<Piece>, n: Node, incoming: seq<Record>) {
    && w.node == n.With(w.node.Wait(), n.Core().(buf := None)) && WaitFollows(p, w.node.Wait(), n)
    && !w.hs.hasMessage && NoneEmpty(w.incoming) && NoneEmpty(w.out) && (w.node.Wait() != FlushFlight ==> w.out == [])
    && (n.InCcs() && n.Wait() == Ok ==> w.hs.Bytes() == [])
    && (n.Core().buf.Some? ==> Look(codec, w.hs) == n.Core().buf)
    && (w.node.Wait() == ReadMessage ==> Look(codec, w.hs).None?)
    && SameStream(codec, w, peerOut, n, incoming)
  }

  function EndOf(pair: Pair, atClient: bool): Wired { if atClient then pair.client else pair.server }

  ghost predicate FollowsAt(p: Params, codec: Codec, pair: Pair, sys: System, b: bool) {
    Follows(p, codec, EndOf(pair, b), EndOf(pair, !b).out, NodeOf(sys, b), Incoming(sys, b))
  }

  ghost predicate Both(p: Params, codec: Codec, pair: Pair, sys: System) {
    FollowsAt(p, codec, pair, sys, true) && FollowsAt(p, codec, pair, sys, false)
  }

  // ----- Messages on their way are the script's ----------------------------

  ghost predicate InScript(p: Params, records: seq<Record>) {
    forall i :: 0 <= i < |records| && records[i].content.Handshake? ==> records[i].content.m in Progress(p, End(p)).0
  }

  lemma {:induction false} CarriedInScript(p: Params, fromClient: bool, v: View, j: nat, i: nat,
                                           records: seq<Record>, w: View)
    requires Carries(p, fromClient, v, j, i, records, w) && (v.transcript, v.secret) == Progress(p, j) && i <= End(p)
    ensures InScript(p, records)
    decreases i - j
  {
    hide BodyOf, SecretAfter;
    if j < i {
      if Phase(p, j).None? {
        CarriedInScript(p, fromClient, v, j + 1, i, records, w);
      } else {
        CarriedInScript(p, fromClient, After(v, records[0]), j + 1, i, records[1..], w);
        ProgressGrows(p, j + 1, End(p));
        if records[0].content.Handshake? {
          assert Progress(p, j + 1).0 == v.transcript + [records[0].content.m];
          assert Progress(p, End(p)).0[|v.transcript|] == records[0].content.m;
        }
        assert forall k :: 1 <= k < |records| ==> records[k] == records[1..][k - 1];
      }
    }
  }

  /** So they can be written and read. */
  lemma {:induction false} OnTheWay(p: Params, codec: Codec, maxLen: nat, sys: System, atClient: bool)
    requires Inv(p, sys) && CodecOk(p, codec, maxLen)
    ensures AllEncodable(codec, maxLen, Held(NodeOf(sys, atClient).Core()) + Incoming(sys, atClient))
  {
    hide Progress, Carries;
    PhasesEnd(p, sys);
    var c, s := sys.client, sys.server;
    var i, j := ClientPhase(p, c), ServerPhase(p, s);
    var toServer, toClient := ToServer(sys), ToClient(sys);
    if Ahead(p, true, i, c.core, ClientReadsEnc(c), j, s.core, ServerReadsEnc(s), sys.c2s, sys.s2c) {
      CarriedInScript(p, true, View(s.core.transcript, s.core.secret, ServerReadsEnc(s)), j, i, toServer,
                      View(c.core.transcript, c.core.secret, c.core.writeEnc));
      FrontInScript(p, s.core, ServerReadsEnc(s), sys.c2s, c.core.flight);
    } else {
      CarriedInScript(p, false, View(c.core.transcript, c.core.secret, ClientReadsEnc(c)), i, j, toClient,
                      View(s.core.transcript, s.core.secret, s.core.writeEnc));
      FrontInScript(p, c.core, ClientReadsEnc(c), sys.s2c, s.core.flight);
    }
  }

  /** And what an end is about to write. */
  lemma {:induction false} FlightEncodable(p: Params, codec: Codec, maxLen: nat, sys: System, b: bool)
    requires Inv(p, sys) && CodecOk(p, codec, maxLen)
    ensures AllEncodable(codec, maxLen, NodeOf(sys, b).Core().flight)
  {
    hide Progress, Carries;
    PhasesEnd(p, sys);
    var c, s := sys.client, sys.server;
    var i, j := ClientPhase(p, c), ServerPhase(p, s);
    if Ahead(p, true, i, c.core, ClientReadsEnc(c), j, s.core, ServerReadsEnc(s), sys.c2s, sys.s2c) {
      CarriedInScript(p, true, View(s.core.transcript, s.core.secret, ServerReadsEnc(s)), j, i, ToServer(sys),
                      View(c.core.transcript, c.core.secret, c.core.writeEnc));
      BackInScript(p, s.core.buf, ServerReadsEnc(s), sys.c2s, c.core.flight);
    } else {
      CarriedInScript(p, false, View(c.core.transcript, c.core.secret, ClientReadsEnc(c)), i, j, ToClient(sys),
                      View(s.core.transcript, s.core.secret, s.core.writeEnc));
      BackInScript(p, c.core.buf, ClientReadsEnc(c), sys.s2c, s.core.flight);
    }
  }

  lemma BackInScript(p: Params, buf: Option<Msg>, enc: bool, incoming: seq<Record>, flight: seq<Record>)
    requires InScript(p, Pending(buf, enc, incoming, flight))
    ensures InScript(p, flight)
  {
    hide Progress;
    var all := Pending(buf, enc, incoming, flight);
    forall i | 0 <= i < |flight| && flight[i].content.Handshake?
      ensures flight[i].content.m in Progress(p, End(p)).0
    {
      assert all[|all| - |flight| + i] == flight[i];
    }
  }

  lemma FrontInScript(p: Params, core: Core, enc: bool, incoming: seq<Record>, flight: seq<Record>)
    requires InScript(p, Pending(core.buf, enc, incoming, flight))
    ensures InScript(p, Held(core) + incoming)
  {
    hide Progress;
    var all, front := Pending(core.buf, enc, incoming, flight), Held(core) + incoming;
    forall i | 0 <= i < |front| && front[i].content.Handshake?
      ensures front[i].content.m in Progress(p, End(p)).0
    {
      assert all[i].content == front[i].content;
    }
  }

  // ----- One step ---------------------------------------------------------

  /** An end and the record channels, before and after it. */
  ghost predicate Moves(sys: System, sys': System, b: bool, n: Node, incoming: seq<Record>, sent: seq<Record>) {
    && NodeOf(sys', b) == n && Incoming(sys', b) == incoming
    && NodeOf(sys', !b) == NodeOf(sys, !b) && Incoming(sys', !b) == Incoming(sys, !b) + sent
  }

  lemma RunMoves(p: Params, sys: System, b: bool, retry: bool)
    requires NodeOf(sys, b).Wait() == Ok
    ensures Moves(sys, Step(p, sys, Happening(b, Run(retry))), b, NodeStep(p, NodeOf(sys, b), retry), Incoming(sys, b), [])
  {
    hide ClientStep, ServerStep;
  }

  lemma FlushMoves(p: Params, sys: System, b: bool)
    requires NodeOf(sys, b).Wait() == FlushFlight
    ensures var core := NodeOf(sys, b).Core();
            Moves(sys, Step(p, sys, Happening(b, Flush(|core.flight|))), b,
                  NodeOf(sys, b).With(Ok, core.(flight := [])), Incoming(sys, b), core.flight)
  {
    var core := NodeOf(sys, b).Core();
    assert core.flight[..|core.flight|] == core.flight;
  }

  /** Nothing that arrives at an end that waits is refused. */
  lemma ArriveMoves(p: Params, sys: System, b: bool)
    requires Inv(p, sys) && Incoming(sys, b) != []
    requires NodeOf(sys, b).Wait() == ReadMessage || NodeOf(sys, b).Wait() == ReadChangeCipherSpec
    ensures var n, r := NodeOf(sys, b), Incoming(sys, b)[0];
            && r.encrypted == n.Core().readEnc && n.Core().buf.None?
            && (r.content.ChangeCipherSpec? <==> n.Wait() == ReadChangeCipherSpec)
            && Moves(sys, Step(p, sys, Happening(b, Arrive)), b,
                     n.With(Ok, if r.content.Handshake? then n.Core().(buf := Some(r.content.m)) else n.Core()),
                     Incoming(sys, b)[1..], [])
  {
    hide Linked;
    if b {
      ClientKeepsInv(p, sys, Arrive);
    } else {
      ServerKeepsInv(p, sys, Arrive);
    }
  }

  /** What the machine does with and without a message to look at. */
  lemma StepLooksRight(p: Params, n: Node, retry: bool)
    requires n.Wait() == Ok
    ensures var next := NodeStep(p, n, retry);
            && KeepsOrTakes(n.Core(), next.Core(), n.InCcs()) && (next.ClientNode? <==> n.ClientNode?)
            && WaitsRight(n.Core().buf.Some? || n.InCcs(), next.InCcs(), next.Wait())
            && (n.Core().buf.None? && !n.InCcs() ==>
                  if next.Wait() == ReadMessage then AsksFor(p, n) else Ignores(p, n, retry))
  {
    hide ClientStep, ServerStep, AsksFor, Ignores, KeepsOrTakes, WaitsRight;
    match n
    case ClientNode(c) =>
      ClientKeepsOrTakes(p, c, retry);
      ClientWaitsRight(p, c, retry);
      if c.core.buf.None? && c.state != ProcessServerCcs {
        ClientAsksOrIgnores(p, c, retry);
      }
    case ServerNode(s) =>
      ServerKeepsOrTakes(p, s, retry);
      ServerWaitsRight(p, s, retry);
      if s.core.buf.None? && s.state != ProcessClientCcs {
        ServerAsksOrIgnores(p, s, retry);
      }
  }

  /** What the invariant says of an end's wait. */
  lemma InvWaits(p: Params, sys: System, b: bool)
    requires Inv(p, sys)
    ensures var n := NodeOf(sys, b);
            && !n.Wait().Failed?
            && (n.InCcs() ==> n.Wait() == Ok || n.Wait() == ReadChangeCipherSpec)
            && (n.InCcs() || n.Wait() == ReadMessage || n.Wait() == ReadChangeCipherSpec ==> n.Core().buf.None?)
  {
    hide Linked;
  }

  /** The first message in the buffer, seen from the records on their way. */
  lemma {:induction false} LookedAt(p: Params, codec: Codec, maxLen: nat, pair: Pair, sys: System, b: bool)
    requires Inv(p, sys) && CodecOk(p, codec, maxLen) && FollowsAt(p, codec, pair, sys, b)
    ensures var w, n := EndOf(pair, b), NodeOf(sys, b);
            var records := Held(n.Core()) + Incoming(sys, b);
            && (w.hs.Bytes() == [] ==> Look(codec, w.hs).None?)
            && (w.hs.Bytes() != [] ==>
                  records != [] && records[0].content.Handshake? && records[0].encrypted == n.Core().readEnc)
            && (Look(codec, w.hs).Some? ==>
                  w.hs.Bytes() != [] && Look(codec, w.hs) == Some(records[0].content.m) &&
                  Tagged(R.NextMessage(w.hs, true).Bytes(), n.Core().readEnc) + Flat(w.incoming) + Flat(EndOf(pair, !b).out)
                  == Items(codec, records[1..]))
            && (Look(codec, w.hs).None? ==> R.Refuses(Some(w.hs.Bytes()), maxLen).None?)
  {
    hide Inv, Items, Flat, Tagged, CodecOk;
    OnTheWay(p, codec, maxLen, sys, b);
    var w, n := EndOf(pair, b), NodeOf(sys, b);
    var records := Held(n.Core()) + Incoming(sys, b);
    var s := w.hs.Bytes();
    var rest := Flat(w.incoming) + Flat(EndOf(pair, !b).out);
    var tagged := Tagged(s, n.Core().readEnc);
    assert tagged + rest == tagged + Flat(w.incoming) + Flat(EndOf(pair, !b).out);
    if s != [] {
      FirstMessage(codec, maxLen, s, n.Core().readEnc, rest, records);
      var e := codec.encode(records[0].content.m);
      assert Encodable(codec, maxLen, records[0].content.m);
      if |e| <= |s| {
        assert R.NextMessage(w.hs, true).Bytes() == s[|e|..];
        var left := Tagged(s[|e|..], n.Core().readEnc);
        assert left + rest == left + Flat(w.incoming) + Flat(EndOf(pair, !b).out);
      }
    }
  }

  /** The next record on the wire goes on with the next message of the stream. */
  lemma {:induction false} NextPart(codec: Codec, maxLen: nat, s: seq<byte>, enc: bool, x: Piece, rest: seq<Item>,
                                    records: seq<Record>)
    requires AllEncodable(codec, maxLen, records) && (s != [] ==> R.ParseMessage(Some(s)).Need?)
    requires Tagged(s, enc) + (PieceItems(x) + rest) == Items(codec, records) && PieceItems(x) != []
    ensures records != []
    ensures records[0].content.Handshake? && records[0].encrypted == enc ==> x.Part? && x.encrypted == enc
  {
    hide R.ParseMessage;
    var all := Tagged(s, enc) + (PieceItems(x) + rest);
    assert all[|s|] == PieceItems(x)[0];
    var first := RecordItems(codec, records[0]);
    if s != [] {
      FirstMessage(codec, maxLen, s, enc, PieceItems(x) + rest, records);
    } else if records[0].content.Handshake? {
      assert Encodable(codec, maxLen, records[0].content.m);
    }
    assert records[0].content.Handshake? ==> all[|s|] == first[|s|];
  }

  lemma AfterFirst(a: Item, more: seq<Item>, b: Item, others: seq<Item>)
    requires [a] + more == [b] + others
    ensures a == b && more == others
  {
    assert ([a] + more)[0] == a && ([b] + others)[0] == b;
    assert ([a] + more)[1..] == more && ([b] + others)[1..] == others;
  }

  /** Or it is the ChangeCipherSpec that comes next. */
  lemma {:induction false} NextCcs(codec: Codec, x: Piece, rest: seq<Item>, r: Record, others: seq<Item>)
    requires PieceItems(x) + rest == RecordItems(codec, r) + others
    requires PieceItems(x) != [] && r.content.ChangeCipherSpec?
    ensures x == CcsPiece(r.encrypted) && rest == others
  {
    var items := PieceItems(x);
    assert items + rest == [items[0]] + (items[1..] + rest);
    AfterFirst(items[0], items[1..] + rest, CcsItem(r.encrypted), others);
    assert x.CcsPiece?;
    assert items[1..] + rest == rest;
  }

  /** The first of some pieces, and of some records. */
  lemma {:induction false} Unfolded(codec: Codec, pieces: seq<Piece>, rest: seq<Item>, records: seq<Record>)
    ensures pieces != [] ==> Flat(pieces) + rest == PieceItems(pieces[0]) + (Flat(pieces[1..]) + rest)
    ensures records != [] ==> Items(codec, records) == RecordItems(codec, records[0]) + Items(codec, records[1..])
  {
  }

  /** What a waiting end has before it. */
  lemma {:induction false} WaitingAt(p: Params, codec: Codec, pair: Pair, sys: System, b: bool)
    requires Inv(p, sys) && Both(p, codec, pair, sys)
    requires var w := EndOf(pair, b);
             (w.node.Wait() == ReadMessage || w.node.Wait() == ReadChangeCipherSpec) && w.incoming != []
    ensures var w, n := EndOf(pair, b), NodeOf(sys, b);
            var x, rest := w.incoming[0], Flat(w.incoming[1..]) + Flat(EndOf(pair, !b).out);
            && n.Wait() == w.node.Wait() && n.Core().buf.None? && PieceItems(x) != []
            && (w.node.Wait() == ReadMessage ==> Look(codec, w.hs).None?)
            && Held(n.Core()) + Incoming(sys, b) == Incoming(sys, b)
            && Tagged(w.hs.Bytes(), n.Core().readEnc) + (PieceItems(x) + rest) == Items(codec, Incoming(sys, b))
  {
    hide Inv, Items, Flat, Tagged, AsksFor, Look;
    var w, out := EndOf(pair, b), EndOf(pair, !b).out;
    InvWaits(p, sys, b);
    Unfolded(codec, w.incoming, Flat(out), []);
    var front := Tagged(w.hs.Bytes(), NodeOf(sys, b).Core().readEnc);
    assert front + Flat(w.incoming) + Flat(out) == front + (Flat(w.incoming) + Flat(out));
  }

  /** What a waiting end can receive. */
  lemma {:induction false} Receivable(p: Params, codec: Codec, maxLen: nat, pair: Pair, sys: System, b: bool)
    requires Inv(p, sys) && CodecOk(p, codec, maxLen) && Both(p, codec, pair, sys)
    requires var w := EndOf(pair, b);
             (w.node.Wait() == ReadMessage || w.node.Wait() == ReadChangeCipherSpec) && w.incoming != []
    ensures var w, n := EndOf(pair, b), NodeOf(sys, b);
            var x, enc, records := w.incoming[0], n.Core().readEnc, Incoming(sys, b);
            && x.encrypted == enc && n.Core().buf.None? && records != [] && n.Wait() == w.node.Wait()
            && (if w.node.Wait() == ReadMessage then
                  && x.Part? && R.Refuses(Some(w.hs.Bytes()), maxLen).None?
                  && Moves(sys, sys, b, n, records, [])
                else
                  && x.CcsPiece? && w.hs.Bytes() == []
                  && Flat(w.incoming[1..]) + Flat(EndOf(pair, !b).out) == Items(codec, records[1..])
                  && Moves(sys, Step(p, sys, Happening(b, Arrive)), b, n.With(Ok, n.Core()), records[1..], []))
  {
    hide Inv, Items, Flat, Tagged, CodecOk, Step, Follows, R.ParseMessage, R.Refuses;
    var w, n, records := EndOf(pair, b), NodeOf(sys, b), Incoming(sys, b);
    WaitingAt(p, codec, pair, sys, b);
    OnTheWay(p, codec, maxLen, sys, b);
    LookedAt(p, codec, maxLen, pair, sys, b);
    var x, rest := w.incoming[0], Flat(w.incoming[1..]) + Flat(EndOf(pair, !b).out);
    if w.hs.Bytes() == [] || w.node.Wait() == ReadMessage {
      NextPart(codec, maxLen, w.hs.Bytes(), n.Core().readEnc, x, rest, records);
    }
    ArriveMoves(p, sys, b);
    if w.node.Wait() == ReadChangeCipherSpec {
      NoBytes(n.Core().readEnc);
      Unfolded(codec, [], [], records);
      assert [] + (PieceItems(x) + rest) == PieceItems(x) + rest;
      NextCcs(codec, x, rest, records[0], Items(codec, records[1..]));
    }
    assert Incoming(sys, !b) + [] == Incoming(sys, !b);
  }

  /** The other end goes on following, when what is sent and what is left to be
      sent is what was left and what the records sent add to it. */
  lemma {:induction false} PeerFollows(p: Params, codec: Codec, pair: Pair, pair': Pair, sys: System, sys': System,
                                       b: bool, pieces: seq<Piece>, records: seq<Record>)
    requires FollowsAt(p, codec, pair, sys, !b)
    requires EndOf(pair', !b) == EndOf(pair, !b).(incoming := EndOf(pair, !b).incoming + pieces) && NoneEmpty(pieces)
    requires NodeOf(sys', !b) == NodeOf(sys, !b) && Incoming(sys', !b) == Incoming(sys, !b) + records
    requires Flat(EndOf(pair, b).out) + Items(codec, records) == Flat(pieces) + Flat(EndOf(pair', b).out)
    ensures FollowsAt(p, codec, pair', sys', !b)
  {
    hide Flat, Items, Tagged, Look, AsksFor, PieceItems;
    var w, n := EndOf(pair, !b), NodeOf(sys, !b);
    var front, held := Tagged(w.hs.Bytes(), n.Core().readEnc) + Flat(w.incoming), Held(n.Core());
    FlatJoin(w.incoming, pieces);
    ItemsJoin(codec, held + Incoming(sys, !b), records);
    assert held + Incoming(sys', !b) == (held + Incoming(sys, !b)) + records;
    var before, after := Flat(EndOf(pair, b).out), Flat(EndOf(pair', b).out);
    assert front + (before + Items(codec, records)) == (front + before) + Items(codec, records);
    assert Tagged(w.hs.Bytes(), n.Core().readEnc) + (Flat(w.incoming) + Flat(pieces)) + after ==
           front + (Flat(pieces) + after);
  }

  /** An end that stays as it is. */
  lemma {:induction false} NothingSent(p: Params, codec: Codec, pair: Pair, pair': Pair, sys: System, sys': System, b: bool)
    requires FollowsAt(p, codec, pair, sys, !b)
    requires EndOf(pair', !b) == EndOf(pair, !b).(incoming := EndOf(pair, !b).incoming + [])
    requires NodeOf(sys', !b) == NodeOf(sys, !b) && Incoming(sys', !b) == Incoming(sys, !b) + []
    requires EndOf(pair', b).out == EndOf(pair, b).out
    ensures FollowsAt(p, codec, pair', sys', !b)
  {
    hide FollowsAt;
    var out := EndOf(pair, b).out;
    assert Flat(out) + Items(codec, []) == Flat([]) + Flat(out);
    PeerFollows(p, codec, pair, pair', sys, sys', b, [], []);
  }

  lemma {:induction false} BytesJoin(s: seq<byte>, enc: bool, pieces: seq<Piece>)
    requires pieces != [] && pieces[0].Part? && pieces[0].encrypted == enc
    ensures Tagged(s + pieces[0].bytes, enc) + Flat(pieces[1..]) == Tagged(s, enc) + Flat(pieces)
  {
    assert Tagged(s + pieces[0].bytes, enc) == Tagged(s, enc) + Tagged(pieces[0].bytes, enc);
  }

  lemma NoBytes(enc: bool)
    ensures Tagged([], enc) == []
  {
  }

  lemma {:induction false} ReceiveOwn(p: Params, codec: Codec, maxLen: nat, pair: Pair, sys: System, b: bool)
    returns (gs: seq<Happening>)
    requires Inv(p, sys) && CodecOk(p, codec, maxLen) && Both(p, codec, pair, sys)
    requires var w := EndOf(pair, b);
             (w.node.Wait() == ReadMessage || w.node.Wait() == ReadChangeCipherSpec) && w.incoming != []
    ensures var sys', w' := RunAll(p, sys, gs), ReceiveWired(EndOf(pair, b), maxLen);
            && Follows(p, codec, w', EndOf(pair, !b).out, NodeOf(sys', b), Incoming(sys', b))
            && NodeOf(sys', !b) == NodeOf(sys, !b) && Incoming(sys', !b) == Incoming(sys, !b) + []
  {
    hide Inv, Items, Flat, Tagged, CodecOk, Step, AsksFor, R.ParseMessage, R.Refuses, Look;
    gs := [];
    var w := EndOf(pair, b);
    Receivable(p, codec, maxLen, pair, sys, b);
    if w.node.Wait() == ReadMessage {
      BytesJoin(w.hs.Bytes(), w.node.Core().readEnc, w.incoming);
    } else {
      gs := [Happening(b, Arrive)];
      assert gs[1..] == [];
      var w', sys' := ReceiveWired(w, maxLen), Step(p, sys, gs[0]);
      NoBytes(w.node.Core().readEnc);
      assert Held(NodeOf(sys', b).Core()) + Incoming(sys', b) == Incoming(sys, b)[1..];
      assert [] + Flat(w'.incoming) == Flat(w'.incoming);
    }
  }

  lemma {:induction false} ReceiveFollows(p: Params, codec: Codec, maxLen: nat, pair: Pair, sys: System, b: bool)
    returns (gs: seq<Happening>)
    requires Inv(p, sys) && CodecOk(p, codec, maxLen) && Both(p, codec, pair, sys)
    ensures Both(p, codec, StepPair(p, codec, maxLen, pair, Doing(b, Receive)), RunAll(p, sys, gs))
  {
    hide Inv, CodecOk, Step, Follows, ReceiveWired;
    var w, pair' := EndOf(pair, b), StepPair(p, codec, maxLen, pair, Doing(b, Receive));
    assert EndOf(pair, !b).incoming + [] == EndOf(pair, !b).incoming;
    if (w.node.Wait() == ReadMessage || w.node.Wait() == ReadChangeCipherSpec) && w.incoming != [] {
      gs := ReceiveOwn(p, codec, maxLen, pair, sys, b);
      ReceiveKeepsOut(w, maxLen);
      NothingSent(p, codec, pair, pair', sys, RunAll(p, sys, gs), b);
    } else {
      gs := [];
      assert pair' == pair;
    }
  }

  lemma ReceiveKeepsOut(w: Wired, maxLen: nat)
    requires w.incoming != []
    ensures ReceiveWired(w, maxLen).out == w.out
  {
    hide R.AcceptRecord;
  }

  /** Writing some of the cut flight: in the end that is followed it is all
      written already. */
  lemma {:induction false} SendFollows(p: Params, codec: Codec, maxLen: nat, pair: Pair, sys: System, b: bool, n: nat)
    requires Both(p, codec, pair, sys)
    ensures Both(p, codec, StepPair(p, codec, maxLen, pair, Doing(b, Send(n))), sys)
  {
    hide Flat, Items, Tagged, Look, AsksFor, PieceItems;
    var w, pair' := EndOf(pair, b), StepPair(p, codec, maxLen, pair, Doing(b, Send(n)));
    assert EndOf(pair, !b).incoming + [] == EndOf(pair, !b).incoming;
    if w.node.Wait() == FlushFlight {
      var k := if n < |w.out| then n else |w.out|;
      assert w.out[..k] + w.out[k..] == w.out;
      FlatJoin(w.out[..k], w.out[k..]);
      NoItems(codec);
      assert Flat(w.out) + [] == Flat(w.out);
      assert Incoming(sys, !b) + [] == Incoming(sys, !b);
      PeerFollows(p, codec, pair, pair', sys, sys, b, w.out[..k], []);
      assert FollowsAt(p, codec, pair', sys, b);
    }
  }

  lemma NoItems(codec: Codec)
    ensures Items(codec, []) == [] && Flat([]) == []
  {
  }

  lemma {:induction false} WakeFollows(p: Params, codec: Codec, maxLen: nat, pair: Pair, sys: System, b: bool)
    returns (gs: seq<Happening>)
    requires Inv(p, sys) && Both(p, codec, pair, sys)
    ensures Both(p, codec, StepPair(p, codec, maxLen, pair, Doing(b, Wake)), RunAll(p, sys, gs))
  {
    hide Inv, Flat, Items, Tagged, Look, AsksFor, PieceItems;
    gs := [];
    InvWaits(p, sys, b);
    assert EndOf(pair, !b).incoming + [] == EndOf(pair, !b).incoming;
    if EndOf(pair, b).node.Wait() == Paused {
      gs := [Happening(b, Resume)];
      assert gs[1..] == [];
      assert RunAll(p, sys, gs) == Step(p, sys, gs[0]);
    }
  }

  // ----- One step of the machine -------------------------------------------

  /** The first record on the way becomes the message looked at. */
  lemma {:induction false} HeldFollows(p: Params, codec: Codec, w: Wired, peerOut: seq<Piece>, n: Node,
                                       incoming: seq<Record>)
    requires Follows(p, codec, w, peerOut, n, incoming) && w.node.Wait() == Ok && n.Wait() == ReadMessage && !n.InCcs()
    requires incoming != [] && incoming[0].content.Handshake? && incoming[0].encrypted == n.Core().readEnc
    requires n.Core().buf.None? && Look(codec, w.hs) == Some(incoming[0].content.m)
    ensures Follows(p, codec, w, peerOut, n.With(Ok, n.Core().(buf := Some(incoming[0].content.m))), incoming[1..])
  {
    hide Items, Flat, Tagged, Look, AsksFor, PieceItems;
    var n' := n.With(Ok, n.Core().(buf := Some(incoming[0].content.m)));
    assert Held(n'.Core()) + incoming[1..] == incoming == Held(n.Core()) + incoming;
  }

  /** The end that is followed gets the message that is whole in the buffer. */
  lemma {:induction false} Fetch(p: Params, codec: Codec, maxLen: nat, pair: Pair, sys: System, b: bool)
    returns (sys': System)
    requires Inv(p, sys) && CodecOk(p, codec, maxLen) && Both(p, codec, pair, sys)
    requires EndOf(pair, b).node.Wait() == Ok && NodeOf(sys, b).Wait() == ReadMessage
    requires Look(codec, EndOf(pair, b).hs).Some?
    ensures sys' == Step(p, sys, Happening(b, Arrive)) && Both(p, codec, pair, sys')
    ensures NodeOf(sys', b).Wait() == Ok && NodeOf(sys', b).Core().buf == Look(codec, EndOf(pair, b).hs)
  {
    hide Inv, Flat, Items, Tagged, Look, Step, CodecOk, Follows;
    sys' := Step(p, sys, Happening(b, Arrive));
    InvWaits(p, sys, b);
    LookedAt(p, codec, maxLen, pair, sys, b);
    assert Held(NodeOf(sys, b).Core()) + Incoming(sys, b) == Incoming(sys, b);
    ArriveMoves(p, sys, b);
    HeldFollows(p, codec, EndOf(pair, b), EndOf(pair, !b).out, NodeOf(sys, b), Incoming(sys, b));
    assert EndOf(pair, !b).incoming + [] == EndOf(pair, !b).incoming;
    NothingSent(p, codec, pair, pair, sys, sys', b);
  }

  /** The end that is followed asks for its message. */
  lemma {:induction false} AskFirst(p: Params, codec: Codec, pair: Pair, sys: System, b: bool, retry: bool)
    returns (sys': System)
    requires Both(p, codec, pair, sys) && EndOf(pair, b).node.Wait() == Ok
    requires NodeOf(sys, b).Wait() == Ok && AsksFor(p, NodeOf(sys, b)) && Look(codec, EndOf(pair, b).hs).Some?
    ensures sys' == Step(p, sys, Happening(b, Run(retry))) && Both(p, codec, pair, sys')
    ensures NodeOf(sys', b).Wait() == ReadMessage
  {
    hide Flat, Items, Tagged, Look, PieceItems, Step, NodeStep;
    sys' := Step(p, sys, Happening(b, Run(retry)));
    RunMoves(p, sys, b, retry);
    assert NodeOf(sys', b).With(Ok, NodeOf(sys', b).Core()) == NodeOf(sys, b);
    assert FollowsAt(p, codec, pair, sys', b);
    assert EndOf(pair, !b).incoming + [] == EndOf(pair, !b).incoming;
    NothingSent(p, codec, pair, pair, sys, sys', b);
  }

  /** Before a step, the end that is followed gets to look at the same message, or
      one that the step ignores, or waits for it. */
  ghost predicate Level(p: Params, look: Option<Msg>, n: Node, retry: bool) {
    || (n.Wait() == Ok && n.Core().buf == look)
    || (n.Wait() == Ok && n.Core().buf.None? && look.Some? && !n.InCcs() && Ignores(p, n, retry) &&
        NodeStep(p, n, retry).Wait() != ReadMessage)
    || (n.Wait() == ReadMessage && look.None?)
  }

  /** Where the end that is followed can be, and whether it is there already. */
  lemma {:induction false} WhereFollowed(p: Params, codec: Codec, maxLen: nat, pair: Pair, sys: System, b: bool)
    requires Inv(p, sys) && CodecOk(p, codec, maxLen) && Both(p, codec, pair, sys) && EndOf(pair, b).node.Wait() == Ok
    ensures var n, look := NodeOf(sys, b), Look(codec, EndOf(pair, b).hs);
            && (n.Wait() == Ok || n.Wait() == ReadMessage)
            && (n.Core().buf.Some? ==> n.Wait() == Ok && n.Core().buf == look)
            && (n.InCcs() ==> n.Wait() == Ok && EndOf(pair, b).hs.Bytes() == [] && look.None?)
  {
    hide Inv, Flat, Items, Tagged, Look, AsksFor, PieceItems, CodecOk;
    InvWaits(p, sys, b);
    LookedAt(p, codec, maxLen, pair, sys, b);
  }

  lemma RunOne(p: Params, sys: System, h: Happening)
    ensures RunAll(p, sys, [h]) == Step(p, sys, h)
  {
    hide Step;
    assert [h][1..] == [];
  }

  lemma {:induction false} CatchUp(p: Params, codec: Codec, maxLen: nat, pair: Pair, sys: System, b: bool, retry: bool)
    returns (gs: seq<Happening>)
    requires Inv(p, sys) && CodecOk(p, codec, maxLen) && Both(p, codec, pair, sys) && EndOf(pair, b).node.Wait() == Ok
    ensures Both(p, codec, pair, RunAll(p, sys, gs))
    ensures Level(p, Look(codec, EndOf(pair, b).hs), NodeOf(RunAll(p, sys, gs), b), retry)
  {
    hide Inv, Look, AsksFor, Step, CodecOk, NodeStep, Ignores, Both, KeepsOrTakes, WaitsRight;
    var n, look := NodeOf(sys, b), Look(codec, EndOf(pair, b).hs);
    gs := [];
    WhereFollowed(p, codec, maxLen, pair, sys, b);
    if look.Some? && n.Wait() == ReadMessage {
      var sys' := Fetch(p, codec, maxLen, pair, sys, b);
      gs := [Happening(b, Arrive)];
      RunOne(p, sys, gs[0]);
    } else if look.Some? && n.Core().buf.None? {
      StepLooksRight(p, n, retry);
      if NodeStep(p, n, retry).Wait() == ReadMessage {
        var ask := Happening(b, Run(retry));
        var sys1 := AskFirst(p, codec, pair, sys, b, retry);
        RunOne(p, sys, ask);
        RunKeepsInv(p, sys, [ask]);
        var sys2 := Fetch(p, codec, maxLen, pair, sys1, b);
        gs := [ask] + [Happening(b, Arrive)];
        RunOne(p, sys1, Happening(b, Arrive));
        RunAllJoins(p, sys, [ask], [Happening(b, Arrive)]);
      }
    }
  }

  /** What is asked of an end and the one it follows before both take a step. */
  ghost predicate Ready(p: Params, codec: Codec, w: Wired, peerOut: seq<Piece>, n: Node, incoming: seq<Record>,
                        retry: bool, cut: seq<Piece>)
  {
    var look, records, next := Look(codec, w.hs), Held(n.Core()) + incoming, NodeStep(p, n, retry);
    && Follows(p, codec, w, peerOut, n, incoming) && w.node.Wait() == Ok && n.Wait() == Ok
    && Level(p, look, n, retry) && (n.InCcs() ==> w.hs.Bytes() == [] && look.None?)
    && (look.Some? ==>
          records != [] && Tagged(R.NextMessage(w.hs, true).Bytes(), n.Core().readEnc) + Flat(w.incoming) + Flat(peerOut) ==
                           Items(codec, records[1..]))
    && (next.Wait() == FlushFlight ==> !next.InCcs() && Cuts(codec, cut, next.Core().flight))
  }

  function Stepped(p: Params, n: Node, retry: bool): Node {
    var next := NodeStep(p, n, retry);
    if next.Wait() == FlushFlight then next.With(Ok, next.Core().(flight := [])) else next
  }

  /** The machine, its wait and what it has to send, after the step. */
  lemma {:induction false} StepNode(p: Params, codec: Codec, w: Wired, peerOut: seq<Piece>, n: Node,
                                    incoming: seq<Record>, retry: bool, cut: seq<Piece>)
    requires Ready(p, codec, w, peerOut, n, incoming, retry, cut)
    ensures var w', n' := ProceedWired(p, codec, w, retry, cut), Stepped(p, n, retry);
            && w'.node == n'.With(w'.node.Wait(), n'.Core().(buf := None)) && WaitFollows(p, w'.node.Wait(), n')
            && (w'.node.Wait() == ReadMessage ==> w'.hs == w.hs && Look(codec, w.hs).None?)
            && !(n'.InCcs() && n'.Wait() == Ok)
            && w'.incoming == w.incoming && w'.out == (if w'.node.Wait() == FlushFlight then cut else [])
            && (w'.node.Wait() == FlushFlight <==> NodeStep(p, n, retry).Wait() == FlushFlight)
  {
    hide Items, Flat, Tagged, PieceItems, NodeStep, AsksFor, SameStream, R.NextMessage, R.ParseMessage,
      KeepsOrTakes, RecordItems, Held;
    StepLooksRight(p, n, retry);
    if n.Core().buf == Look(codec, w.hs) {
      assert Looking(codec, w) == n;
      if NodeStep(p, n, retry).Wait() == ReadMessage {
        AsksAgain(p, n, retry);
      }
    } else {
      assert Looking(codec, w) == n.With(Ok, n.Core().(buf := Look(codec, w.hs)));
    }
  }

  /** The buffer after the step: the message is still in front of it, or gone. */
  lemma {:induction false} StepBuffer(p: Params, codec: Codec, w: Wired, peerOut: seq<Piece>, n: Node,
                                      incoming: seq<Record>, retry: bool, cut: seq<Piece>)
    requires Ready(p, codec, w, peerOut, n, incoming, retry, cut)
    ensures var w', n', look := ProceedWired(p, codec, w, retry, cut), Stepped(p, n, retry), Look(codec, w.hs);
            && !w'.hs.hasMessage
            && (!n.InCcs() ==> n'.Core().readEnc == n.Core().readEnc)
            && if look.Some? && n.Core().buf == look && n'.Core().buf.None? then w'.hs == R.NextMessage(w.hs, true)
               else w'.hs == w.hs && n'.Core().buf == n.Core().buf
  {
    hide Items, Flat, Tagged, PieceItems, NodeStep, AsksFor, SameStream, R.ParseMessage, WaitFollows, Cuts;
    StepLooksRight(p, n, retry);
    if n.Core().buf == Look(codec, w.hs) {
      assert Looking(codec, w) == n;
    } else {
      assert Looking(codec, w) == n.With(Ok, n.Core().(buf := Look(codec, w.hs)));
    }
  }

  lemma {:induction false} StepStillFollows(p: Params, codec: Codec, w: Wired, peerOut: seq<Piece>, n: Node,
                                            incoming: seq<Record>, retry: bool, cut: seq<Piece>)
    requires Ready(p, codec, w, peerOut, n, incoming, retry, cut)
    ensures var w' := ProceedWired(p, codec, w, retry, cut);
            && Follows(p, codec, w', peerOut, Stepped(p, n, retry), incoming)
            && w'.out == if NodeStep(p, n, retry).Wait() == FlushFlight then cut else []
  {
    hide Items, Flat, Tagged, PieceItems, NodeStep, AsksFor, ProceedWired, Stepped, Look, WaitFollows, R.NextMessage;
    StepNode(p, codec, w, peerOut, n, incoming, retry, cut);
    StepBuffer(p, codec, w, peerOut, n, incoming, retry, cut);
    var n' := Stepped(p, n, retry);
    NoBytes(n.Core().readEnc);
    NoBytes(n'.Core().readEnc);
    if Look(codec, w.hs).Some? && n.Core().buf == Look(codec, w.hs) {
      assert (Held(n.Core()) + incoming)[1..] == incoming == [] + incoming;
    }
  }

  lemma AsksAgain(p: Params, n: Node, retry: bool)
    requires n.Wait() == Ok && AsksFor(p, n)
    ensures NodeStep(p, n, retry) == n.With(ReadMessage, n.Core()) && n.With(ReadMessage, n.Core()).With(Ok, n.Core()) == n
  {
  }

  /** An end that has no whole message yet waits again. */
  lemma {:induction false} StillWaits(p: Params, codec: Codec, w: Wired, peerOut: seq<Piece>, n: Node,
                                      incoming: seq<Record>, retry: bool, cut: seq<Piece>)
    requires Follows(p, codec, w, peerOut, n, incoming) && w.node.Wait() == Ok && n.Wait() == ReadMessage
    requires Look(codec, w.hs).None? && !n.InCcs()
    ensures var w' := ProceedWired(p, codec, w, retry, cut);
            Follows(p, codec, w', peerOut, n, incoming) && w'.out == w.out
  {
    hide Items, Flat, Tagged, PieceItems, NodeStep, R.ParseMessage, R.NextMessage;
    var n1 := n.With(Ok, n.Core());
    assert Looking(codec, w) == n1;
    assert NodeStep(p, n1, retry) == n1.With(ReadMessage, n.Core());
  }

  /** Without a proper cut of its flight nothing happens. */
  lemma {:induction false} NotCut(p: Params, codec: Codec, w: Wired, n: Node, retry: bool, cut: seq<Piece>)
    requires w.node == n.With(Ok, n.Core().(buf := None)) && n.Wait() == Ok && Level(p, Look(codec, w.hs), n, retry)
    requires NodeStep(p, n, retry).Wait() == FlushFlight && !Cuts(codec, cut, NodeStep(p, n, retry).Core().flight)
    requires n.InCcs() ==> w.hs.Bytes() == []
    ensures ProceedWired(p, codec, w, retry, cut) == w
  {
    hide NodeStep, Cuts, R.ParseMessage, R.NextMessage, Look;
    if n.Core().buf == Look(codec, w.hs) {
      assert Looking(codec, w) == n;
    } else {
      assert Looking(codec, w) == n.With(Ok, n.Core().(buf := Look(codec, w.hs)));
    }
  }

  /** Both ends are level and take the step; a flight that is complete is cut in
      the one and written at once in the other. */
  lemma {:induction false} LevelStep(p: Params, codec: Codec, maxLen: nat, pair: Pair, sys: System, b: bool, retry: bool,
                                     cut: seq<Piece>) returns (gs: seq<Happening>)
    requires Inv(p, sys) && CodecOk(p, codec, maxLen) && Both(p, codec, pair, sys) && EndOf(pair, b).node.Wait() == Ok
    requires var n, next := NodeOf(sys, b), NodeStep(p, NodeOf(sys, b), retry);
             && n.Wait() == Ok && Level(p, Look(codec, EndOf(pair, b).hs), n, retry)
             && (next.Wait() == FlushFlight ==> Cuts(codec, cut, next.Core().flight))
    ensures Both(p, codec, StepPair(p, codec, maxLen, pair, Doing(b, Proceed(retry, cut))), RunAll(p, sys, gs))
  {
    hide Inv, Items, Flat, Tagged, PieceItems, NodeStep, AsksFor, ProceedWired, Look, Step, CodecOk, R.NextMessage, Ignores;
    var w, n, run := EndOf(pair, b), NodeOf(sys, b), Happening(b, Run(retry));
    var next, pair' := NodeStep(p, n, retry), StepPair(p, codec, maxLen, pair, Doing(b, Proceed(retry, cut)));
    WhereFollowed(p, codec, maxLen, pair, sys, b);
    LookedAt(p, codec, maxLen, pair, sys, b);
    var sys1 := Step(p, sys, run);
    RunMoves(p, sys, b, retry);
    RunOne(p, sys, run);
    RunKeepsInv(p, sys, [run]);
    InvWaits(p, sys1, b);
    StepStillFollows(p, codec, w, EndOf(pair, !b).out, n, Incoming(sys, b), retry, cut);
    NoItems(codec);
    if next.Wait() == FlushFlight {
      var flush := Happening(b, Flush(|next.Core().flight|));
      FlushMoves(p, sys1, b);
      RunOne(p, sys1, flush);
      RunAllJoins(p, sys, [run], [flush]);
      gs := [run] + [flush];
      var sys2 := Step(p, sys1, flush);
      assert Incoming(sys1, !b) == Incoming(sys, !b);
      assert [] + Items(codec, next.Core().flight) == [] + Flat(cut);
      PeerFollows(p, codec, pair, pair', sys, sys2, b, [], next.Core().flight);
    } else {
      gs := [run];
      NothingSent(p, codec, pair, pair', sys, sys1, b);
    }
  }

  lemma {:induction false} ProceedFollows(p: Params, codec: Codec, maxLen: nat, pair: Pair, sys: System, b: bool,
                                          retry: bool, cut: seq<Piece>) returns (gs: seq<Happening>)
    requires Inv(p, sys) && CodecOk(p, codec, maxLen) && Both(p, codec, pair, sys)
    ensures Both(p, codec, StepPair(p, codec, maxLen, pair, Doing(b, Proceed(retry, cut))), RunAll(p, sys, gs))
  {
    hide Inv, CodecOk, Look, AsksFor, Step, NodeStep, Ignores, Cuts, ProceedWired, SameStream, WaitFollows;
    gs := [];
    var w, pair' := EndOf(pair, b), StepPair(p, codec, maxLen, pair, Doing(b, Proceed(retry, cut)));
    assert EndOf(pair, !b).incoming + [] == EndOf(pair, !b).incoming;
    if w.node.Wait() != Ok {
      assert pair' == pair;
      return;
    }
    gs := CatchUp(p, codec, maxLen, pair, sys, b, retry);
    var sys1 := RunAll(p, sys, gs);
    RunKeepsInv(p, sys, gs);
    WhereFollowed(p, codec, maxLen, pair, sys1, b);
    var n := NodeOf(sys1, b);
    if n.Wait() == ReadMessage {
      StillWaits(p, codec, w, EndOf(pair, !b).out, n, Incoming(sys1, b), retry, cut);
      assert Incoming(sys1, !b) + [] == Incoming(sys1, !b);
      NothingSent(p, codec, pair, pair', sys1, sys1, b);
    } else if NodeStep(p, n, retry).Wait() == FlushFlight && !Cuts(codec, cut, NodeStep(p, n, retry).Core().flight) {
      NotCut(p, codec, w, n, retry, cut);
      assert pair' == pair;
    } else {
      var more := LevelStep(p, codec, maxLen, pair, sys1, b, retry, cut);
      RunAllJoins(p, sys, gs, more);
      gs := gs + more;
    }
  }
}
