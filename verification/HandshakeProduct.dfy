/** An honest client and server, connected by two ordered channels. */
module HandshakeProduct {
  import opened Bytes
  import opened HandshakeScript
  import opened HandshakeMachines

  datatype System = System(client: Client, server: Server, c2s: seq<Record>, s2c: seq<Record>)

  function Start(p: Params): System {
    System(Client(StartConnect, Ok, StartCore(p), false), Server(StartAccept, Ok, StartCore(p), false), [], [])
  }

  function ClientEvent(p: Params, sys: System, e: Event): System {
    var c := sys.client;
    match e
    case Run(retry) => if c.wait == Ok then sys.(client := ClientStep(p, c, retry)) else sys
    case Flush(n) =>
      if c.wait != FlushFlight then sys else
      sys.(client := c.(core := Remaining(c.core, n), wait := if Taken(c.core, n) == |c.core.flight| then Ok else FlushFlight),
           c2s := sys.c2s + c.core.flight[..Taken(c.core, n)])
    case Arrive =>
      if (c.wait != ReadMessage && c.wait != ReadChangeCipherSpec) || sys.s2c == [] then sys else
      var d := Deliver(c.wait, c.core, sys.s2c[0]);
      sys.(client := c.(core := CoreAfter(d, c.core), wait := WaitAfter(d)), s2c := sys.s2c[1..])
    case Resume => if c.wait == Paused then sys.(client := c.(wait := Ok)) else sys
  }

  function ServerEvent(p: Params, sys: System, e: Event): System {
    var s := sys.server;
    match e
    case Run(retry) => if s.wait == Ok then sys.(server := ServerStep(p, s, retry)) else sys
    case Flush(n) =>
      if s.wait != FlushFlight then sys else
      sys.(server := s.(core := Remaining(s.core, n), wait := if Taken(s.core, n) == |s.core.flight| then Ok else FlushFlight),
           s2c := sys.s2c + s.core.flight[..Taken(s.core, n)])
    case Arrive =>
      if (s.wait != ReadMessage && s.wait != ReadChangeCipherSpec) || sys.c2s == [] then sys else
      var d := Deliver(s.wait, s.core, sys.c2s[0]);
      sys.(server := s.(core := CoreAfter(d, s.core), wait := WaitAfter(d)), c2s := sys.c2s[1..])
    case Resume => if s.wait == Paused then sys.(server := s.(wait := Ok)) else sys
  }

  // ----- How two ends are linked ------------------------------------------

  /** What is on its way to an end: the message it looks at, the channel, and
      the flight its peer has not written. */
  function Pending(buf: Option<Msg>, enc: bool, chan: seq<Record>, flight: seq<Record>): seq<Record> {
    (if buf.Some? then [Record(Handshake(buf.value), enc)] else []) + chan + flight
  }

  /** End `a` at phase `i` has sent all phases from `j` on, which end `b` has
      not read yet; nothing is on its way to `a`; and `b` has hashed what the
      script has up to there. */
  ghost predicate Ahead(p: Params, aClient: bool, i: nat, a: Core, aEnc: bool, j: nat, b: Core, bEnc: bool,
                        toB: seq<Record>, toA: seq<Record>)
  {
    && Carries(p, aClient, View(b.transcript, b.secret, bEnc), j, i, Pending(b.buf, bEnc, toB, a.flight),
               View(a.transcript, a.secret, a.writeEnc))
    && (b.transcript, b.secret) == Progress(p, j)
    && toA == [] && b.flight == [] && a.buf == None && b.writeEnc == aEnc
  }

  /** One of the two ends is ahead. */
  ghost predicate Linked(p: Params, meClient: bool, i: nat, me: Core, meEnc: bool, j: nat, peer: Core, peerEnc: bool,
                         toPeer: seq<Record>, toMe: seq<Record>)
  {
    Ahead(p, meClient, i, me, meEnc, j, peer, peerEnc, toPeer, toMe) ||
    Ahead(p, !meClient, j, peer, peerEnc, i, me, meEnc, toMe, toPeer)
  }

  lemma {:induction false} CarriesOrder(p: Params, fromClient: bool, v: View, j: nat, i: nat, records: seq<Record>, w: View)
    requires Carries(p, fromClient, v, j, i, records, w)
    ensures j <= i && (j == i ==> records == [] && v == w)
    ensures j < i && Phase(p, j).Some? ==> Phase(p, j).value.fromClient == fromClient
    decreases i - j
  {
  }

  /** With nothing on its way, either end counts as ahead. */
  lemma NobodyBehind(p: Params, aClient: bool, i: nat, a: Core, aEnc: bool, b: Core, bEnc: bool,
                     toB: seq<Record>, toA: seq<Record>)
    requires Ahead(p, aClient, i, a, aEnc, i, b, bEnc, toB, toA)
    ensures Ahead(p, !aClient, i, b, bEnc, i, a, aEnc, toA, toB)
  {
  }

  /** An end whose phase comes next is ahead. */
  lemma MyTurn(p: Params, meClient: bool, i: nat, me: Core, meEnc: bool, j: nat, peer: Core, peerEnc: bool,
               toPeer: seq<Record>, toMe: seq<Record>)
    requires Linked(p, meClient, i, me, meEnc, j, peer, peerEnc, toPeer, toMe)
    requires Phase(p, i).Some? && Phase(p, i).value.fromClient == meClient
    ensures Ahead(p, meClient, i, me, meEnc, j, peer, peerEnc, toPeer, toMe)
  {
  }

  lemma PendingGrows(buf: Option<Msg>, enc: bool, chan: seq<Record>, flight: seq<Record>, r: Record)
    ensures Pending(buf, enc, chan, flight + [r]) == Pending(buf, enc, chan, flight) + [r]
  {
  }

  lemma EmitLinked(p: Params, meClient: bool, i: nat, me: Core, meEnc: bool, j: nat, peer: Core, peerEnc: bool,
                   toPeer: seq<Record>, toMe: seq<Record>, kind: Kind)
    requires Linked(p, meClient, i, me, meEnc, j, peer, peerEnc, toPeer, toMe)
    requires Phase(p, i) == Some(Entry(meClient, Message(kind)))
    ensures Linked(p, meClient, i + 1, Emit(p, me, meClient, kind), meEnc, j, peer, peerEnc, toPeer, toMe)
  {
    hide Phase, Carries;
    MyTurn(p, meClient, i, me, meEnc, j, peer, peerEnc, toPeer, toMe);
    var v, w := View(peer.transcript, peer.secret, peerEnc), View(me.transcript, me.secret, me.writeEnc);
    CarriesOneMore(p, meClient, v, j, i, Pending(peer.buf, peerEnc, toPeer, me.flight), w);
    PendingGrows(peer.buf, peerEnc, toPeer, me.flight, ItemOf(p, Phase(p, i).value, w));
  }

  lemma EmitCcsLinked(p: Params, meClient: bool, i: nat, me: Core, meEnc: bool, j: nat, peer: Core, peerEnc: bool,
                      toPeer: seq<Record>, toMe: seq<Record>)
    requires Linked(p, meClient, i, me, meEnc, j, peer, peerEnc, toPeer, toMe)
    requires Phase(p, i) == Some(Entry(meClient, Ccs))
    ensures Linked(p, meClient, i + 1, EmitCcs(me), meEnc, j, peer, peerEnc, toPeer, toMe)
  {
    hide Phase, Carries;
    MyTurn(p, meClient, i, me, meEnc, j, peer, peerEnc, toPeer, toMe);
    var v, w := View(peer.transcript, peer.secret, peerEnc), View(me.transcript, me.secret, me.writeEnc);
    CarriesOneMore(p, meClient, v, j, i, Pending(peer.buf, peerEnc, toPeer, me.flight), w);
    PendingGrows(peer.buf, peerEnc, toPeer, me.flight, ItemOf(p, Phase(p, i).value, w));
  }

  lemma SkipLinked(p: Params, meClient: bool, i: nat, me: Core, meEnc: bool, j: nat, peer: Core, peerEnc: bool,
                   toPeer: seq<Record>, toMe: seq<Record>)
    requires Linked(p, meClient, i, me, meEnc, j, peer, peerEnc, toPeer, toMe)
    requires Phase(p, i) == None
    ensures Linked(p, meClient, i + 1, me, meEnc, j, peer, peerEnc, toPeer, toMe)
  {
    hide Phase;
    if !Ahead(p, meClient, i, me, meEnc, j, peer, peerEnc, toPeer, toMe) {
      CarriesOrder(p, !meClient, View(me.transcript, me.secret, meEnc), i, j, Pending(me.buf, meEnc, toMe, peer.flight),
                   View(peer.transcript, peer.secret, peer.writeEnc));
      if i == j {
        NobodyBehind(p, !meClient, i, peer, peerEnc, me, meEnc, toMe, toPeer);
      }
    }
    if Ahead(p, meClient, i, me, meEnc, j, peer, peerEnc, toPeer, toMe) {
      CarriesOneMore(p, meClient, View(peer.transcript, peer.secret, peerEnc), j, i,
                     Pending(peer.buf, peerEnc, toPeer, me.flight), View(me.transcript, me.secret, me.writeEnc));
    }
  }

  /** The message an end looks at is the next that the script has for it. */
  lemma Peek(p: Params, meClient: bool, i: nat, me: Core, meEnc: bool, j: nat, peer: Core, peerEnc: bool,
             toPeer: seq<Record>, toMe: seq<Record>) returns (k: nat)
    requires Linked(p, meClient, i, me, meEnc, j, peer, peerEnc, toPeer, toMe) && me.buf.Some?
    ensures i <= k < j && Phase(p, k) == Some(Entry(!meClient, Message(me.buf.value.kind)))
    ensures forall h :: i <= h < k ==> Phase(p, h).None?
    ensures me.buf.value.fromClient == !meClient
    ensures me.buf.value.body == BodyOf(p, me.buf.value.kind, !meClient, me.transcript, me.secret)
  {
    hide Phase, Carries, BodyOf;
    k := FirstRecord(p, !meClient, View(me.transcript, me.secret, meEnc), i, j, Pending(me.buf, meEnc, toMe, peer.flight),
                     View(peer.transcript, peer.secret, peer.writeEnc));
  }

  lemma AcceptLinked(p: Params, meClient: bool, i: nat, me: Core, meEnc: bool, j: nat, peer: Core, peerEnc: bool,
                     toPeer: seq<Record>, toMe: seq<Record>)
    requires Linked(p, meClient, i, me, meEnc, j, peer, peerEnc, toPeer, toMe)
    requires me.buf.Some? && Phase(p, i).Some?
    ensures Linked(p, meClient, i + 1, Accept(me), meEnc, j, peer, peerEnc, toPeer, toMe)
  {
    hide Phase, BodyOf;
    var k := Peek(p, meClient, i, me, meEnc, j, peer, peerEnc, toPeer, toMe);
    var records := Pending(me.buf, meEnc, toMe, peer.flight);
    assert records[1..] == Pending(None, meEnc, toMe, peer.flight);
  }

  lemma FlushLinked(p: Params, meClient: bool, i: nat, me: Core, meEnc: bool, j: nat, peer: Core, peerEnc: bool,
                    toPeer: seq<Record>, toMe: seq<Record>, n: nat)
    requires Linked(p, meClient, i, me, meEnc, j, peer, peerEnc, toPeer, toMe)
    ensures Linked(p, meClient, i, Remaining(me, n), meEnc, j, peer, peerEnc, toPeer + me.flight[..Taken(me, n)], toMe)
  {
    hide Phase, Carries;
    var t := Taken(me, n);
    assert Pending(peer.buf, peerEnc, toPeer + me.flight[..t], me.flight[t..]) == Pending(peer.buf, peerEnc, toPeer, me.flight);
    if Ahead(p, !meClient, j, peer, peerEnc, i, me, meEnc, toMe, toPeer) {
      assert me.flight[t..] == [] && toPeer + me.flight[..t] == [];
    }
  }

  /** A message that arrives at an end that waits for one is never refused. */
  lemma ArriveLinked(p: Params, meClient: bool, i: nat, me: Core, j: nat, peer: Core, peerEnc: bool,
                     toPeer: seq<Record>, toMe: seq<Record>, next: nat)
    requires Linked(p, meClient, i, me, me.readEnc, j, peer, peerEnc, toPeer, toMe) && me.buf.None? && toMe != []
    requires i <= next && Phase(p, next).Some?
    requires forall k :: i <= k <= next && Phase(p, k).Some? ==> Phase(p, k).value.what.Message?
    ensures toMe[0].content.Handshake? && toMe[0].encrypted == me.readEnc
    ensures Linked(p, meClient, i, me.(buf := Some(toMe[0].content.m)), me.readEnc, j, peer, peerEnc, toPeer, toMe[1..])
  {
    hide Phase, Carries;
    var records := Pending(me.buf, me.readEnc, toMe, peer.flight);
    var k := FirstRecord(p, !meClient, View(me.transcript, me.secret, me.readEnc), i, j, records,
                         View(peer.transcript, peer.secret, peer.writeEnc));
    assert records[0] == toMe[0];
    assert Pending(Some(toMe[0].content.m), me.readEnc, toMe[1..], peer.flight) == records;
  }

  /** Nor is a ChangeCipherSpec. */
  lemma ArriveCcsLinked(p: Params, meClient: bool, i: nat, me: Core, j: nat, peer: Core, peerEnc: bool,
                        toPeer: seq<Record>, toMe: seq<Record>)
    requires Linked(p, meClient, i, me, me.readEnc, j, peer, peerEnc, toPeer, toMe) && me.buf.None? && toMe != []
    requires Phase(p, i).Some? && Phase(p, i).value.what.Ccs?
    ensures toMe[0].content.ChangeCipherSpec? && toMe[0].encrypted == me.readEnc
    ensures Linked(p, meClient, i + 1, me, true, j, peer, peerEnc, toPeer, toMe[1..])
  {
    hide Phase;
    var records := Pending(me.buf, me.readEnc, toMe, peer.flight);
    var k := FirstRecord(p, !meClient, View(me.transcript, me.secret, me.readEnc), i, j, records,
                         View(peer.transcript, peer.secret, peer.writeEnc));
    assert records[0] == toMe[0] && records[1..] == Pending(me.buf, true, toMe[1..], peer.flight);
  }

  // ----- Where the machines are in the script -----------------------------

  function ClientPhase(p: Params, c: Client): nat {
    match c.state
    case StartConnect => 0
    case EnterEarlyData | ReadServerHello => 1
    case ReadServerCertificate => 2
    case ReadCertificateStatus => 3
    case VerifyServerCertificate | ReadServerKeyExchange => 4
    case ReadCertificateRequest => 5
    case ReadServerHelloDone => 6
    case SendClientCertificate => 7
    case SendClientKeyExchange => 8
    case SendClientCertificateVerify => 9
    case SendClientFinished => if p.resumed then 5 else 10
    case FinishFlight => if p.resumed then 9 else 14
    case ReadSessionTicket => if p.resumed then 2 else 14
    case ProcessServerCcs => (if p.resumed then 3 else 15) + (if c.wait == Ok then 1 else 0)
    case ReadServerFinished => if p.resumed then 4 else 16
    case FinishClient | ClientDone => End(p)
  }

  function ServerPhase(p: Params, s: Server): nat {
    match s.state
    case StartAccept | ReadClientHello | SelectCertificate | SelectParameters => 0
    case SendServerHello => 1
    case SendServerCertificate => 2
    case SendServerKeyExchange => 4
    case SendServerHelloDone => 5
    case ReadClientCertificate => 7
    case VerifyClientCertificate | ReadClientKeyExchange => 8
    case ReadClientCertificateVerify => 9
    case ReadClientCcs => if p.resumed then 5 else 10
    case ProcessClientCcs => (if p.resumed then 5 else 10) + (if s.wait == Ok then 1 else 0)
    case ReadNextProto => if p.resumed then 6 else 11
    case ReadChannelId => if p.resumed then 7 else 12
    case ReadClientFinished => if p.resumed then 8 else 13
    case SendServerFinished => if p.resumed then 2 else 14
    case FinishServer | ServerDone => End(p)
  }

  /** Whether the end's next record will be under the new keys: from the moment
      the ChangeCipherSpec is read. */
  predicate ClientReadsEnc(c: Client) { c.core.readEnc || (c.state == ProcessServerCcs && c.wait == Ok) }
  predicate ServerReadsEnc(s: Server) { s.core.readEnc || (s.state == ProcessClientCcs && s.wait == Ok) }

  /** The phase of the ChangeCipherSpec from either end. */
  function CcsPlace(p: Params, fromClient: bool): nat {
    if fromClient then (if p.resumed then 5 else 10) else (if p.resumed then 3 else 15)
  }

  /** States of a full handshake only. */
  predicate ClientFullOnly(st: ClientState) {
    st.ReadServerCertificate? || st.ReadCertificateStatus? || st.VerifyServerCertificate? ||
    st.ReadServerKeyExchange? || st.ReadCertificateRequest? || st.ReadServerHelloDone? ||
    st.SendClientCertificate? || st.SendClientKeyExchange? || st.SendClientCertificateVerify?
  }

  predicate ServerFullOnly(st: ServerState) {
    st.SendServerCertificate? || st.SendServerKeyExchange? || st.SendServerHelloDone? ||
    st.ReadClientCertificate? || st.VerifyClientCertificate? || st.ReadClientKeyExchange? ||
    st.ReadClientCertificateVerify?
  }

  /** States in which the end looks at, or waits for, a message. */
  predicate ClientReads(p: Params, st: ClientState) {
    st.ReadServerHello? || st.ReadServerCertificate? || st.ReadCertificateStatus? || st.VerifyServerCertificate? ||
    st.ReadServerKeyExchange? || st.ReadCertificateRequest? || st.ReadServerHelloDone? ||
    (st.ReadSessionTicket? && p.ticket) || st.ReadServerFinished?
  }

  predicate ServerReads(p: Params, st: ServerState) {
    st.ReadClientHello? || st.SelectCertificate? || st.SelectParameters? ||
    (st.ReadClientCertificate? && Asks(p)) || st.ReadClientKeyExchange? || st.ReadClientCertificateVerify? ||
    (st.ReadNextProto? && p.nextProto) || (st.ReadChannelId? && p.channelId) || st.ReadClientFinished?
  }

  /** States in which a flight is being put together. */
  predicate ClientSending(st: ClientState) {
    st.SendClientKeyExchange? || st.SendClientCertificateVerify? || st.SendClientFinished?
  }

  predicate ServerSending(st: ServerState) {
    st.SendServerCertificate? || st.SendServerKeyExchange? || st.SendServerHelloDone? || st.SendServerFinished?
  }

  /** A client at its place in the script: it has not failed, waits where it
      may, and knows what it has to know there. */
  predicate ClientOk(p: Params, c: Client) {
    && !c.wait.Failed? && (p.resumed ==> !ClientFullOnly(c.state))
    && (c.core.buf.Some? || c.wait == ReadMessage ==> ClientReads(p, c.state))
    && (c.wait == ReadMessage ==> c.core.buf.None?)
    && (c.wait == ReadChangeCipherSpec ==> c.state == ProcessServerCcs)
    && (c.state == ProcessServerCcs ==> c.wait == Ok || c.wait == ReadChangeCipherSpec)
    && (c.wait == FlushFlight ==> c.state == EnterEarlyData || c.state == FinishFlight)
    && (c.state == ClientDone ==> c.wait == Ok)
    && (c.core.flight != [] ==> c.wait == FlushFlight || ClientSending(c.state))
    && (c.certRequest <==> p.certRequest && !p.resumed && ClientPhase(p, c) >= 6)
    && (ClientReadsEnc(c) <==> ClientPhase(p, c) > CcsPlace(p, false))
    && (c.core.writeEnc <==> ClientPhase(p, c) > CcsPlace(p, true))
  }

  predicate ServerOk(p: Params, s: Server) {
    && !s.wait.Failed? && (p.resumed ==> !ServerFullOnly(s.state))
    && (s.core.buf.Some? || s.wait == ReadMessage ==> ServerReads(p, s.state))
    && (s.wait == ReadMessage ==> s.core.buf.None?)
    && (s.state == ReadClientCertificateVerify && (s.core.buf.Some? || s.wait == ReadMessage) ==> s.peerCert)
    && (s.wait == ReadChangeCipherSpec ==> s.state == ProcessClientCcs)
    && (s.state == ProcessClientCcs ==> s.wait == Ok || s.wait == ReadChangeCipherSpec)
    && (s.wait == FlushFlight ==> s.state == ReadClientCertificate || s.state == ReadClientCcs || s.state == FinishServer)
    && (s.state == ServerDone ==> s.wait == Ok)
    && (s.core.flight != [] ==> s.wait == FlushFlight || ServerSending(s.state))
    && (s.peerCert <==> p.certRequest && p.clientHasCert && !p.resumed && ServerPhase(p, s) >= 8)
    && (ServerReadsEnc(s) <==> ServerPhase(p, s) > CcsPlace(p, true))
    && (s.core.writeEnc <==> ServerPhase(p, s) > CcsPlace(p, false))
  }

  ghost predicate ClientLinked(p: Params, i: nat, c: Core, cEnc: bool, sys: System) {
    Linked(p, true, i, c, cEnc, ServerPhase(p, sys.server), sys.server.core, ServerReadsEnc(sys.server), sys.c2s, sys.s2c)
  }

  ghost predicate ServerLinked(p: Params, i: nat, s: Core, sEnc: bool, sys: System) {
    Linked(p, false, i, s, sEnc, ClientPhase(p, sys.client), sys.client.core, ClientReadsEnc(sys.client), sys.s2c, sys.c2s)
  }

  /** Both ends are at their places in the script, and linked. */
  ghost predicate Inv(p: Params, sys: System) {
    && p.Valid() && ClientOk(p, sys.client) && ServerOk(p, sys.server)
    && ClientLinked(p, ClientPhase(p, sys.client), sys.client.core, ClientReadsEnc(sys.client), sys)
  }

  /** The link looks the same from the other end. */
  lemma LinkedEitherWay(p: Params, sys: System)
    ensures ClientLinked(p, ClientPhase(p, sys.client), sys.client.core, ClientReadsEnc(sys.client), sys) <==>
            ServerLinked(p, ServerPhase(p, sys.server), sys.server.core, ServerReadsEnc(sys.server), sys)
  {
  }

  // ----- Client steps -----------------------------------------------------

  lemma ClientSends(p: Params, i: nat, c: Core, enc: bool, sys: System, kind: Kind, b: bool)
    requires ClientLinked(p, i, c, enc, sys)
    requires Phase(p, i) == If(b, true, Message(kind))
    ensures ClientLinked(p, i + 1, EmitIf(b, p, c, true, kind), enc, sys)
  {
    hide Phase, Linked;
    if b {
      EmitLinked(p, true, i, c, enc, ServerPhase(p, sys.server), sys.server.core, ServerReadsEnc(sys.server),
                 sys.c2s, sys.s2c, kind);
    } else {
      SkipLinked(p, true, i, c, enc, ServerPhase(p, sys.server), sys.server.core, ServerReadsEnc(sys.server),
                 sys.c2s, sys.s2c);
    }
  }

  lemma ClientSkips(p: Params, i: nat, c: Core, enc: bool, sys: System)
    requires ClientLinked(p, i, c, enc, sys) && Phase(p, i).None?
    ensures ClientLinked(p, i + 1, c, enc, sys)
  {
    hide Phase, Linked;
    SkipLinked(p, true, i, c, enc, ServerPhase(p, sys.server), sys.server.core, ServerReadsEnc(sys.server),
               sys.c2s, sys.s2c);
  }

  lemma ClientSendsCcs(p: Params, i: nat, c: Core, enc: bool, sys: System)
    requires ClientLinked(p, i, c, enc, sys) && Phase(p, i) == Some(Entry(true, Ccs))
    ensures ClientLinked(p, i + 1, EmitCcs(c), enc, sys)
  {
    hide Phase, Linked;
    EmitCcsLinked(p, true, i, c, enc, ServerPhase(p, sys.server), sys.server.core, ServerReadsEnc(sys.server),
                  sys.c2s, sys.s2c);
  }

  /** What the client reads is right, and reading it moves it on. */
  lemma ClientAccepts(p: Params, i: nat, c: Core, enc: bool, sys: System, kind: Kind)
    requires ClientLinked(p, i, c, enc, sys) && c.buf.Some?
    requires Phase(p, i) == Some(Entry(false, Message(kind)))
    ensures c.buf.value.kind == kind
    ensures c.buf.value.body == BodyOf(p, kind, false, c.transcript, c.secret)
    ensures ClientLinked(p, i + 1, Accept(c), enc, sys)
  {
    hide Phase, Linked, BodyOf;
    var k := Peek(p, true, i, c, enc, ServerPhase(p, sys.server), sys.server.core, ServerReadsEnc(sys.server),
                  sys.c2s, sys.s2c);
    AcceptLinked(p, true, i, c, enc, ServerPhase(p, sys.server), sys.server.core, ServerReadsEnc(sys.server),
                 sys.c2s, sys.s2c);
  }

  /** The client after a step, at its place again. */
  ghost predicate ClientMoved(p: Params, c: Client, sys: System) {
    ClientOk(p, c) && ClientLinked(p, ClientPhase(p, c), c.core, ClientReadsEnc(c), sys)
  }

  lemma ClientReadStep(p: Params, sys: System, kind: Kind)
    requires Inv(p, sys) && sys.client.wait == Ok && sys.client.state != ProcessServerCcs
    requires Phase(p, ClientPhase(p, sys.client)) == Some(Entry(false, Message(kind)))
    ensures var c := sys.client;
            var r := Read(c.core, kind);
            && (c.core.buf.None? ==> r == NeedMessage)
            && (c.core.buf.Some? ==>
                  r == Got(Accept(c.core)) &&
                  r == ReadChecked(p, c.core, false, kind) &&
                  ClientLinked(p, ClientPhase(p, c) + 1, Accept(c.core), c.core.readEnc, sys))
  {
    hide Phase, Linked, BodyOf;
    if sys.client.core.buf.Some? {
      ClientAccepts(p, ClientPhase(p, sys.client), sys.client.core, ClientReadsEnc(sys.client), sys, kind);
    }
  }

  lemma ClientHelloSteps(p: Params, sys: System, retry: bool)
    requires Inv(p, sys) && sys.client.wait == Ok
    requires sys.client.state in {StartConnect, EnterEarlyData, ReadServerHello}
    ensures ClientMoved(p, ClientStep(p, sys.client, retry), sys)
  {
    hide Linked, Emit, Accept;
    var c := sys.client;
    match c.state
    case StartConnect => ClientSends(p, 0, c.core, ClientReadsEnc(c), sys, ClientHello, true);
      EmitFacts(p, c.core, true, ClientHello);
    case EnterEarlyData =>
    case ReadServerHello =>
      ClientReadStep(p, sys, ServerHello);
      AcceptFacts(c.core);
  }

  lemma EmitFacts(p: Params, c: Core, fromClient: bool, kind: Kind)
    ensures var c' := Emit(p, c, fromClient, kind);
            c'.buf == c.buf && c'.readEnc == c.readEnc && c'.writeEnc == c.writeEnc
  {
  }

  lemma AcceptFacts(c: Core)
    ensures c.buf.Some? ==> Accept(c) == c.(buf := None, transcript := Accept(c).transcript, secret := Accept(c).secret)
  {
  }

  lemma ClientCertificateSteps(p: Params, sys: System, retry: bool)
    requires Inv(p, sys) && sys.client.wait == Ok
    requires sys.client.state in {ReadServerCertificate, ReadCertificateStatus, VerifyServerCertificate}
    ensures ClientMoved(p, ClientStep(p, sys.client, retry), sys)
  {
    hide Linked, Accept;
    var c := sys.client;
    AcceptFacts(c.core);
    match c.state
    case ReadServerCertificate =>
      if p.certAuth {
        ClientReadStep(p, sys, Certificate);
      } else {
        ClientSkips(p, 2, c.core, ClientReadsEnc(c), sys);
      }
    case ReadCertificateStatus =>
      if p.statusSent {
        ClientReadStep(p, sys, CertificateStatus);
      } else {
        ClientSkips(p, 3, c.core, ClientReadsEnc(c), sys);
        if c.core.buf.Some? {
          var k := ClientPeeks(p, sys);
        }
      }
    case VerifyServerCertificate =>
  }

  lemma ClientPeeks(p: Params, sys: System) returns (k: nat)
    requires Inv(p, sys) && sys.client.core.buf.Some?
    ensures ClientPhase(p, sys.client) <= k
    ensures Phase(p, k) == Some(Entry(false, Message(sys.client.core.buf.value.kind)))
    ensures forall h :: ClientPhase(p, sys.client) <= h < k ==> Phase(p, h).None?
  {
    hide Phase, Linked, BodyOf;
    k := Peek(p, true, ClientPhase(p, sys.client), sys.client.core, ClientReadsEnc(sys.client),
              ServerPhase(p, sys.server), sys.server.core, ServerReadsEnc(sys.server), sys.c2s, sys.s2c);
  }

  lemma ClientKeyExchangeStep(p: Params, sys: System, retry: bool)
    requires Inv(p, sys) && sys.client.wait == Ok && sys.client.state == ReadServerKeyExchange
    ensures ClientMoved(p, ClientStep(p, sys.client, retry), sys)
  {
    hide Linked, Accept;
    var c := sys.client;
    AcceptFacts(c.core);
    if p.SendsKeyExchange() {
      ClientReadStep(p, sys, ServerKeyExchange);
    } else if c.core.buf.Some? {
      var k := ClientPeeks(p, sys);
      ClientSkips(p, 4, c.core, ClientReadsEnc(c), sys);
    }
  }

  lemma ClientServerDoneSteps(p: Params, sys: System, retry: bool)
    requires Inv(p, sys) && sys.client.wait == Ok
    requires sys.client.state in {ReadCertificateRequest, ReadServerHelloDone}
    ensures ClientMoved(p, ClientStep(p, sys.client, retry), sys)
  {
    hide Linked, Accept;
    var c := sys.client;
    AcceptFacts(c.core);
    if c.state == ReadServerHelloDone {
      ClientReadStep(p, sys, ServerHelloDone);
    } else if p.certRequest {
      ClientReadStep(p, sys, CertificateRequest);
    } else {
      ClientSkips(p, 5, c.core, ClientReadsEnc(c), sys);
      if c.core.buf.Some? {
        var k := ClientPeeks(p, sys);
        assert Phase(p, 6) == Some(Entry(false, Message(ServerHelloDone)));
      }
    }
  }

  lemma ClientSendSteps(p: Params, sys: System, retry: bool)
    requires Inv(p, sys) && sys.client.wait == Ok
    requires sys.client.state in {SendClientCertificate, SendClientKeyExchange, SendClientCertificateVerify}
    ensures ClientMoved(p, ClientStep(p, sys.client, retry), sys)
  {
    hide Linked, Emit;
    var c := sys.client;
    var enc := ClientReadsEnc(c);
    EmitFacts(p, c.core, true, Certificate);
    EmitFacts(p, c.core, true, ClientKeyExchange);
    EmitFacts(p, c.core, true, CertificateVerify);
    match c.state
    case SendClientCertificate => ClientSends(p, 7, c.core, enc, sys, Certificate, p.certRequest);
    case SendClientKeyExchange => ClientSends(p, 8, c.core, enc, sys, ClientKeyExchange, true);
    case SendClientCertificateVerify =>
      ClientSends(p, 9, c.core, enc, sys, CertificateVerify, p.certRequest && p.clientHasCert);
  }

  lemma ClientFinishedStep(p: Params, sys: System, retry: bool)
    requires Inv(p, sys) && sys.client.wait == Ok && sys.client.state == SendClientFinished
    ensures ClientMoved(p, ClientStep(p, sys.client, retry), sys)
  {
    hide Linked, Emit, EmitCcs;
    var c := sys.client;
    var enc, i := ClientReadsEnc(c), ClientPhase(p, c);
    var c0 := EmitCcs(c.core);
    var c1 := EmitIf(p.nextProto, p, c0, true, NextProto);
    var c2 := EmitIf(p.channelId, p, c1, true, ChannelId);
    ClientSendsCcs(p, i, c.core, enc, sys);
    ClientSends(p, i + 1, c0, enc, sys, NextProto, p.nextProto);
    ClientSends(p, i + 2, c1, enc, sys, ChannelId, p.channelId);
    ClientSends(p, i + 3, c2, enc, sys, Finished, true);
    EmitCcsFacts(c.core);
    EmitFacts(p, c0, true, NextProto);
    EmitFacts(p, c1, true, ChannelId);
    EmitFacts(p, c2, true, Finished);
  }

  lemma EmitCcsFacts(c: Core)
    ensures EmitCcs(c).buf == c.buf && EmitCcs(c).readEnc == c.readEnc && EmitCcs(c).writeEnc
  {
  }

  lemma ClientCcsSteps(p: Params, sys: System, retry: bool)
    requires Inv(p, sys) && sys.client.wait == Ok
    requires sys.client.state in {FinishFlight, ProcessServerCcs, FinishClient, ClientDone}
    ensures ClientMoved(p, ClientStep(p, sys.client, retry), sys)
  {
    hide Linked;
    var c := sys.client;
    if c.state == ProcessServerCcs {
      ClientEncIrrelevant(p, ClientPhase(p, c), c.core, sys);
    }
  }

  lemma ClientTicketStep(p: Params, sys: System, retry: bool)
    requires Inv(p, sys) && sys.client.wait == Ok && sys.client.state == ReadSessionTicket
    ensures ClientMoved(p, ClientStep(p, sys.client, retry), sys)
  {
    hide Linked, Accept;
    var c := sys.client;
    AcceptFacts(c.core);
    if p.ticket {
      ClientReadStep(p, sys, NewSessionTicket);
    } else {
      ClientSkips(p, ClientPhase(p, c), c.core, ClientReadsEnc(c), sys);
    }
  }

  lemma ClientReadsFinished(p: Params, sys: System, retry: bool)
    requires Inv(p, sys) && sys.client.wait == Ok && sys.client.state == ReadServerFinished
    ensures ClientMoved(p, ClientStep(p, sys.client, retry), sys)
  {
    hide Linked, Accept;
    AcceptFacts(sys.client.core);
    ClientReadStep(p, sys, Finished);
  }

  /** The link looks at the effective keys, not at the stored flag. */
  lemma ClientEncIrrelevant(p: Params, i: nat, c: Core, sys: System)
    requires ClientLinked(p, i, c, true, sys)
    ensures ClientLinked(p, i, c.(readEnc := true), true, sys)
  {
  }

  lemma ClientStepMoves(p: Params, sys: System, retry: bool)
    requires Inv(p, sys) && sys.client.wait == Ok
    ensures ClientMoved(p, ClientStep(p, sys.client, retry), sys)
  {
    hide Linked, ClientStep, ClientMoved;
    var st := sys.client.state;
    if st in {StartConnect, EnterEarlyData, ReadServerHello} {
      ClientHelloSteps(p, sys, retry);
    } else if st in {ReadServerCertificate, ReadCertificateStatus, VerifyServerCertificate} {
      ClientCertificateSteps(p, sys, retry);
    } else if st == ReadServerKeyExchange {
      ClientKeyExchangeStep(p, sys, retry);
    } else if st in {ReadCertificateRequest, ReadServerHelloDone} {
      ClientServerDoneSteps(p, sys, retry);
    } else if st in {SendClientCertificate, SendClientKeyExchange, SendClientCertificateVerify} {
      ClientSendSteps(p, sys, retry);
    } else if st == SendClientFinished {
      ClientFinishedStep(p, sys, retry);
    } else if st == ReadSessionTicket {
      ClientTicketStep(p, sys, retry);
    } else if st == ReadServerFinished {
      ClientReadsFinished(p, sys, retry);
    } else {
      ClientCcsSteps(p, sys, retry);
    }
  }

  // ----- Server steps -----------------------------------------------------

  lemma ServerSends(p: Params, i: nat, s: Core, enc: bool, sys: System, kind: Kind, b: bool)
    requires ServerLinked(p, i, s, enc, sys)
    requires Phase(p, i) == If(b, false, Message(kind))
    ensures ServerLinked(p, i + 1, EmitIf(b, p, s, false, kind), enc, sys)
  {
    hide Phase, Linked;
    if b {
      EmitLinked(p, false, i, s, enc, ClientPhase(p, sys.client), sys.client.core, ClientReadsEnc(sys.client),
                 sys.s2c, sys.c2s, kind);
    } else {
      SkipLinked(p, false, i, s, enc, ClientPhase(p, sys.client), sys.client.core, ClientReadsEnc(sys.client),
                 sys.s2c, sys.c2s);
    }
  }

  lemma ServerSkips(p: Params, i: nat, s: Core, enc: bool, sys: System)
    requires ServerLinked(p, i, s, enc, sys) && Phase(p, i).None?
    ensures ServerLinked(p, i + 1, s, enc, sys)
  {
    hide Phase, Linked;
    SkipLinked(p, false, i, s, enc, ClientPhase(p, sys.client), sys.client.core, ClientReadsEnc(sys.client),
               sys.s2c, sys.c2s);
  }

  lemma ServerSendsCcs(p: Params, i: nat, s: Core, enc: bool, sys: System)
    requires ServerLinked(p, i, s, enc, sys) && Phase(p, i) == Some(Entry(false, Ccs))
    ensures ServerLinked(p, i + 1, EmitCcs(s), enc, sys)
  {
    hide Phase, Linked;
    EmitCcsLinked(p, false, i, s, enc, ClientPhase(p, sys.client), sys.client.core, ClientReadsEnc(sys.client),
                  sys.s2c, sys.c2s);
  }

  /** The server after a step, at its place again. */
  ghost predicate ServerMoved(p: Params, s: Server, sys: System) {
    ServerOk(p, s) && ServerLinked(p, ServerPhase(p, s), s.core, ServerReadsEnc(s), sys)
  }

  lemma ServerReadStep(p: Params, sys: System, kind: Kind)
    requires Inv(p, sys) && sys.server.wait == Ok && sys.server.state != ProcessClientCcs
    requires Phase(p, ServerPhase(p, sys.server)) == Some(Entry(true, Message(kind)))
    ensures var s := sys.server;
            var r := Read(s.core, kind);
            && (s.core.buf.None? ==> r == NeedMessage)
            && (s.core.buf.Some? ==>
                  s.core.buf.value.kind == kind && r == Got(Accept(s.core)) &&
                  r == ReadChecked(p, s.core, true, kind) &&
                  ServerLinked(p, ServerPhase(p, s) + 1, Accept(s.core), s.core.readEnc, sys))
  {
    hide Phase, Linked, BodyOf;
    var s := sys.server;
    LinkedEitherWay(p, sys);
    if s.core.buf.Some? {
      var k := Peek(p, false, ServerPhase(p, s), s.core, ServerReadsEnc(s), ClientPhase(p, sys.client), sys.client.core,
                    ClientReadsEnc(sys.client), sys.s2c, sys.c2s);
      AcceptLinked(p, false, ServerPhase(p, s), s.core, ServerReadsEnc(s), ClientPhase(p, sys.client), sys.client.core,
                   ClientReadsEnc(sys.client), sys.s2c, sys.c2s);
    }
  }

  lemma ServerHelloSteps(p: Params, sys: System, retry: bool)
    requires Inv(p, sys) && sys.server.wait == Ok
    requires sys.server.state in {StartAccept, ReadClientHello, SelectCertificate, SelectParameters}
    ensures ServerMoved(p, ServerStep(p, sys.server, retry), sys)
  {
    hide Linked, Accept;
    var s := sys.server;
    LinkedEitherWay(p, sys);
    AcceptFacts(s.core);
    ServerReadStep(p, sys, ClientHello);
  }

  lemma ServerHelloSent(p: Params, sys: System, retry: bool)
    requires Inv(p, sys) && sys.server.wait == Ok && sys.server.state == SendServerHello
    ensures ServerMoved(p, ServerStep(p, sys.server, retry), sys)
  {
    hide Linked, Emit;
    var s := sys.server;
    LinkedEitherWay(p, sys);
    ServerSends(p, 1, s.core, ServerReadsEnc(s), sys, ServerHello, true);
    EmitFacts(p, s.core, false, ServerHello);
  }

  lemma ServerFlightSteps(p: Params, sys: System, retry: bool)
    requires Inv(p, sys) && sys.server.wait == Ok
    requires sys.server.state in {SendServerCertificate, SendServerKeyExchange, SendServerHelloDone}
    ensures ServerMoved(p, ServerStep(p, sys.server, retry), sys)
  {
    hide Linked, Emit;
    var s := sys.server;
    var enc := ServerReadsEnc(s);
    LinkedEitherWay(p, sys);
    match s.state
    case SendServerCertificate =>
      var c1 := EmitIf(p.certAuth, p, s.core, false, Certificate);
      ServerSends(p, 2, s.core, enc, sys, Certificate, p.certAuth);
      ServerSends(p, 3, c1, enc, sys, CertificateStatus, p.statusSent);
      EmitFacts(p, s.core, false, Certificate);
      EmitFacts(p, c1, false, CertificateStatus);
    case SendServerKeyExchange =>
      ServerSends(p, 4, s.core, enc, sys, ServerKeyExchange, p.SendsKeyExchange());
      EmitFacts(p, s.core, false, ServerKeyExchange);
    case SendServerHelloDone =>
      var c1 := EmitIf(Asks(p), p, s.core, false, CertificateRequest);
      ServerSends(p, 5, s.core, enc, sys, CertificateRequest, p.certRequest);
      ServerSends(p, 6, c1, enc, sys, ServerHelloDone, true);
      EmitFacts(p, s.core, false, CertificateRequest);
      EmitFacts(p, c1, false, ServerHelloDone);
  }

  lemma ServerCertificateSteps(p: Params, sys: System, retry: bool)
    requires Inv(p, sys) && sys.server.wait == Ok
    requires sys.server.state in {ReadClientCertificate, VerifyClientCertificate, ReadClientKeyExchange, ReadClientCertificateVerify}
    ensures ServerMoved(p, ServerStep(p, sys.server, retry), sys)
  {
    hide Linked, Accept, BodyOf;
    var s := sys.server;
    LinkedEitherWay(p, sys);
    AcceptFacts(s.core);
    match s.state
    case ReadClientCertificate =>
      if Asks(p) {
        ServerReadStep(p, sys, Certificate);
      } else {
        ServerSkips(p, 7, s.core, ServerReadsEnc(s), sys);
      }
    case VerifyClientCertificate =>
    case ReadClientKeyExchange => ServerReadStep(p, sys, ClientKeyExchange);
    case ReadClientCertificateVerify =>
      if s.peerCert {
        ServerReadStep(p, sys, CertificateVerify);
      } else {
        ServerSkips(p, 9, s.core, ServerReadsEnc(s), sys);
      }
  }

  lemma ServerCcsSteps(p: Params, sys: System, retry: bool)
    requires Inv(p, sys) && sys.server.wait == Ok
    requires sys.server.state in {ReadClientCcs, ProcessClientCcs, FinishServer, ServerDone}
    ensures ServerMoved(p, ServerStep(p, sys.server, retry), sys)
  {
    hide Linked;
    var s := sys.server;
    LinkedEitherWay(p, sys);
    if s.state == ProcessClientCcs {
      ServerEncIrrelevant(p, ServerPhase(p, s), s.core, sys);
    }
  }

  lemma ServerReadSteps(p: Params, sys: System, retry: bool)
    requires Inv(p, sys) && sys.server.wait == Ok
    requires sys.server.state in {ReadNextProto, ReadChannelId}
    ensures ServerMoved(p, ServerStep(p, sys.server, retry), sys)
  {
    hide Linked, Accept, BodyOf;
    var s := sys.server;
    LinkedEitherWay(p, sys);
    AcceptFacts(s.core);
    match s.state
    case ReadNextProto =>
      if p.nextProto {
        ServerReadStep(p, sys, NextProto);
      } else {
        ServerSkips(p, ServerPhase(p, s), s.core, ServerReadsEnc(s), sys);
      }
    case ReadChannelId =>
      if p.channelId {
        ServerReadStep(p, sys, ChannelId);
      } else {
        ServerSkips(p, ServerPhase(p, s), s.core, ServerReadsEnc(s), sys);
      }
  }

  lemma ServerReadsFinished(p: Params, sys: System, retry: bool)
    requires Inv(p, sys) && sys.server.wait == Ok && sys.server.state == ReadClientFinished
    ensures ServerMoved(p, ServerStep(p, sys.server, retry), sys)
  {
    hide Linked, Accept, BodyOf;
    LinkedEitherWay(p, sys);
    AcceptFacts(sys.server.core);
    ServerReadStep(p, sys, Finished);
  }

  lemma ServerEncIrrelevant(p: Params, i: nat, s: Core, sys: System)
    requires ServerLinked(p, i, s, true, sys)
    ensures ServerLinked(p, i, s.(readEnc := true), true, sys)
  {
  }

  lemma ServerFinishedStep(p: Params, sys: System, retry: bool)
    requires Inv(p, sys) && sys.server.wait == Ok && sys.server.state == SendServerFinished
    ensures ServerMoved(p, ServerStep(p, sys.server, retry), sys)
  {
    hide Linked, Emit, EmitCcs;
    var s := sys.server;
    var enc, i := ServerReadsEnc(s), ServerPhase(p, s);
    LinkedEitherWay(p, sys);
    var c1 := EmitIf(p.ticket, p, s.core, false, NewSessionTicket);
    ServerSends(p, i, s.core, enc, sys, NewSessionTicket, p.ticket);
    ServerSendsCcs(p, i + 1, c1, enc, sys);
    ServerSends(p, i + 2, EmitCcs(c1), enc, sys, Finished, true);
    EmitFacts(p, s.core, false, NewSessionTicket);
    EmitCcsFacts(c1);
    EmitFacts(p, EmitCcs(c1), false, Finished);
  }

  lemma ServerStepMoves(p: Params, sys: System, retry: bool)
    requires Inv(p, sys) && sys.server.wait == Ok
    ensures ServerMoved(p, ServerStep(p, sys.server, retry), sys)
  {
    hide Linked, ServerStep, ServerMoved;
    var st := sys.server.state;
    if st in {StartAccept, ReadClientHello, SelectCertificate, SelectParameters} {
      ServerHelloSteps(p, sys, retry);
    } else if st == SendServerHello {
      ServerHelloSent(p, sys, retry);
    } else if st in {SendServerCertificate, SendServerKeyExchange, SendServerHelloDone} {
      ServerFlightSteps(p, sys, retry);
    } else if st in {ReadClientCertificate, VerifyClientCertificate, ReadClientKeyExchange, ReadClientCertificateVerify} {
      ServerCertificateSteps(p, sys, retry);
    } else if st == SendServerFinished {
      ServerFinishedStep(p, sys, retry);
    } else if st in {ReadNextProto, ReadChannelId} {
      ServerReadSteps(p, sys, retry);
    } else if st == ReadClientFinished {
      ServerReadsFinished(p, sys, retry);
    } else {
      ServerCcsSteps(p, sys, retry);
    }
  }

  // ----- Waits ------------------------------------------------------------

  /** The next phase that is sent at all, from a place where the client waits
      for a message. */
  function NextForClient(p: Params, c: Client): nat {
    if c.state == ReadCertificateStatus && !p.statusSent then (if p.SendsKeyExchange() then 4 else if p.certRequest then 5 else 6)
    else if c.state == VerifyServerCertificate || c.state == ReadServerKeyExchange then
      (if p.SendsKeyExchange() then 4 else if p.certRequest then 5 else 6)
    else if c.state == ReadCertificateRequest then (if p.certRequest then 5 else 6)
    else if c.state == ReadServerCertificate && !p.certAuth then (if p.SendsKeyExchange() then 4 else 6)
    else ClientPhase(p, c)
  }

  lemma ClientArrives(p: Params, sys: System)
    requires Inv(p, sys)
    ensures Inv(p, ClientEvent(p, sys, Arrive))
  {
    hide Linked, Phase;
    var c := sys.client;
    if sys.s2c != [] && c.wait == ReadMessage {
      NextMessageForClient(p, c);
      ArriveLinked(p, true, ClientPhase(p, c), c.core, ServerPhase(p, sys.server), sys.server.core,
                   ServerReadsEnc(sys.server), sys.c2s, sys.s2c, NextForClient(p, c));
    } else if sys.s2c != [] && c.wait == ReadChangeCipherSpec {
      assert c.core.buf.None?;
      CcsPhase(p, ClientPhase(p, c));
      ArriveCcsLinked(p, true, ClientPhase(p, c), c.core, ServerPhase(p, sys.server), sys.server.core,
                      ServerReadsEnc(sys.server), sys.c2s, sys.s2c);
    }
  }

  lemma NextMessageForClient(p: Params, c: Client)
    requires p.Valid() && ClientOk(p, c) && c.wait == ReadMessage
    ensures ClientPhase(p, c) <= NextForClient(p, c) < End(p) && Phase(p, NextForClient(p, c)).Some?
    ensures !Phase(p, NextForClient(p, c)).value.fromClient && Phase(p, NextForClient(p, c)).value.what.Message?
    ensures forall k :: ClientPhase(p, c) <= k < NextForClient(p, c) ==> Phase(p, k).None?
  {
  }

  lemma CcsPhase(p: Params, k: nat)
    requires if p.resumed then k == 3 || k == 5 else k == 10 || k == 15
    ensures Phase(p, k).Some? && Phase(p, k).value.what.Ccs?
  {
  }

  lemma ServerArrives(p: Params, sys: System)
    requires Inv(p, sys)
    ensures Inv(p, ServerEvent(p, sys, Arrive))
  {
    hide Linked, Phase;
    var s := sys.server;
    LinkedEitherWay(p, sys);
    LinkedEitherWay(p, ServerEvent(p, sys, Arrive));
    if sys.c2s != [] && s.wait == ReadMessage {
      NextMessageForServer(p, s);
      ArriveLinked(p, false, ServerPhase(p, s), s.core, ClientPhase(p, sys.client), sys.client.core,
                   ClientReadsEnc(sys.client), sys.s2c, sys.c2s, ServerPhase(p, s));
    } else if sys.c2s != [] && s.wait == ReadChangeCipherSpec {
      assert s.core.buf.None?;
      CcsPhase(p, ServerPhase(p, s));
      ArriveCcsLinked(p, false, ServerPhase(p, s), s.core, ClientPhase(p, sys.client), sys.client.core,
                      ClientReadsEnc(sys.client), sys.s2c, sys.c2s);
    }
  }

  lemma NextMessageForServer(p: Params, s: Server)
    requires p.Valid() && ServerOk(p, s) && s.wait == ReadMessage
    ensures Phase(p, ServerPhase(p, s)).Some? && Phase(p, ServerPhase(p, s)).value.what.Message?
    ensures ServerPhase(p, s) < End(p) && Phase(p, ServerPhase(p, s)).value.fromClient
  {
  }

  lemma ClientFlushes(p: Params, sys: System, n: nat)
    requires Inv(p, sys)
    ensures Inv(p, ClientEvent(p, sys, Flush(n)))
  {
    hide Linked, Phase;
    var c := sys.client;
    FlushLinked(p, true, ClientPhase(p, c), c.core, ClientReadsEnc(c), ServerPhase(p, sys.server), sys.server.core,
                ServerReadsEnc(sys.server), sys.c2s, sys.s2c, n);
  }

  lemma ServerFlushes(p: Params, sys: System, n: nat)
    requires Inv(p, sys)
    ensures Inv(p, ServerEvent(p, sys, Flush(n)))
  {
    hide Linked, Phase;
    var s := sys.server;
    LinkedEitherWay(p, sys);
    LinkedEitherWay(p, ServerEvent(p, sys, Flush(n)));
    FlushLinked(p, false, ServerPhase(p, s), s.core, ServerReadsEnc(s), ClientPhase(p, sys.client), sys.client.core,
                ClientReadsEnc(sys.client), sys.s2c, sys.c2s, n);
  }

  lemma ClientKeepsInv(p: Params, sys: System, e: Event)
    requires Inv(p, sys)
    ensures Inv(p, ClientEvent(p, sys, e))
  {
    hide Linked, ClientStep;
    match e
    case Run(retry) => if sys.client.wait == Ok { ClientStepMoves(p, sys, retry); }
    case Flush(n) => ClientFlushes(p, sys, n);
    case Arrive => ClientArrives(p, sys);
    case Resume =>
  }

  lemma ServerKeepsInv(p: Params, sys: System, e: Event)
    requires Inv(p, sys)
    ensures Inv(p, ServerEvent(p, sys, e))
  {
    hide Linked, ServerStep;
    match e
    case Run(retry) =>
      if sys.server.wait == Ok {
        ServerStepMoves(p, sys, retry);
        LinkedEitherWay(p, ServerEvent(p, sys, e));
      }
    case Flush(n) => ServerFlushes(p, sys, n);
    case Arrive => ServerArrives(p, sys);
    case Resume => LinkedEitherWay(p, sys);
      LinkedEitherWay(p, ServerEvent(p, sys, e));
  }
}
