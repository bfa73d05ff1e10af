/** Whole runs of the handshake: it never fails, both ends agree, pauses change
    nothing, and it can always be completed. */
module HandshakeRuns {
  import opened Bytes
  import opened HandshakeScript
  import opened HandshakeMachines
  import opened HandshakeProduct

  /** An event at the client or at the server. */
  datatype Happening = Happening(atClient: bool, e: Event)

  function Step(p: Params, sys: System, h: Happening): System {
    if h.atClient then ClientEvent(p, sys, h.e) else ServerEvent(p, sys, h.e)
  }

  function RunAll(p: Params, sys: System, hs: seq<Happening>): System
    decreases |hs|
  {
    if hs == [] then sys else RunAll(p, Step(p, sys, hs[0]), hs[1..])
  }

  lemma StartInv(p: Params)
    requires p.Valid()
    ensures Inv(p, Start(p))
  {
  }

  lemma {:induction false} RunKeepsInv(p: Params, sys: System, hs: seq<Happening>)
    requires Inv(p, sys)
    ensures Inv(p, RunAll(p, sys, hs))
    decreases |hs|
  {
    hide Inv, ClientEvent, ServerEvent;
    if hs != [] {
      if hs[0].atClient {
        ClientKeepsInv(p, sys, hs[0].e);
      } else {
        ServerKeepsInv(p, sys, hs[0].e);
      }
      RunKeepsInv(p, Step(p, sys, hs[0]), hs[1..]);
    }
  }

  /** What a linked pair has hashed is what the script has up to its phases. */
  lemma BothOnScript(p: Params, sys: System)
    requires Inv(p, sys)
    ensures (sys.client.core.transcript, sys.client.core.secret) == Progress(p, ClientPhase(p, sys.client))
    ensures (sys.server.core.transcript, sys.server.core.secret) == Progress(p, ServerPhase(p, sys.server))
  {
    hide Carries, Progress, Phase;
    var c, s := sys.client, sys.server;
    var i, j := ClientPhase(p, c), ServerPhase(p, s);
    if Ahead(p, true, i, c.core, ClientReadsEnc(c), j, s.core, ServerReadsEnc(s), sys.c2s, sys.s2c) {
      CarriesProgress(p, true, View(s.core.transcript, s.core.secret, ServerReadsEnc(s)), j, i,
                      Pending(s.core.buf, ServerReadsEnc(s), sys.c2s, c.core.flight),
                      View(c.core.transcript, c.core.secret, c.core.writeEnc));
    } else {
      CarriesProgress(p, false, View(c.core.transcript, c.core.secret, ClientReadsEnc(c)), i, j,
                      Pending(c.core.buf, ClientReadsEnc(c), sys.s2c, s.core.flight),
                      View(s.core.transcript, s.core.secret, s.core.writeEnc));
    }
  }

  lemma {:induction false} ProgressGrows(p: Params, i: nat, j: nat)
    requires i <= j
    ensures Progress(p, i).0 <= Progress(p, j).0
    decreases j - i
  {
    hide Phase, BodyOf;
    if i < j {
      ProgressGrows(p, i, j - 1);
    }
  }

  predicate Done(sys: System) {
    sys.client.state == ClientDone && sys.server.state == ServerDone
  }

  /** In no run, whatever is paused, blocked or delayed, does either end fail:
      no message is unexpected, no Finished, signature or record is refused.
      The transcripts are always prefixes of the one script, each of its
      messages hashed once, and when both are done they are all of it, with the
      same secret and nothing left on the way. */
  lemma Agreement(p: Params, hs: seq<Happening>)
    requires p.Valid()
    ensures var end := RunAll(p, Start(p), hs);
            var (messages, secret) := Progress(p, End(p));
            && !end.client.wait.Failed? && !end.server.wait.Failed?
            && end.client.core.transcript <= messages && end.server.core.transcript <= messages
            && (Done(end) ==>
                  end.client.core.transcript == messages == end.server.core.transcript &&
                  end.client.core.secret == secret == end.server.core.secret &&
                  end.c2s == [] && end.s2c == [] && end.client.core.flight == [] && end.server.core.flight == [])
  {
    hide Progress, Linked, ClientEvent, ServerEvent;
    StartInv(p);
    RunKeepsInv(p, Start(p), hs);
    var end := RunAll(p, Start(p), hs);
    BothOnScript(p, end);
    PhasesEnd(p, end);
    ProgressGrows(p, ClientPhase(p, end.client), End(p));
    ProgressGrows(p, ServerPhase(p, end.server), End(p));
    if Done(end) {
      NothingLeft(p, end);
    }
  }

  lemma PhasesEnd(p: Params, sys: System)
    requires Inv(p, sys)
    ensures ClientPhase(p, sys.client) <= End(p) && ServerPhase(p, sys.server) <= End(p)
  {
  }

  lemma NothingLeft(p: Params, sys: System)
    requires Inv(p, sys) && ClientPhase(p, sys.client) == ServerPhase(p, sys.server)
    ensures sys.c2s == [] && sys.s2c == [] && sys.client.core.flight == [] && sys.server.core.flight == []
  {
  }

  // ----- Pauses -----------------------------------------------------------

  /** A step that is not ready pauses and changes nothing else, so that resuming
      it starts where it was; a step that is ready does not see the difference. */
  lemma PauseChangesNothing(p: Params, sys: System, atClient: bool)
    requires (if atClient then sys.client.wait else sys.server.wait) == Ok
    ensures var tried := Step(p, sys, Happening(atClient, Run(true)));
            || tried == Step(p, sys, Happening(atClient, Run(false)))
            || (tried == (if atClient then sys.(client := sys.client.(wait := Paused))
                          else sys.(server := sys.server.(wait := Paused))) &&
                Step(p, tried, Happening(atClient, Resume)) == sys)
  {
  }

  /** A paused end counts as resumed. */
  function Awake(sys: System): System {
    sys.(client := if sys.client.wait == Paused then sys.client.(wait := Ok) else sys.client,
         server := if sys.server.wait == Paused then sys.server.(wait := Ok) else sys.server)
  }

  /** No answer was ever not ready, and no flush moved nothing. */
  predicate Smooth(hs: seq<Happening>) {
    forall i :: 0 <= i < |hs| ==> hs[i].e != Run(true) && hs[i].e != Flush(0)
  }

  /** What does, in a run without pauses and blocked flushes, what `h` did. */
  function Smoothed(sys: System, h: Happening): seq<Happening> {
    var wait, core := if h.atClient then sys.client.wait else sys.server.wait,
                      if h.atClient then sys.client.core else sys.server.core;
    match h.e
    case Run(retry) => if wait == Ok then [Happening(h.atClient, Run(false)), Happening(h.atClient, Resume)] else []
    case Flush(n) => if n > 0 then [h] else if core.flight == [] then [Happening(h.atClient, Flush(1))] else []
    case Arrive => [h]
    case Resume => []
  }

  /** One step of a run with pauses is nothing, or what some steps without do. */
  lemma StepSmoothed(p: Params, sys: System, h: Happening) returns (gs: seq<Happening>)
    ensures Smooth(gs) && RunAll(p, Awake(sys), gs) == Awake(Step(p, sys, h))
  {
    hide ClientStep, ServerStep, Deliver;
    gs := Smoothed(sys, h);
    var wait := if h.atClient then sys.client.wait else sys.server.wait;
    if h.e.Run? && wait == Ok {
      gs := StepAwake(p, sys, h.atClient, h.e.retry);
    } else {
      assert gs == [] || (gs == [gs[0]] && gs[1..] == []);
    }
  }

  /** A step of a machine: one that pauses for want of an answer is yet to come. */
  lemma StepAwake(p: Params, sys: System, atClient: bool, retry: bool) returns (gs: seq<Happening>)
    requires (if atClient then sys.client.wait else sys.server.wait) == Ok
    ensures Smooth(gs) && RunAll(p, Awake(sys), gs) == Awake(Step(p, sys, Happening(atClient, Run(retry))))
  {
    hide ClientStep, ServerStep;
    var h, r := Happening(atClient, Run(false)), Happening(atClient, Resume);
    var tried, ready := Step(p, sys, Happening(atClient, Run(retry))), Step(p, sys, h);
    PauseChangesNothing(p, sys, atClient);
    if tried == ready {
      gs := [h, r];
      assert gs[1..] == [r] && [r][1..] == [];
      assert Step(p, Step(p, Awake(sys), h), r) == Awake(ready);
      assert RunAll(p, Step(p, Awake(sys), h), [r]) == Awake(ready);
    } else {
      gs := [];
    }
  }

  lemma {:induction false} RunAllJoins(p: Params, sys: System, a: seq<Happening>, b: seq<Happening>)
    ensures RunAll(p, sys, a + b) == RunAll(p, RunAll(p, sys, a), b)
    decreases |a|
  {
    hide Step;
    if a == [] {
      assert a + b == b;
    } else {
      assert (a + b)[1..] == a[1..] + b;
      RunAllJoins(p, Step(p, sys, a[0]), a[1..], b);
    }
  }

  lemma {:induction false} ErasedWhenAwake(p: Params, sys: System, hs: seq<Happening>) returns (gs: seq<Happening>)
    ensures Smooth(gs) && RunAll(p, Awake(sys), gs) == Awake(RunAll(p, sys, hs))
    decreases |hs|
  {
    hide Step, Awake;
    if hs == [] {
      gs := [];
    } else {
      var first := StepSmoothed(p, sys, hs[0]);
      var rest := ErasedWhenAwake(p, Step(p, sys, hs[0]), hs[1..]);
      gs := first + rest;
      RunAllJoins(p, Awake(sys), first, rest);
    }
  }

  /** Pauses and blocked flushes change nothing: whatever a run with them comes
      to, some run without any comes to as well, transcripts, flights, channels
      and all, where an end that is paused at that moment counts as resumed. */
  lemma PausesErased(p: Params, sys: System, hs: seq<Happening>) returns (gs: seq<Happening>)
    ensures Smooth(gs) && RunAll(p, sys, gs) == Awake(RunAll(p, sys, hs))
  {
    hide ClientStep, ServerStep, Deliver;
    var wake := [Happening(true, Resume), Happening(false, Resume)];
    assert wake[1..] == [Happening(false, Resume)] && wake[1..][1..] == [];
    assert RunAll(p, sys, wake) == Awake(sys);
    var rest := ErasedWhenAwake(p, sys, hs);
    gs := wake + rest;
    RunAllJoins(p, sys, wake, rest);
  }

  lemma {:induction false} CarriesUnique(p: Params, fromClient: bool, v: View, j: nat, i: nat,
                                         a: seq<Record>, wa: View, b: seq<Record>, wb: View)
    requires Carries(p, fromClient, v, j, i, a, wa) && Carries(p, fromClient, v, j, i, b, wb)
    ensures a == b && wa == wb
    decreases i - j
  {
    hide Phase, ItemOf, After;
    if j < i {
      match Phase(p, j)
      case None => CarriesUnique(p, fromClient, v, j + 1, i, a, wa, b, wb);
      case Some(_) =>
        CarriesUnique(p, fromClient, After(v, a[0]), j + 1, i, a[1..], wa, b[1..], wb);
        assert a == [a[0]] + a[1..] && b == [b[0]] + b[1..];
    }
  }

  /** What is on its way to the server, and to the client. */
  function ToServer(sys: System): seq<Record> {
    Pending(sys.server.core.buf, ServerReadsEnc(sys.server), sys.c2s, sys.client.core.flight)
  }

  function ToClient(sys: System): seq<Record> {
    Pending(sys.client.core.buf, ClientReadsEnc(sys.client), sys.s2c, sys.server.core.flight)
  }

  /** Two runs, with pauses, blocks and delays in different places: whenever the
      ends are at the same places, they have hashed the same, they have the same
      secrets and keys, and the same records are on their way, both ways. */
  lemma SamePlacesSameFlights(p: Params, hs: seq<Happening>, gs: seq<Happening>)
    requires p.Valid()
    requires var a, b := RunAll(p, Start(p), hs), RunAll(p, Start(p), gs);
             ClientPhase(p, a.client) == ClientPhase(p, b.client) && ServerPhase(p, a.server) == ServerPhase(p, b.server)
    ensures var a, b := RunAll(p, Start(p), hs), RunAll(p, Start(p), gs);
            && ToServer(a) == ToServer(b) && ToClient(a) == ToClient(b)
            && SameKnowledge(a.client.core, b.client.core) && SameKnowledge(a.server.core, b.server.core)
            && ClientReadsEnc(a.client) == ClientReadsEnc(b.client) && ServerReadsEnc(a.server) == ServerReadsEnc(b.server)
  {
    hide Inv, ToServer, ToClient, SameKnowledge, ClientReadsEnc, ServerReadsEnc;
    StartInv(p);
    RunKeepsInv(p, Start(p), hs);
    RunKeepsInv(p, Start(p), gs);
    var a, b := RunAll(p, Start(p), hs), RunAll(p, Start(p), gs);
    InvKeysFollow(p, a);
    InvKeysFollow(p, b);
    SameKnown(p, a, b);
    if ClientPhase(p, a.client) > ServerPhase(p, a.server) {
      SameToServer(p, a, b);
    } else {
      SameToClient(p, a, b);
    }
  }

  predicate SameKnowledge(a: Core, b: Core) {
    a.transcript == b.transcript && a.secret == b.secret && a.writeEnc == b.writeEnc
  }

  /** The keys an end reads and writes under follow from its place. */
  ghost predicate KeysFollow(p: Params, sys: System) {
    && (ClientReadsEnc(sys.client) <==> ClientPhase(p, sys.client) > CcsPlace(p, false))
    && (sys.client.core.writeEnc <==> ClientPhase(p, sys.client) > CcsPlace(p, true))
    && (ServerReadsEnc(sys.server) <==> ServerPhase(p, sys.server) > CcsPlace(p, true))
    && (sys.server.core.writeEnc <==> ServerPhase(p, sys.server) > CcsPlace(p, false))
  }

  lemma InvKeysFollow(p: Params, sys: System)
    requires Inv(p, sys)
    ensures KeysFollow(p, sys)
  {
    hide Linked;
  }

  /** In every run: new keys are in use exactly behind the ChangeCipherSpec of
      their direction. */
  lemma KeysByPlace(p: Params, hs: seq<Happening>)
    requires p.Valid()
    ensures KeysFollow(p, RunAll(p, Start(p), hs))
  {
    hide Inv, KeysFollow;
    StartInv(p);
    RunKeepsInv(p, Start(p), hs);
    InvKeysFollow(p, RunAll(p, Start(p), hs));
  }

  lemma SameKnown(p: Params, a: System, b: System)
    requires Inv(p, a) && Inv(p, b)
    requires ClientPhase(p, a.client) == ClientPhase(p, b.client) && ServerPhase(p, a.server) == ServerPhase(p, b.server)
    ensures SameKnowledge(a.client.core, b.client.core) && SameKnowledge(a.server.core, b.server.core)
  {
    hide Inv;
    BothOnScript(p, a);
    BothOnScript(p, b);
    InvKeysFollow(p, a);
    InvKeysFollow(p, b);
  }

  lemma SameToServer(p: Params, a: System, b: System)
    requires Inv(p, a) && Inv(p, b) && SameKnowledge(a.client.core, b.client.core) && SameKnowledge(a.server.core, b.server.core)
    requires ClientPhase(p, a.client) == ClientPhase(p, b.client) > ServerPhase(p, a.server) == ServerPhase(p, b.server)
    requires ServerReadsEnc(a.server) == ServerReadsEnc(b.server) && ClientReadsEnc(a.client) == ClientReadsEnc(b.client)
    ensures ToServer(a) == ToServer(b) && ToClient(a) == ToClient(b)
  {
    hide Inv, Phase, Carries;
    ClientIsAhead(p, a);
    ClientIsAhead(p, b);
    var j, i := ServerPhase(p, a.server), ClientPhase(p, a.client);
    CarriesUnique(p, true, View(a.server.core.transcript, a.server.core.secret, ServerReadsEnc(a.server)), j, i,
                  ToServer(a), View(a.client.core.transcript, a.client.core.secret, a.client.core.writeEnc),
                  ToServer(b), View(b.client.core.transcript, b.client.core.secret, b.client.core.writeEnc));
  }

  lemma SameToClient(p: Params, a: System, b: System)
    requires Inv(p, a) && Inv(p, b) && SameKnowledge(a.client.core, b.client.core) && SameKnowledge(a.server.core, b.server.core)
    requires ClientPhase(p, a.client) == ClientPhase(p, b.client) <= ServerPhase(p, a.server) == ServerPhase(p, b.server)
    requires ServerReadsEnc(a.server) == ServerReadsEnc(b.server) && ClientReadsEnc(a.client) == ClientReadsEnc(b.client)
    ensures ToServer(a) == ToServer(b) && ToClient(a) == ToClient(b)
  {
    hide Inv, Phase, Carries;
    ServerIsAhead(p, a);
    ServerIsAhead(p, b);
    var i, j := ClientPhase(p, a.client), ServerPhase(p, a.server);
    CarriesUnique(p, false, View(a.client.core.transcript, a.client.core.secret, ClientReadsEnc(a.client)), i, j,
                  ToClient(a), View(a.server.core.transcript, a.server.core.secret, a.server.core.writeEnc),
                  ToClient(b), View(b.server.core.transcript, b.server.core.secret, b.server.core.writeEnc));
  }

  lemma ClientIsAhead(p: Params, sys: System)
    requires Inv(p, sys) && ClientPhase(p, sys.client) > ServerPhase(p, sys.server)
    ensures var c, s := sys.client.core, sys.server.core;
            Carries(p, true, View(s.transcript, s.secret, ServerReadsEnc(sys.server)), ServerPhase(p, sys.server),
                    ClientPhase(p, sys.client), ToServer(sys), View(c.transcript, c.secret, c.writeEnc))
    ensures ToClient(sys) == []
  {
  }

  lemma ServerIsAhead(p: Params, sys: System)
    requires Inv(p, sys) && ClientPhase(p, sys.client) <= ServerPhase(p, sys.server)
    ensures var c, s := sys.client.core, sys.server.core;
            Carries(p, false, View(c.transcript, c.secret, ClientReadsEnc(sys.client)), ClientPhase(p, sys.client),
                    ServerPhase(p, sys.server), ToClient(sys), View(s.transcript, s.secret, s.writeEnc))
    ensures ToServer(sys) == []
  {
  }

  // ----- The handshake can always be completed ----------------------------

  /** Steps left, in the order the states are gone through. */
  function ClientRank(p: Params, st: ClientState): nat {
    match st
    case StartConnect => 20
    case EnterEarlyData => 19
    case ReadServerHello => 18
    case ReadServerCertificate => 17
    case ReadCertificateStatus => 16
    case VerifyServerCertificate => 15
    case ReadServerKeyExchange => 14
    case ReadCertificateRequest => 13
    case ReadServerHelloDone => 12
    case SendClientCertificate => 11
    case SendClientKeyExchange => 10
    case SendClientCertificateVerify => 9
    case SendClientFinished => if p.resumed then 3 else 8
    case FinishFlight => if p.resumed then 2 else 7
    case ReadSessionTicket => 6
    case ProcessServerCcs => 5
    case ReadServerFinished => 4
    case FinishClient => 1
    case ClientDone => 0
  }

  function ServerRank(p: Params, st: ServerState): nat {
    match st
    case StartAccept => 20
    case ReadClientHello => 19
    case SelectCertificate => 18
    case SelectParameters => 17
    case SendServerHello => 16
    case SendServerCertificate => 15
    case SendServerKeyExchange => 14
    case SendServerHelloDone => 13
    case ReadClientCertificate => 12
    case VerifyClientCertificate => 11
    case ReadClientKeyExchange => 10
    case ReadClientCertificateVerify => 9
    case SendServerFinished => if p.resumed then 15 else 2
    case ReadClientCcs => 8
    case ProcessClientCcs => 7
    case ReadNextProto => 6
    case ReadChannelId => 5
    case ReadClientFinished => 4
    case FinishServer => 1
    case ServerDone => 0
  }

  function WaitRank(w: Wait, buf: Option<Msg>): nat {
    match w
    case Ok => if buf.Some? then 1 else 3
    case ReadMessage => 2
    case _ => 5
  }

  function Left(p: Params, sys: System): nat {
    8 * ClientRank(p, sys.client.state) + WaitRank(sys.client.wait, sys.client.core.buf) +
    8 * ServerRank(p, sys.server.state) + WaitRank(sys.server.wait, sys.server.core.buf)
  }

  /** Something that can happen at an end, if the world is willing. */
  function NextAt(wait: Wait, done: bool, core: Core, incoming: seq<Record>): Option<Event> {
    match wait
    case Ok => if done then None else Some(Run(false))
    case FlushFlight => Some(Flush(|core.flight|))
    case Paused => Some(Resume)
    case ReadMessage | ReadChangeCipherSpec => if incoming == [] then None else Some(Arrive)
    case Failed(_) => None
  }

  function Next(sys: System): Option<Happening> {
    match NextAt(sys.client.wait, sys.client.state == ClientDone, sys.client.core, sys.s2c)
    case Some(e) => Some(Happening(true, e))
    case None =>
      match NextAt(sys.server.wait, sys.server.state == ServerDone, sys.server.core, sys.c2s)
      case Some(e) => Some(Happening(false, e))
      case None => None
  }

  /** A step that is ready and does not fail gets nearer to the end. */
  lemma ClientStepNearer(p: Params, c: Client)
    requires c.wait == Ok && c.state != ClientDone && !ClientStep(p, c, false).wait.Failed?
    ensures var c' := ClientStep(p, c, false);
            8 * ClientRank(p, c'.state) + WaitRank(c'.wait, c'.core.buf) <
            8 * ClientRank(p, c.state) + WaitRank(Ok, c.core.buf)
  {
    hide Emit, EmitIf, EmitCcs, BodyOf, Accept;
  }

  lemma ServerStepNearer(p: Params, s: Server)
    requires s.wait == Ok && s.state != ServerDone && !ServerStep(p, s, false).wait.Failed?
    ensures var s' := ServerStep(p, s, false);
            8 * ServerRank(p, s'.state) + WaitRank(s'.wait, s'.core.buf) <
            8 * ServerRank(p, s.state) + WaitRank(Ok, s.core.buf)
  {
    hide Emit, EmitIf, EmitCcs, BodyOf, Accept;
  }

  lemma NotFailed(p: Params, sys: System)
    requires Inv(p, sys)
    ensures !sys.client.wait.Failed? && !sys.server.wait.Failed?
  {
  }

  lemma NextProgresses(p: Params, sys: System)
    requires Inv(p, sys) && Next(sys).Some?
    ensures Left(p, Step(p, sys, Next(sys).value)) < Left(p, sys)
    ensures Inv(p, Step(p, sys, Next(sys).value))
  {
    hide Linked, ClientStep, ServerStep, Inv;
    var h := Next(sys).value;
    if h.atClient {
      ClientKeepsInv(p, sys, h.e);
      NotFailed(p, ClientEvent(p, sys, h.e));
      if h.e.Run? {
        ClientStepNearer(p, sys.client);
      } else {
        ClientWaitEnds(p, sys);
      }
    } else {
      ServerKeepsInv(p, sys, h.e);
      NotFailed(p, ServerEvent(p, sys, h.e));
      if h.e.Run? {
        ServerStepNearer(p, sys.server);
      } else {
        ServerWaitEnds(p, sys);
      }
    }
  }

  lemma ClientWaitEnds(p: Params, sys: System)
    requires Inv(p, sys) && sys.client.wait != Ok && Next(sys).Some? && Next(sys).value.atClient
    ensures Left(p, ClientEvent(p, sys, Next(sys).value.e)) < Left(p, sys)
  {
    hide Linked;
    ClientKeepsInv(p, sys, Next(sys).value.e);
  }

  lemma ServerWaitEnds(p: Params, sys: System)
    requires Inv(p, sys) && sys.server.wait != Ok && Next(sys).Some? && !Next(sys).value.atClient
    ensures Left(p, ServerEvent(p, sys, Next(sys).value.e)) < Left(p, sys)
  {
    hide Linked;
    ServerKeepsInv(p, sys, Next(sys).value.e);
  }

  lemma {:induction false} NothingCarried(p: Params, fromClient: bool, v: View, j: nat, i: nat, w: View)
    requires Carries(p, fromClient, v, j, i, [], w)
    ensures j <= i && forall k :: j <= k < i ==> Phase(p, k).None?
    decreases i - j
  {
    hide Phase;
    if j < i {
      NothingCarried(p, fromClient, v, j + 1, i, w);
    }
  }

  /** The phase an end that can do nothing waits for: its peer's, or none. */
  predicate Awaits(p: Params, i: nat, n: nat, fromClient: bool) {
    i <= n && (forall k :: i <= k < n ==> Phase(p, k).None?) &&
    (n == End(p) || (n < End(p) && Phase(p, n).Some? && Phase(p, n).value.fromClient == fromClient))
  }

  lemma ClientAwaits(p: Params, sys: System) returns (n: nat)
    requires Inv(p, sys) && NextAt(sys.client.wait, sys.client.state == ClientDone, sys.client.core, sys.s2c).None?
    ensures sys.s2c == [] || sys.client.state == ClientDone
    ensures sys.client.core.flight == [] && sys.client.core.buf == None
    ensures Awaits(p, ClientPhase(p, sys.client), n, false) && (n == End(p) ==> sys.client.state == ClientDone)
  {
    hide Linked;
    var c := sys.client;
    if c.wait == ReadMessage {
      NextMessageForClient(p, c);
      n := NextForClient(p, c);
    } else {
      n := ClientPhase(p, c);
    }
  }

  lemma ServerAwaits(p: Params, sys: System) returns (n: nat)
    requires Inv(p, sys) && NextAt(sys.server.wait, sys.server.state == ServerDone, sys.server.core, sys.c2s).None?
    ensures sys.c2s == [] || sys.server.state == ServerDone
    ensures sys.server.core.flight == [] && sys.server.core.buf == None
    ensures Awaits(p, ServerPhase(p, sys.server), n, true) && (n == End(p) ==> sys.server.state == ServerDone)
  {
    hide Linked;
    var s := sys.server;
    if s.wait == ReadMessage {
      NextMessageForServer(p, s);
    }
    n := ServerPhase(p, s);
  }

  lemma DoneHasNothingIncoming(p: Params, sys: System)
    requires Inv(p, sys)
    ensures sys.client.state == ClientDone ==> sys.s2c == []
    ensures sys.server.state == ServerDone ==> sys.c2s == []
  {
    hide Phase, Progress;
    PhasesEnd(p, sys);
    var c, s := sys.client, sys.server;
    var i, j := ClientPhase(p, c), ServerPhase(p, s);
    if Ahead(p, true, i, c.core, ClientReadsEnc(c), j, s.core, ServerReadsEnc(s), sys.c2s, sys.s2c) {
      CarriesOrder(p, true, View(s.core.transcript, s.core.secret, ServerReadsEnc(s)), j, i,
                   Pending(s.core.buf, ServerReadsEnc(s), sys.c2s, c.core.flight),
                   View(c.core.transcript, c.core.secret, c.core.writeEnc));
      if i == j {
        NothingLeft(p, sys);
      }
    } else {
      CarriesOrder(p, false, View(c.core.transcript, c.core.secret, ClientReadsEnc(c)), i, j,
                   Pending(c.core.buf, ClientReadsEnc(c), sys.s2c, s.core.flight),
                   View(s.core.transcript, s.core.secret, s.core.writeEnc));
      if i == j {
        NothingLeft(p, sys);
      }
    }
  }

  /** With the invariant, the only place where nothing can happen is the end. */
  lemma NoDeadlock(p: Params, sys: System)
    requires Inv(p, sys)
    ensures Next(sys).None? <==> Done(sys)
  {
    hide Linked, Phase;
    if Next(sys).None? {
      var n := ClientAwaits(p, sys);
      var m := ServerAwaits(p, sys);
      DoneHasNothingIncoming(p, sys);
      NobodyWaits(p, sys, n, m);
    } else if Done(sys) {
      DoneHasNothingIncoming(p, sys);
      DoneWaits(p, sys);
    }
  }

  lemma DoneWaits(p: Params, sys: System)
    requires Inv(p, sys) && Done(sys) && sys.s2c == [] && sys.c2s == []
    ensures Next(sys).None?
  {
  }

  /** Two ends with nothing between them wait for the same phase. */
  lemma NobodyWaits(p: Params, sys: System, n: nat, m: nat)
    requires Inv(p, sys) && sys.s2c == [] && sys.c2s == []
    requires sys.client.core.flight == [] && sys.client.core.buf == None
    requires sys.server.core.flight == [] && sys.server.core.buf == None
    requires Awaits(p, ClientPhase(p, sys.client), n, false) && Awaits(p, ServerPhase(p, sys.server), m, true)
    ensures n == End(p) && m == End(p)
  {
    hide Phase, Progress;
    var c, s := sys.client, sys.server;
    var i, j := ClientPhase(p, c), ServerPhase(p, s);
    assert Pending(None, ServerReadsEnc(s), [], []) == [] && Pending(None, ClientReadsEnc(c), [], []) == [];
    if Ahead(p, true, i, c.core, ClientReadsEnc(c), j, s.core, ServerReadsEnc(s), sys.c2s, sys.s2c) {
      NothingCarried(p, true, View(s.core.transcript, s.core.secret, ServerReadsEnc(s)), j, i,
                     View(c.core.transcript, c.core.secret, c.core.writeEnc));
    } else {
      NothingCarried(p, false, View(c.core.transcript, c.core.secret, ClientReadsEnc(c)), i, j,
                     View(s.core.transcript, s.core.secret, s.core.writeEnc));
    }
  }

  /** From everywhere with the invariant, the handshake can be completed. */
  lemma {:induction false} Completes(p: Params, sys: System) returns (hs: seq<Happening>)
    requires Inv(p, sys)
    ensures Done(RunAll(p, sys, hs))
    decreases Left(p, sys)
  {
    hide Inv, Step, Left;
    NoDeadlock(p, sys);
    if Done(sys) {
      hs := [];
    } else {
      NextProgresses(p, sys);
      var rest := Completes(p, Step(p, sys, Next(sys).value));
      hs := [Next(sys).value] + rest;
      assert hs[1..] == rest;
    }
  }

  /** Wherever a run has got to, nothing can happen any more exactly if both ends
      are done, and the handshake can be completed from there. */
  lemma {:induction false} AlwaysCompletes(p: Params, hs: seq<Happening>) returns (gs: seq<Happening>)
    requires p.Valid()
    ensures Next(RunAll(p, Start(p), hs)).None? <==> Done(RunAll(p, Start(p), hs))
    ensures Done(RunAll(p, Start(p), hs + gs))
  {
    hide Inv, Next, Done;
    StartInv(p);
    RunKeepsInv(p, Start(p), hs);
    NoDeadlock(p, RunAll(p, Start(p), hs));
    gs := Completes(p, RunAll(p, Start(p), hs));
    RunAllJoins(p, Start(p), hs, gs);
  }
}
