/** The server in memory: the loop over its steps, and the loop that resolves
    what they wait for. */
module HandshakeServer {
  import opened Bytes
  import opened HandshakeScript
  import opened HandshakeMachines
  import opened HandshakeProduct
  import opened HandshakeRuns
  import opened HandshakeDriver

  class ServerHandshake {
    const p: Params
    const hs: Handshake
    var state: ServerState
    var wait: Wait
    var peerCert: bool

    ghost predicate Valid() { hs.p == p && !hs.isClient }

    function View(): Server
      reads this, hs
    {
      Server(state, wait, hs.View(), peerCert)
    }

    constructor (p: Params)
      ensures Valid() && fresh(hs) && this.p == p && View() == Start(p).server
    {
      this.p := p;
      state, wait, peerCert := StartAccept, Ok, false;
      hs := new Handshake(p, false);
    }

    method ReadTo(kind: Kind, next: ServerState)
      requires Valid() && wait == Ok
      modifies this, hs
      ensures View() == ServerRead(old(View()), Read(old(View()).core, kind), next)
      ensures state == next || (state == old(state) && wait != Ok)
      ensures wait == Ok ==> state == next
    {
      hide Read;
      ghost var result := Read(hs.View(), kind);
      var read := hs.ReadKind(kind);
      if read != Ok {
        wait := read;
        return;
      }
      state := next;
    }

    method CheckTo(kind: Kind, next: ServerState)
      requires Valid() && wait == Ok
      modifies this, hs
      ensures View() == ServerRead(old(View()), ReadChecked(p, old(View()).core, true, kind), next)
    {
      hide ReadChecked;
      ghost var result := ReadChecked(p, hs.View(), true, kind);
      var read := hs.ReadAndCheck(kind);
      if read != Ok {
        wait := read;
        return;
      }
      state := next;
    }

    /** The ClientHello stays the current message until all parameters are
        selected, and is hashed then. */
    method StepHello(retry: bool)
      requires Valid() && state in {StartAccept, ReadClientHello, SelectCertificate, SelectParameters, SendServerHello}
      requires wait == Ok
      modifies this, hs
      ensures View() == ServerStep(p, old(View()), retry)
    {
      hide Emit, HandshakeMachines.Accept;
      match state
      case StartAccept => state := ReadClientHello;
      case ReadClientHello =>
        if hs.message.None? {
          wait := ReadMessage;
        } else if hs.message.value.kind != ClientHello {
          wait := Failed(UnexpectedMessage);
        } else if retry {
          wait := Paused;
        } else {
          state := SelectCertificate;
        }
      case SelectCertificate =>
        if hs.message.None? {
          wait := ReadMessage;
        } else if retry {
          wait := Paused;
        } else {
          state := SelectParameters;
        }
      case SelectParameters =>
        if hs.message.None? {
          wait := ReadMessage;
        } else if retry {
          wait := Paused;
        } else {
          hs.TakeMessage();
          state := SendServerHello;
        }
      case SendServerHello =>
        hs.AddMessage(ServerHello);
        state := if p.resumed then SendServerFinished else SendServerCertificate;
    }

    method StepFlight(retry: bool)
      requires Valid() && state in {SendServerCertificate, SendServerKeyExchange, SendServerHelloDone}
      requires wait == Ok
      modifies this, hs
      ensures View() == ServerStep(p, old(View()), retry)
    {
      hide Emit;
      match state
      case SendServerCertificate =>
        if p.certAuth {
          hs.AddMessage(Certificate);
        }
        if p.statusSent {
          hs.AddMessage(CertificateStatus);
        }
        state := SendServerKeyExchange;
      case SendServerKeyExchange =>
        if !p.SendsKeyExchange() {
          state := SendServerHelloDone;
          return;
        }
        if p.certAuth && retry {
          wait := Paused;
          return;
        }
        hs.AddMessage(ServerKeyExchange);
        state := SendServerHelloDone;
      case SendServerHelloDone =>
        if Asks(p) {
          hs.AddMessage(CertificateRequest);
        }
        hs.AddMessage(ServerHelloDone);
        state, wait := ReadClientCertificate, FlushFlight;
    }

    method StepClientFlight(retry: bool)
      requires Valid() && state in {ReadClientCertificate, VerifyClientCertificate, ReadClientKeyExchange,
                                    ReadClientCertificateVerify}
      requires wait == Ok
      modifies this, hs
      ensures View() == ServerStep(p, old(View()), retry)
    {
      hide HandshakeMachines.Accept, ReadChecked;
      match state
      case ReadClientCertificate =>
        if !Asks(p) {
          state := VerifyClientCertificate;
          return;
        }
        ReadTo(Certificate, VerifyClientCertificate);
        if state == VerifyClientCertificate {
          peerCert := p.clientHasCert;
        }
      case VerifyClientCertificate =>
        if peerCert && retry {
          wait := Paused;
          return;
        }
        state := ReadClientKeyExchange;
      case ReadClientKeyExchange =>
        if hs.message.Some? && hs.message.value.kind == ClientKeyExchange && p.kx == Rsa && retry {
          wait := Paused;
          return;
        }
        ReadTo(ClientKeyExchange, ReadClientCertificateVerify);
      case ReadClientCertificateVerify =>
        if !peerCert {
          state := ReadClientCcs;
          return;
        }
        CheckTo(CertificateVerify, ReadClientCcs);
    }

    method StepFinish()
      requires Valid() && state in {ReadClientCcs, ProcessClientCcs, ReadNextProto, ReadChannelId, ReadClientFinished,
                                    SendServerFinished, FinishServer}
      requires wait == Ok
      modifies this, hs
      ensures forall retry :: View() == ServerStep(p, old(View()), retry)
    {
      hide Read, ReadChecked, Emit, EmitCcs;
      match state
      case ReadClientCcs => state, wait := ProcessClientCcs, ReadChangeCipherSpec;
      case ProcessClientCcs =>
        var ok := hs.ChangeReadKeys();
        if !ok {
          wait := Failed(BufferedMessages);
          return;
        }
        state := ReadNextProto;
      case ReadNextProto =>
        if !p.nextProto {
          state := ReadChannelId;
          return;
        }
        ReadTo(NextProto, ReadChannelId);
      case ReadChannelId =>
        if !p.channelId {
          state := ReadClientFinished;
          return;
        }
        CheckTo(ChannelId, ReadClientFinished);
      case ReadClientFinished => CheckTo(Finished, if p.resumed then FinishServer else SendServerFinished);
      case SendServerFinished =>
        if p.ticket {
          hs.AddMessage(NewSessionTicket);
        }
        hs.AddChangeCipherSpec();
        hs.AddMessage(Finished);
        state, wait := if p.resumed then ReadClientCcs else FinishServer, FlushFlight;
      case FinishServer => state := ServerDone;
    }

    method Step(retry: bool)
      requires Valid() && wait == Ok && state != ServerDone
      modifies this, hs
      ensures View() == ServerStep(p, old(View()), retry)
    {
      hide ServerStep;
      if state in {StartAccept, ReadClientHello, SelectCertificate, SelectParameters, SendServerHello} {
        StepHello(retry);
      } else if state in {SendServerCertificate, SendServerKeyExchange, SendServerHelloDone} {
        StepFlight(retry);
      } else if state in {ReadClientCertificate, VerifyClientCertificate, ReadClientKeyExchange, ReadClientCertificateVerify} {
        StepClientFlight(retry);
      } else {
        StepFinish();
      }
    }

    /** Steps until something is waited for or the handshake is done. */
    method DoHandshake(answers: nat -> bool, ghost sys: System) returns (ghost did: seq<Happening>)
      requires Valid() && sys.server == View() && wait == Ok
      modifies this, hs
      ensures RunAll(p, sys, did) == sys.(server := View())
      ensures wait == Ok ==> state == ServerDone
      ensures ServerRank(p, state) <= old(ServerRank(p, state))
      ensures wait == FlushFlight ==> ServerRank(p, state) < old(ServerRank(p, state))
    {
      hide ServerStep;
      did := [];
      var k := 0;
      while state != ServerDone && wait == Ok
        invariant RunAll(p, sys, did) == sys.(server := View())
        invariant ServerRank(p, state) <= old(ServerRank(p, state))
        invariant wait == FlushFlight ==> ServerRank(p, state) < old(ServerRank(p, state))
        decreases ServerRank(p, state), wait == Ok
      {
        ServerAdvances(p, View(), answers(k));
        RunAllSnoc(p, sys, did, Happening(false, HandshakeMachines.Run(answers(k))));
        Step(answers(k));
        did := did + [Happening(false, HandshakeMachines.Run(answers(k)))];
        k := k + 1;
      }
    }

    /** The transport takes the first records of the flight. */
    method FlushSome(take: nat, ghost now: System) returns (written: seq<Record>)
      requires Valid() && now.server == View() && wait == FlushFlight
      modifies this, hs
      ensures HandshakeRuns.Step(p, now, Happening(false, Flush(take))) ==
              now.(server := View(), s2c := now.s2c + written)
      ensures state == old(state) && (wait == Ok || wait == FlushFlight)
    {
      var n := if take < |hs.pendingFlight| then take else |hs.pendingFlight|;
      written := hs.pendingFlight[..n];
      hs.pendingFlight := hs.pendingFlight[n..];
      if |hs.pendingFlight| == 0 {
        wait := Ok;
      }
    }

    method Receive(r: Record, ghost now: System)
      requires Valid() && now.server == View() && (wait == ReadMessage || wait == ReadChangeCipherSpec)
      requires now.c2s != [] && r == now.c2s[0]
      modifies this, hs
      ensures HandshakeRuns.Step(p, now, Happening(false, Arrive)) == now.(server := View(), c2s := now.c2s[1..])
      ensures state == old(state) && (wait == Ok || wait.Failed?)
    {
      hide Deliver;
      var delivery := Deliver(wait, hs.View(), r);
      DeliverChanges(wait, hs.View(), r);
      hs.message := CoreAfter(delivery, hs.View()).buf;
      wait := WaitAfter(delivery);
    }

    /** Resolves what is waited for and goes on, until the handshake is done or
        the caller has to wait: for the transport to take more than the first
        `takes(k)` records of a flight, for records beyond `incoming`, or for an
        answer.  It does what some run of events at the server does. */
    method RunHandshake(incoming: seq<Record>, takes: nat -> nat, answers: nat -> bool, ghost sys: System)
      returns (outcome: Outcome, consumed: nat, written: seq<Record>, ghost did: seq<Happening>)
      requires Valid() && sys.server == View() && sys.c2s == incoming
      modifies this, hs
      ensures consumed <= |incoming|
      ensures RunAll(p, sys, did) == sys.(server := View(), s2c := sys.s2c + written, c2s := incoming[consumed..])
      ensures outcome == Completed ==> state == ServerDone && wait == Ok
      ensures outcome == Fatal <==> wait.Failed?
      ensures outcome == CallAgain ==> Stuck(wait, consumed == |incoming|, false, takes, did)
    {
      hide HandshakeRuns.Step, RunAll, View;
      consumed, written, did := 0, [], [];
      var k := 0;
      NothingHappened(p, sys);
      assert incoming[0..] == incoming && sys.s2c + [] == sys.s2c;
      ghost var now := sys;
      while true
        invariant consumed <= |incoming| && now == RunAll(p, sys, did)
        invariant now == sys.(server := View(), s2c := sys.s2c + written, c2s := incoming[consumed..])
        decreases |incoming| - consumed, ServerRank(p, state), WaitOrder(wait)
      {
        if wait.Failed? {
          return Fatal, consumed, written, did;
        }
        if wait == Paused {
          did := Snoc(p, sys, did, Happening(false, Resume));
          Unpause(now);
          return CallAgain, consumed, written, did;
        }
        if wait == FlushFlight {
          did := Snoc(p, sys, did, Happening(false, Flush(takes(k))));
          var sent := FlushSome(takes(k), now);
          AppendAssoc(sys.s2c, written, sent);
          written := written + sent;
          k := k + 1;
          now := RunAll(p, sys, did);
          if wait != Ok {
            return CallAgain, consumed, written, did;
          }
        } else if wait == ReadMessage || wait == ReadChangeCipherSpec {
          if consumed == |incoming| {
            return CallAgain, consumed, written, did;
          }
          did := Snoc(p, sys, did, Happening(false, Arrive));
          Receive(incoming[consumed], now);
          assert incoming[consumed..][1..] == incoming[consumed + 1..];
          consumed := consumed + 1;
          now := RunAll(p, sys, did);
          if wait != Ok {
            return Fatal, consumed, written, did;
          }
        }
        ghost var more := DoHandshake(answers, now);
        RunAllJoins(p, sys, did, more);
        did := did + more;
        now := RunAll(p, sys, did);
        if wait.Failed? {
          return Fatal, consumed, written, did;
        }
        if wait == Ok {
          return Completed, consumed, written, did;
        }
      }
    }

    /** A pause is over when the caller calls again. */
    method Unpause(ghost now: System)
      requires Valid() && now.server == View() && wait == Paused
      modifies this`wait
      ensures HandshakeRuns.Step(p, now, Happening(false, Resume)) == now.(server := View()) && wait == Ok
    {
      wait := Ok;
    }
  }

  lemma ServerAdvances(p: Params, s: Server, retry: bool)
    requires s.wait == Ok && s.state != ServerDone
    ensures var s' := ServerStep(p, s, retry);
            && ServerRank(p, s'.state) <= ServerRank(p, s.state)
            && (s'.wait == Ok || s'.wait == FlushFlight ==> ServerRank(p, s'.state) < ServerRank(p, s.state))
  {
    hide Emit, EmitIf, EmitCcs, BodyOf, HandshakeMachines.Accept;
  }
}
