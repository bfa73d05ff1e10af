/** The client in memory: the loop over its steps, and the loop that resolves
    what they wait for. */
module HandshakeClient {
  import opened Bytes
  import opened HandshakeScript
  import opened HandshakeMachines
  import opened HandshakeProduct
  import opened HandshakeRuns
  import opened HandshakeDriver

  class ClientHandshake {
    const p: Params
    const hs: Handshake
    var state: ClientState
    var wait: Wait
    var certRequest: bool

    ghost predicate Valid() { hs.p == p && hs.isClient }

    function View(): Client
      reads this, hs
    {
      Client(state, wait, hs.View(), certRequest)
    }

    constructor (p: Params)
      ensures Valid() && fresh(hs) && this.p == p && View() == Start(p).client
    {
      this.p := p;
      state, wait, certRequest := StartConnect, Ok, false;
      hs := new Handshake(p, true);
    }

    method ReadTo(kind: Kind, next: ClientState, after: Wait)
      requires Valid()
      modifies this, hs
      ensures View() == ClientRead(old(View()), Read(old(View()).core, kind), next, after)
    {
      hide Read, Handshake.View;
      ghost var result := Read(hs.View(), kind);
      var read := hs.ReadKind(kind);
      if read != Ok {
        wait := read;
        return;
      }
      state, wait := next, after;
    }

    method StepHello(retry: bool)
      requires Valid() && state in {StartConnect, EnterEarlyData, ReadServerHello, ReadServerCertificate,
                                    ReadCertificateStatus, VerifyServerCertificate}
      requires wait == Ok
      modifies this, hs
      ensures View() == ClientStep(p, old(View()), retry)
    {
      hide Emit, Read;
      match state
      case StartConnect =>
        hs.AddMessage(ClientHello);
        state, wait := EnterEarlyData, FlushFlight;
      case EnterEarlyData => state := ReadServerHello;
      case ReadServerHello => ReadTo(ServerHello, if p.resumed then ReadSessionTicket else ReadServerCertificate, Ok);
      case ReadServerCertificate =>
        if !p.certAuth {
          state := ReadCertificateStatus;
          return;
        }
        ReadTo(Certificate, ReadCertificateStatus, Ok);
      case ReadCertificateStatus =>
        if !p.statusExpected || (hs.message.Some? && hs.message.value.kind != CertificateStatus) {
          state := VerifyServerCertificate;
          return;
        }
        ReadTo(CertificateStatus, VerifyServerCertificate, Ok);
      case VerifyServerCertificate =>
        if p.certAuth && retry {
          wait := Paused;
          return;
        }
        state := ReadServerKeyExchange;
    }

    method StepServerDone()
      requires Valid() && state in {ReadServerKeyExchange, ReadCertificateRequest, ReadServerHelloDone}
      requires wait == Ok
      modifies this, hs
      ensures forall retry :: View() == ClientStep(p, old(View()), retry)
    {
      hide HandshakeMachines.Accept;
      match state
      case ReadServerKeyExchange =>
        if hs.message.Some? && hs.message.value.kind != ServerKeyExchange {
          if p.kx == Ecdhe {
            wait := Failed(UnexpectedMessage);
            return;
          }
          state := ReadCertificateRequest;
          return;
        }
        if hs.message.Some? && p.kx == Rsa {
          wait := Failed(UnexpectedMessage);
          return;
        }
        ReadTo(ServerKeyExchange, ReadCertificateRequest, Ok);
      case ReadCertificateRequest =>
        if !p.certAuth || (hs.message.Some? && hs.message.value.kind == ServerHelloDone) {
          state := ReadServerHelloDone;
          return;
        }
        ReadTo(CertificateRequest, ReadServerHelloDone, Ok);
        if state == ReadServerHelloDone {
          certRequest := true;
        }
      case ReadServerHelloDone => ReadTo(ServerHelloDone, SendClientCertificate, Ok);
    }

    method StepSend(retry: bool)
      requires Valid() && state in {SendClientCertificate, SendClientKeyExchange, SendClientCertificateVerify,
                                    SendClientFinished}
      requires wait == Ok
      modifies this, hs
      ensures View() == ClientStep(p, old(View()), retry)
    {
      hide Emit, EmitCcs;
      match state
      case SendClientCertificate =>
        if certRequest && retry {
          wait := Paused;
          return;
        }
        if certRequest {
          hs.AddMessage(Certificate);
        }
        state := SendClientKeyExchange;
      case SendClientKeyExchange =>
        hs.AddMessage(ClientKeyExchange);
        state := SendClientCertificateVerify;
      case SendClientCertificateVerify =>
        if !certRequest || !p.clientHasCert {
          state := SendClientFinished;
          return;
        }
        if retry {
          wait := Paused;
          return;
        }
        hs.AddMessage(CertificateVerify);
        state := SendClientFinished;
      case SendClientFinished =>
        if p.channelId && retry {
          wait := Paused;
          return;
        }
        hs.AddChangeCipherSpec();
        if p.nextProto {
          hs.AddMessage(NextProto);
        }
        if p.channelId {
          hs.AddMessage(ChannelId);
        }
        hs.AddMessage(Finished);
        state, wait := FinishFlight, FlushFlight;
    }

    method StepFinish()
      requires Valid() && state in {FinishFlight, ReadSessionTicket, ProcessServerCcs, ReadServerFinished, FinishClient}
      requires wait == Ok
      modifies this, hs
      ensures forall retry :: View() == ClientStep(p, old(View()), retry)
    {
      hide Read, ReadChecked;
      match state
      case FinishFlight =>
        if p.resumed {
          state := FinishClient;
          return;
        }
        state := ReadSessionTicket;
        if p.falseStart {
          wait := Paused;
        }
      case ReadSessionTicket =>
        if !p.ticket {
          state, wait := ProcessServerCcs, ReadChangeCipherSpec;
          return;
        }
        ReadTo(NewSessionTicket, ProcessServerCcs, ReadChangeCipherSpec);
      case ProcessServerCcs =>
        var ok := hs.ChangeReadKeys();
        if !ok {
          wait := Failed(BufferedMessages);
          return;
        }
        state := ReadServerFinished;
      case ReadServerFinished =>
        wait := hs.ReadAndCheck(Finished);
        if wait == Ok {
          state := if p.resumed then SendClientFinished else FinishClient;
        }
      case FinishClient => state := ClientDone;
    }

    method Step(retry: bool)
      requires Valid() && wait == Ok && state != ClientDone
      modifies this, hs
      ensures View() == ClientStep(p, old(View()), retry)
    {
      hide ClientStep;
      if state in {StartConnect, EnterEarlyData, ReadServerHello, ReadServerCertificate, ReadCertificateStatus,
                   VerifyServerCertificate} {
        StepHello(retry);
      } else if state in {ReadServerKeyExchange, ReadCertificateRequest, ReadServerHelloDone} {
        StepServerDone();
      } else if state in {SendClientCertificate, SendClientKeyExchange, SendClientCertificateVerify, SendClientFinished} {
        StepSend(retry);
      } else {
        StepFinish();
      }
    }

    /** Steps until something is waited for or the handshake is done. */
    method DoHandshake(answers: nat -> bool, ghost sys: System) returns (ghost did: seq<Happening>)
      requires Valid() && sys.client == View() && wait == Ok
      modifies this, hs
      ensures RunAll(p, sys, did) == sys.(client := View())
      ensures wait == Ok ==> state == ClientDone
      ensures ClientRank(p, state) <= old(ClientRank(p, state))
      ensures wait == FlushFlight ==> ClientRank(p, state) < old(ClientRank(p, state))
    {
      hide ClientStep;
      did := [];
      var k := 0;
      while state != ClientDone && wait == Ok
        invariant RunAll(p, sys, did) == sys.(client := View())
        invariant ClientRank(p, state) <= old(ClientRank(p, state))
        invariant wait == FlushFlight ==> ClientRank(p, state) < old(ClientRank(p, state))
        decreases ClientRank(p, state), wait == Ok
      {
        ClientAdvances(p, View(), answers(k));
        RunAllSnoc(p, sys, did, Happening(true, HandshakeMachines.Run(answers(k))));
        Step(answers(k));
        did := did + [Happening(true, HandshakeMachines.Run(answers(k)))];
        k := k + 1;
      }
    }

    /** The transport takes the first records of the flight. */
    method FlushSome(take: nat, ghost now: System) returns (written: seq<Record>)
      requires Valid() && now.client == View() && wait == FlushFlight
      modifies this, hs
      ensures HandshakeRuns.Step(p, now, Happening(true, Flush(take))) ==
              now.(client := View(), c2s := now.c2s + written)
      ensures state == old(state) && (wait == Ok || wait == FlushFlight)
    {
      var n := if take < |hs.pendingFlight| then take else |hs.pendingFlight|;
      written := hs.pendingFlight[..n];
      hs.pendingFlight := hs.pendingFlight[n..];
      if |hs.pendingFlight| == 0 {
        wait := Ok;
      }
    }

    method Receive(r: Record, ghost now: System)
      requires Valid() && now.client == View() && (wait == ReadMessage || wait == ReadChangeCipherSpec)
      requires now.s2c != [] && r == now.s2c[0]
      modifies this, hs
      ensures HandshakeRuns.Step(p, now, Happening(true, Arrive)) == now.(client := View(), s2c := now.s2c[1..])
      ensures state == old(state) && (wait == Ok || wait.Failed?)
    {
      hide Deliver;
      var delivery := Deliver(wait, hs.View(), r);
      DeliverChanges(wait, hs.View(), r);
      hs.message := CoreAfter(delivery, hs.View()).buf;
      wait := WaitAfter(delivery);
    }

    /** Resolves what is waited for and goes on, until the handshake is done or
        the caller has to wait: for the transport to take more than the first
        `takes(k)` records of a flight, for records beyond `incoming`, or for an
        answer.  It does what some run of events at the client does. */
    method RunHandshake(incoming: seq<Record>, takes: nat -> nat, answers: nat -> bool, ghost sys: System)
      returns (outcome: Outcome, consumed: nat, written: seq<Record>, ghost did: seq<Happening>)
      requires Valid() && sys.client == View() && sys.s2c == incoming
      modifies this, hs
      ensures consumed <= |incoming|
      ensures RunAll(p, sys, did) == sys.(client := View(), c2s := sys.c2s + written, s2c := incoming[consumed..])
      ensures outcome == Completed ==> state == ClientDone && wait == Ok
      ensures outcome == Fatal <==> wait.Failed?
      ensures outcome == CallAgain ==> Stuck(wait, consumed == |incoming|, true, takes, did)
    {
      hide HandshakeRuns.Step, RunAll, View;
      consumed, written, did := 0, [], [];
      var k := 0;
      NothingHappened(p, sys);
      assert incoming[0..] == incoming && sys.c2s + [] == sys.c2s;
      ghost var now := sys;
      while true
        invariant consumed <= |incoming| && now == RunAll(p, sys, did)
        invariant now == sys.(client := View(), c2s := sys.c2s + written, s2c := incoming[consumed..])
        decreases |incoming| - consumed, ClientRank(p, state), WaitOrder(wait)
      {
        if wait.Failed? {
          return Fatal, consumed, written, did;
        }
        if wait == Paused {
          did := Snoc(p, sys, did, Happening(true, Resume));
          Unpause(now);
          return CallAgain, consumed, written, did;
        }
        if wait == FlushFlight {
          did := Snoc(p, sys, did, Happening(true, Flush(takes(k))));
          var sent := FlushSome(takes(k), now);
          AppendAssoc(sys.c2s, written, sent);
          written := written + sent;
          k := k + 1;
          now := RunAll(p, sys, did);
          if wait != Ok {
            return CallAgain, consumed, written, did;
          }
        } else if wait == ReadMessage || wait == ReadChangeCipherSpec {
          if consumed == |incoming| {
            return CallAgain, consumed, written, did;
          }
          did := Snoc(p, sys, did, Happening(true, Arrive));
          Receive(incoming[consumed], now);
          assert incoming[consumed..][1..] == incoming[consumed + 1..];
          consumed := consumed + 1;
          now := RunAll(p, sys, did);
          if wait != Ok {
            return Fatal, consumed, written, did;
          }
        }
        ghost var more := DoHandshake(answers, now);
        RunAllJoins(p, sys, did, more);
        did := did + more;
        now := RunAll(p, sys, did);
        if wait.Failed? {
          return Fatal, consumed, written, did;
        }
        if wait == Ok {
          return Completed, consumed, written, did;
        }
      }
    }

    /** A pause is over when the caller calls again. */
    method Unpause(ghost now: System)
      requires Valid() && now.client == View() && wait == Paused
      modifies this`wait
      ensures HandshakeRuns.Step(p, now, Happening(true, Resume)) == now.(client := View()) && wait == Ok
    {
      wait := Ok;
    }
  }

  lemma ClientAdvances(p: Params, c: Client, retry: bool)
    requires c.wait == Ok && c.state != ClientDone
    ensures var c' := ClientStep(p, c, retry);
            && ClientRank(p, c'.state) <= ClientRank(p, c.state)
            && (c'.wait == Ok || c'.wait == FlushFlight ==> ClientRank(p, c'.state) < ClientRank(p, c.state))
  {
    hide Emit, EmitIf, EmitCcs, BodyOf, HandshakeMachines.Accept;
  }
}
