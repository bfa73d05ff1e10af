/** One end of the handshake alone, whatever comes to it: what it accepts, in
    which order, under which keys, and what its Finished check is worth. */
module HandshakeOpen {
  import opened Bytes
  import opened HandshakeScript
  import opened HandshakeMachines
  import opened HandshakeProduct

  // ----- Runs of one end --------------------------------------------------

  /** What happens to an end: something of its own, or a record arrives, which
      anybody may have made. */
  datatype Input = Own(e: Event) | Comes(kind: Kind, body: nat, encrypted: bool) | ComesCcs(encrypted: bool)

  function RecordsOf(input: Input, fromClient: bool): seq<Record> {
    match input
    case Own(_) => []
    case Comes(kind, body, encrypted) => [Record(Handshake(Msg(kind, fromClient, body)), encrypted)]
    case ComesCcs(encrypted) => [Record(ChangeCipherSpec, encrypted)]
  }

  function EventOf(input: Input): Event {
    match input case Own(e) => e case _ => Arrive
  }

  /** An end, the records it has read, and those the transport took. */
  datatype OpenClient = OpenClient(c: Client, read: seq<Record>, sent: seq<Record>)
  datatype OpenServer = OpenServer(s: Server, read: seq<Record>, sent: seq<Record>)

  function ClientMeets(p: Params, o: OpenClient, input: Input): OpenClient {
    var incoming := RecordsOf(input, false);
    var sys := ClientEvent(p, System(o.c, Start(p).server, o.sent, incoming), EventOf(input));
    OpenClient(sys.client, if sys.s2c == [] then o.read + incoming else o.read, sys.c2s)
  }

  function ServerMeets(p: Params, o: OpenServer, input: Input): OpenServer {
    var incoming := RecordsOf(input, true);
    var sys := ServerEvent(p, System(Start(p).client, o.s, incoming, o.sent), EventOf(input));
    OpenServer(sys.server, if sys.c2s == [] then o.read + incoming else o.read, sys.s2c)
  }

  function ClientRun(p: Params, inputs: seq<Input>): OpenClient {
    if inputs == [] then OpenClient(Start(p).client, [], [])
    else ClientMeets(p, ClientRun(p, inputs[..|inputs| - 1]), inputs[|inputs| - 1])
  }

  function ServerRun(p: Params, inputs: seq<Input>): OpenServer {
    if inputs == [] then OpenServer(Start(p).server, [], [])
    else ServerMeets(p, ServerRun(p, inputs[..|inputs| - 1]), inputs[|inputs| - 1])
  }

  // ----- What a transcript tells ------------------------------------------

  /** The secret that a transcript fixes: derived from all messages up to its
      last ClientKeyExchange, else that of the session resumed. */
  function SecretOf(resumed: bool, t: seq<Msg>): Secret {
    if t == [] then (if resumed then OfSession else NoSecret)
    else if t[|t| - 1].kind == ClientKeyExchange then Derived(t)
    else SecretOf(resumed, t[..|t| - 1])
  }

  /** A message that proves knowledge holds the proof for all before it; any
      other that this end made itself is as it makes it. */
  predicate Genuine(p: Params, meClient: bool, m: Msg, before: seq<Msg>) {
    match m.kind
    case Finished => m.body == p.crypto.mac(SecretOf(p.resumed, before), before, m.fromClient)
    case CertificateVerify => m.body == p.crypto.sign(before)
    case ChannelId => m.body == p.crypto.signChannelId(before)
    case kind => m.fromClient == meClient ==> m.body == p.crypto.content(kind, meClient)
  }

  /** The transcript is the messages of the first `i` phases of the script. */
  ghost predicate Tells(p: Params, meClient: bool, i: nat, t: seq<Msg>) {
    if i == 0 then t == [] else
    match Phase(p, i - 1)
    case None => Tells(p, meClient, i - 1, t)
    case Some(e) =>
      match e.what
      case Ccs => Tells(p, meClient, i - 1, t)
      case Message(kind) =>
        && t != [] && t[|t| - 1].kind == kind && t[|t| - 1].fromClient == e.fromClient
        && Genuine(p, meClient, t[|t| - 1], t[..|t| - 1]) && Tells(p, meClient, i - 1, t[..|t| - 1])
  }

  /** The records are those of one direction in the first `i` phases, with the
      messages of the transcript: under the new keys exactly if behind that
      direction's ChangeCipherSpec. */
  ghost predicate Flows(p: Params, fromClient: bool, i: nat, records: seq<Record>, t: seq<Msg>) {
    if i == 0 then records == [] else
    match Phase(p, i - 1)
    case None => Flows(p, fromClient, i - 1, records, t)
    case Some(e) =>
      && (e.what.Message? ==> t != [])
      && var before := if e.what.Message? then t[..|t| - 1] else t;
         if e.fromClient != fromClient then Flows(p, fromClient, i - 1, records, before) else
         && records != []
         && records[|records| - 1] == Record(if e.what.Ccs? then ChangeCipherSpec else Handshake(t[|t| - 1]),
                                             i - 1 > CcsPlace(p, fromClient))
         && Flows(p, fromClient, i - 1, records[..|records| - 1], before)
  }

  /** The end is where the first `i` phases are done: what it has hashed, read and
      sent is theirs, but for a message that it looks at. */
  ghost predicate Placed(p: Params, meClient: bool, i: nat, c: Core, read: seq<Record>, sent: seq<Record>) {
    && Tells(p, meClient, i, c.transcript) && c.secret == SecretOf(p.resumed, c.transcript)
    && (match c.buf
        case None => Flows(p, !meClient, i, read, c.transcript)
        case Some(m) =>
          && m.fromClient != meClient && read != []
          && read[|read| - 1] == Record(Handshake(m), c.readEnc)
          && Flows(p, !meClient, i, read[..|read| - 1], c.transcript))
    && Flows(p, meClient, i, sent + c.flight, c.transcript)
  }

  lemma StartPlaced(p: Params, meClient: bool)
    ensures Placed(p, meClient, 0, StartCore(p), [], [])
  {
  }

  lemma SkipPlaced(p: Params, meClient: bool, i: nat, c: Core, read: seq<Record>, sent: seq<Record>)
    requires Placed(p, meClient, i, c, read, sent) && Phase(p, i).None?
    ensures Placed(p, meClient, i + 1, c, read, sent)
  {
    hide Phase;
  }

  /** A phase more: what it adds to the transcript, to the records of its own
      direction, and to the others. */
  lemma TellsMore(p: Params, meClient: bool, i: nat, t: seq<Msg>, m: Msg)
    requires Tells(p, meClient, i, t) && Phase(p, i) == Some(Entry(m.fromClient, Message(m.kind)))
    requires Genuine(p, meClient, m, t)
    ensures Tells(p, meClient, i + 1, t + [m]) && SecretOf(p.resumed, t + [m]) == SecretAfter(m, t, SecretOf(p.resumed, t))
  {
    hide Phase, Genuine;
    var more := t + [m];
    assert more[..|more| - 1] == t && more[|more| - 1] == m;
  }

  lemma FlowsMore(p: Params, fromClient: bool, i: nat, records: seq<Record>, t: seq<Msg>, m: Msg, encrypted: bool)
    requires Flows(p, fromClient, i, records, t) && Phase(p, i) == Some(Entry(m.fromClient, Message(m.kind)))
    requires encrypted <==> i > CcsPlace(p, fromClient)
    ensures Flows(p, fromClient, i + 1,
                  if m.fromClient == fromClient then records + [Record(Handshake(m), encrypted)] else records, t + [m])
  {
    hide Phase;
    var more, rs := t + [m], records + [Record(Handshake(m), encrypted)];
    assert more[..|more| - 1] == t && more[|more| - 1] == m;
    assert rs[..|rs| - 1] == records;
  }

  lemma CcsMore(p: Params, meClient: bool, fromClient: bool, i: nat, records: seq<Record>, t: seq<Msg>, ofClient: bool)
    requires Tells(p, meClient, i, t) && Flows(p, fromClient, i, records, t)
    requires Phase(p, i) == Some(Entry(ofClient, Ccs))
    ensures Tells(p, meClient, i + 1, t)
    ensures Flows(p, fromClient, i + 1,
                  if ofClient == fromClient then records + [Record(ChangeCipherSpec, i > CcsPlace(p, fromClient))]
                  else records, t)
  {
    hide Phase;
    var rs := records + [Record(ChangeCipherSpec, i > CcsPlace(p, fromClient))];
    assert rs[..|rs| - 1] == records;
  }

  lemma EmitPlaced(p: Params, meClient: bool, i: nat, c: Core, read: seq<Record>, sent: seq<Record>, kind: Kind)
    requires Placed(p, meClient, i, c, read, sent) && Phase(p, i) == Some(Entry(meClient, Message(kind)))
    requires c.writeEnc <==> i > CcsPlace(p, meClient)
    ensures Placed(p, meClient, i + 1, Emit(p, c, meClient, kind), read, sent)
  {
    hide Phase, Tells, Flows, SecretOf;
    var m := Msg(kind, meClient, BodyOf(p, kind, meClient, c.transcript, c.secret));
    TellsMore(p, meClient, i, c.transcript, m);
    FlowsMore(p, meClient, i, sent + c.flight, c.transcript, m, c.writeEnc);
    FlowsMore(p, !meClient, i, if c.buf.Some? then read[..|read| - 1] else read, c.transcript, m,
              i > CcsPlace(p, !meClient));
    assert (sent + c.flight) + [Record(Handshake(m), c.writeEnc)] == sent + Emit(p, c, meClient, kind).flight;
  }

  lemma EmitCcsPlaced(p: Params, meClient: bool, i: nat, c: Core, read: seq<Record>, sent: seq<Record>)
    requires Placed(p, meClient, i, c, read, sent) && Phase(p, i) == Some(Entry(meClient, Ccs))
    requires c.writeEnc <==> i > CcsPlace(p, meClient)
    ensures Placed(p, meClient, i + 1, EmitCcs(c), read, sent)
  {
    hide Phase, Tells, Flows, SecretOf;
    CcsMore(p, meClient, meClient, i, sent + c.flight, c.transcript, meClient);
    CcsMore(p, meClient, !meClient, i, if c.buf.Some? then read[..|read| - 1] else read, c.transcript, meClient);
    assert (sent + c.flight) + [Record(ChangeCipherSpec, c.writeEnc)] == sent + EmitCcs(c).flight;
  }

  lemma AcceptPlaced(p: Params, meClient: bool, i: nat, c: Core, read: seq<Record>, sent: seq<Record>)
    requires Placed(p, meClient, i, c, read, sent) && c.buf.Some?
    requires Phase(p, i) == Some(Entry(!meClient, Message(c.buf.value.kind)))
    requires Genuine(p, meClient, c.buf.value, c.transcript)
    requires c.readEnc <==> i > CcsPlace(p, !meClient)
    ensures Placed(p, meClient, i + 1, Accept(c), read, sent)
  {
    hide Phase, Tells, Flows, SecretOf, Genuine;
    var m := c.buf.value;
    TellsMore(p, meClient, i, c.transcript, m);
    FlowsMore(p, meClient, i, sent + c.flight, c.transcript, m, i > CcsPlace(p, meClient));
    FlowsMore(p, !meClient, i, read[..|read| - 1], c.transcript, m, c.readEnc);
    assert read[..|read| - 1] + [Record(Handshake(m), c.readEnc)] == read;
  }

  lemma CcsPlaced(p: Params, meClient: bool, i: nat, c: Core, read: seq<Record>, sent: seq<Record>)
    requires Placed(p, meClient, i, c, read, sent) && Phase(p, i) == Some(Entry(!meClient, Ccs)) && c.buf.None?
    requires c.readEnc <==> i > CcsPlace(p, !meClient)
    ensures Placed(p, meClient, i + 1, c, read + [Record(ChangeCipherSpec, c.readEnc)], sent)
  {
    hide Phase, Tells, Flows, SecretOf;
    CcsMore(p, meClient, meClient, i, sent + c.flight, c.transcript, !meClient);
    CcsMore(p, meClient, !meClient, i, read, c.transcript, !meClient);
  }

  lemma LookPlaced(p: Params, meClient: bool, i: nat, c: Core, read: seq<Record>, sent: seq<Record>, m: Msg)
    requires Placed(p, meClient, i, c, read, sent) && c.buf.None? && m.fromClient != meClient
    ensures Placed(p, meClient, i, c.(buf := Some(m)), read + [Record(Handshake(m), c.readEnc)], sent)
  {
    var more := read + [Record(Handshake(m), c.readEnc)];
    assert more[..|more| - 1] == read;
  }

  lemma FlushPlaced(p: Params, meClient: bool, i: nat, c: Core, read: seq<Record>, sent: seq<Record>, n: nat)
    requires Placed(p, meClient, i, c, read, sent)
    ensures Placed(p, meClient, i, Remaining(c, n), read, sent + c.flight[..Taken(c, n)])
  {
    assert (sent + c.flight[..Taken(c, n)]) + Remaining(c, n).flight == sent + c.flight;
  }

  // ----- The server alone -------------------------------------------------

  /** Once the server has looked at the ClientHello, it keeps on looking at it. */
  predicate LooksAtHello(s: Server) {
    s.state in {SelectCertificate, SelectParameters} ==> s.core.buf.Some? && s.core.buf.value.kind == ClientHello
  }

  ghost predicate ServerPlaced(p: Params, o: OpenServer) {
    ServerOk(p, o.s) && Placed(p, false, ServerPhase(p, o.s), o.s.core, o.read, o.sent) && LooksAtHello(o.s)
  }

  /** After a step that did not fail, the server is placed again. */
  ghost predicate ServerStays(p: Params, o: OpenServer, s: Server) {
    s.wait.Failed? || ServerPlaced(p, o.(s := s))
  }

  lemma ServerReadPlaced(p: Params, o: OpenServer, kind: Kind)
    requires ServerPlaced(p, o) && o.s.wait == Ok && o.s.state != ProcessClientCcs
    requires Phase(p, ServerPhase(p, o.s)) == Some(Entry(true, Message(kind)))
    ensures var c := o.s.core;
            var i := ServerPhase(p, o.s);
            && (c.buf.Some? && c.buf.value.kind == kind && Genuine(p, false, c.buf.value, c.transcript) ==>
                  Placed(p, false, i + 1, Accept(c), o.read, o.sent))
            && (ReadChecked(p, c, true, kind).Got? ==>
                  c.buf.value.kind == kind && (kind in {Finished, CertificateVerify, ChannelId} ==>
                    Genuine(p, false, c.buf.value, c.transcript)))
            && (c.buf.Some? ==> kind !in {Finished, CertificateVerify, ChannelId} && c.buf.value.kind == kind ==>
                  Genuine(p, false, c.buf.value, c.transcript))
  {
    hide Phase, Tells, Flows, Accept;
    var c := o.s.core;
    if c.buf.Some? && c.buf.value.kind == kind && Genuine(p, false, c.buf.value, c.transcript) {
      AcceptPlaced(p, false, ServerPhase(p, o.s), c, o.read, o.sent);
    }
  }

  lemma ServerHelloPlaced(p: Params, o: OpenServer, retry: bool)
    requires ServerPlaced(p, o) && o.s.wait == Ok
    requires o.s.state in {StartAccept, ReadClientHello, SelectCertificate, SelectParameters, SendServerHello}
    ensures ServerStays(p, o, ServerStep(p, o.s, retry))
  {
    hide Placed, Accept, Emit;
    var s := o.s;
    AcceptFacts(s.core);
    if s.state == SelectParameters {
      ServerReadPlaced(p, o, ClientHello);
    } else if s.state == SendServerHello {
      EmitFacts(p, s.core, false, ServerHello);
      EmitPlaced(p, false, 1, s.core, o.read, o.sent, ServerHello);
    }
  }

  lemma EmitIfPlaced(b: bool, p: Params, i: nat, c: Core, o: OpenServer, kind: Kind)
    requires Placed(p, false, i, c, o.read, o.sent) && Phase(p, i) == If(b, false, Message(kind))
    requires c.writeEnc <==> i > CcsPlace(p, false)
    ensures Placed(p, false, i + 1, EmitIf(b, p, c, false, kind), o.read, o.sent)
    ensures var c' := EmitIf(b, p, c, false, kind);
            c'.buf == c.buf && c'.readEnc == c.readEnc && c'.writeEnc == c.writeEnc
  {
    hide Placed, Phase, Emit;
    EmitFacts(p, c, false, kind);
    if b {
      EmitPlaced(p, false, i, c, o.read, o.sent, kind);
    } else {
      SkipPlaced(p, false, i, c, o.read, o.sent);
    }
  }

  lemma ServerFlightPlaced(p: Params, o: OpenServer, retry: bool)
    requires ServerPlaced(p, o) && o.s.wait == Ok
    requires o.s.state in {SendServerCertificate, SendServerKeyExchange, SendServerHelloDone}
    ensures ServerStays(p, o, ServerStep(p, o.s, retry))
  {
    hide Placed, EmitIf, Emit;
    var s := o.s;
    match s.state
    case SendServerCertificate =>
      EmitIfPlaced(p.certAuth, p, 2, s.core, o, Certificate);
      EmitIfPlaced(p.statusSent, p, 3, EmitIf(p.certAuth, p, s.core, false, Certificate), o, CertificateStatus);
    case SendServerKeyExchange =>
      EmitFacts(p, s.core, false, ServerKeyExchange);
      if p.SendsKeyExchange() {
        EmitPlaced(p, false, 4, s.core, o.read, o.sent, ServerKeyExchange);
      } else {
        SkipPlaced(p, false, 4, s.core, o.read, o.sent);
      }
    case SendServerHelloDone =>
      EmitIfPlaced(Asks(p), p, 5, s.core, o, CertificateRequest);
      var c1 := EmitIf(Asks(p), p, s.core, false, CertificateRequest);
      EmitFacts(p, c1, false, ServerHelloDone);
      EmitPlaced(p, false, 6, c1, o.read, o.sent, ServerHelloDone);
  }

  lemma ServerCertificatePlaced(p: Params, o: OpenServer, retry: bool)
    requires ServerPlaced(p, o) && o.s.wait == Ok
    requires o.s.state in {ReadClientCertificate, VerifyClientCertificate, ReadClientKeyExchange,
                           ReadClientCertificateVerify}
    ensures ServerStays(p, o, ServerStep(p, o.s, retry))
  {
    hide Placed, Accept, Genuine;
    var s := o.s;
    AcceptFacts(s.core);
    match s.state
    case ReadClientCertificate =>
      if Asks(p) { ServerReadPlaced(p, o, Certificate); } else { SkipPlaced(p, false, 7, s.core, o.read, o.sent); }
    case VerifyClientCertificate =>
    case ReadClientKeyExchange => ServerReadPlaced(p, o, ClientKeyExchange);
    case ReadClientCertificateVerify =>
      if s.peerCert { ServerReadPlaced(p, o, CertificateVerify); } else { SkipPlaced(p, false, 9, s.core, o.read, o.sent); }
  }

  lemma ServerCcsPlaced(p: Params, o: OpenServer, retry: bool)
    requires ServerPlaced(p, o) && o.s.wait == Ok
    requires o.s.state in {ReadClientCcs, ProcessClientCcs, FinishServer, ServerDone}
    ensures ServerStays(p, o, ServerStep(p, o.s, retry))
  {
    hide Placed;
    if o.s.core.buf.None? {
      ReadEncIrrelevant(p, false, ServerPhase(p, o.s), o.s.core, o.read, o.sent);
    }
  }

  lemma ServerReadsPlaced(p: Params, o: OpenServer, retry: bool)
    requires ServerPlaced(p, o) && o.s.wait == Ok && o.s.state in {ReadNextProto, ReadChannelId}
    ensures ServerStays(p, o, ServerStep(p, o.s, retry))
  {
    hide Placed, Accept, Genuine;
    var s := o.s;
    var i := ServerPhase(p, s);
    AcceptFacts(s.core);
    match s.state
    case ReadNextProto =>
      if p.nextProto { ServerReadPlaced(p, o, NextProto); } else { SkipPlaced(p, false, i, s.core, o.read, o.sent); }
    case ReadChannelId =>
      if p.channelId { ServerReadPlaced(p, o, ChannelId); } else { SkipPlaced(p, false, i, s.core, o.read, o.sent); }
  }

  lemma ServerFinishedReadPlaced(p: Params, o: OpenServer, retry: bool)
    requires ServerPlaced(p, o) && o.s.wait == Ok && o.s.state == ReadClientFinished
    ensures ServerStays(p, o, ServerStep(p, o.s, retry))
  {
    hide Placed, Accept, Genuine;
    AcceptFacts(o.s.core);
    ServerReadPlaced(p, o, Finished);
  }

  lemma ReadEncIrrelevant(p: Params, meClient: bool, i: nat, c: Core, read: seq<Record>, sent: seq<Record>)
    requires Placed(p, meClient, i, c, read, sent) && c.buf.None?
    ensures Placed(p, meClient, i, c.(readEnc := true), read, sent)
  {
  }

  lemma ServerFinishedPlaced(p: Params, o: OpenServer, retry: bool)
    requires ServerPlaced(p, o) && o.s.wait == Ok && o.s.state == SendServerFinished
    ensures ServerStays(p, o, ServerStep(p, o.s, retry))
  {
    hide Placed, EmitIf, Emit, EmitCcs;
    var s := o.s;
    var i := ServerPhase(p, s);
    EmitIfPlaced(p.ticket, p, i, s.core, o, NewSessionTicket);
    var c1 := EmitIf(p.ticket, p, s.core, false, NewSessionTicket);
    EmitCcsFacts(c1);
    EmitCcsPlaced(p, false, i + 1, c1, o.read, o.sent);
    EmitFacts(p, EmitCcs(c1), false, Finished);
    EmitPlaced(p, false, i + 2, EmitCcs(c1), o.read, o.sent, Finished);
  }

  lemma ServerStepPlaced(p: Params, o: OpenServer, retry: bool)
    requires ServerPlaced(p, o) && o.s.wait == Ok
    ensures ServerStays(p, o, ServerStep(p, o.s, retry))
  {
    hide ServerPlaced, ServerStays, ServerStep;
    var st := o.s.state;
    if st in {StartAccept, ReadClientHello, SelectCertificate, SelectParameters, SendServerHello} {
      ServerHelloPlaced(p, o, retry);
    } else if st in {SendServerCertificate, SendServerKeyExchange, SendServerHelloDone} {
      ServerFlightPlaced(p, o, retry);
    } else if st in {ReadClientCertificate, VerifyClientCertificate, ReadClientKeyExchange, ReadClientCertificateVerify} {
      ServerCertificatePlaced(p, o, retry);
    } else if st == SendServerFinished {
      ServerFinishedPlaced(p, o, retry);
    } else if st in {ReadNextProto, ReadChannelId} {
      ServerReadsPlaced(p, o, retry);
    } else if st == ReadClientFinished {
      ServerFinishedReadPlaced(p, o, retry);
    } else {
      ServerCcsPlaced(p, o, retry);
    }
  }

  lemma ServerCcsComes(p: Params, o: OpenServer)
    requires ServerPlaced(p, o) && o.s.wait == ReadChangeCipherSpec && o.s.core.buf.None?
    ensures ServerPlaced(p, OpenServer(o.s.(wait := Ok), o.read + [Record(ChangeCipherSpec, o.s.core.readEnc)], o.sent))
  {
    hide Placed;
    CcsPlaced(p, false, ServerPhase(p, o.s), o.s.core, o.read, o.sent);
  }

  lemma ServerMessageComes(p: Params, o: OpenServer, m: Msg)
    requires ServerPlaced(p, o) && o.s.wait == ReadMessage && m.fromClient
    ensures ServerPlaced(p, OpenServer(o.s.(wait := Ok, core := o.s.core.(buf := Some(m))),
                                       o.read + [Record(Handshake(m), o.s.core.readEnc)], o.sent))
  {
    hide Placed;
    LookPlaced(p, false, ServerPhase(p, o.s), o.s.core, o.read, o.sent, m);
  }

  lemma ServerComesPlaced(p: Params, o: OpenServer, input: Input)
    requires ServerPlaced(p, o) && !input.Own?
    ensures var o' := ServerMeets(p, o, input); o'.s.wait.Failed? || ServerPlaced(p, o')
  {
    hide ServerPlaced, Start;
    var s := o.s;
    if s.wait == ReadChangeCipherSpec {
      if input.ComesCcs? && s.core.buf.None? && input.encrypted == s.core.readEnc { ServerCcsComes(p, o); }
    } else if s.wait == ReadMessage {
      if input.Comes? && input.encrypted == s.core.readEnc {
        ServerMessageComes(p, o, RecordsOf(input, true)[0].content.m);
      }
    }
  }

  lemma ServerMeetsPlaced(p: Params, o: OpenServer, input: Input)
    requires ServerPlaced(p, o)
    ensures var o' := ServerMeets(p, o, input); o'.s.wait.Failed? || ServerPlaced(p, o')
  {
    hide Placed, ServerStep;
    assert o.read + [] == o.read;
    if !input.Own? {
      ServerComesPlaced(p, o, input);
    } else if input.e.Run? && o.s.wait == Ok {
      ServerStepPlaced(p, o, input.e.retry);
      assert ServerMeets(p, o, input) == o.(s := ServerStep(p, o.s, input.e.retry));
    } else if input.e.Flush? {
      FlushPlaced(p, false, ServerPhase(p, o.s), o.s.core, o.read, o.sent, input.e.n);
    }
  }

  lemma {:induction false} ServerAlone(p: Params, inputs: seq<Input>)
    ensures ServerRun(p, inputs).s.wait.Failed? || ServerPlaced(p, ServerRun(p, inputs))
  {
    hide ServerPlaced, ServerMeets;
    if inputs == [] {
      ServerStartPlaced(p);
    } else {
      ServerAlone(p, inputs[..|inputs| - 1]);
      var o := ServerRun(p, inputs[..|inputs| - 1]);
      if o.s.wait.Failed? {
        ServerFailedStays(p, o, inputs[|inputs| - 1]);
      } else {
        ServerMeetsPlaced(p, o, inputs[|inputs| - 1]);
      }
    }
  }

  lemma ServerStartPlaced(p: Params)
    ensures ServerPlaced(p, ServerRun(p, []))
  {
    hide Phase;
    StartPlaced(p, false);
  }

  lemma ServerFailedStays(p: Params, o: OpenServer, input: Input)
    requires o.s.wait.Failed?
    ensures ServerMeets(p, o, input).s == o.s && ServerMeets(p, o, input).sent == o.sent
  {
  }

  // ----- The client alone -------------------------------------------------

  predicate HasKind(t: seq<Msg>, kind: Kind) {
    exists k :: 0 <= k < |t| && t[k].kind == kind
  }

  /** The parameters of the script, with those messages in it that a server may
      leave out exactly if they came. */
  function Seen(p: Params, t: seq<Msg>): Params {
    p.(statusSent := HasKind(t, CertificateStatus), pskHint := HasKind(t, ServerKeyExchange),
       certRequest := HasKind(t, CertificateRequest))
  }

  ghost predicate ClientPlaced(p: Params, o: OpenClient) {
    var q := Seen(p, o.c.core.transcript);
    ClientOk(q, o.c) && Placed(q, true, ClientPhase(q, o.c), o.c.core, o.read, o.sent)
  }

  ghost predicate ClientStays(p: Params, o: OpenClient, c: Client) {
    c.wait.Failed? || ClientPlaced(p, o.(c := c))
  }

  predicate Optional(kind: Kind) { kind in {CertificateStatus, ServerKeyExchange, CertificateRequest} }

  lemma SeenMore(p: Params, t: seq<Msg>, m: Msg)
    ensures !Optional(m.kind) ==> Seen(p, t + [m]) == Seen(p, t)
    ensures HasKind(t + [m], CertificateStatus) <==> HasKind(t, CertificateStatus) || m.kind == CertificateStatus
    ensures HasKind(t + [m], ServerKeyExchange) <==> HasKind(t, ServerKeyExchange) || m.kind == ServerKeyExchange
    ensures HasKind(t + [m], CertificateRequest) <==> HasKind(t, CertificateRequest) || m.kind == CertificateRequest
  {
    var more := t + [m];
    assert more[|t|] == m && forall k :: 0 <= k < |t| ==> more[k] == t[k];
  }

  /** A message that no phase so far brings has not come. */
  lemma {:induction false} NotYet(p: Params, meClient: bool, i: nat, t: seq<Msg>, kind: Kind)
    requires Tells(p, meClient, i, t)
    requires forall j: nat :: j < i ==> Phase(p, j).None? || Phase(p, j).value.what != Message(kind)
    ensures !HasKind(t, kind)
  {
    hide Phase;
    if i > 0 {
      assert Phase(p, i - 1).None? || Phase(p, i - 1).value.what != Message(kind);
      if Phase(p, i - 1).Some? && Phase(p, i - 1).value.what.Message? {
        NotYet(p, meClient, i - 1, t[..|t| - 1], kind);
      } else {
        NotYet(p, meClient, i - 1, t, kind);
      }
    }
  }

  /** The phases below `i` do not tell the two apart. */
  ghost predicate SameScript(p: Params, q: Params, i: nat) {
    p.crypto == q.crypto && p.resumed == q.resumed && forall j: nat :: j < i ==> Phase(p, j) == Phase(q, j)
  }

  lemma {:induction false} TellsSame(p: Params, q: Params, meClient: bool, i: nat, t: seq<Msg>)
    requires SameScript(p, q, i) && Tells(p, meClient, i, t)
    ensures Tells(q, meClient, i, t)
  {
    hide Phase;
    if i > 0 {
      assert Phase(p, i - 1) == Phase(q, i - 1);
      if Phase(p, i - 1).Some? && Phase(p, i - 1).value.what.Message? {
        TellsSame(p, q, meClient, i - 1, t[..|t| - 1]);
      } else {
        TellsSame(p, q, meClient, i - 1, t);
      }
    }
  }

  lemma {:induction false} FlowsSame(p: Params, q: Params, fromClient: bool, i: nat, records: seq<Record>, t: seq<Msg>)
    requires SameScript(p, q, i) && Flows(p, fromClient, i, records, t)
    ensures Flows(q, fromClient, i, records, t)
  {
    hide Phase;
    if i > 0 {
      assert Phase(p, i - 1) == Phase(q, i - 1);
      match Phase(p, i - 1)
      case None => FlowsSame(p, q, fromClient, i - 1, records, t);
      case Some(e) =>
        FlowsSame(p, q, fromClient, i - 1,
                  if e.fromClient == fromClient then records[..|records| - 1] else records,
                  if e.what.Message? then t[..|t| - 1] else t);
    }
  }

  lemma PlacedSame(p: Params, q: Params, i: nat, c: Core, read: seq<Record>, sent: seq<Record>)
    requires SameScript(p, q, i) && Placed(p, true, i, c, read, sent)
    ensures Placed(q, true, i, c, read, sent)
  {
    TellsSame(p, q, true, i, c.transcript);
    FlowsSame(p, q, true, i, sent + c.flight, c.transcript);
    FlowsSame(p, q, false, i, if c.buf.Some? then read[..|read| - 1] else read, c.transcript);
  }

  lemma EmitSeen(p: Params, t: seq<Msg>, c: Core, kind: Kind)
    ensures Emit(Seen(p, t), c, true, kind) == Emit(p, c, true, kind)
  {
  }

  /** The client accepts a message of the next phase. */
  lemma ClientTakes(p: Params, o: OpenClient, q: Params)
    requires ClientPlaced(p, o) && o.c.wait == Ok && o.c.state != ProcessServerCcs && o.c.core.buf.Some?
    requires q == Seen(p, Accept(o.c.core).transcript) && SameScript(Seen(p, o.c.core.transcript), q, ClientPhase(p, o.c))
    requires Phase(q, ClientPhase(p, o.c)) == Some(Entry(false, Message(o.c.core.buf.value.kind)))
    requires Genuine(q, true, o.c.core.buf.value, o.c.core.transcript)
    ensures Placed(q, true, ClientPhase(p, o.c) + 1, Accept(o.c.core), o.read, o.sent)
  {
    hide Phase, Tells, Flows, SameScript, Genuine;
    PlacedSame(Seen(p, o.c.core.transcript), q, ClientPhase(p, o.c), o.c.core, o.read, o.sent);
    AcceptPlaced(q, true, ClientPhase(p, o.c), o.c.core, o.read, o.sent);
  }

  /** The same for a message that is no optional one. */
  lemma ClientReadPlaced(p: Params, o: OpenClient, kind: Kind)
    requires ClientPlaced(p, o) && o.c.wait == Ok && o.c.state != ProcessServerCcs
    requires !Optional(kind)
    requires Phase(Seen(p, o.c.core.transcript), ClientPhase(p, o.c)) == Some(Entry(false, Message(kind)))
    ensures var c, q := o.c.core, Seen(p, o.c.core.transcript);
            && (c.buf.Some? && c.buf.value.kind == kind && Genuine(q, true, c.buf.value, c.transcript) ==>
                  Seen(p, Accept(c).transcript) == q &&
                  Placed(q, true, ClientPhase(p, o.c) + 1, Accept(c), o.read, o.sent))
            && (ReadChecked(p, c, false, Finished).Got? ==> Genuine(q, true, c.buf.value, c.transcript))
            && (c.buf.Some? && c.buf.value.kind == kind && kind !in {Finished, CertificateVerify, ChannelId} ==>
                  Genuine(q, true, c.buf.value, c.transcript))
  {
    hide Phase, Tells, Flows;
    var c, q := o.c.core, Seen(p, o.c.core.transcript);
    if c.buf.Some? && c.buf.value.kind == kind && Genuine(q, true, c.buf.value, c.transcript) {
      SeenMore(p, c.transcript, c.buf.value);
      ClientTakes(p, o, q);
    }
  }

  lemma ClientSendPlaced(b: bool, p: Params, t: seq<Msg>, i: nat, c: Core, o: OpenClient, kind: Kind)
    requires Placed(Seen(p, t), true, i, c, o.read, o.sent) && Seen(p, c.transcript) == Seen(p, t)
    requires Phase(Seen(p, t), i) == If(b, true, Message(kind)) && !Optional(kind)
    requires c.writeEnc <==> i > CcsPlace(p, true)
    ensures var c' := EmitIf(b, p, c, true, kind);
            && Placed(Seen(p, t), true, i + 1, c', o.read, o.sent) && Seen(p, c'.transcript) == Seen(p, t)
            && c'.buf == c.buf && c'.readEnc == c.readEnc && c'.writeEnc == c.writeEnc
  {
    hide Placed, Phase, Seen, BodyOf;
    SeenCrypto(p, t);
    EmitSeen(p, t, c, kind);
    EmitFacts(p, c, true, kind);
    if b {
      EmitPlaced(Seen(p, t), true, i, c, o.read, o.sent, kind);
      SeenMore(p, c.transcript, Msg(kind, true, BodyOf(p, kind, true, c.transcript, c.secret)));
    } else {
      SkipPlaced(Seen(p, t), true, i, c, o.read, o.sent);
    }
  }

  lemma SeenCrypto(p: Params, t: seq<Msg>)
    ensures Seen(p, t).resumed == p.resumed && CcsPlace(Seen(p, t), true) == CcsPlace(p, true)
  {
  }

  lemma ClientHelloPlaced(p: Params, o: OpenClient, retry: bool)
    requires ClientPlaced(p, o) && o.c.wait == Ok
    requires o.c.state in {StartConnect, EnterEarlyData, ReadServerHello}
    ensures ClientStays(p, o, ClientStep(p, o.c, retry))
  {
    hide Placed, Accept, Emit, HasKind;
    var c := o.c;
    AcceptFacts(c.core);
    if c.state == StartConnect {
      ClientSendPlaced(true, p, c.core.transcript, 0, c.core, o, ClientHello);
    } else if c.state == ReadServerHello {
      ClientReadPlaced(p, o, ServerHello);
    }
  }

  lemma ClientCertificatePlaced(p: Params, o: OpenClient, retry: bool)
    requires ClientPlaced(p, o) && o.c.wait == Ok
    requires o.c.state in {ReadServerCertificate, VerifyServerCertificate, ReadServerHelloDone}
    ensures ClientStays(p, o, ClientStep(p, o.c, retry))
  {
    hide Placed, Accept, Emit, HasKind, Genuine;
    var c := o.c;
    AcceptFacts(c.core);
    match c.state
    case ReadServerCertificate =>
      if p.certAuth {
        ClientReadPlaced(p, o, Certificate);
      } else {
        SkipPlaced(Seen(p, c.core.transcript), true, 2, c.core, o.read, o.sent);
      }
    case VerifyServerCertificate =>
    case ReadServerHelloDone => ClientReadPlaced(p, o, ServerHelloDone);
  }

  /** Where an optional message may come, and which. */
  predicate MayCome(p: Params, c: Client, kind: Kind) {
    && !p.resumed && (kind == ServerKeyExchange ==> p.kx != Rsa)
    && (c.state, kind) in {(ReadCertificateStatus, CertificateStatus), (ReadServerKeyExchange, ServerKeyExchange),
                           (ReadCertificateRequest, CertificateRequest)}
  }

  /** It has not come before, and may be left out, but for the key exchange of
      Ecdhe. */
  lemma OptionalSkipped(p: Params, o: OpenClient, kind: Kind)
    requires ClientPlaced(p, o) && o.c.wait == Ok && MayCome(p, o.c, kind)
    ensures !HasKind(o.c.core.transcript, kind)
    ensures !(kind == ServerKeyExchange && p.kx == Ecdhe) ==>
              Placed(Seen(p, o.c.core.transcript), true, ClientPhase(p, o.c) + 1, o.c.core, o.read, o.sent)
  {
    hide Placed, HasKind;
    var c, i := o.c.core, ClientPhase(p, o.c);
    var q := Seen(p, c.transcript);
    PlacedTells(q, i, c, o.read, o.sent);
    NotYet(q, true, i, c.transcript, kind);
    if !(kind == ServerKeyExchange && p.kx == Ecdhe) {
      SkipPlaced(q, true, i, c, o.read, o.sent);
    }
  }

  /** The parameters with one optional message more. */
  function With(q: Params, kind: Kind): Params {
    if kind == CertificateStatus then q.(statusSent := true)
    else if kind == ServerKeyExchange then q.(pskHint := true)
    else q.(certRequest := true)
  }

  lemma SeenWith(p: Params, t: seq<Msg>, m: Msg)
    requires Optional(m.kind)
    ensures Seen(p, t + [m]) == With(Seen(p, t), m.kind)
  {
    hide HasKind;
    SeenMore(p, t, m);
  }

  /** Only from its own phase on does it matter whether an optional message came. */
  lemma WithPhase(q: Params, kind: Kind, i: nat)
    requires !q.resumed && (kind, i) in {(CertificateStatus, 3), (ServerKeyExchange, 4), (CertificateRequest, 5)}
    requires kind == ServerKeyExchange ==> q.kx == Ecdhe || !q.certAuth
    ensures SameScript(q, With(q, kind), i) && Phase(With(q, kind), i) == Some(Entry(false, Message(kind)))
  {
  }

  /** Or it comes. */
  lemma OptionalTaken(p: Params, o: OpenClient, kind: Kind)
    requires ClientPlaced(p, o) && o.c.wait == Ok && p.Valid() && MayCome(p, o.c, kind)
    requires o.c.core.buf.Some? && o.c.core.buf.value.kind == kind
    ensures var c, t := o.c.core, Accept(o.c.core).transcript;
            && Placed(Seen(p, t), true, ClientPhase(p, o.c) + 1, Accept(c), o.read, o.sent)
            && (HasKind(t, CertificateRequest) <==> kind == CertificateRequest || HasKind(c.transcript, CertificateRequest))
  {
    hide Placed, Accept, HasKind, Phase, SameScript, ClientOk, Seen, With, ClientPlaced;
    var c, i := o.c.core, ClientPhase(p, o.c);
    var q := Seen(p, c.transcript);
    PeerLooked(p, o);
    AcceptTranscript(c);
    SeenMore(p, c.transcript, c.buf.value);
    SeenWith(p, c.transcript, c.buf.value);
    WithPhase(q, kind, i);
    ClientTakes(p, o, With(q, kind));
  }

  lemma PlacedTells(p: Params, i: nat, c: Core, read: seq<Record>, sent: seq<Record>)
    requires Placed(p, true, i, c, read, sent)
    ensures Tells(p, true, i, c.transcript) && (c.buf.Some? ==> !c.buf.value.fromClient)
  {
  }

  lemma PeerLooked(p: Params, o: OpenClient)
    requires ClientPlaced(p, o)
    ensures o.c.core.buf.Some? ==> !o.c.core.buf.value.fromClient
    ensures Seen(p, o.c.core.transcript).resumed == p.resumed && Seen(p, o.c.core.transcript).kx == p.kx
    ensures Seen(p, o.c.core.transcript).certAuth == p.certAuth
  {
    hide HasKind;
  }

  lemma AcceptTranscript(c: Core)
    requires c.buf.Some?
    ensures Accept(c).transcript == c.transcript + [c.buf.value]
  {
  }

  lemma ClientStatusPlaced(p: Params, o: OpenClient, retry: bool)
    requires ClientPlaced(p, o) && o.c.wait == Ok && p.Valid() && o.c.state == ReadCertificateStatus
    ensures ClientStays(p, o, ClientStep(p, o.c, retry))
  {
    hide Placed, Accept, HasKind;
    AcceptFacts(o.c.core);
    OptionalSkipped(p, o, CertificateStatus);
    if o.c.core.buf.Some? && o.c.core.buf.value.kind == CertificateStatus {
      OptionalTaken(p, o, CertificateStatus);
    }
  }

  lemma ClientRsaPlaced(p: Params, o: OpenClient, retry: bool)
    requires ClientPlaced(p, o) && o.c.wait == Ok && p.Valid() && o.c.state == ReadServerKeyExchange && p.kx == Rsa
    ensures ClientStays(p, o, ClientStep(p, o.c, retry))
  {
    hide Placed, Accept, HasKind;
    SkipPlaced(Seen(p, o.c.core.transcript), true, 4, o.c.core, o.read, o.sent);
  }

  lemma ClientKeyExchangePlaced(p: Params, o: OpenClient, retry: bool)
    requires ClientPlaced(p, o) && o.c.wait == Ok && p.Valid() && o.c.state == ReadServerKeyExchange && p.kx != Rsa
    ensures ClientStays(p, o, ClientStep(p, o.c, retry))
  {
    hide Placed, Accept, HasKind;
    AcceptFacts(o.c.core);
    OptionalSkipped(p, o, ServerKeyExchange);
    if o.c.core.buf.Some? && o.c.core.buf.value.kind == ServerKeyExchange {
      OptionalTaken(p, o, ServerKeyExchange);
    }
  }

  lemma ClientRequestPlaced(p: Params, o: OpenClient, retry: bool)
    requires ClientPlaced(p, o) && o.c.wait == Ok && p.Valid() && o.c.state == ReadCertificateRequest
    ensures ClientStays(p, o, ClientStep(p, o.c, retry))
  {
    hide Placed, Accept, HasKind;
    AcceptFacts(o.c.core);
    OptionalSkipped(p, o, CertificateRequest);
    if o.c.core.buf.Some? && o.c.core.buf.value.kind == CertificateRequest {
      OptionalTaken(p, o, CertificateRequest);
    }
  }

  lemma ClientSendsPlaced(p: Params, o: OpenClient, retry: bool)
    requires ClientPlaced(p, o) && o.c.wait == Ok
    requires o.c.state in {SendClientCertificate, SendClientKeyExchange, SendClientCertificateVerify}
    ensures ClientStays(p, o, ClientStep(p, o.c, retry))
  {
    hide Placed, EmitIf, Emit, HasKind;
    var c := o.c;
    match c.state
    case SendClientCertificate => ClientSendPlaced(c.certRequest, p, c.core.transcript, 7, c.core, o, Certificate);
    case SendClientKeyExchange =>
      EmitIfTrue(p, c.core, ClientKeyExchange);
      ClientSendPlaced(true, p, c.core.transcript, 8, c.core, o, ClientKeyExchange);
    case SendClientCertificateVerify =>
      EmitIfTrue(p, c.core, CertificateVerify);
      ClientSendPlaced(c.certRequest && p.clientHasCert, p, c.core.transcript, 9, c.core, o, CertificateVerify);
  }

  lemma EmitIfTrue(p: Params, c: Core, kind: Kind)
    ensures EmitIf(true, p, c, true, kind) == Emit(p, c, true, kind) && EmitIf(false, p, c, true, kind) == c
  {
  }

  /** The client's ChangeCipherSpec and what goes behind it. */
  function LastFlight(p: Params, c: Core): Core {
    Emit(p, EmitIf(p.channelId, p, EmitIf(p.nextProto, p, EmitCcs(c), true, NextProto), true, ChannelId), true, Finished)
  }

  lemma LastFlightPlaced(p: Params, o: OpenClient, c: Core)
    requires Placed(Seen(p, c.transcript), true, CcsPlace(p, true), c, o.read, o.sent) && !c.writeEnc
    ensures var c' := LastFlight(p, c);
            && Placed(Seen(p, c'.transcript), true, CcsPlace(p, true) + 4, c', o.read, o.sent)
            && Seen(p, c'.transcript) == Seen(p, c.transcript)
            && c'.buf == c.buf && c'.readEnc == c.readEnc && c'.writeEnc
  {
    hide Placed, EmitIf, Emit, HasKind, EmitCcs;
    var t, i := c.transcript, CcsPlace(p, true);
    EmitCcsFacts(c);
    EmitCcsTranscript(c);
    EmitCcsPlaced(Seen(p, t), true, i, c, o.read, o.sent);
    ClientSendPlaced(p.nextProto, p, t, i + 1, EmitCcs(c), o, NextProto);
    var c1 := EmitIf(p.nextProto, p, EmitCcs(c), true, NextProto);
    ClientSendPlaced(p.channelId, p, t, i + 2, c1, o, ChannelId);
    var c2 := EmitIf(p.channelId, p, c1, true, ChannelId);
    ClientSendPlaced(true, p, t, i + 3, c2, o, Finished);
    EmitIfTrue(p, c2, Finished);
  }

  lemma ClientFinishedPlaced(p: Params, o: OpenClient, retry: bool)
    requires ClientPlaced(p, o) && o.c.wait == Ok && o.c.state == SendClientFinished
    ensures ClientStays(p, o, ClientStep(p, o.c, retry))
  {
    hide Placed, EmitIf, Emit, HasKind, EmitCcs;
    LastFlightPlaced(p, o, o.c.core);
  }

  lemma EmitCcsTranscript(c: Core)
    ensures EmitCcs(c).transcript == c.transcript
  {
  }

  lemma ClientClosingPlaced(p: Params, o: OpenClient, retry: bool)
    requires ClientPlaced(p, o) && o.c.wait == Ok && o.c.state in {FinishFlight, FinishClient, ClientDone}
    ensures ClientStays(p, o, ClientStep(p, o.c, retry))
  {
    hide Placed, HasKind;
  }

  lemma ClientChangesKeys(p: Params, o: OpenClient, retry: bool)
    requires ClientPlaced(p, o) && o.c.wait == Ok && o.c.state == ProcessServerCcs
    ensures ClientStays(p, o, ClientStep(p, o.c, retry))
  {
    hide Placed, HasKind;
    if o.c.core.buf.None? {
      ReadEncIrrelevant(Seen(p, o.c.core.transcript), true, ClientPhase(p, o.c), o.c.core, o.read, o.sent);
    }
  }

  lemma ClientFinishedReadPlaced(p: Params, o: OpenClient, retry: bool)
    requires ClientPlaced(p, o) && o.c.wait == Ok && o.c.state == ReadServerFinished
    ensures ClientStays(p, o, ClientStep(p, o.c, retry))
  {
    hide Placed, Accept, HasKind, Genuine;
    AcceptFacts(o.c.core);
    ClientReadPlaced(p, o, Finished);
  }

  lemma ClientTicketPlaced(p: Params, o: OpenClient, retry: bool)
    requires ClientPlaced(p, o) && o.c.wait == Ok && o.c.state == ReadSessionTicket
    ensures ClientStays(p, o, ClientStep(p, o.c, retry))
  {
    hide Placed, Accept, HasKind, Genuine;
    var c := o.c;
    AcceptFacts(c.core);
    if p.ticket {
      ClientReadPlaced(p, o, NewSessionTicket);
    } else {
      SkipPlaced(Seen(p, c.core.transcript), true, ClientPhase(p, c), c.core, o.read, o.sent);
    }
  }

  lemma ClientStepPlaced(p: Params, o: OpenClient, retry: bool)
    requires ClientPlaced(p, o) && o.c.wait == Ok && p.Valid()
    ensures ClientStays(p, o, ClientStep(p, o.c, retry))
  {
    hide ClientPlaced, ClientStays, ClientStep;
    var st := o.c.state;
    if st in {StartConnect, EnterEarlyData, ReadServerHello} {
      ClientHelloPlaced(p, o, retry);
    } else if st in {ReadServerCertificate, VerifyServerCertificate, ReadServerHelloDone} {
      ClientCertificatePlaced(p, o, retry);
    } else if st == ReadCertificateStatus {
      ClientStatusPlaced(p, o, retry);
    } else if st == ReadServerKeyExchange {
      if p.kx == Rsa { ClientRsaPlaced(p, o, retry); } else { ClientKeyExchangePlaced(p, o, retry); }
    } else if st == ReadCertificateRequest {
      ClientRequestPlaced(p, o, retry);
    } else if st in {SendClientCertificate, SendClientKeyExchange, SendClientCertificateVerify} {
      ClientSendsPlaced(p, o, retry);
    } else if st == SendClientFinished {
      ClientFinishedPlaced(p, o, retry);
    } else if st == ReadSessionTicket {
      ClientTicketPlaced(p, o, retry);
    } else if st == ReadServerFinished {
      ClientFinishedReadPlaced(p, o, retry);
    } else if st == ProcessServerCcs {
      ClientChangesKeys(p, o, retry);
    } else {
      ClientClosingPlaced(p, o, retry);
    }
  }

  lemma ClientCcsComes(p: Params, o: OpenClient)
    requires ClientPlaced(p, o) && o.c.wait == ReadChangeCipherSpec && o.c.core.buf.None?
    ensures ClientPlaced(p, OpenClient(o.c.(wait := Ok), o.read + [Record(ChangeCipherSpec, o.c.core.readEnc)], o.sent))
  {
    hide Placed, HasKind;
    CcsPlaced(Seen(p, o.c.core.transcript), true, ClientPhase(p, o.c), o.c.core, o.read, o.sent);
  }

  lemma ClientMessageComes(p: Params, o: OpenClient, m: Msg)
    requires ClientPlaced(p, o) && o.c.wait == ReadMessage && !m.fromClient
    ensures ClientPlaced(p, OpenClient(o.c.(wait := Ok, core := o.c.core.(buf := Some(m))),
                                       o.read + [Record(Handshake(m), o.c.core.readEnc)], o.sent))
  {
    hide Placed, HasKind;
    LookPlaced(Seen(p, o.c.core.transcript), true, ClientPhase(p, o.c), o.c.core, o.read, o.sent, m);
  }

  lemma ClientComesPlaced(p: Params, o: OpenClient, input: Input)
    requires ClientPlaced(p, o) && !input.Own?
    ensures var o' := ClientMeets(p, o, input); o'.c.wait.Failed? || ClientPlaced(p, o')
  {
    hide ClientPlaced, Start;
    var c := o.c;
    if c.wait == ReadChangeCipherSpec {
      if input.ComesCcs? && c.core.buf.None? && input.encrypted == c.core.readEnc { ClientCcsComes(p, o); }
    } else if c.wait == ReadMessage {
      if input.Comes? && input.encrypted == c.core.readEnc {
        ClientMessageComes(p, o, RecordsOf(input, false)[0].content.m);
      }
    }
  }

  lemma ClientMeetsPlaced(p: Params, o: OpenClient, input: Input)
    requires ClientPlaced(p, o) && p.Valid()
    ensures var o' := ClientMeets(p, o, input); o'.c.wait.Failed? || ClientPlaced(p, o')
  {
    hide Placed, ClientStep, HasKind;
    assert o.read + [] == o.read;
    if !input.Own? {
      ClientComesPlaced(p, o, input);
    } else if input.e.Run? && o.c.wait == Ok {
      ClientStepPlaced(p, o, input.e.retry);
      assert ClientMeets(p, o, input) == o.(c := ClientStep(p, o.c, input.e.retry));
    } else if input.e.Flush? {
      FlushPlaced(Seen(p, o.c.core.transcript), true, ClientPhase(p, o.c), o.c.core, o.read, o.sent, input.e.n);
    }
  }

  lemma {:induction false} ClientAlone(p: Params, inputs: seq<Input>)
    requires p.Valid()
    ensures ClientRun(p, inputs).c.wait.Failed? || ClientPlaced(p, ClientRun(p, inputs))
  {
    hide ClientPlaced, ClientMeets;
    if inputs == [] {
      ClientStartPlaced(p);
    } else {
      ClientAlone(p, inputs[..|inputs| - 1]);
      var o := ClientRun(p, inputs[..|inputs| - 1]);
      if o.c.wait.Failed? {
        ClientFailedStays(p, o, inputs[|inputs| - 1]);
      } else {
        ClientMeetsPlaced(p, o, inputs[|inputs| - 1]);
      }
    }
  }

  lemma ClientStartPlaced(p: Params)
    ensures ClientPlaced(p, ClientRun(p, []))
  {
    hide Phase;
    StartPlaced(Seen(p, []), true);
  }

  lemma ClientFailedStays(p: Params, o: OpenClient, input: Input)
    requires o.c.wait.Failed?
    ensures ClientMeets(p, o, input).c == o.c && ClientMeets(p, o, input).sent == o.sent
  {
  }

  // ----- What an end accepts ----------------------------------------------

  lemma {:induction false} TellsGenuine(p: Params, meClient: bool, i: nat, t: seq<Msg>, k: nat)
    requires Tells(p, meClient, i, t) && k < |t|
    ensures Genuine(p, meClient, t[k], t[..k])
  {
    hide Phase, Genuine;
    if Phase(p, i - 1).Some? && Phase(p, i - 1).value.what.Message? {
      if k < |t| - 1 {
        TellsGenuine(p, meClient, i - 1, t[..|t| - 1], k);
        assert t[..|t| - 1][..k] == t[..k];
      }
    } else {
      TellsGenuine(p, meClient, i - 1, t, k);
    }
  }

  /** Who sent which messages in the first `i` phases. */
  function Messages(p: Params, i: nat): seq<(bool, Kind)> {
    if i == 0 then [] else
    Messages(p, i - 1) +
    match Phase(p, i - 1)
    case None => []
    case Some(e) => match e.what case Ccs => [] case Message(kind) => [(e.fromClient, kind)]
  }

  predicate HasOrder(t: seq<Msg>, order: seq<(bool, Kind)>) {
    |t| == |order| && forall k :: 0 <= k < |t| ==> (t[k].fromClient, t[k].kind) == order[k]
  }

  lemma {:induction false} TellsOrder(p: Params, meClient: bool, i: nat, t: seq<Msg>)
    requires Tells(p, meClient, i, t)
    ensures HasOrder(t, Messages(p, i))
  {
    hide Phase, Genuine;
    if i > 0 {
      TellsOrder(p, meClient, i - 1,
                 if Phase(p, i - 1).Some? && Phase(p, i - 1).value.what.Message? then t[..|t| - 1] else t);
    }
  }

  predicate HasCcs(records: seq<Record>) {
    exists k :: 0 <= k < |records| && records[k].content.ChangeCipherSpec?
  }

  /** A record is under the new keys exactly if a ChangeCipherSpec came before. */
  predicate KeysFollowCcs(records: seq<Record>) {
    forall k :: 0 <= k < |records| ==> (records[k].encrypted <==> HasCcs(records[..k]))
  }

  function MessagesIn(records: seq<Record>): seq<Msg> {
    if records == [] then [] else
    MessagesIn(records[..|records| - 1]) +
    match records[|records| - 1].content case ChangeCipherSpec => [] case Handshake(m) => [m]
  }

  function From(t: seq<Msg>, fromClient: bool): seq<Msg> {
    if t == [] then [] else
    From(t[..|t| - 1], fromClient) + (if t[|t| - 1].fromClient == fromClient then [t[|t| - 1]] else [])
  }

  lemma KeysSnoc(records: seq<Record>)
    requires records != []
    ensures var front, last := records[..|records| - 1], records[|records| - 1];
            && (HasCcs(records) <==> HasCcs(front) || last.content.ChangeCipherSpec?)
            && (KeysFollowCcs(records) <==> KeysFollowCcs(front) && (last.encrypted <==> HasCcs(front)))
  {
    var front, last := records[..|records| - 1], records[|records| - 1];
    assert forall k :: 0 <= k < |front| ==> front[k] == records[k] && front[..k] == records[..k];
    if HasCcs(front) {
      var k :| 0 <= k < |front| && front[k].content.ChangeCipherSpec?;
      assert records[k].content.ChangeCipherSpec?;
    }
    if KeysFollowCcs(front) && (last.encrypted <==> HasCcs(front)) {
      forall k | 0 <= k < |records|
        ensures records[k].encrypted <==> HasCcs(records[..k])
      {
        if k < |front| {
          assert front[k].encrypted <==> HasCcs(front[..k]);
        }
      }
    }
    if KeysFollowCcs(records) {
      forall k | 0 <= k < |front|
        ensures front[k].encrypted <==> HasCcs(front[..k])
      {
        assert records[k].encrypted <==> HasCcs(records[..k]);
      }
    }
  }

  lemma {:induction false} FlowsKeys(p: Params, meClient: bool, fromClient: bool, i: nat, records: seq<Record>, t: seq<Msg>)
    requires Tells(p, meClient, i, t) && Flows(p, fromClient, i, records, t)
    ensures KeysFollowCcs(records) && MessagesIn(records) == From(t, fromClient)
    ensures HasCcs(records) <==> i > CcsPlace(p, fromClient)
  {
    hide Phase, KeysFollowCcs, HasCcs, Genuine;
    if i == 0 {
      assert KeysFollowCcs(records) && !HasCcs(records) by { NoKeys(records); }
    } else {
      CcsOnly(p, fromClient, i - 1);
      match Phase(p, i - 1)
      case None => FlowsKeys(p, meClient, fromClient, i - 1, records, t);
      case Some(e) =>
        var t' := if e.what.Message? then t[..|t| - 1] else t;
        if e.fromClient == fromClient {
          KeysSnoc(records);
          FlowsKeys(p, meClient, fromClient, i - 1, records[..|records| - 1], t');
        } else {
          FlowsKeys(p, meClient, fromClient, i - 1, records, t');
          assert From(t', fromClient) + [] == From(t', fromClient);
        }
    }
  }

  lemma NoKeys(records: seq<Record>)
    requires records == []
    ensures KeysFollowCcs(records) && !HasCcs(records)
  {
  }

  lemma CcsOnly(p: Params, fromClient: bool, j: nat)
    ensures Phase(p, j) == Some(Entry(fromClient, Ccs)) <==> j == CcsPlace(p, fromClient)
  {
  }

  /** Every proof of the transcript is for exactly the messages before it. */
  predicate Proven(crypto: Crypto, resumed: bool, t: seq<Msg>) {
    forall k :: 0 <= k < |t| ==>
      && (t[k].kind == Finished ==> t[k].body == crypto.mac(SecretOf(resumed, t[..k]), t[..k], t[k].fromClient))
      && (t[k].kind == CertificateVerify ==> t[k].body == crypto.sign(t[..k]))
      && (t[k].kind == ChannelId ==> t[k].body == crypto.signChannelId(t[..k]))
  }

  lemma TellsProven(p: Params, meClient: bool, i: nat, t: seq<Msg>)
    requires Tells(p, meClient, i, t)
    ensures Proven(p.crypto, p.resumed, t)
  {
    forall k | 0 <= k < |t|
      ensures Genuine(p, meClient, t[k], t[..k])
    {
      TellsGenuine(p, meClient, i, t, k);
    }
  }

  /** The records of an end: those it has read hold the peer's messages of its
      transcript and the one it looks at, those of its own its own messages, and
      both are under the new keys exactly behind a ChangeCipherSpec. */
  predicate InOrder(meClient: bool, c: Core, read: seq<Record>, sent: seq<Record>) {
    && MessagesIn(read) == From(c.transcript, !meClient) + (if c.buf.Some? then [c.buf.value] else [])
    && MessagesIn(sent + c.flight) == From(c.transcript, meClient)
    && KeysFollowCcs(sent + c.flight) && KeysFollowCcs(read)
  }

  lemma PlacedInOrder(p: Params, meClient: bool, i: nat, c: Core, read: seq<Record>, sent: seq<Record>)
    requires Placed(p, meClient, i, c, read, sent)
    requires c.buf.Some? ==> (c.readEnc <==> i > CcsPlace(p, !meClient))
    ensures InOrder(meClient, c, read, sent)
  {
    hide Tells, Flows, KeysFollowCcs, HasCcs;
    FlowsKeys(p, meClient, meClient, i, sent + c.flight, c.transcript);
    if c.buf.Some? {
      KeysSnoc(read);
      FlowsKeys(p, meClient, !meClient, i, read[..|read| - 1], c.transcript);
    } else {
      FlowsKeys(p, meClient, !meClient, i, read, c.transcript);
      assert From(c.transcript, !meClient) + [] == From(c.transcript, !meClient);
    }
  }

  /** Whatever records come to a client: while it has not failed, its transcript
      is the messages of the script up to its place, with those that the server
      may leave out exactly if they came; every Finished, signature and channel
      ID in it is for exactly the messages before it; and its records are in
      order and under the right keys. */
  lemma ClientAccepts(p: Params, inputs: seq<Input>)
    requires p.Valid() && !ClientRun(p, inputs).c.wait.Failed?
    ensures var o := ClientRun(p, inputs);
            var t := o.c.core.transcript;
            && HasOrder(t, Messages(Seen(p, t), ClientPhase(p, o.c))) && Proven(p.crypto, p.resumed, t)
            && (o.c.state == ClientDone ==> HasOrder(t, Messages(Seen(p, t), End(p))))
            && o.c.core.secret == SecretOf(p.resumed, t)
            && InOrder(true, o.c.core, o.read, o.sent)
  {
    hide Tells, Flows, InOrder, HasKind, Messages, HasOrder, Proven, KeysFollowCcs, ClientRun;
    ClientAlone(p, inputs);
    var o := ClientRun(p, inputs);
    var t := o.c.core.transcript;
    var q, i := Seen(p, t), ClientPhase(p, o.c);
    TellsOrder(q, true, i, t);
    TellsProven(q, true, i, t);
    PlacedInOrder(q, true, i, o.c.core, o.read, o.sent);
  }

  /** And to a server, whose script leaves nothing open. */
  lemma ServerAccepts(p: Params, inputs: seq<Input>)
    requires !ServerRun(p, inputs).s.wait.Failed?
    ensures var o := ServerRun(p, inputs);
            var t := o.s.core.transcript;
            && HasOrder(t, Messages(p, ServerPhase(p, o.s))) && Proven(p.crypto, p.resumed, t)
            && (o.s.state == ServerDone ==> HasOrder(t, Messages(p, End(p))))
            && o.s.core.secret == SecretOf(p.resumed, t)
            && InOrder(false, o.s.core, o.read, o.sent)
  {
    hide Tells, Flows, InOrder, Messages, HasOrder, Proven, KeysFollowCcs, ServerRun;
    ServerAlone(p, inputs);
    var o := ServerRun(p, inputs);
    var t, i := o.s.core.transcript, ServerPhase(p, o.s);
    TellsOrder(p, false, i, t);
    TellsProven(p, false, i, t);
    PlacedInOrder(p, false, i, o.s.core, o.read, o.sent);
  }

  /** A client goes on from the server's Finished exactly if that holds the proof
      for the client's own transcript; any other message is fatal. */
  lemma ClientChecksExactly(p: Params, inputs: seq<Input>, retry: bool)
    requires p.Valid() && ClientRun(p, inputs).c.state == ReadServerFinished
    requires ClientRun(p, inputs).c.wait == Ok && ClientRun(p, inputs).c.core.buf.Some?
    ensures var c := ClientRun(p, inputs).c;
            var m, t := c.core.buf.value, c.core.transcript;
            ClientStep(p, c, retry).wait ==
              if m.kind != Finished then Failed(UnexpectedMessage)
              else if m.body == p.crypto.mac(SecretOf(p.resumed, t), t, false) then Ok
              else Failed(DigestCheckFailed)
  {
    hide ClientRun, Placed, ClientOk;
    ClientAccepts(p, inputs);
  }

  /** The same for a server, which also checks the signature of a client that
      showed a certificate, and the channel ID. */
  lemma ServerChecksExactly(p: Params, inputs: seq<Input>, retry: bool)
    requires ServerRun(p, inputs).s.wait == Ok && ServerRun(p, inputs).s.core.buf.Some?
    ensures var s := ServerRun(p, inputs).s;
            var m, t := s.core.buf.value, s.core.transcript;
            var next := ServerStep(p, s, retry);
            && (s.state == ReadClientFinished ==>
                  next.wait == if m.kind != Finished then Failed(UnexpectedMessage)
                               else if m.body == p.crypto.mac(SecretOf(p.resumed, t), t, true) then Ok
                               else Failed(DigestCheckFailed))
            && (s.state == ReadClientCertificateVerify ==>
                  p.certRequest && p.clientHasCert &&
                  next.wait == if m.kind != CertificateVerify then Failed(UnexpectedMessage)
                               else if m.body == p.crypto.sign(t) then Ok else Failed(BadSignature))
            && (s.state == ReadChannelId ==>
                  p.channelId &&
                  next.wait == if m.kind != ChannelId then Failed(UnexpectedMessage)
                               else if m.body == p.crypto.signChannelId(t) then Ok else Failed(BadSignature))
  {
    hide ServerRun, Placed, HasOrder, Messages, Proven, InOrder, Accept;
    ServerAccepts(p, inputs);
    ServerAlone(p, inputs);
  }

  /** Distinct secrets, transcripts or senders have distinct proofs. */
  ghost predicate Binds(crypto: Crypto) {
    forall s, t, d, s', t', d' :: crypto.mac(s, t, d) == crypto.mac(s', t', d') ==> s == s' && t == t' && d == d'
  }

  /** One Finished in two transcripts is in one place, behind the same messages. */
  lemma {:induction false} SameBefore(crypto: Crypto, ours: bool, theirs: bool, a: seq<Msg>, b: seq<Msg>,
                                      k: nat, j: nat)
    requires Binds(crypto) && Proven(crypto, ours, a) && Proven(crypto, theirs, b)
    requires k < |a| && j < |b| && a[k] == b[j] && a[k].kind == Finished
    ensures k == j && a[..k] == b[..j] && SecretOf(ours, a[..k]) == SecretOf(theirs, b[..j])
    ensures k == |a| - 1 && j == |b| - 1 ==> a == b && SecretOf(ours, a) == SecretOf(theirs, b)
  {
    assert a[k].body == crypto.mac(SecretOf(ours, a[..k]), a[..k], a[k].fromClient);
    assert b[j].body == crypto.mac(SecretOf(theirs, b[..j]), b[..j], b[j].fromClient);
    assert |a[..k]| == |b[..j]|;
    if k == |a| - 1 && j == |b| - 1 {
      assert a == a[..k] + [a[k]] && b == b[..j] + [b[j]];
    }
  }

  /** What Finished is for.  Two ends run with any records coming to either, and
      each in its own idea of the parameters.  If one has accepted the Finished
      that the other has made, then both have seen the same messages before it;
      and if that was the last message of both, all of the handshake is the same. */
  lemma {:induction false} FinishedBinds(p: Params, q: Params, clientInputs: seq<Input>, serverInputs: seq<Input>,
                                         k: nat, j: nat)
    requires p.Valid() && p.crypto == q.crypto && Binds(p.crypto)
    requires !ClientRun(p, clientInputs).c.wait.Failed? && !ServerRun(q, serverInputs).s.wait.Failed?
    requires k < |ClientRun(p, clientInputs).c.core.transcript| && j < |ServerRun(q, serverInputs).s.core.transcript|
    requires ClientRun(p, clientInputs).c.core.transcript[k] == ServerRun(q, serverInputs).s.core.transcript[j]
    requires ClientRun(p, clientInputs).c.core.transcript[k].kind == Finished
    ensures var a, b := ClientRun(p, clientInputs).c.core, ServerRun(q, serverInputs).s.core;
            && k == j && a.transcript[..k] == b.transcript[..j]
            && SecretOf(p.resumed, a.transcript[..k]) == SecretOf(q.resumed, b.transcript[..j])
            && (k == |a.transcript| - 1 && j == |b.transcript| - 1 ==>
                  a.transcript == b.transcript && a.secret == b.secret)
  {
    hide *;
    ClientAccepts(p, clientInputs);
    ServerAccepts(q, serverInputs);
    SameBefore(p.crypto, p.resumed, q.resumed, ClientRun(p, clientInputs).c.core.transcript,
               ServerRun(q, serverInputs).s.core.transcript, k, j);
  }

  // ----- Waiting for the outside ------------------------------------------

  /** Where the client needs an answer from outside: on the server's certificate,
      for its own, for its signature, or for the channel ID's. */
  predicate ClientAsksOutside(p: Params, c: Client) {
    || (c.state == VerifyServerCertificate && p.certAuth) || (c.state == SendClientCertificate && c.certRequest)
    || (c.state == SendClientCertificateVerify && c.certRequest && p.clientHasCert)
    || (c.state == SendClientFinished && p.channelId)
  }

  /** The server, once it has the message that it needs: on the hello, for the
      choice of a certificate and of the parameters, for its signature, on the
      client's certificate, or for the decryption of the secret. */
  predicate ServerAsksOutside(p: Params, s: Server) {
    || (s.state == ReadClientHello && s.core.buf.Some? && s.core.buf.value.kind == ClientHello)
    || (s.state in {SelectCertificate, SelectParameters} && s.core.buf.Some?)
    || (s.state == SendServerKeyExchange && p.SendsKeyExchange() && p.certAuth)
    || (s.state == VerifyClientCertificate && s.peerCert)
    || (s.state == ReadClientKeyExchange && p.kx == Rsa && s.core.buf.Some? && s.core.buf.value.kind == ClientKeyExchange)
  }

  /** As long as an answer from outside is not there the client pauses where it
      stands, and nothing else depends on it.  It pauses besides only to hand
      back early, with False Start. */
  lemma {:induction false} ClientPausesExactly(p: Params, c: Client)
    requires c.wait == Ok
    ensures ClientAsksOutside(p, c) ==> ClientStep(p, c, true) == c.(wait := Paused)
    ensures !ClientAsksOutside(p, c) ==> ClientStep(p, c, true) == ClientStep(p, c, false)
    ensures ClientStep(p, c, false).wait == Paused <==> c.state == FinishFlight && !p.resumed && p.falseStart
  {
    hide Emit, EmitIf, EmitCcs, Accept, BodyOf;
  }

  lemma {:induction false} ServerPausesExactly(p: Params, s: Server)
    requires s.wait == Ok
    ensures ServerAsksOutside(p, s) ==> ServerStep(p, s, true) == s.(wait := Paused)
    ensures !ServerAsksOutside(p, s) ==> ServerStep(p, s, true) == ServerStep(p, s, false)
    ensures ServerStep(p, s, false).wait != Paused
  {
    hide Emit, EmitIf, EmitCcs, Accept, BodyOf;
  }

  /** No end changes its read keys while it looks at a message. */
  lemma {:induction false} KeysBetweenMessages(p: Params, c: Client, s: Server, retry: bool)
    requires c.wait == Ok && s.wait == Ok
    ensures ClientStep(p, c, retry).core.readEnc != c.core.readEnc ==> c.core.buf.None? && c.state == ProcessServerCcs
    ensures ServerStep(p, s, retry).core.readEnc != s.core.readEnc ==> s.core.buf.None? && s.state == ProcessClientCcs
    ensures c.state == ProcessServerCcs && c.core.buf.Some? ==> ClientStep(p, c, retry).wait == Failed(BufferedMessages)
    ensures s.state == ProcessClientCcs && s.core.buf.Some? ==> ServerStep(p, s, retry).wait == Failed(BufferedMessages)
  {
    if c.state != ProcessServerCcs { ClientReadKeys(p, c, retry); }
    if s.state != ProcessClientCcs { ServerReadKeys(p, s, retry); }
  }

  lemma {:induction false} ClientReadKeys(p: Params, c: Client, retry: bool)
    requires c.state != ProcessServerCcs
    ensures ClientStep(p, c, retry).core.readEnc == c.core.readEnc
  {
    hide BodyOf;
  }

  lemma {:induction false} ServerReadKeys(p: Params, s: Server, retry: bool)
    requires s.state != ProcessClientCcs
    ensures ServerStep(p, s, retry).core.readEnc == s.core.readEnc
  {
    hide BodyOf;
  }
}
