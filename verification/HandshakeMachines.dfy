/** The client and server state machines of TLS 1.0 to 1.2, one step at a time,
    and how a wait is resolved. */
module HandshakeMachines {
  import opened Bytes
  import opened HandshakeScript

  datatype ErrorCode =
    | UnexpectedMessage | DigestCheckFailed | BadSignature | BufferedMessages
    | UnexpectedRecord | BadRecordMac | InternalError

  /** What the machine waits for. */
  datatype Wait = Ok | ReadMessage | ReadChangeCipherSpec | FlushFlight | Paused | Failed(code: ErrorCode)

  /** What both ends keep: the message being looked at, the flight not yet
      written, the transcript, the secret, and the keys in use. */
  datatype Core = Core(buf: Option<Msg>, flight: seq<Record>, transcript: seq<Msg>, secret: Secret,
                       readEnc: bool, writeEnc: bool)

  function StartCore(p: Params): Core {
    Core(None, [], [], if p.resumed then OfSession else NoSecret, false, false)
  }

  /** Adds a message to the transcript; the ClientKeyExchange fixes the secret. */
  function Hash(c: Core, m: Msg): Core {
    c.(transcript := c.transcript + [m], secret := SecretAfter(m, c.transcript, c.secret))
  }

  function Emit(p: Params, c: Core, fromClient: bool, kind: Kind): Core {
    var m := Msg(kind, fromClient, BodyOf(p, kind, fromClient, c.transcript, c.secret));
    Hash(c.(flight := c.flight + [Record(Handshake(m), c.writeEnc)]), m)
  }

  function EmitCcs(c: Core): Core {
    c.(flight := c.flight + [Record(ChangeCipherSpec, c.writeEnc)], writeEnc := true)
  }

  function EmitIf(b: bool, p: Params, c: Core, fromClient: bool, kind: Kind): Core {
    if b then Emit(p, c, fromClient, kind) else c
  }

  /** Hashes the message being looked at and drops it. */
  function Accept(c: Core): Core
    requires c.buf.Some?
  {
    Hash(c.(buf := None), c.buf.value)
  }

  /** What becomes of a read: nothing there yet, a wrong message, or the right
      one, and the core after it. */
  datatype ReadResult = NeedMessage | Wrong(code: ErrorCode, left: Core) | Got(core: Core)

  function Read(c: Core, kind: Kind): ReadResult {
    if c.buf.None? then NeedMessage
    else if c.buf.value.kind != kind then Wrong(UnexpectedMessage, c)
    else Got(Accept(c))
  }

  /** A message whose body has to match what this end computes before it hashes
      the message: Finished, CertificateVerify, the channel ID.  A Finished is
      hashed before the two are compared. */
  function ReadChecked(p: Params, c: Core, fromClient: bool, kind: Kind): ReadResult {
    if c.buf.None? then NeedMessage
    else if c.buf.value.kind != kind then Wrong(UnexpectedMessage, c)
    else if c.buf.value.body != BodyOf(p, kind, fromClient, c.transcript, c.secret) then
      if kind == Finished then Wrong(DigestCheckFailed, Hash(c, c.buf.value)) else Wrong(BadSignature, c)
    else Got(Accept(c))
  }

  // ----- The client -------------------------------------------------------

  datatype ClientState =
    | StartConnect | EnterEarlyData | ReadServerHello
    | ReadServerCertificate | ReadCertificateStatus | VerifyServerCertificate | ReadServerKeyExchange
    | ReadCertificateRequest | ReadServerHelloDone
    | SendClientCertificate | SendClientKeyExchange | SendClientCertificateVerify | SendClientFinished | FinishFlight
    | ReadSessionTicket | ProcessServerCcs | ReadServerFinished | FinishClient | ClientDone

  datatype Client = Client(state: ClientState, wait: Wait, core: Core, certRequest: bool)

  function ClientRead(c: Client, r: ReadResult, next: ClientState, wait: Wait): Client {
    match r
    case NeedMessage => c.(wait := ReadMessage)
    case Wrong(code, left) => c.(core := left, wait := Failed(code))
    case Got(core) => c.(core := core, state := next, wait := wait)
  }

  /** One step.  `retry` is the answer of a callback or key operation that is
      not ready, where a step has one. */
  function ClientStep(p: Params, c: Client, retry: bool): Client {
    match c.state
    case StartConnect => c.(core := Emit(p, c.core, true, ClientHello), state := EnterEarlyData, wait := FlushFlight)
    case EnterEarlyData => c.(state := ReadServerHello)
    case ReadServerHello =>
      ClientRead(c, Read(c.core, ServerHello), if p.resumed then ReadSessionTicket else ReadServerCertificate, Ok)
    case ReadServerCertificate =>
      if !p.certAuth then c.(state := ReadCertificateStatus)
      else ClientRead(c, Read(c.core, Certificate), ReadCertificateStatus, Ok)
    case ReadCertificateStatus =>
      if !p.statusExpected || (c.core.buf.Some? && c.core.buf.value.kind != CertificateStatus)
      then c.(state := VerifyServerCertificate)
      else ClientRead(c, Read(c.core, CertificateStatus), VerifyServerCertificate, Ok)
    case VerifyServerCertificate =>
      if p.certAuth && retry then c.(wait := Paused) else c.(state := ReadServerKeyExchange)
    case ReadServerKeyExchange =>
      if c.core.buf.Some? && c.core.buf.value.kind != ServerKeyExchange then
        if p.kx == Ecdhe then c.(wait := Failed(UnexpectedMessage)) else c.(state := ReadCertificateRequest)
      else if c.core.buf.Some? && p.kx == Rsa then c.(wait := Failed(UnexpectedMessage))
      else ClientRead(c, Read(c.core, ServerKeyExchange), ReadCertificateRequest, Ok)
    case ReadCertificateRequest =>
      if !p.certAuth || (c.core.buf.Some? && c.core.buf.value.kind == ServerHelloDone)
      then c.(state := ReadServerHelloDone)
      else
        var next := ClientRead(c, Read(c.core, CertificateRequest), ReadServerHelloDone, Ok);
        next.(certRequest := c.certRequest || next.state == ReadServerHelloDone)
    case ReadServerHelloDone => ClientRead(c, Read(c.core, ServerHelloDone), SendClientCertificate, Ok)
    case SendClientCertificate =>
      if c.certRequest && retry then c.(wait := Paused)
      else c.(core := EmitIf(c.certRequest, p, c.core, true, Certificate), state := SendClientKeyExchange)
    case SendClientKeyExchange =>
      c.(core := Emit(p, c.core, true, ClientKeyExchange), state := SendClientCertificateVerify)
    case SendClientCertificateVerify =>
      if !c.certRequest || !p.clientHasCert then c.(state := SendClientFinished)
      else if retry then c.(wait := Paused)
      else c.(core := Emit(p, c.core, true, CertificateVerify), state := SendClientFinished)
    case SendClientFinished =>
      if p.channelId && retry then c.(wait := Paused)
      else
        var c1 := EmitIf(p.nextProto, p, EmitCcs(c.core), true, NextProto);
        var c2 := EmitIf(p.channelId, p, c1, true, ChannelId);
        c.(core := Emit(p, c2, true, Finished), state := FinishFlight, wait := FlushFlight)
    case FinishFlight =>
      if p.resumed then c.(state := FinishClient)
      else c.(state := ReadSessionTicket, wait := if p.falseStart then Paused else Ok)
    case ReadSessionTicket =>
      if !p.ticket then c.(state := ProcessServerCcs, wait := ReadChangeCipherSpec)
      else ClientRead(c, Read(c.core, NewSessionTicket), ProcessServerCcs, ReadChangeCipherSpec)
    case ProcessServerCcs =>
      if c.core.buf.Some? then c.(wait := Failed(BufferedMessages))
      else c.(core := c.core.(readEnc := true), state := ReadServerFinished)
    case ReadServerFinished =>
      ClientRead(c, ReadChecked(p, c.core, false, Finished), if p.resumed then SendClientFinished else FinishClient, Ok)
    case FinishClient => c.(state := ClientDone)
    case ClientDone => c
  }

  // ----- The server -------------------------------------------------------

  datatype ServerState =
    | StartAccept | ReadClientHello | SelectCertificate | SelectParameters
    | SendServerHello | SendServerCertificate | SendServerKeyExchange | SendServerHelloDone
    | ReadClientCertificate | VerifyClientCertificate | ReadClientKeyExchange | ReadClientCertificateVerify
    | ReadClientCcs | ProcessClientCcs | ReadNextProto | ReadChannelId | ReadClientFinished
    | SendServerFinished | FinishServer | ServerDone

  /** `peerCert` says that the client's Certificate held one. */
  datatype Server = Server(state: ServerState, wait: Wait, core: Core, peerCert: bool)

  function ServerRead(s: Server, r: ReadResult, next: ServerState): Server {
    match r
    case NeedMessage => s.(wait := ReadMessage)
    case Wrong(code, left) => s.(core := left, wait := Failed(code))
    case Got(core) => s.(core := core, state := next)
  }

  /** The server asks for a certificate in full handshakes only. */
  predicate Asks(p: Params) { p.certRequest && !p.resumed }

  function ServerStep(p: Params, s: Server, retry: bool): Server {
    match s.state
    case StartAccept => s.(state := ReadClientHello)
    case ReadClientHello =>
      if s.core.buf.None? then s.(wait := ReadMessage)
      else if s.core.buf.value.kind != ClientHello then s.(wait := Failed(UnexpectedMessage))
      else if retry then s.(wait := Paused)
      else s.(state := SelectCertificate)
    case SelectCertificate =>
      if s.core.buf.None? then s.(wait := ReadMessage)
      else if retry then s.(wait := Paused)
      else s.(state := SelectParameters)
    case SelectParameters =>
      if s.core.buf.None? then s.(wait := ReadMessage)
      else if retry then s.(wait := Paused)
      else s.(core := Accept(s.core), state := SendServerHello)
    case SendServerHello =>
      s.(core := Emit(p, s.core, false, ServerHello),
         state := if p.resumed then SendServerFinished else SendServerCertificate)
    case SendServerCertificate =>
      var c1 := EmitIf(p.certAuth, p, s.core, false, Certificate);
      s.(core := EmitIf(p.statusSent, p, c1, false, CertificateStatus), state := SendServerKeyExchange)
    case SendServerKeyExchange =>
      if !p.SendsKeyExchange() then s.(state := SendServerHelloDone)
      else if p.certAuth && retry then s.(wait := Paused)
      else s.(core := Emit(p, s.core, false, ServerKeyExchange), state := SendServerHelloDone)
    case SendServerHelloDone =>
      var c1 := EmitIf(Asks(p), p, s.core, false, CertificateRequest);
      s.(core := Emit(p, c1, false, ServerHelloDone), state := ReadClientCertificate, wait := FlushFlight)
    case ReadClientCertificate =>
      if !Asks(p) then s.(state := VerifyClientCertificate)
      else
        var next := ServerRead(s, Read(s.core, Certificate), VerifyClientCertificate);
        next.(peerCert := if next.state == VerifyClientCertificate then p.clientHasCert else s.peerCert)
    case VerifyClientCertificate =>
      if s.peerCert && retry then s.(wait := Paused) else s.(state := ReadClientKeyExchange)
    case ReadClientKeyExchange =>
      if s.core.buf.Some? && s.core.buf.value.kind == ClientKeyExchange && p.kx == Rsa && retry then s.(wait := Paused)
      else ServerRead(s, Read(s.core, ClientKeyExchange), ReadClientCertificateVerify)
    case ReadClientCertificateVerify =>
      if !s.peerCert then s.(state := ReadClientCcs)
      else ServerRead(s, ReadChecked(p, s.core, true, CertificateVerify), ReadClientCcs)
    case ReadClientCcs => s.(state := ProcessClientCcs, wait := ReadChangeCipherSpec)
    case ProcessClientCcs =>
      if s.core.buf.Some? then s.(wait := Failed(BufferedMessages))
      else s.(core := s.core.(readEnc := true), state := ReadNextProto)
    case ReadNextProto =>
      if !p.nextProto then s.(state := ReadChannelId)
      else ServerRead(s, Read(s.core, NextProto), ReadChannelId)
    case ReadChannelId =>
      if !p.channelId then s.(state := ReadClientFinished)
      else ServerRead(s, ReadChecked(p, s.core, true, ChannelId), ReadClientFinished)
    case ReadClientFinished =>
      ServerRead(s, ReadChecked(p, s.core, true, Finished), if p.resumed then FinishServer else SendServerFinished)
    case SendServerFinished =>
      var c1 := EmitIf(p.ticket, p, s.core, false, NewSessionTicket);
      s.(core := Emit(p, EmitCcs(c1), false, Finished),
         state := if p.resumed then ReadClientCcs else FinishServer, wait := FlushFlight)
    case FinishServer => s.(state := ServerDone)
    case ServerDone => s
  }

  // ----- Resolving a wait -------------------------------------------------

  datatype Delivery = Refused(code: ErrorCode) | Delivered(core: Core)

  /** A record for an end that waits for one. */
  function Deliver(wait: Wait, c: Core, r: Record): Delivery {
    if c.buf.Some? then Refused(InternalError)
    else if r.encrypted != c.readEnc then Refused(BadRecordMac)
    else match r.content
      case Handshake(m) =>
        if wait == ReadChangeCipherSpec then Refused(UnexpectedRecord) else Delivered(c.(buf := Some(m)))
      case ChangeCipherSpec =>
        if wait == ReadChangeCipherSpec then Delivered(c) else Refused(UnexpectedRecord)
  }

  /** What the world does to an end: runs its machine, lets the transport take
      some records of the flight, hands it a record, or resumes a pause. */
  datatype Event = Run(retry: bool) | Flush(n: nat) | Arrive | Resume

  function WaitAfter(d: Delivery): Wait {
    match d case Refused(code) => Failed(code) case Delivered(_) => Ok
  }

  function Taken(c: Core, n: nat): nat { if n < |c.flight| then n else |c.flight| }

  function Remaining(c: Core, n: nat): Core { c.(flight := c.flight[Taken(c, n)..]) }

  function CoreAfter(d: Delivery, c: Core): Core {
    match d case Refused(_) => c case Delivered(core) => core
  }
}
