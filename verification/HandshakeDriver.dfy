/** The handshake in memory: what both ends keep and update. */
module HandshakeDriver {
  import opened Bytes
  import opened HandshakeScript
  import opened HandshakeMachines
  import opened HandshakeProduct
  import opened HandshakeRuns

  /** What the handshake keeps on either side. */
  class Handshake {
    const p: Params
    const isClient: bool
    var message: Option<Msg>
    var pendingFlight: seq<Record>
    var transcript: seq<Msg>
    var secret: Secret
    var readEncrypted: bool
    var writeEncrypted: bool

    function View(): Core
      reads this
    {
      Core(message, pendingFlight, transcript, secret, readEncrypted, writeEncrypted)
    }

    constructor (p: Params, isClient: bool)
      ensures View() == StartCore(p) && this.p == p && this.isClient == isClient
    {
      this.p, this.isClient := p, isClient;
      message, pendingFlight, transcript := None, [], [];
      secret := if p.resumed then OfSession else NoSecret;
      readEncrypted, writeEncrypted := false, false;
    }

    method HashMessage(m: Msg)
      modifies this`transcript, this`secret
      ensures View() == Hash(old(View()), m)
    {
      if m.kind == ClientKeyExchange {
        secret := Derived(transcript + [m]);
      }
      transcript := transcript + [m];
    }

    method AddMessage(kind: Kind)
      modifies this
      ensures View() == Emit(p, old(View()), isClient, kind)
    {
      hide BodyOf;
      var m := Msg(kind, isClient, BodyOf(p, kind, isClient, transcript, secret));
      pendingFlight := pendingFlight + [Record(HandshakeScript.Content.Handshake(m), writeEncrypted)];
      HashMessage(m);
    }

    /** The record itself is still under the old keys. */
    method AddChangeCipherSpec()
      modifies this
      ensures View() == EmitCcs(old(View()))
    {
      pendingFlight := pendingFlight + [Record(ChangeCipherSpec, writeEncrypted)];
      writeEncrypted := true;
    }

    /** Hashes the message and moves on to the next. */
    method TakeMessage()
      requires message.Some?
      modifies this
      ensures View() == Accept(old(View()))
    {
      var m := message.value;
      message := None;
      HashMessage(m);
    }

    method ReadKind(kind: Kind) returns (wait: Wait)
      modifies this
      ensures match Read(old(View()), kind)
              case NeedMessage => wait == ReadMessage && View() == old(View())
              case Wrong(code, left) => wait == Failed(code) && View() == left
              case Got(core) => wait == Ok && View() == core
    {
      hide HandshakeMachines.Accept;
      if message.None? {
        return ReadMessage;
      }
      if message.value.kind != kind {
        return Failed(UnexpectedMessage);
      }
      TakeMessage();
      wait := Ok;
    }

    /** The expected body is computed before the message is hashed. */
    method ReadAndCheck(kind: Kind) returns (wait: Wait)
      modifies this
      ensures match ReadChecked(p, old(View()), !isClient, kind)
              case NeedMessage => wait == ReadMessage && View() == old(View())
              case Wrong(code, left) => wait == Failed(code) && View() == left
              case Got(core) => wait == Ok && View() == core
    {
      hide HandshakeMachines.Accept, BodyOf;
      if message.None? {
        return ReadMessage;
      }
      if message.value.kind != kind {
        return Failed(UnexpectedMessage);
      }
      var expected := BodyOf(p, kind, !isClient, transcript, secret);
      if message.value.body != expected {
        if kind == Finished {
          HashMessage(message.value);
          return Failed(DigestCheckFailed);
        }
        return Failed(BadSignature);
      }
      TakeMessage();
      wait := Ok;
    }

    /** Keys for reading change only between messages. */
    method ChangeReadKeys() returns (ok: bool)
      modifies this`readEncrypted
      ensures ok <==> message.None?
      ensures View() == if ok then old(View()).(readEnc := true) else old(View())
    {
      if message.Some? {
        return false;
      }
      readEncrypted := true;
      ok := true;
    }
  }

  datatype Outcome = Completed | CallAgain | Fatal

  /** Why the caller is to call again: there is no more input, the transport
      left some of the flight, or a pause has just been resumed. */
  ghost predicate Stuck(wait: Wait, noInput: bool, atClient: bool, takes: nat -> nat, did: seq<Happening>) {
    match wait
    case ReadMessage | ReadChangeCipherSpec => noInput
    case FlushFlight =>
      did != [] && exists k: nat :: did[|did| - 1] == Happening(atClient, Flush(takes(k)))
    case Ok => did != [] && did[|did| - 1] == Happening(atClient, Resume)
    case _ => false
  }

  function WaitOrder(w: Wait): nat {
    match w
    case Ok => 5
    case FlushFlight => 4
    case ReadMessage | ReadChangeCipherSpec => 3
    case _ => 1
  }

  lemma DeliverChanges(wait: Wait, c: Core, r: Record)
    ensures var core := CoreAfter(Deliver(wait, c, r), c); core == c.(buf := core.buf)
  {
  }

  lemma RunAllSnoc(p: Params, sys: System, a: seq<Happening>, h: Happening)
    ensures RunAll(p, sys, a + [h]) == HandshakeRuns.Step(p, RunAll(p, sys, a), h)
  {
    hide HandshakeRuns.Step;
    RunAllJoins(p, sys, a, [h]);
    var last := RunAll(p, sys, a);
    assert RunAll(p, last, [h]) == RunAll(p, HandshakeRuns.Step(p, last, h), [h][1..]);
  }

  lemma NothingHappened(p: Params, sys: System)
    ensures RunAll(p, sys, []) == sys
  {
  }

  lemma Snoc(p: Params, sys: System, a: seq<Happening>, h: Happening) returns (b: seq<Happening>)
    ensures b == a + [h] && RunAll(p, sys, b) == HandshakeRuns.Step(p, RunAll(p, sys, a), h)
  {
    b := a + [h];
    RunAllSnoc(p, sys, a, h);
  }
}
