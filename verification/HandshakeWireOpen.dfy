/** One end of the handshake over real records, whatever bytes come to it. */
module HandshakeWireOpen {
  import opened Bytes
  import opened HandshakeScript
  import opened HandshakeMachines
  import opened HandshakeProduct
  import opened HandshakeRecords
  import opened HandshakeFollows
  import opened HandshakeOpen
  import R = TlsRead

  /** What an end does, or a record that is put on the wire to it. */
  datatype WireInput = Do(a: Act) | Bring(x: Piece)

  /** An end, the records it has taken off the wire, and those it has put there. */
  datatype OpenWire = OpenWire(w: Wired, got: seq<Piece>, gone: seq<Piece>)

  function WireMeets(p: Params, codec: Codec, maxLen: nat, o: OpenWire, input: WireInput): OpenWire {
    match input
    case Bring(x) => o.(w := o.w.(incoming := o.w.incoming + [x]))
    case Do(a) =>
      var (w, sent) := ActWired(p, codec, maxLen, o.w, a);
      OpenWire(w, if |w.incoming| < |o.w.incoming| then o.got + [o.w.incoming[0]] else o.got, o.gone + sent)
  }

  function WireRun(p: Params, codec: Codec, maxLen: nat, n: Node, inputs: seq<WireInput>): OpenWire {
    if inputs == [] then OpenWire(Wired(n, R.Reader(None, false), [], []), [], [])
    else WireMeets(p, codec, maxLen, WireRun(p, codec, maxLen, n, inputs[..|inputs| - 1]), inputs[|inputs| - 1])
  }

  /** Any message can be read and written again as it was, and what this end
      reads is its peer's. */
  ghost predicate Faithful(codec: Codec, meClient: bool) {
    forall raw :: R.IsFrame(raw) ==> codec.encode(codec.decode(raw)) == raw && codec.decode(raw).fromClient != meClient
  }

  // ----- Where an end is --------------------------------------------------

  ghost predicate NodeAt(p: Params, n: Node, read: seq<Record>, sent: seq<Record>) {
    match n
    case ClientNode(c) => ClientPlaced(p, OpenClient(c, read, sent))
    case ServerNode(s) => ServerOk(p, s) && Placed(p, false, ServerPhase(p, s), s.core, read, sent)
  }

  predicate LooksRight(n: Node) { n.ServerNode? ==> LooksAtHello(n.s) }

  predicate Reads(p: Params, n: Node) {
    match n case ClientNode(c) => ClientReads(p, c.state) case ServerNode(s) => ServerReads(p, s.state)
  }

  predicate HelloSeen(n: Node) { n.ServerNode? && n.s.state in {SelectCertificate, SelectParameters} }

  lemma NodeStepAt(p: Params, n: Node, read: seq<Record>, sent: seq<Record>, retry: bool)
    requires p.Valid() && NodeAt(p, n, read, sent) && LooksRight(n) && n.Wait() == Ok
    ensures var next := NodeStep(p, n, retry);
            next.Wait().Failed? || (NodeAt(p, next, read, sent) && LooksRight(next))
  {
    hide Placed, ClientStep, ServerStep, ClientPlaced;
    match n
    case ClientNode(c) => ClientStepPlaced(p, OpenClient(c, read, sent), retry);
    case ServerNode(s) => ServerStepPlaced(p, OpenServer(s, read, sent), retry);
  }

  /** An end that reads looks at a message. */
  lemma LookAt(p: Params, n: Node, read: seq<Record>, sent: seq<Record>, m: Msg)
    requires NodeAt(p, n, read, sent) && n.Wait() == Ok && n.Core().buf.None? && Reads(p, n)
    requires m.fromClient != n.ClientNode? && (HelloSeen(n) ==> m.kind == ClientHello)
    requires n.ServerNode? && n.s.state == ReadClientCertificateVerify ==> n.s.peerCert
    ensures var n' := n.With(Ok, n.Core().(buf := Some(m)));
            NodeAt(p, n', read + [Record(Handshake(m), n.Core().readEnc)], sent) && LooksRight(n')
  {
    hide Placed, HasKind;
    match n
    case ClientNode(c) =>
      LookPlaced(Seen(p, c.core.transcript), true, ClientPhase(p, c), c.core, read, sent, m);
    case ServerNode(s) => LookPlaced(p, false, ServerPhase(p, s), s.core, read, sent, m);
  }

  lemma UnlookPlaced(p: Params, meClient: bool, i: nat, c: Core, read: seq<Record>, sent: seq<Record>)
    requires Placed(p, meClient, i, c, read, sent) && c.buf.Some?
    ensures Placed(p, meClient, i, c.(buf := None), read[..|read| - 1], sent)
  {
  }

  /** Or leaves it where it is. */
  lemma LookAway(p: Params, n: Node, read: seq<Record>, sent: seq<Record>)
    requires NodeAt(p, n, read, sent) && n.Core().buf.Some? && n.Wait() != ReadMessage && read != []
    ensures NodeAt(p, n.With(n.Wait(), n.Core().(buf := None)), read[..|read| - 1], sent)
  {
    hide Placed, HasKind;
    match n
    case ClientNode(c) => UnlookPlaced(Seen(p, c.core.transcript), true, ClientPhase(p, c), c.core, read, sent);
    case ServerNode(s) => UnlookPlaced(p, false, ServerPhase(p, s), s.core, read, sent);
  }

  /** An end that is not waiting for anything in particular may be resumed, or
      has written its flight. */
  lemma GoOn(p: Params, n: Node, read: seq<Record>, sent: seq<Record>)
    requires NodeAt(p, n, read, sent) && (n.Wait() == Paused || n.Wait() == FlushFlight || n.Wait() == ReadMessage)
    requires n.Wait() == FlushFlight ==> n.Core().flight == []
    ensures NodeAt(p, n.With(Ok, n.Core()), read, sent)
  {
    hide Placed, HasKind;
  }

  /** A ChangeCipherSpec that is waited for. */
  lemma GetCcs(p: Params, n: Node, read: seq<Record>, sent: seq<Record>)
    requires NodeAt(p, n, read, sent) && n.Wait() == ReadChangeCipherSpec && n.Core().buf.None?
    ensures NodeAt(p, n.With(Ok, n.Core()), read + [Record(ChangeCipherSpec, n.Core().readEnc)], sent) && n.InCcs()
  {
    hide Placed, HasKind;
    match n
    case ClientNode(c) => CcsPlaced(Seen(p, c.core.transcript), true, ClientPhase(p, c), c.core, read, sent);
    case ServerNode(s) => CcsPlaced(p, false, ServerPhase(p, s), s.core, read, sent);
  }

  lemma CutPlaced(p: Params, meClient: bool, i: nat, c: Core, read: seq<Record>, sent: seq<Record>)
    requires Placed(p, meClient, i, c, read, sent)
    ensures Placed(p, meClient, i, c.(flight := []), read, sent + c.flight)
  {
    assert (sent + c.flight) + [] == sent + c.flight;
  }

  lemma CutAt(p: Params, n: Node, read: seq<Record>, sent: seq<Record>)
    requires NodeAt(p, n, read, sent) && n.Wait() == FlushFlight
    ensures NodeAt(p, n.With(FlushFlight, n.Core().(flight := [])), read, sent + n.Core().flight)
  {
    hide Placed, HasKind;
    match n
    case ClientNode(c) => CutPlaced(Seen(p, c.core.transcript), true, ClientPhase(p, c), c.core, read, sent);
    case ServerNode(s) => CutPlaced(p, false, ServerPhase(p, s), s.core, read, sent);
  }

  // ----- What every act keeps ---------------------------------------------

  /** The ChangeCipherSpec came in the middle of a message: the next step fails. */
  predicate Stuck(w: Wired) { w.node.InCcs() && w.node.Wait() == Ok && R.HasUnprocessed(w.hs) }

  /** The end stands where its messages put it; what it has put on the wire are
      the records sent; and what it has taken off are the records read, byte for
      byte and under the keys of their time, and then its buffer. */
  ghost predicate WireInv(p: Params, codec: Codec, o: OpenWire, read: seq<Record>, sent: seq<Record>) {
    (o.w.node.Wait() == FlushFlight ==> o.w.node.Core().flight == []) && AtPlace(p, codec, o, read, sent)
  }

  ghost predicate AtPlace(p: Params, codec: Codec, o: OpenWire, read: seq<Record>, sent: seq<Record>) {
    var n, hs := o.w.node, o.w.hs;
    && !n.Wait().Failed? && n.Core().buf.None? && !hs.hasMessage && NodeAt(p, n, read, sent)
    && (HelloSeen(n) ==> Look(codec, hs).Some? && Look(codec, hs).value.kind == ClientHello)
    && Flat(o.gone + o.w.out) == Items(codec, sent)
    && (Stuck(o.w) || Flat(o.got) == Items(codec, read) + Tagged(hs.Bytes(), n.Core().readEnc))
  }

  ghost predicate Kept(p: Params, codec: Codec, o: OpenWire, read: seq<Record>, sent: seq<Record>) {
    o.w.node.Wait().Failed? || WireInv(p, codec, o, read, sent)
  }

  lemma NodeFacts(p: Params, n: Node, retry: bool)
    requires n.Wait() == Ok
    ensures var next := NodeStep(p, n, retry);
            && KeepsOrTakes(n.Core(), next.Core(), n.InCcs())
            && WaitsRight(n.Core().buf.Some? || n.InCcs(), next.InCcs(), next.Wait())
            && (next.ClientNode? <==> n.ClientNode?)
  {
    hide ClientStep, ServerStep;
    match n
    case ClientNode(c) => ClientKeepsOrTakes(p, c, retry); ClientWaitsRight(p, c, retry);
    case ServerNode(s) => ServerKeepsOrTakes(p, s, retry); ServerWaitsRight(p, s, retry);
  }

  lemma AsksOrIgnores(p: Params, n: Node, retry: bool)
    requires n.Wait() == Ok && n.Core().buf.None? && !n.InCcs()
    ensures if NodeStep(p, n, retry).Wait() == ReadMessage then AsksFor(p, n) else Ignores(p, n, retry)
  {
    hide ClientStep, ServerStep, AsksFor, Ignores;
    match n
    case ClientNode(c) => ClientAsksOrIgnores(p, c, retry);
    case ServerNode(s) => ServerAsksOrIgnores(p, s, retry);
  }

  /** An end that asks for a message is one that reads. */
  lemma AskerReads(p: Params, n: Node, read: seq<Record>, sent: seq<Record>, retry: bool)
    requires p.Valid() && NodeAt(p, n, read, sent) && LooksRight(n) && n.Wait() == Ok && n.Core().buf.None?
    requires AsksFor(p, n)
    ensures Reads(p, n) && (n.ServerNode? && n.s.state == ReadClientCertificateVerify ==> n.s.peerCert)
  {
    hide Placed, NodeStep, HasKind;
    NodeStepAt(p, n, read, sent, retry);
    assert NodeStep(p, n, retry) == n.With(ReadMessage, n.Core());
  }

  /** One step of the machine on what is in front of the buffer. */
  lemma StepAt(p: Params, n: Node, read: seq<Record>, sent: seq<Record>, retry: bool, look: Option<Msg>)
    requires p.Valid() && NodeAt(p, n, read, sent) && n.Wait() == Ok && n.Core().buf.None?
    requires look.Some? ==> look.value.fromClient != n.ClientNode? && !n.InCcs()
    requires HelloSeen(n) ==> look.Some? && look.value.kind == ClientHello
    ensures var next := NodeStep(p, n.With(Ok, n.Core().(buf := look)), retry);
            var taken := look.Some? && next.Core().buf.None?;
            next.Wait().Failed? ||
            (NodeAt(p, next.With(next.Wait(), next.Core().(buf := None)),
                    if taken then read + [Record(Handshake(look.value), n.Core().readEnc)] else read, sent) &&
             LooksRight(next))
  {
    hide Placed, NodeStep, NodeAt, AsksFor, Ignores, HasKind;
    var looking := n.With(Ok, n.Core().(buf := look));
    var next := NodeStep(p, looking, retry);
    NodeFacts(p, looking, retry);
    if look.None? {
      assert looking == n;
      NodeStepAt(p, n, read, sent, retry);
      assert next.With(next.Wait(), next.Core().(buf := None)) == next;
    } else {
      AsksOrIgnores(p, n, retry);
      if HelloSeen(n) || NodeStep(p, n, retry).Wait() == ReadMessage {
        if !HelloSeen(n) { AskerReads(p, n, read, sent, retry); }
        StepOnLooked(p, n, read, sent, retry, look.value);
      } else {
        NodeStepAt(p, n, read, sent, retry);
        NodeFacts(p, n, retry);
        IgnoresStep(p, n, retry, look.value);
      }
    }
  }

  lemma IgnoresStep(p: Params, n: Node, retry: bool, m: Msg)
    requires Ignores(p, n, retry) && n.Wait() == Ok && NodeStep(p, n, retry).Core().buf.None?
    ensures var next := NodeStep(p, n.With(Ok, n.Core().(buf := Some(m))), retry);
            && next.With(next.Wait(), next.Core().(buf := None)) == NodeStep(p, n, retry)
            && next.Core().buf == Some(m) && (LooksRight(NodeStep(p, n, retry)) ==> LooksRight(next))
  {
    hide NodeStep;
  }

  lemma StepOnLooked(p: Params, n: Node, read: seq<Record>, sent: seq<Record>, retry: bool, m: Msg)
    requires p.Valid() && NodeAt(p, n, read, sent) && n.Wait() == Ok && n.Core().buf.None? && Reads(p, n)
    requires m.fromClient != n.ClientNode? && (HelloSeen(n) ==> m.kind == ClientHello)
    requires n.ServerNode? && n.s.state == ReadClientCertificateVerify ==> n.s.peerCert
    ensures var next := NodeStep(p, n.With(Ok, n.Core().(buf := Some(m))), retry);
            next.Wait().Failed? ||
            (NodeAt(p, next.With(next.Wait(), next.Core().(buf := None)),
                    if next.Core().buf.None? then read + [Record(Handshake(m), n.Core().readEnc)] else read, sent) &&
             LooksRight(next))
  {
    hide Placed, NodeStep, NodeAt, HasKind;
    var looking := n.With(Ok, n.Core().(buf := Some(m)));
    var more := read + [Record(Handshake(m), n.Core().readEnc)];
    var next := NodeStep(p, looking, retry);
    LookAt(p, n, read, sent, m);
    NodeStepAt(p, looking, more, sent, retry);
    NodeFacts(p, looking, retry);
    if !next.Wait().Failed? {
      if next.Core().buf.Some? {
        LookAway(p, next, more, sent);
        assert more[..|more| - 1] == read;
      } else {
        assert next.With(next.Wait(), next.Core().(buf := None)) == next;
      }
    }
  }

  lemma ItemsSnoc(codec: Codec, records: seq<Record>, r: Record)
    ensures Items(codec, records + [r]) == Items(codec, records) + RecordItems(codec, r)
  {
    hide RecordItems;
    ItemsJoin(codec, records, [r]);
    assert Items(codec, [r]) == RecordItems(codec, r) + Items(codec, [r][1..]);
  }

  lemma FlatSnoc(pieces: seq<Piece>, x: Piece)
    ensures Flat(pieces + [x]) == Flat(pieces) + PieceItems(x)
  {
    hide PieceItems;
    FlatJoin(pieces, [x]);
    assert Flat([x]) == PieceItems(x) + Flat([x][1..]);
  }

  lemma TaggedJoin(a: seq<byte>, b: seq<byte>, enc: bool)
    ensures Tagged(a, enc) + Tagged(b, enc) == Tagged(a + b, enc)
  {
  }

  /** The message in front leaves the buffer. */
  lemma TakeFromBuffer(codec: Codec, hs: R.Reader, me: bool, got: seq<Item>, read: seq<Record>, enc: bool)
    requires Faithful(codec, me) && Look(codec, hs).Some?
    requires got == Items(codec, read) + Tagged(hs.Bytes(), enc)
    ensures Look(codec, hs).value.fromClient != me
    ensures got == Items(codec, read + [Record(Handshake(Look(codec, hs).value), enc)]) +
                   Tagged(R.NextMessage(hs, true).Bytes(), enc)
  {
    hide Tagged, Items, R.BodyLength;
    var raw := R.ParseMessage(hs.buf).raw;
    R.WholeIsFrame(hs.buf.value);
    var rest := R.NextMessage(hs, true).Bytes();
    TaggedJoin(raw, rest, enc);
    ItemsSnoc(codec, read, Record(Handshake(Look(codec, hs).value), enc));
    assert Items(codec, read) + (Tagged(raw, enc) + Tagged(rest, enc)) ==
           (Items(codec, read) + Tagged(raw, enc)) + Tagged(rest, enc);
  }

  lemma EmptyBuffer(codec: Codec, hs: R.Reader)
    requires !hs.hasMessage
    ensures R.HasUnprocessed(hs) <==> hs.Bytes() != []
    ensures Look(codec, hs).Some? ==> R.HasUnprocessed(hs)
  {
  }

  /** What the stream is after one step. */
  lemma StreamAfter(codec: Codec, o: OpenWire, read: seq<Record>, next: Node)
    requires Faithful(codec, o.w.node.ClientNode?) && !o.w.hs.hasMessage
    requires Flat(o.got) == Items(codec, read) + Tagged(o.w.hs.Bytes(), o.w.node.Core().readEnc)
    requires !(o.w.node.InCcs() && R.HasUnprocessed(o.w.hs))
    requires !o.w.node.InCcs() ==> next.Core().readEnc == o.w.node.Core().readEnc
    ensures var look := Look(codec, o.w.hs);
            var taken := look.Some? && next.Core().buf.None?;
            var hs := if taken then R.NextMessage(o.w.hs, true) else o.w.hs;
            && !hs.hasMessage
            && var more := if taken then [Record(Handshake(look.value), o.w.node.Core().readEnc)] else [];
               Flat(o.got) == Items(codec, read + more) + Tagged(hs.Bytes(), next.Core().readEnc)
  {
    hide Items, Flat, Faithful, R.HasUnprocessed;
    EmptyBuffer(codec, o.w.hs);
    assert read + [] == read;
    if o.w.node.InCcs() {
      assert Tagged([], next.Core().readEnc) == Tagged([], o.w.node.Core().readEnc);
    } else if Look(codec, o.w.hs).Some? && next.Core().buf.None? {
      TakeFromBuffer(codec, o.w.hs, o.w.node.ClientNode?, Flat(o.got), read, o.w.node.Core().readEnc);
    }
  }

  /** The end after one step of its machine, before its flight is cut. */
  function AfterStep(p: Params, codec: Codec, o: OpenWire, retry: bool): OpenWire {
    var next := NodeStep(p, Looking(codec, o.w), retry);
    var hs := if Look(codec, o.w.hs).Some? && next.Core().buf.None? then R.NextMessage(o.w.hs, true) else o.w.hs;
    o.(w := o.w.(node := next.With(next.Wait(), next.Core().(buf := None)), hs := hs))
  }

  lemma AfterStepAt(p: Params, codec: Codec, o: OpenWire, read: seq<Record>, sent: seq<Record>, retry: bool)
    returns (read': seq<Record>)
    requires p.Valid() && Faithful(codec, o.w.node.ClientNode?)
    requires AtPlace(p, codec, o, read, sent) && o.w.node.Wait() == Ok && !Stuck(o.w)
    ensures var o' := AfterStep(p, codec, o, retry); o'.w.node.Wait().Failed? || AtPlace(p, codec, o', read', sent)
  {
    hide NodeAt, NodeStep, Faithful, Items, Flat, Tagged, Look, R.HasUnprocessed, R.NextMessage;
    var n, hs := o.w.node, o.w.hs;
    var look := Look(codec, hs);
    EmptyBuffer(codec, hs);
    if look.Some? { TakeFromBuffer(codec, hs, n.ClientNode?, Flat(o.got), read, n.Core().readEnc); }
    var next := NodeStep(p, Looking(codec, o.w), retry);
    StepAt(p, n, read, sent, retry, look);
    NodeFacts(p, Looking(codec, o.w), retry);
    StreamAfter(codec, o, read, next);
    read' := if look.Some? && next.Core().buf.None? then read + [Record(Handshake(look.value), n.Core().readEnc)] else read;
  }

  lemma ProceedKeeps(p: Params, codec: Codec, maxLen: nat, o: OpenWire, read: seq<Record>, sent: seq<Record>,
                     retry: bool, cut: seq<Piece>)
    returns (read': seq<Record>, sent': seq<Record>)
    requires p.Valid() && Faithful(codec, o.w.node.ClientNode?)
    requires WireInv(p, codec, o, read, sent) && o.w.node.Wait() == Ok
    ensures Kept(p, codec, WireMeets(p, codec, maxLen, o, Do(Proceed(retry, cut))), read', sent')
  {
    hide NodeAt, NodeStep, Faithful, Items, Flat, Tagged, Look, R.HasUnprocessed, R.NextMessage;
    read', sent' := read, sent;
    assert o.gone + [] == o.gone;
    if Stuck(o.w) { return; }
    read' := AfterStepAt(p, codec, o, read, sent, retry);
    var next := NodeStep(p, Looking(codec, o.w), retry);
    if next.Wait() == FlushFlight {
      if !Cuts(codec, cut, next.Core().flight) { return read, sent; }
      sent' := sent + next.Core().flight;
      CutAt(p, AfterStep(p, codec, o, retry).w.node, read', sent);
      ItemsJoin(codec, sent, next.Core().flight);
      FlatJoin(o.gone + o.w.out, cut);
      assert o.gone + (o.w.out + cut) == (o.gone + o.w.out) + cut;
    }
  }

  lemma ReceivesCcs(p: Params, codec: Codec, maxLen: nat, o: OpenWire, read: seq<Record>, sent: seq<Record>)
    requires WireInv(p, codec, o, read, sent) && o.w.incoming != []
    requires o.w.node.Wait() == ReadChangeCipherSpec
    ensures Kept(p, codec, WireMeets(p, codec, maxLen, o, Do(Receive)),
                 read + [Record(ChangeCipherSpec, o.w.node.Core().readEnc)], sent)
  {
    hide NodeAt, Items, Flat, Tagged, R.ParseMessage, R.HasUnprocessed;
    var n, hs, x := o.w.node, o.w.hs, o.w.incoming[0];
    assert o.gone + [] == o.gone;
    if x.encrypted == n.Core().readEnc && x.CcsPiece? {
      FlatSnoc(o.got, x);
      GetCcs(p, n, read, sent);
      ItemsSnoc(codec, read, Record(ChangeCipherSpec, n.Core().readEnc));
      EmptyBuffer(codec, hs);
      NothingTagged(hs.Bytes(), n.Core().readEnc, Items(codec, read), [CcsItem(x.encrypted)]);
      var o' := WireMeets(p, codec, maxLen, o, Do(Receive));
      assert o'.got == o.got + [x];
      assert Stuck(o'.w) || hs.Bytes() == [];
    }
  }

  lemma ReceivesPart(p: Params, codec: Codec, maxLen: nat, o: OpenWire, read: seq<Record>, sent: seq<Record>)
    requires WireInv(p, codec, o, read, sent) && o.w.incoming != []
    requires o.w.node.Wait() == ReadMessage
    ensures Kept(p, codec, WireMeets(p, codec, maxLen, o, Do(Receive)), read, sent)
  {
    hide NodeAt, Items, Flat, Tagged, R.BodyLength;
    var n, hs, x := o.w.node, o.w.hs, o.w.incoming[0];
    assert o.gone + [] == o.gone;
    if x.encrypted == n.Core().readEnc && x.Part? {
      FlatSnoc(o.got, x);
      ReadsOn(p, n, read, sent);
      GoOn(p, n, read, sent);
      TaggedJoin(hs.Bytes(), x.bytes, x.encrypted);
      assert (Items(codec, read) + Tagged(hs.Bytes(), x.encrypted)) + Tagged(x.bytes, x.encrypted) ==
             Items(codec, read) + (Tagged(hs.Bytes(), x.encrypted) + Tagged(x.bytes, x.encrypted));
      var o' := WireMeets(p, codec, maxLen, o, Do(Receive));
      assert o'.got == o.got + [x];
    }
  }

  lemma NothingTagged(s: seq<byte>, enc: bool, a: seq<Item>, b: seq<Item>)
    ensures s == [] ==> (a + Tagged(s, enc)) + b == (a + b) + Tagged(s, enc)
  {
  }

  /** An end that waits for a message is not about to change its keys. */
  lemma ReadsOn(p: Params, n: Node, read: seq<Record>, sent: seq<Record>)
    requires NodeAt(p, n, read, sent) && n.Wait() == ReadMessage
    ensures !n.InCcs()
  {
    hide Placed, HasKind;
  }

  lemma OthersKeep(p: Params, codec: Codec, maxLen: nat, o: OpenWire, read: seq<Record>, sent: seq<Record>,
                   input: WireInput)
    requires WireInv(p, codec, o, read, sent)
    requires input.Bring? || input.a.Send? || input.a.Wake?
    ensures Kept(p, codec, WireMeets(p, codec, maxLen, o, input), read, sent)
  {
    hide NodeAt, Items, Flat, Tagged, Look, R.HasUnprocessed;
    var n := o.w.node;
    assert o.gone + [] == o.gone;
    if input.Do? && input.a.Send? && n.Wait() == FlushFlight {
      var k := if input.a.n < |o.w.out| then input.a.n else |o.w.out|;
      assert (o.gone + o.w.out[..k]) + o.w.out[k..] == o.gone + o.w.out;
      GoOn(p, n, read, sent);
      NoCcsWait(p, n, read, sent);
    } else if input.Do? && input.a.Wake? && n.Wait() == Paused {
      GoOn(p, n, read, sent);
      NoCcsWait(p, n, read, sent);
    }
  }

  lemma NoCcsWait(p: Params, n: Node, read: seq<Record>, sent: seq<Record>)
    requires NodeAt(p, n, read, sent) && (n.Wait() == FlushFlight || n.Wait() == Paused)
    ensures !n.InCcs()
  {
    hide Placed, HasKind;
  }

  lemma MeetsKeeps(p: Params, codec: Codec, maxLen: nat, o: OpenWire, read: seq<Record>, sent: seq<Record>,
                   input: WireInput)
    returns (read': seq<Record>, sent': seq<Record>)
    requires p.Valid() && Faithful(codec, o.w.node.ClientNode?)
    requires WireInv(p, codec, o, read, sent)
    ensures Kept(p, codec, WireMeets(p, codec, maxLen, o, input), read', sent')
  {
    hide WireInv, ProceedWired, ReceiveWired, Faithful;
    read', sent' := read, sent;
    assert o.gone + [] == o.gone;
    if input.Bring? || input.a.Send? || input.a.Wake? {
      OthersKeep(p, codec, maxLen, o, read, sent, input);
    } else if input.a.Proceed? {
      if o.w.node.Wait() == Ok {
        read', sent' := ProceedKeeps(p, codec, maxLen, o, read, sent, input.a.retry, input.a.cut);
      }
    } else if o.w.incoming != [] {
      if o.w.node.Wait() == ReadChangeCipherSpec {
        ReceivesCcs(p, codec, maxLen, o, read, sent);
        read' := read + [Record(ChangeCipherSpec, o.w.node.Core().readEnc)];
      } else if o.w.node.Wait() == ReadMessage {
        ReceivesPart(p, codec, maxLen, o, read, sent);
      }
    }
  }

  lemma FailedWire(p: Params, codec: Codec, maxLen: nat, o: OpenWire, input: WireInput)
    requires o.w.node.Wait().Failed?
    ensures WireMeets(p, codec, maxLen, o, input).w.node == o.w.node
  {
  }

  lemma MeetsSameEnd(p: Params, codec: Codec, maxLen: nat, o: OpenWire, input: WireInput)
    ensures WireMeets(p, codec, maxLen, o, input).w.node.ClientNode? <==> o.w.node.ClientNode?
  {
    hide ClientStep, ServerStep, R.AcceptRecord, R.NextMessage, Look, R.HasUnprocessed;
  }

  function StartNode(p: Params, isClient: bool): Node {
    if isClient then ClientNode(Start(p).client) else ServerNode(Start(p).server)
  }

  lemma {:induction false} WireAlone(p: Params, codec: Codec, maxLen: nat, isClient: bool, inputs: seq<WireInput>)
    returns (read: seq<Record>, sent: seq<Record>)
    requires p.Valid() && Faithful(codec, isClient)
    ensures var o := WireRun(p, codec, maxLen, StartNode(p, isClient), inputs);
            (o.w.node.ClientNode? <==> isClient) && Kept(p, codec, o, read, sent)
  {
    hide WireInv, WireMeets, Faithful;
    if inputs == [] {
      read, sent := [], [];
      WireStart(p, codec, maxLen, isClient);
    } else {
      var front, input := inputs[..|inputs| - 1], inputs[|inputs| - 1];
      var o := WireRun(p, codec, maxLen, StartNode(p, isClient), front);
      read, sent := WireAlone(p, codec, maxLen, isClient, front);
      MeetsSameEnd(p, codec, maxLen, o, input);
      if o.w.node.Wait().Failed? {
        FailedWire(p, codec, maxLen, o, input);
      } else {
        read, sent := MeetsKeeps(p, codec, maxLen, o, read, sent, input);
      }
    }
  }

  lemma WireStart(p: Params, codec: Codec, maxLen: nat, isClient: bool)
    ensures WireInv(p, codec, WireRun(p, codec, maxLen, StartNode(p, isClient), []), [], [])
  {
    hide Phase;
    ClientStartPlaced(p);
    ServerStartPlaced(p);
  }

  /** Where the end is in the script, as far as its transcript shows it. */
  function Order(p: Params, n: Node): seq<(bool, Kind)> {
    match n
    case ClientNode(c) => Messages(Seen(p, c.core.transcript), ClientPhase(p, c))
    case ServerNode(s) => Messages(p, ServerPhase(p, s))
  }

  lemma NodeAccepts(p: Params, n: Node, read: seq<Record>, sent: seq<Record>)
    requires NodeAt(p, n, read, sent) && n.Core().buf.None?
    ensures var c := n.Core();
            && InOrder(n.ClientNode?, c, read, sent) && Proven(p.crypto, p.resumed, c.transcript)
            && c.secret == SecretOf(p.resumed, c.transcript) && HasOrder(c.transcript, Order(p, n))
  {
    hide Tells, Flows, InOrder, HasKind, Messages, HasOrder, Proven;
    var t := n.Core().transcript;
    match n
    case ClientNode(c) =>
      var q, i := Seen(p, t), ClientPhase(p, c);
      TellsOrder(q, true, i, t);
      TellsProven(q, true, i, t);
      PlacedInOrder(q, true, i, c.core, read, sent);
    case ServerNode(s) =>
      TellsOrder(p, false, ServerPhase(p, s), t);
      TellsProven(p, false, ServerPhase(p, s), t);
      PlacedInOrder(p, false, ServerPhase(p, s), s.core, read, sent);
  }

  /** Whatever records come to an end, cut as they may be, holding any bytes under
      any keys.  While it has not failed, what it has taken off the wire are, byte
      for byte, the peer's messages of its transcript and its ChangeCipherSpec and
      then what is in its buffer, all under the right keys; what it has put there
      is its own part; the transcript is in the order of the script; and every
      Finished, signature and channel ID of it is for the messages before it.
      (If the ChangeCipherSpec came in the middle of a message, the next step
      fails.) */
  lemma WireAccepts(p: Params, codec: Codec, maxLen: nat, isClient: bool, inputs: seq<WireInput>)
    returns (read: seq<Record>, sent: seq<Record>)
    requires p.Valid() && Faithful(codec, isClient)
    requires !WireRun(p, codec, maxLen, StartNode(p, isClient), inputs).w.node.Wait().Failed?
    ensures var o := WireRun(p, codec, maxLen, StartNode(p, isClient), inputs);
            var c := o.w.node.Core();
            && InOrder(isClient, c, read, sent) && Proven(p.crypto, p.resumed, c.transcript)
            && c.secret == SecretOf(p.resumed, c.transcript)
            && HasOrder(c.transcript, Order(p, o.w.node))
            && Flat(o.gone + o.w.out) == Items(codec, sent)
            && (Stuck(o.w) || Flat(o.got) == Items(codec, read) + Tagged(o.w.hs.Bytes(), c.readEnc))
  {
    hide NodeAt, InOrder, Order, HasOrder, Proven, WireRun, Items, Flat, Tagged, R.HasUnprocessed, Look;
    read, sent := WireAlone(p, codec, maxLen, isClient, inputs);
    NodeAccepts(p, WireRun(p, codec, maxLen, StartNode(p, isClient), inputs).w.node, read, sent);
  }
}
