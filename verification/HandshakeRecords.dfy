/** The handshake of two honest ends over real records: a flight is cut into
    records anywhere, and messages are read out of a buffer of their bytes. */
module HandshakeRecords {
  import opened Bytes
  import opened RecordTypes
  import opened HandshakeScript
  import opened HandshakeMachines
  import R = TlsRead

  // ----- Messages as bytes ------------------------------------------------

  datatype Codec = Codec(encode: Msg -> seq<byte>, decode: seq<byte> -> Msg)

  ghost predicate Encodable(codec: Codec, maxLen: nat, m: Msg) {
    R.IsFrame(codec.encode(m)) && |codec.encode(m)| <= R.HEADER + maxLen && codec.decode(codec.encode(m)) == m
  }

  /** The messages of the script can be written and read back, and are not too
      long for the reader. */
  ghost predicate CodecOk(p: Params, codec: Codec, maxLen: nat) {
    forall m :: m in Progress(p, End(p)).0 ==> Encodable(codec, maxLen, m)
  }

  /** A byte of the handshake and the keys it is under, or a ChangeCipherSpec. */
  datatype Item = Byte(b: byte, encrypted: bool) | CcsItem(encrypted: bool)

  function Tagged(s: seq<byte>, encrypted: bool): (r: seq<Item>)
    ensures |r| == |s|
  {
    seq(|s|, i requires 0 <= i < |s| => Byte(s[i], encrypted))
  }

  function RecordItems(codec: Codec, r: Record): seq<Item> {
    match r.content
    case Handshake(m) => Tagged(codec.encode(m), r.encrypted)
    case ChangeCipherSpec => [CcsItem(r.encrypted)]
  }

  function Items(codec: Codec, records: seq<Record>): seq<Item> {
    if records == [] then [] else RecordItems(codec, records[0]) + Items(codec, records[1..])
  }

  /** A record as it is on the wire: some bytes of the handshake, which may begin
      and end in the middle of messages, or a ChangeCipherSpec. */
  datatype Piece = Part(bytes: seq<byte>, encrypted: bool) | CcsPiece(encrypted: bool)

  function PieceItems(x: Piece): seq<Item> {
    match x
    case Part(bytes, encrypted) => Tagged(bytes, encrypted)
    case CcsPiece(encrypted) => [CcsItem(encrypted)]
  }

  function Flat(pieces: seq<Piece>): seq<Item> {
    if pieces == [] then [] else PieceItems(pieces[0]) + Flat(pieces[1..])
  }

  predicate NoneEmpty(pieces: seq<Piece>) {
    forall i :: 0 <= i < |pieces| ==> PieceItems(pieces[i]) != []
  }

  /** The pieces are the flight, cut in any way. */
  predicate Cuts(codec: Codec, pieces: seq<Piece>, flight: seq<Record>) {
    NoneEmpty(pieces) && Flat(pieces) == Items(codec, flight)
  }

  // ----- One end ----------------------------------------------------------

  datatype Node = ClientNode(c: Client) | ServerNode(s: Server)
  {
    function Wait(): Wait { if ClientNode? then c.wait else s.wait }
    function Core(): Core { if ClientNode? then c.core else s.core }
    function With(wait: Wait, core: Core): Node {
      if ClientNode? then ClientNode(c.(wait := wait, core := core)) else ServerNode(s.(wait := wait, core := core))
    }
    /** About to change the read keys. */
    predicate InCcs() { if ClientNode? then c.state == ProcessServerCcs else s.state == ProcessClientCcs }
  }

  function NodeStep(p: Params, n: Node, retry: bool): Node {
    match n
    case ClientNode(c) => ClientNode(ClientStep(p, c, retry))
    case ServerNode(s) => ServerNode(ServerStep(p, s, retry))
  }

  /** An end, its handshake buffer, what is left to write of its flight, and the
      records on their way to it.  Its core has no message of its own: the one
      looked at is in front of the buffer. */
  datatype Wired = Wired(node: Node, hs: R.Reader, out: seq<Piece>, incoming: seq<Piece>)

  datatype Act = Proceed(retry: bool, cut: seq<Piece>) | Send(n: nat) | Receive | Wake

  function Look(codec: Codec, hs: R.Reader): Option<Msg> {
    match R.ParseMessage(hs.buf)
    case Whole(_, raw) => Some(codec.decode(raw))
    case Need(_) => None
  }

  function Looking(codec: Codec, w: Wired): Node {
    w.node.With(w.node.Wait(), w.node.Core().(buf := Look(codec, w.hs)))
  }

  /** One step of the machine.  A message that it is done with leaves the buffer;
      a flight that it wants to be written is cut. */
  function ProceedWired(p: Params, codec: Codec, w: Wired, retry: bool, cut: seq<Piece>): Wired {
    if w.node.InCcs() && R.HasUnprocessed(w.hs) then w.(node := w.node.With(Failed(BufferedMessages), w.node.Core()))
    else
      var next := NodeStep(p, Looking(codec, w), retry);
      var core := next.Core();
      var hs := if Look(codec, w.hs).Some? && core.buf.None? then R.NextMessage(w.hs, true) else w.hs;
      if next.Wait() != FlushFlight then w.(node := next.With(next.Wait(), core.(buf := None)), hs := hs)
      else if !Cuts(codec, cut, core.flight) then w
      else w.(node := next.With(FlushFlight, core.(buf := None, flight := [])), hs := hs, out := w.out + cut)
  }

  /** A record for an end that waits for one. */
  function ReceiveWired(w: Wired, maxLen: nat): Wired
    requires w.incoming != []
  {
    var x, core, left := w.incoming[0], w.node.Core(), w.(incoming := w.incoming[1..]);
    if x.encrypted != core.readEnc then left.(node := w.node.With(Failed(BadRecordMac), core))
    else if w.node.Wait() == ReadChangeCipherSpec then
      left.(node := w.node.With(if x.CcsPiece? then Ok else Failed(UnexpectedRecord), core))
    else
      var (hs, code) := R.AcceptRecord(w.hs, maxLen, if x.Part? then RT_HANDSHAKE else RT_CHANGE_CIPHER_SPEC,
                                       if x.Part? then x.bytes else []);
      left.(hs := hs, node := w.node.With(if code.None? then Ok
                                          else Failed(if code == Some(R.UnexpectedMessage) then UnexpectedRecord
                                                      else InternalError), core))
  }

  /** What happens at an end, and what it sends. */
  function ActWired(p: Params, codec: Codec, maxLen: nat, w: Wired, a: Act): (Wired, seq<Piece>) {
    match a
    case Proceed(retry, cut) => (if w.node.Wait() == Ok then ProceedWired(p, codec, w, retry, cut) else w, [])
    case Send(n) =>
      if w.node.Wait() != FlushFlight then (w, []) else
      var k := if n < |w.out| then n else |w.out|;
      (w.(out := w.out[k..], node := w.node.With(if k == |w.out| then Ok else FlushFlight, w.node.Core())), w.out[..k])
    case Receive =>
      (if (w.node.Wait() != ReadMessage && w.node.Wait() != ReadChangeCipherSpec) || w.incoming == [] then w
       else ReceiveWired(w, maxLen), [])
    case Wake => (if w.node.Wait() == Paused then w.(node := w.node.With(Ok, w.node.Core())) else w, [])
  }

  datatype Pair = Pair(client: Wired, server: Wired)

  datatype Doing = Doing(atClient: bool, a: Act)

  function StepPair(p: Params, codec: Codec, maxLen: nat, pair: Pair, d: Doing): Pair {
    if d.atClient then
      var (w, sent) := ActWired(p, codec, maxLen, pair.client, d.a);
      Pair(w, pair.server.(incoming := pair.server.incoming + sent))
    else
      var (w, sent) := ActWired(p, codec, maxLen, pair.server, d.a);
      Pair(pair.client.(incoming := pair.client.incoming + sent), w)
  }

  // ----- What a stream begins with ----------------------------------------

  lemma {:induction false} ItemsJoin(codec: Codec, a: seq<Record>, b: seq<Record>)
    ensures Items(codec, a + b) == Items(codec, a) + Items(codec, b)
  {
    hide RecordItems;
    if a == [] {
      assert a + b == b;
    } else {
      assert (a + b)[1..] == a[1..] + b;
      ItemsJoin(codec, a[1..], b);
    }
  }

  lemma {:induction false} FlatJoin(a: seq<Piece>, b: seq<Piece>)
    ensures Flat(a + b) == Flat(a) + Flat(b)
  {
    hide PieceItems;
    if a == [] {
      assert a + b == b;
    } else {
      assert (a + b)[1..] == a[1..] + b;
      FlatJoin(a[1..], b);
    }
  }

  ghost predicate AllEncodable(codec: Codec, maxLen: nat, records: seq<Record>) {
    forall i :: 0 <= i < |records| && records[i].content.Handshake? ==> Encodable(codec, maxLen, records[i].content.m)
  }

  /** Bytes at the front of a stream of records are of its first message: all of
      it is there, or it is still too short and not longer than admitted. */
  lemma {:induction false} FirstMessage(codec: Codec, maxLen: nat, s: seq<byte>, enc: bool, rest: seq<Item>,
                                        records: seq<Record>)
    requires AllEncodable(codec, maxLen, records) && Tagged(s, enc) + rest == Items(codec, records) && s != []
    ensures records != [] && records[0].content.Handshake? && records[0].encrypted == enc
    ensures var e := codec.encode(records[0].content.m);
            if |e| <= |s| then
              R.ParseMessage(Some(s)) == R.Whole(e[0], e) && e <= s &&
              Tagged(s[|e|..], enc) + rest == Items(codec, records[1..])
            else
              R.ParseMessage(Some(s)).Need? && R.ParseMessage(Some(s)).n <= R.HEADER + maxLen &&
              |s| < |RecordItems(codec, records[0])|
  {
    hide R.BodyLength;
    var all := Tagged(s, enc) + rest;
    assert all[0] == Byte(s[0], enc);
    assert records[0].content.Handshake?;
    var e := codec.encode(records[0].content.m);
    var tagged := Tagged(e, records[0].encrypted);
    assert Encodable(codec, maxLen, records[0].content.m);
    assert all[0] == tagged[0];
    var n := if |e| <= |s| then |e| else |s|;
    forall i | 0 <= i < n
      ensures s[i] == e[i]
    {
      assert all[i] == Byte(s[i], enc) && all[i] == tagged[i];
    }
    assert s[..n] == e[..n];
    if |e| <= |s| {
      assert s == e + s[|e|..];
      R.FrameInFront(e, s[|e|..]);
      assert all[|e|..] == Tagged(s[|e|..], enc) + rest;
    } else if |s| >= R.HEADER {
      assert s[1..4] == e[1..4];
      SameLength(s, e);
    }
  }

  lemma SameLength(s: seq<byte>, e: seq<byte>)
    requires |s| >= R.HEADER && |e| >= R.HEADER && s[1..4] == e[1..4]
    ensures R.BodyLength(s) == R.BodyLength(e)
  {
  }
}
