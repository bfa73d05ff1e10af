/** The message flow of TLS 1.0 to 1.2 (section 7.3 of RFC 5246, section 3.1 of
    RFC 5077), as the one order both ends have to follow. */
module HandshakeScript {
  import opened Bytes

  datatype Kind =
    | ClientHello | ServerHello | Certificate | CertificateStatus | ServerKeyExchange
    | CertificateRequest | ServerHelloDone | ClientKeyExchange | CertificateVerify
    | NextProto | ChannelId | Finished | NewSessionTicket

  datatype Msg = Msg(kind: Kind, fromClient: bool, body: nat)

  datatype Content = Handshake(m: Msg) | ChangeCipherSpec

  /** A record, and whether it is under the new keys. */
  datatype Record = Record(content: Content, encrypted: bool)

  /** The master secret: of the session that is resumed, or derived at the
      ClientKeyExchange from all messages up to it. */
  datatype Secret = NoSecret | OfSession | Derived(transcript: seq<Msg>)

  /** The cryptography, uninterpreted. */
  datatype Crypto = Crypto(mac: (Secret, seq<Msg>, bool) -> nat, sign: seq<Msg> -> nat,
                           signChannelId: seq<Msg> -> nat, content: (Kind, bool) -> nat)

  datatype KeyExchange = Rsa | Ecdhe | Psk

  /** What the two ends have agreed on, or will in their hellos. */
  datatype Params = Params(resumed: bool, kx: KeyExchange, certAuth: bool, pskHint: bool,
                           statusExpected: bool, statusSent: bool, certRequest: bool, clientHasCert: bool,
                           ticket: bool, nextProto: bool, channelId: bool, falseStart: bool, crypto: Crypto)
  {
    predicate Valid() {
      && (kx == Rsa ==> certAuth) && (kx == Psk ==> !certAuth)
      && (statusSent ==> certAuth && statusExpected)
      && (certRequest ==> certAuth)
    }

    predicate SendsKeyExchange() { kx == Ecdhe || (!certAuth && pskHint) }
  }

  // ----- The script -------------------------------------------------------

  datatype What = Message(kind: Kind) | Ccs

  datatype Entry = Entry(fromClient: bool, what: What)

  function If(b: bool, fromClient: bool, what: What): Option<Entry> {
    if b then Some(Entry(fromClient, what)) else None
  }

  function FullPhase(p: Params, k: nat): Option<Entry> {
    if k == 0 then If(true, true, Message(ClientHello))
    else if k == 1 then If(true, false, Message(ServerHello))
    else if k == 2 then If(p.certAuth, false, Message(Certificate))
    else if k == 3 then If(p.statusSent, false, Message(CertificateStatus))
    else if k == 4 then If(p.SendsKeyExchange(), false, Message(ServerKeyExchange))
    else if k == 5 then If(p.certRequest, false, Message(CertificateRequest))
    else if k == 6 then If(true, false, Message(ServerHelloDone))
    else if k == 7 then If(p.certRequest, true, Message(Certificate))
    else if k == 8 then If(true, true, Message(ClientKeyExchange))
    else if k == 9 then If(p.certRequest && p.clientHasCert, true, Message(CertificateVerify))
    else if k == 10 then If(true, true, Ccs)
    else if k == 11 then If(p.nextProto, true, Message(NextProto))
    else if k == 12 then If(p.channelId, true, Message(ChannelId))
    else if k == 13 then If(true, true, Message(Finished))
    else if k == 14 then If(p.ticket, false, Message(NewSessionTicket))
    else if k == 15 then If(true, false, Ccs)
    else if k == 16 then If(true, false, Message(Finished))
    else None
  }

  function ResumedPhase(p: Params, k: nat): Option<Entry> {
    if k == 0 then If(true, true, Message(ClientHello))
    else if k == 1 then If(true, false, Message(ServerHello))
    else if k == 2 then If(p.ticket, false, Message(NewSessionTicket))
    else if k == 3 then If(true, false, Ccs)
    else if k == 4 then If(true, false, Message(Finished))
    else if k == 5 then If(true, true, Ccs)
    else if k == 6 then If(p.nextProto, true, Message(NextProto))
    else if k == 7 then If(p.channelId, true, Message(ChannelId))
    else if k == 8 then If(true, true, Message(Finished))
    else None
  }

  function Phase(p: Params, k: nat): Option<Entry> {
    if p.resumed then ResumedPhase(p, k) else FullPhase(p, k)
  }

  function End(p: Params): nat { if p.resumed then 9 else 17 }

  // ----- What an honest end sends -----------------------------------------

  /** What an end knows when it sends or receives the next entry: the messages
      so far, the secret, and whether that direction is under the new keys. */
  datatype View = View(transcript: seq<Msg>, secret: Secret, enc: bool)

  function BodyOf(p: Params, kind: Kind, fromClient: bool, transcript: seq<Msg>, secret: Secret): nat {
    match kind
    case Finished => p.crypto.mac(secret, transcript, fromClient)
    case CertificateVerify => p.crypto.sign(transcript)
    case ChannelId => p.crypto.signChannelId(transcript)
    case _ => p.crypto.content(kind, fromClient)
  }

  function ItemOf(p: Params, e: Entry, v: View): Record {
    Record(match e.what
           case Ccs => ChangeCipherSpec
           case Message(kind) =>
             Handshake(Msg(kind, e.fromClient, BodyOf(p, kind, e.fromClient, v.transcript, v.secret))),
           v.enc)
  }

  function SecretAfter(m: Msg, transcript: seq<Msg>, secret: Secret): Secret {
    if m.kind == ClientKeyExchange then Derived(transcript + [m]) else secret
  }

  function After(v: View, r: Record): View {
    match r.content
    case ChangeCipherSpec => v.(enc := true)
    case Handshake(m) => View(v.transcript + [m], SecretAfter(m, v.transcript, v.secret), v.enc)
  }

  /** The records are phases j to i of the script, all from one end, honest as
      seen from `v`, and lead to `w`. */
  ghost predicate Carries(p: Params, fromClient: bool, v: View, j: nat, i: nat, records: seq<Record>, w: View)
    decreases i - j
  {
    if j >= i then j == i && records == [] && v == w
    else match Phase(p, j)
      case None => Carries(p, fromClient, v, j + 1, i, records, w)
      case Some(e) =>
        && e.fromClient == fromClient && records != [] && records[0] == ItemOf(p, e, v)
        && Carries(p, fromClient, After(v, records[0]), j + 1, i, records[1..], w)
  }

  /** One more phase sent. */
  lemma {:induction false} CarriesOneMore(p: Params, fromClient: bool, v: View, j: nat, i: nat,
                                          records: seq<Record>, w: View)
    requires Carries(p, fromClient, v, j, i, records, w)
    ensures Phase(p, i).None? ==> Carries(p, fromClient, v, j, i + 1, records, w)
    ensures Phase(p, i).Some? && Phase(p, i).value.fromClient == fromClient ==>
              var r := ItemOf(p, Phase(p, i).value, w);
              Carries(p, fromClient, v, j, i + 1, records + [r], After(w, r))
    decreases i - j
  {
    hide Phase, ItemOf, After;
    if j < i {
      match Phase(p, j)
      case None => CarriesOneMore(p, fromClient, v, j + 1, i, records, w);
      case Some(e) =>
        CarriesOneMore(p, fromClient, After(v, records[0]), j + 1, i, records[1..], w);
        if Phase(p, i).Some? {
          var r := ItemOf(p, Phase(p, i).value, w);
          assert (records + [r])[1..] == records[1..] + [r];
        }
    } else if Phase(p, i).Some? {
      var r := ItemOf(p, Phase(p, i).value, w);
      assert ([] + [r])[1..] == [];
    }
  }

  /** The first record is some phase's from j on. */
  lemma {:induction false} FirstRecord(p: Params, fromClient: bool, v: View, j: nat, i: nat,
                                       records: seq<Record>, w: View) returns (k: nat)
    requires Carries(p, fromClient, v, j, i, records, w) && records != []
    ensures j <= k < i && Phase(p, k).Some? && records[0] == ItemOf(p, Phase(p, k).value, v)
    ensures Phase(p, k).value.fromClient == fromClient
    ensures forall h :: j <= h < k ==> Phase(p, h).None?
    decreases i - j
  {
    if Phase(p, j).Some? {
      k := j;
    } else {
      k := FirstRecord(p, fromClient, v, j + 1, i, records, w);
    }
  }

  // ----- The messages of a whole handshake --------------------------------

  /** The transcript and secret after the first `k` phases, which do not depend
      on which end looks. */
  function Progress(p: Params, k: nat): (seq<Msg>, Secret) {
    if k == 0 then ([], if p.resumed then OfSession else NoSecret) else
    var (t, secret) := Progress(p, k - 1);
    match Phase(p, k - 1)
    case None => (t, secret)
    case Some(e) =>
      match e.what
      case Ccs => (t, secret)
      case Message(kind) =>
        var m := Msg(kind, e.fromClient, BodyOf(p, kind, e.fromClient, t, secret));
        (t + [m], SecretAfter(m, t, secret))
  }

  /** Carrying the phases from j to i carries the transcript along. */
  lemma {:induction false} CarriesProgress(p: Params, fromClient: bool, v: View, j: nat, i: nat,
                                           records: seq<Record>, w: View)
    requires Carries(p, fromClient, v, j, i, records, w) && (v.transcript, v.secret) == Progress(p, j)
    ensures (w.transcript, w.secret) == Progress(p, i)
    decreases i - j
  {
    hide Phase, BodyOf;
    if j < i {
      match Phase(p, j)
      case None => CarriesProgress(p, fromClient, v, j + 1, i, records, w);
      case Some(_) => CarriesProgress(p, fromClient, After(v, records[0]), j + 1, i, records[1..], w);
    }
  }
}
