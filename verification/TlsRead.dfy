/** The TLS handshake read path: messages out of a buffer that whole records
    are appended to. */
module TlsRead {
  import opened Bytes
  import opened RecordTypes

  const HEADER: nat := 4

  datatype AlertCode = UnexpectedMessage | IllegalParameter | InternalError

  datatype Parsed = Whole(typ: byte, raw: seq<byte>) | Need(n: nat)

  function BodyLength(s: seq<byte>): nat
    requires |s| >= HEADER
  {
    FromBE(s[1..4])
  }

  /** The message at the front of the buffer, or how many bytes it needs. */
  function ParseMessage(buf: Option<seq<byte>>): Parsed {
    if buf.None? || |buf.value| < HEADER then Need(HEADER)
    else
      var n := HEADER + BodyLength(buf.value);
      if |buf.value| < n then Need(n) else Whole(buf.value[0], buf.value[..n])
  }

  /** `buf` is none when no buffer is allocated. */
  datatype Reader = Reader(buf: Option<seq<byte>>, hasMessage: bool)
  {
    function Bytes(): seq<byte> { if buf.Some? then buf.value else [] }
  }

  function GetMessage(r: Reader): (Option<(byte, seq<byte>)>, Reader) {
    match ParseMessage(r.buf)
    case Need(_) => (None, r)
    case Whole(typ, raw) => (Some((typ, raw)), r.(hasMessage := true))
  }

  function NextMessage(r: Reader, inInit: bool): Reader
    requires ParseMessage(r.buf).Whole?
  {
    var rest := r.buf.value[|ParseMessage(r.buf).raw|..];
    Reader(if !inInit && rest == [] then None else Some(rest), false)
  }

  /** A record is opened only when the message before was consumed and what is
      buffered does not announce too long a one. */
  function Refuses(buf: Option<seq<byte>>, maxLen: nat): Option<AlertCode> {
    match ParseMessage(buf)
    case Whole(_, _) => Some(InternalError)
    case Need(n) => if n > HEADER + maxLen then Some(IllegalParameter) else None
  }

  /** A record of type `typ`, opened. */
  function AcceptRecord(r: Reader, maxLen: nat, typ: byte, body: seq<byte>): (Reader, Option<AlertCode>) {
    var r1 := r.(buf := Some(r.Bytes()));
    match Refuses(r1.buf, maxLen)
    case Some(code) => (r1, Some(code))
    case None =>
      if typ != RT_HANDSHAKE then (r1, Some(UnexpectedMessage)) else (r1.(buf := Some(r.Bytes() + body)), None)
  }

  predicate HasUnprocessed(r: Reader) {
    var current := if r.hasMessage && ParseMessage(r.buf).Whole? then |ParseMessage(r.buf).raw| else 0;
    r.buf.Some? && |r.buf.value| > current
  }

  // ----- The messages in a byte stream ------------------------------------

  predicate IsFrame(m: seq<byte>) {
    |m| >= HEADER && |m| == HEADER + BodyLength(m)
  }

  function Concat(ms: seq<seq<byte>>): seq<byte> {
    if ms == [] then [] else ms[0] + Concat(ms[1..])
  }

  /** The whole messages at the front of a stream. */
  function Frames(s: seq<byte>): seq<seq<byte>>
    decreases |s|
  {
    match ParseMessage(Some(s))
    case Need(_) => []
    case Whole(_, raw) => [raw] + Frames(s[|raw|..])
  }

  lemma FrameInFront(m: seq<byte>, s: seq<byte>)
    requires IsFrame(m)
    ensures ParseMessage(Some(m + s)) == Whole(m[0], m)
    ensures Frames(m + s) == [m] + Frames(s)
  {
    assert (m + s)[1..4] == m[1..4];
    assert (m + s)[..|m|] == m && (m + s)[|m|..] == s;
  }

  lemma {:induction false} FramesAfter(ms: seq<seq<byte>>, s: seq<byte>)
    requires forall i :: 0 <= i < |ms| ==> IsFrame(ms[i])
    ensures Frames(Concat(ms) + s) == ms + Frames(s)
  {
    hide Frames, IsFrame;
    if ms == [] {
      assert [] + s == s && ms + Frames(s) == Frames(s);
    } else {
      assert Concat(ms) + s == ms[0] + (Concat(ms[1..]) + s);
      FrameInFront(ms[0], Concat(ms[1..]) + s);
      FramesAfter(ms[1..], s);
      assert [ms[0]] + (ms[1..] + Frames(s)) == ms + Frames(s);
    }
  }

  lemma {:induction false} ConcatSnoc(ms: seq<seq<byte>>, m: seq<byte>)
    ensures Concat(ms + [m]) == Concat(ms) + m
  {
    if ms == [] {
      assert Concat([m]) == m + Concat([m][1..]);
      assert m + [] == [] + m;
    } else {
      assert (ms + [m])[1..] == ms[1..] + [m];
      ConcatSnoc(ms[1..], m);
      assert ms[0] + (Concat(ms[1..]) + m) == (ms[0] + Concat(ms[1..])) + m;
    }
  }

  // ----- Runs -------------------------------------------------------------

  datatype Event = Record(typ: byte, body: seq<byte>) | Take

  /** The reader, all handshake bytes accepted, and the messages taken. */
  datatype Run = Run(r: Reader, received: seq<byte>, taken: seq<seq<byte>>, failed: bool)

  function Step(run: Run, maxLen: nat, inInit: bool, e: Event): Run {
    if run.failed then run else
    match e
    case Record(typ, body) =>
      var (r', code) := AcceptRecord(run.r, maxLen, typ, body);
      if code.Some? then run.(r := r', failed := true) else run.(r := r', received := run.received + body)
    case Take =>
      match GetMessage(run.r).0
      case None => run
      case Some(m) => run.(r := NextMessage(GetMessage(run.r).1, inInit), taken := run.taken + [m.1])
  }

  function RunAll(run: Run, maxLen: nat, inInit: bool, events: seq<Event>): Run {
    if events == [] then run
    else Step(RunAll(run, maxLen, inInit, events[..|events| - 1]), maxLen, inInit, events[|events| - 1])
  }

  const START := Run(Reader(None, false), [], [], false)

  /** The messages taken and then the buffer are the bytes received. */
  ghost predicate Inv(run: Run) {
    && (forall i :: 0 <= i < |run.taken| ==> IsFrame(run.taken[i]))
    && Concat(run.taken) + run.r.Bytes() == run.received
  }

  lemma WholeIsFrame(buf: seq<byte>)
    requires ParseMessage(Some(buf)).Whole?
    ensures var raw := ParseMessage(Some(buf)).raw; IsFrame(raw) && raw + buf[|raw|..] == buf
  {
    var raw := ParseMessage(Some(buf)).raw;
    assert raw[1..4] == buf[1..4];
  }

  lemma StepKeepsInv(run: Run, maxLen: nat, inInit: bool, e: Event)
    requires Inv(run)
    ensures Inv(Step(run, maxLen, inInit, e))
  {
    hide IsFrame, Concat, BodyLength;
    if !run.failed {
      match e
      case Record(typ, body) =>
        assert Concat(run.taken) + (run.r.Bytes() + body) == (Concat(run.taken) + run.r.Bytes()) + body;
      case Take =>
        if ParseMessage(run.r.buf).Whole? {
          var raw := ParseMessage(run.r.buf).raw;
          WholeIsFrame(run.r.buf.value);
          ConcatSnoc(run.taken, raw);
          var rest := run.r.buf.value[|raw|..];
          assert (Concat(run.taken) + raw) + rest == Concat(run.taken) + (raw + rest);
        }
    }
  }

  /** Record boundaries are invisible.  Whatever the records and whenever
      messages are taken, those taken and those still whole in the buffer are
      the messages of the byte stream received. */
  lemma {:induction false} BoundariesInvisible(maxLen: nat, inInit: bool, events: seq<Event>)
    ensures var run := RunAll(START, maxLen, inInit, events);
            && Inv(run)
            && run.taken + Frames(run.r.Bytes()) == Frames(run.received)
  {
    hide Step, Frames, IsFrame;
    if events != [] {
      BoundariesInvisible(maxLen, inInit, events[..|events| - 1]);
      StepKeepsInv(RunAll(START, maxLen, inInit, events[..|events| - 1]), maxLen, inInit, events[|events| - 1]);
    }
    var run := RunAll(START, maxLen, inInit, events);
    FramesAfter(run.taken, run.r.Bytes());
  }

  /** So two ways to cut one stream into records give the same messages. */
  lemma SameStreamSameMessages(maxLen: nat, inInit: bool, a: seq<Event>, b: seq<Event>)
    requires RunAll(START, maxLen, inInit, a).received == RunAll(START, maxLen, inInit, b).received
    requires ParseMessage(RunAll(START, maxLen, inInit, a).r.buf).Need?
    requires ParseMessage(RunAll(START, maxLen, inInit, b).r.buf).Need?
    ensures RunAll(START, maxLen, inInit, a).taken == RunAll(START, maxLen, inInit, b).taken
  {
    hide RunAll, BodyLength;
    BoundariesInvisible(maxLen, inInit, a);
    BoundariesInvisible(maxLen, inInit, b);
    Drained(RunAll(START, maxLen, inInit, a));
    Drained(RunAll(START, maxLen, inInit, b));
  }

  lemma Drained(run: Run)
    requires ParseMessage(run.r.buf).Need?
    ensures run.taken + Frames(run.r.Bytes()) == run.taken
  {
  }

  /** Unprocessed data is exactly what lies behind the message looked at. */
  lemma UnprocessedIsBehind(r: Reader)
    requires r.hasMessage ==> ParseMessage(r.buf).Whole?
    ensures HasUnprocessed(r) <==>
            (if r.hasMessage then NextMessage(r, true).Bytes() else r.Bytes()) != []
  {
  }

  // ----- A sender's messages through any cut ------------------------------

  predicate AllFrames(ms: seq<seq<byte>>) {
    forall i :: 0 <= i < |ms| ==> IsFrame(ms[i])
  }

  predicate NotTooLong(ms: seq<seq<byte>>, maxLen: nat) {
    forall i :: 0 <= i < |ms| ==> |ms[i]| <= HEADER + maxLen
  }

  /** A stream of messages has just those messages. */
  lemma FramesOfStream(ms: seq<seq<byte>>)
    requires AllFrames(ms)
    ensures Frames(Concat(ms)) == ms
  {
    FramesAfter(ms, []);
    assert Concat(ms) + [] == Concat(ms);
    assert Frames([]) == [];
  }

  /** What was taken is the front of the sender's messages, and what is buffered
      the front of the others. */
  lemma FrontOfStream(run: Run, ms: seq<seq<byte>>, later: seq<byte>)
    requires Inv(run) && AllFrames(ms) && Concat(ms) == run.received + later
    ensures run.taken + Frames(run.r.Bytes() + later) == ms
  {
    hide Frames, IsFrame;
    var buf := run.r.Bytes();
    assert Concat(ms) == Concat(run.taken) + (buf + later);
    FramesOfStream(ms);
    FramesAfter(run.taken, buf + later);
  }

  /** Records are never refused while they carry the messages of an honest
      sender, each within the limit, and each message is taken when whole. */
  lemma NeverRefused(run: Run, maxLen: nat, ms: seq<seq<byte>>, later: seq<byte>)
    requires Inv(run) && ParseMessage(run.r.buf).Need?
    requires AllFrames(ms) && NotTooLong(ms, maxLen) && Concat(ms) == run.received + later
    ensures Refuses(Some(run.r.Bytes()), maxLen).None?
  {
    hide IsFrame, Concat;
    var buf := run.r.Bytes();
    FrontOfStream(run, ms, later);
    if |buf| >= HEADER {
      assert (buf + later)[1..4] == buf[1..4];
      assert |Concat(ms)| > |Concat(run.taken)|;
      assert run.taken + [] == run.taken;
      assert Frames(buf + later) != [];
      assert ms[|run.taken|] == ParseMessage(Some(buf + later)).raw;
    }
  }

  lemma Remainder(c: seq<byte>, buf: seq<byte>, later: seq<byte>)
    requires c == c + buf + later
    ensures buf == []
  {
  }

  /** Takes until the next message is not whole. */
  function Drain(run: Run, inInit: bool): Run
    requires !run.failed
    decreases |run.r.Bytes()|
  {
    if ParseMessage(run.r.buf).Need? then run else Drain(Step(run, 0, inInit, Take), inInit)
  }

  /** A record after another, each followed by taking what is whole. */
  function Feed(run: Run, maxLen: nat, inInit: bool, bodies: seq<seq<byte>>): Run
    decreases |bodies|
  {
    if bodies == [] || run.failed then run else
    var run1 := Step(run, maxLen, inInit, Record(RT_HANDSHAKE, bodies[0]));
    if run1.failed then run1 else Feed(Drain(run1, inInit), maxLen, inInit, bodies[1..])
  }

  lemma {:induction false} DrainKeepsInv(run: Run, inInit: bool)
    requires !run.failed && Inv(run)
    ensures var end := Drain(run, inInit);
            Inv(end) && !end.failed && end.received == run.received && ParseMessage(end.r.buf).Need?
    decreases |run.r.Bytes()|
  {
    hide Inv, BodyLength;
    if ParseMessage(run.r.buf).Whole? {
      StepKeepsInv(run, 0, inInit, Take);
      DrainKeepsInv(Step(run, 0, inInit, Take), inInit);
    }
  }

  /** Whatever records the messages of a sender come in, one message to several
      or several to one, a reader who takes messages as they become whole gets
      exactly those messages, and no record is refused. */
  lemma {:induction false} FeedDelivers(run: Run, maxLen: nat, inInit: bool, ms: seq<seq<byte>>, bodies: seq<seq<byte>>)
    requires Inv(run) && !run.failed && ParseMessage(run.r.buf).Need?
    requires AllFrames(ms) && NotTooLong(ms, maxLen) && Concat(ms) == run.received + Concat(bodies)
    ensures var end := Feed(run, maxLen, inInit, bodies);
            !end.failed && end.taken == ms && end.r.Bytes() == []
    decreases |bodies|
  {
    hide Frames, IsFrame, ParseMessage, BodyLength;
    if bodies == [] {
      FrontOfStream(run, ms, []);
      assert run.r.Bytes() + [] == run.r.Bytes();
      Drained(run);
      Remainder(Concat(ms), run.r.Bytes(), []);
    } else {
      NeverRefused(run, maxLen, ms, Concat(bodies));
      var e := Record(RT_HANDSHAKE, bodies[0]);
      var run1 := Step(run, maxLen, inInit, e);
      StepKeepsInv(run, maxLen, inInit, e);
      DrainKeepsInv(run1, inInit);
      assert run.received + Concat(bodies) == (run.received + bodies[0]) + Concat(bodies[1..]);
      FeedDelivers(Drain(run1, inInit), maxLen, inInit, ms, bodies[1..]);
    }
  }

  // ----- Any records at all -----------------------------------------------

  /** The length in a message's header. */
  function Announced(b: seq<byte>): nat
    requires |b| >= 4
  {
    Pair(Pair(b[1], b[2]), b[3])
  }

  /** The header's length and its bytes are all there. */
  predicate AllThere(b: seq<byte>) { |b| >= 4 && |b| >= 4 + Announced(b) }

  lemma MessageExactly(buf: Option<seq<byte>>)
    ensures var b := if buf.Some? then buf.value else [];
            if AllThere(b) then ParseMessage(buf) == Whole(b[0], b[..4 + Announced(b)])
            else ParseMessage(buf) == Need(if |b| >= 4 then 4 + Announced(b) else 4)
  {
    if buf.Some? && |buf.value| >= 4 {
      FromThree(buf.value[1..4]);
    }
  }

  /** Any record is refused exactly if a whole message has not been taken yet, or
      the one begun announces more than is admitted, or it is no handshake record;
      anything else is appended. */
  lemma RefusedExactly(r: Reader, maxLen: nat, typ: byte, body: seq<byte>)
    ensures var b := r.Bytes();
            var (r', code) := AcceptRecord(r, maxLen, typ, body);
            && code == (if AllThere(b) then Some(InternalError)
                        else if |b| >= 4 && Announced(b) > maxLen then Some(IllegalParameter)
                        else if typ != 22 then Some(UnexpectedMessage) else None)
            && r'.hasMessage == r.hasMessage && r'.Bytes() == b + (if code.None? then body else [])
  {
    hide BodyLength;
    MessageExactly(Some(r.Bytes()));
  }

  /** So whatever comes, no more is ever buffered than a message of the length
      admitted and the rest of one record. */
  lemma {:induction false} BufferBounded(maxLen: nat, inInit: bool, events: seq<Event>)
    requires forall i :: 0 <= i < |events| && events[i].Record? ==> |events[i].body| <= MAX_PLAIN
    ensures |RunAll(START, maxLen, inInit, events).r.Bytes()| < 4 + maxLen + MAX_PLAIN
  {
    hide BodyLength;
    if events != [] {
      BufferBounded(maxLen, inInit, events[..|events| - 1]);
      var run, e := RunAll(START, maxLen, inInit, events[..|events| - 1]), events[|events| - 1];
      if e.Record? {
        RefusedExactly(run.r, maxLen, e.typ, e.body);
      }
    }
  }

  /** Looking at a message and taking it: what is unprocessed is what lies behind
      the one looked at, and else whatever is there; and once the handshake is
      done, an empty buffer is not kept. */
  lemma LookingExactly(r: Reader, inInit: bool)
    requires AllThere(r.Bytes())
    ensures var (message, looked) := GetMessage(r);
            var n := 4 + Announced(r.Bytes());
            && message == Some((r.Bytes()[0], r.Bytes()[..n])) && looked.Bytes() == r.Bytes()
            && (HasUnprocessed(looked) <==> |r.Bytes()| > n)
            && ParseMessage(looked.buf).Whole?
            && var next := NextMessage(looked, inInit);
               && next.Bytes() == r.Bytes()[n..] && !next.hasMessage
               && (HasUnprocessed(next) <==> |r.Bytes()| > n)
               && (next.buf.None? <==> !inInit && |r.Bytes()| == n)
  {
    hide BodyLength;
    MessageExactly(r.buf);
  }

  // ----- The reader in memory ---------------------------------------------

  /** Overlapping move to the front of a buffer. */
  method MoveDown(data: array<byte>, n: nat, length: nat)
    requires n <= length <= data.Length
    modifies data
    ensures data[..length - n] == old(data[n..length])
  {
    for i := 0 to length - n
      invariant forall j :: 0 <= j < i ==> data[j] == old(data[n + j])
      invariant forall j :: i <= j < data.Length ==> data[j] == old(data[j])
    {
      data[i] := data[n + i];
    }
  }

  class HandshakeBuffer {
    var hsBuf: array?<byte>
    var length: nat
    var hasMessage: bool

    ghost predicate Valid()
      reads this
    {
      if hsBuf == null then length == 0 else length <= hsBuf.Length
    }

    function View(): Reader
      requires Valid()
      reads this, hsBuf
    {
      Reader(if hsBuf == null then None else Some(hsBuf[..length]), hasMessage)
    }

    constructor ()
      ensures Valid() && View() == START.r
    {
      hsBuf, length, hasMessage := null, 0, false;
    }

    method Get() returns (message: Option<(byte, seq<byte>)>)
      requires Valid()
      modifies this`hasMessage
      ensures Valid() && (message, View()) == GetMessage(old(View()))
    {
      var parsed := ParseMessage(View().buf);
      if parsed.Need? {
        return None;
      }
      hasMessage := true;
      message := Some((parsed.typ, parsed.raw));
    }

    /** Moves what is behind the message to the front, in place. */
    method Next(inInit: bool)
      requires Valid() && ParseMessage(View().buf).Whole?
      modifies this, hsBuf
      ensures Valid() && View() == NextMessage(old(View()), inInit)
    {
      var n := |ParseMessage(View().buf).raw|;
      ghost var before := hsBuf[..length];
      MoveDown(hsBuf, n, length);
      length := length - n;
      assert hsBuf[..length] == before[n..];
      hasMessage := false;
      if !inInit && length == 0 {
        hsBuf := null;
      }
    }

    /** Appends a whole record, in a larger buffer if need be. */
    method Append(body: seq<byte>)
      requires Valid() && hsBuf != null
      modifies this, hsBuf
      ensures Valid() && hsBuf != null && hasMessage == old(hasMessage)
      ensures hsBuf == old(hsBuf) || fresh(hsBuf)
      ensures View().buf == Some(old(View()).Bytes() + body)
    {
      ghost var before := hsBuf[..length];
      if length + |body| > hsBuf.Length {
        var larger := new byte[length + |body|];
        CopyInto(larger, 0, hsBuf[..length]);
        assert larger[..length] == before;
        hsBuf := larger;
      }
      CopyInto(hsBuf, length, body);
      length := length + |body|;
      assert hsBuf[..length] == before + body;
    }

    /** A record of type `typ` that was opened into `body`. */
    method Accept(maxLen: nat, typ: byte, body: seq<byte>) returns (code: Option<AlertCode>)
      requires Valid()
      modifies this, hsBuf
      ensures Valid() && (View(), code) == AcceptRecord(old(View()), maxLen, typ, body)
    {
      if hsBuf == null {
        hsBuf := new byte[0];
      }
      assert View().buf == Some(old(View()).Bytes());
      code := Refuses(View().buf, maxLen);
      if code.Some? {
        return;
      }
      if typ != RT_HANDSHAKE {
        return Some(UnexpectedMessage);
      }
      Append(body);
    }

    method Unprocessed() returns (found: bool)
      requires Valid()
      ensures found == HasUnprocessed(View())
    {
      var messageLen := 0;
      if hasMessage {
        var parsed := ParseMessage(View().buf);
        if parsed.Whole? {
          messageLen := |parsed.raw|;
        }
      }
      found := hsBuf != null && length > messageLen;
    }
  }
}
