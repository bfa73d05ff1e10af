/** DTLS records: reading under epochs and the replay window, and the record
    numbers a writer uses. */
module DtlsRecord {
  import opened Bytes
  import opened RecordTypes
  import opened ReplayWindow

  const HEADER_LENGTH: nat := 13
  const MAX_ENCRYPTED: nat := 16384 + 256 + 64
  const DTLS_MAJOR: nat := 0xfe
  const SEQ_RANGE: nat := 0x1_0000_0000_0000
  const EPOCH_RANGE: nat := 0x1_0000

  datatype AlertCode =
    | UnexpectedMessage | RecordOverflow | IllegalParameter | DecodeError | InternalError

  datatype WireRecord = WireRecord(typ: byte, version: nat, epoch: nat, seqNum: nat, body: seq<byte>)
  {
    predicate Valid() {
      version < 0x1_0000 && epoch < EPOCH_RANGE && seqNum < SEQ_RANGE && |body| < 0x1_0000
    }

    /** The 8-byte sequence field as one integer, epoch first. */
    function Number(): nat { epoch * SEQ_RANGE + seqNum }
  }

  function RecordBytes(r: WireRecord): (s: seq<byte>)
    ensures |s| == HEADER_LENGTH + |r.body|
  {
    [r.typ] + ToBE(r.version, 2) + ToBE(r.epoch, 2) + ToBE(r.seqNum, 6) + ToBE(|r.body|, 2) + r.body
  }

  function ParseRecord(s: seq<byte>): Option<(WireRecord, seq<byte>)> {
    if |s| < HEADER_LENGTH then None else
    var len := FromBE(s[11..13]);
    if |s| - HEADER_LENGTH < len || len > MAX_ENCRYPTED then None else
    Some((WireRecord(s[0], FromBE(s[1..3]), FromBE(s[3..5]), FromBE(s[5..11]),
                     s[HEADER_LENGTH..HEADER_LENGTH + len]),
          s[HEADER_LENGTH + len..]))
  }

  /** A record is read back whole from the front of a packet, unless its body
      is longer than any receiver admits. */
  lemma RecordRoundTrip(r: WireRecord, rest: seq<byte>)
    requires r.Valid()
    ensures ParseRecord(RecordBytes(r) + rest) ==
            if |r.body| <= MAX_ENCRYPTED then Some((r, rest)) else None
  {
    var s := RecordBytes(r) + rest;
    Ranges();
    BigEndianRoundTrip(r.version, 2);
    BigEndianRoundTrip(r.epoch, 2);
    BigEndianRoundTrip(r.seqNum, 6);
    BigEndianRoundTrip(|r.body|, 2);
    assert s[1..3] == ToBE(r.version, 2);
    assert s[3..5] == ToBE(r.epoch, 2);
    assert s[5..11] == ToBE(r.seqNum, 6);
    assert s[11..13] == ToBE(|r.body|, 2);
    assert s[HEADER_LENGTH..HEADER_LENGTH + |r.body|] == r.body;
    assert s[HEADER_LENGTH + |r.body|..] == rest;
  }

  /** Any bytes: they begin with a record exactly if they are its bytes and
      whatever follows, and its body is not too long. */
  lemma ParsesExactly(s: seq<byte>, r: WireRecord, rest: seq<byte>)
    ensures ParseRecord(s) == Some((r, rest)) <==>
              r.Valid() && |r.body| <= MAX_ENCRYPTED && s == RecordBytes(r) + rest
  {
    if r.Valid() && s == RecordBytes(r) + rest {
      RecordRoundTrip(r, rest);
    }
    if ParseRecord(s) == Some((r, rest)) {
      Ranges();
      BigEndianUnique(s[1..3]);
      BigEndianUnique(s[3..5]);
      BigEndianUnique(s[5..11]);
      BigEndianUnique(s[11..13]);
      FromBEBound(s[1..3]);
      FromBEBound(s[3..5]);
      FromBEBound(s[5..11]);
      assert s == [s[0]] + s[1..3] + s[3..5] + s[5..11] + s[11..13] + r.body + rest;
    }
  }

  /** Where the fields of a record lie in its bytes, high bytes first. */
  lemma RecordLayout(r: WireRecord)
    requires r.Valid()
    ensures var s := RecordBytes(r);
            && s[0] == r.typ && Pair(s[1], s[2]) == r.version && Pair(s[3], s[4]) == r.epoch
            && Pair(Pair(Pair(Pair(Pair(s[5], s[6]), s[7]), s[8]), s[9]), s[10]) == r.seqNum
            && Pair(s[11], s[12]) == |r.body| && s[13..] == r.body
  {
    var s := RecordBytes(r);
    Ranges();
    assert s[1..3] == ToBE(r.version, 2) && s[3..5] == ToBE(r.epoch, 2);
    assert s[5..11] == ToBE(r.seqNum, 6) && s[11..13] == ToBE(|r.body|, 2);
    TwoBytes(r.version);
    TwoBytes(r.epoch);
    TwoBytes(|r.body|);
    SixBytes(r.seqNum);
  }

  // ----- Reading ----------------------------------------------------------

  /** The read cipher.  `open` is the decryption; `None` is a record that does
      not open.  The null cipher passes bodies through. */
  datatype ReadCipher = ReadCipher(isNull: bool, version: nat, open: WireRecord -> Option<seq<byte>>)
  {
    function Open(r: WireRecord): Option<seq<byte>> {
      if isNull then Some(r.body) else open(r)
    }

    predicate VersionOk(v: nat) {
      if isNull then v / 0x100 == DTLS_MAJOR else v == version
    }
  }

  datatype OpenResult =
    | CloseNotify
    | NeedMore
    | Discard
    | Failed(code: AlertCode)
    | Alert(content: seq<byte>)
    | Opened(typ: byte, content: seq<byte>)

  datatype ReadState = ReadState(epoch: nat, window: Window, cipher: ReadCipher, closed: bool)

  predicate Stale(s: ReadState, r: WireRecord) {
    r.epoch != s.epoch || ShouldDiscard(s.window, r.Number())
  }

  /** What becomes of a well-framed record. */
  function OpenParsed(s: ReadState, r: WireRecord): (OpenResult, ReadState) {
    if Stale(s, r) then (Discard, s) else
    match s.cipher.Open(r)
    case None => (Discard, s)
    case Some(plain) =>
      if |plain| > MAX_PLAIN then (Failed(RecordOverflow), s) else
      (if r.typ == RT_ALERT then Alert(plain) else Opened(r.typ, plain),
       s.(window := Record(s.window, r.Number())))
  }

  /** Opening the first record of `input`: the result, how much of `input` is
      consumed, and the new state. */
  function OpenRecord(s: ReadState, input: seq<byte>): (OpenResult, nat, ReadState) {
    if s.closed then (CloseNotify, 0, s)
    else if input == [] then (NeedMore, 0, s)
    else match ParseRecord(input)
      case None => (Discard, |input|, s)
      case Some((r, rest)) =>
        if !s.cipher.VersionOk(r.version) then (Discard, |input|, s)
        else
          var (result, s') := OpenParsed(s, r);
          (result, |input| - |rest|, s')
  }

  function NewReadEpoch(s: ReadState, cipher: ReadCipher): ReadState {
    ReadState((s.epoch + 1) % EPOCH_RANGE, EMPTY_WINDOW, cipher, s.closed)
  }

  class RecordReader {
    var epoch: nat
    const bitmap: Bitmap
    var cipher: ReadCipher
    var closed: bool

    ghost function View(): ReadState
      reads this, bitmap
    {
      ReadState(epoch, bitmap.View(), cipher, closed)
    }

    constructor (cipher: ReadCipher)
      ensures View() == ReadState(0, EMPTY_WINDOW, cipher, false)
      ensures fresh(bitmap)
    {
      epoch, this.cipher, closed := 0, cipher, false;
      bitmap := new Bitmap();
    }

    method Open(input: seq<byte>) returns (result: OpenResult, consumed: nat)
      modifies bitmap
      ensures (result, consumed, View()) == OpenRecord(old(View()), input)
      ensures consumed <= |input|
    {
      consumed := 0;
      if closed {
        return CloseNotify, 0;
      }
      if input == [] {
        return NeedMore, 0;
      }
      var parsed := ParseRecord(input);
      if parsed.None? || !cipher.VersionOk(parsed.value.0.version) {
        return Discard, |input|;
      }
      var r, rest := parsed.value.0, parsed.value.1;
      consumed := |input| - |rest|;
      var discard := bitmap.Discards(r.Number());
      if r.epoch != epoch || discard {
        return Discard, consumed;
      }
      var plain := cipher.Open(r);
      if plain.None? {
        return Discard, consumed;
      }
      if |plain.value| > MAX_PLAIN {
        return Failed(RecordOverflow), consumed;
      }
      bitmap.Mark(r.Number());
      if r.typ == RT_ALERT {
        return Alert(plain.value), consumed;
      }
      result := Opened(r.typ, plain.value);
    }

    /** Refused while unprocessed handshake data is left over. */
    method SetCipher(next: ReadCipher, leftOver: bool) returns (ok: bool)
      modifies this, bitmap
      ensures ok == !leftOver && View() == if leftOver then old(View()) else NewReadEpoch(old(View()), next)
    {
      if leftOver {
        return false;
      }
      ok := true;
      epoch := (epoch + 1) % EPOCH_RANGE;
      bitmap.Clear();
      cipher := next;
    }
  }

  // ----- No record is delivered twice -------------------------------------

  datatype ReadEvent = Arrives(input: seq<byte>) | NewEpoch(cipher: ReadCipher)

  /** The reader, and the (epoch, number) of every record delivered so far. */
  datatype ReadRun = ReadRun(state: ReadState, delivered: seq<(nat, nat)>)

  predicate Delivers(result: OpenResult) { result.Alert? || result.Opened? }

  function ReadStep(run: ReadRun, e: ReadEvent): ReadRun {
    match e
    case NewEpoch(cipher) => run.(state := NewReadEpoch(run.state, cipher))
    case Arrives(input) =>
      var (result, _, s') := OpenRecord(run.state, input);
      if Delivers(result) then
        var r := ParseRecord(input).value.0;
        ReadRun(s', run.delivered + [(r.epoch, r.seqNum)])
      else run.(state := s')
  }

  function ReadAll(run: ReadRun, events: seq<ReadEvent>): ReadRun {
    if events == [] then run
    else ReadStep(ReadAll(run, events[..|events| - 1]), events[|events| - 1])
  }

  function EpochChanges(events: seq<ReadEvent>): nat {
    if events == [] then 0
    else EpochChanges(events[..|events| - 1]) + (if events[|events| - 1].NewEpoch? then 1 else 0)
  }

  function StartReading(cipher: ReadCipher): ReadRun {
    ReadRun(ReadState(0, EMPTY_WINDOW, cipher, false), [])
  }

  /** The numbers delivered in `epoch`, as the window sees them. */
  function NumbersOf(delivered: seq<(nat, nat)>, epoch: nat): (s: set<nat>)
    ensures forall n :: n in s <==>
              exists k :: 0 <= k < |delivered| && delivered[k].0 == epoch &&
                          n == epoch * SEQ_RANGE + delivered[k].1
  {
    if delivered == [] then {} else
    var front, last := delivered[..|delivered| - 1], delivered[|delivered| - 1];
    if last.0 == epoch then NumbersOf(front, epoch) + {epoch * SEQ_RANGE + last.1}
    else NumbersOf(front, epoch)
  }

  ghost predicate ReadInv(run: ReadRun, changes: nat) {
    && run.state.epoch == changes
    && Represents(run.state.window, NumbersOf(run.delivered, run.state.epoch))
    && NoRepeats(run.delivered, changes)
  }

  ghost predicate NoRepeats(delivered: seq<(nat, nat)>, changes: nat) {
    && (forall k :: 0 <= k < |delivered| ==> delivered[k].0 <= changes && delivered[k].1 < SEQ_RANGE)
    && (forall i, j :: 0 <= i < j < |delivered| ==> delivered[i] != delivered[j])
  }

  lemma NumbersOfSnoc(delivered: seq<(nat, nat)>, d: (nat, nat), epoch: nat)
    ensures NumbersOf(delivered + [d], epoch) ==
            NumbersOf(delivered, epoch) + (if d.0 == epoch then {epoch * SEQ_RANGE + d.1} else {})
  {
  }

  lemma DeliveryFacts(s: ReadState, input: seq<byte>)
    requires Delivers(OpenRecord(s, input).0)
    ensures ParseRecord(input).Some?
    ensures var r := ParseRecord(input).value.0;
            r.seqNum < SEQ_RANGE && !Stale(s, r) &&
            OpenRecord(s, input).2 == s.(window := Record(s.window, r.Number()))
  {
    FromBEBound(input[5..11]);
    Ranges();
  }

  predicate DistinctFrom(delivered: seq<(nat, nat)>, d: (nat, nat)) {
    forall k :: 0 <= k < |delivered| ==> delivered[k] != d
  }

  lemma NumberIdentifies(delivered: seq<(nat, nat)>, epoch: nat, seqNum: nat)
    ensures epoch * SEQ_RANGE + seqNum in NumbersOf(delivered, epoch) <==>
            !DistinctFrom(delivered, (epoch, seqNum))
  {
  }

  lemma FreshlyDelivered(run: ReadRun, r: WireRecord, changes: nat)
    requires ReadInv(run, changes)
    requires !Stale(run.state, r)
    ensures DistinctFrom(run.delivered, (r.epoch, r.seqNum))
  {
    DiscardsExactly(run.state.window, NumbersOf(run.delivered, r.epoch), r.Number());
    NumberIdentifies(run.delivered, r.epoch, r.seqNum);
  }

  lemma WindowFollows(w: Window, delivered: seq<(nat, nat)>, r: WireRecord)
    requires Represents(w, NumbersOf(delivered, r.epoch))
    ensures Represents(Record(w, r.Number()), NumbersOf(delivered + [(r.epoch, r.seqNum)], r.epoch))
  {
    RecordAdds(w, NumbersOf(delivered, r.epoch), r.Number());
    NumbersOfSnoc(delivered, (r.epoch, r.seqNum), r.epoch);
  }

  lemma DeliveryKeepsInv(run: ReadRun, r: WireRecord, changes: nat)
    requires ReadInv(run, changes)
    requires r.seqNum < SEQ_RANGE && !Stale(run.state, r)
    ensures ReadInv(ReadRun(run.state.(window := Record(run.state.window, r.Number())),
                            run.delivered + [(r.epoch, r.seqNum)]), changes)
  {
    FreshlyDelivered(run, r, changes);
    WindowFollows(run.state.window, run.delivered, r);
    assert NoRepeats(run.delivered + [(r.epoch, r.seqNum)], changes);
  }

  lemma ReadStepKeepsInv(run: ReadRun, e: ReadEvent, changes: nat)
    requires ReadInv(run, changes)
    requires e.NewEpoch? ==> changes + 1 < EPOCH_RANGE
    ensures ReadInv(ReadStep(run, e), changes + (if e.NewEpoch? then 1 else 0))
  {
    hide ParseRecord, Represents, Record, ShouldDiscard;
    if e.NewEpoch? {
      assert NumbersOf(run.delivered, changes + 1) == {};
      EmptyWindow();
    } else if Delivers(OpenRecord(run.state, e.input).0) {
      DeliveryFacts(run.state, e.input);
      DeliveryKeepsInv(run, ParseRecord(e.input).value.0, changes);
    } else {
      assert OpenRecord(run.state, e.input).2 == run.state;
    }
  }

  /** Over any run, until the 16-bit epoch would wrap, no (epoch, sequence) is
      delivered twice, and the window stands for the numbers delivered in the
      current epoch. */
  lemma {:induction false} NoRecordTwice(cipher: ReadCipher, events: seq<ReadEvent>)
    requires EpochChanges(events) < EPOCH_RANGE
    ensures ReadInv(ReadAll(StartReading(cipher), events), EpochChanges(events))
  {
    if events == [] {
      EmptyWindow();
    } else {
      NoRecordTwice(cipher, events[..|events| - 1]);
      ReadStepKeepsInv(ReadAll(StartReading(cipher), events[..|events| - 1]), events[|events| - 1],
                       EpochChanges(events[..|events| - 1]));
    }
  }

  /** A record of the current epoch is refused as a replay exactly when it was
      delivered before or is 64 or more behind the newest one delivered; and a
      record that does not open leaves the reader as it was. */
  lemma RefusedExactly(cipher: ReadCipher, events: seq<ReadEvent>, r: WireRecord)
    requires EpochChanges(events) < EPOCH_RANGE && r.seqNum < SEQ_RANGE
    ensures var run := ReadAll(StartReading(cipher), events);
            && (r.epoch == run.state.epoch ==>
                 (Stale(run.state, r) <==>
                    !DistinctFrom(run.delivered, (r.epoch, r.seqNum)) ||
                    r.Number() + WINDOW <= run.state.window.max))
            && (run.state.cipher.Open(r).None? ==> OpenParsed(run.state, r) == (Discard, run.state))
  {
    NoRecordTwice(cipher, events);
    var run := ReadAll(StartReading(cipher), events);
    if r.epoch == run.state.epoch {
      DiscardsExactly(run.state.window, NumbersOf(run.delivered, r.epoch), r.Number());
      NumberIdentifies(run.delivered, r.epoch, r.seqNum);
    }
  }

  // ----- Which key a record is opened with --------------------------------

  /** The keys of epochs 0, 1 and so on: the first one and those changed to. */
  function KeysRead(first: ReadCipher, events: seq<ReadEvent>): (keys: seq<ReadCipher>)
    ensures |keys| == EpochChanges(events) + 1
  {
    if events == [] then [first] else
    KeysRead(first, events[..|events| - 1]) +
    match events[|events| - 1] case NewEpoch(next) => [next] case Arrives(_) => []
  }

  lemma {:induction false} HoldsKey(first: ReadCipher, events: seq<ReadEvent>)
    requires EpochChanges(events) < EPOCH_RANGE
    ensures var s := ReadAll(StartReading(first), events).state;
            !s.closed && s.epoch == EpochChanges(events) && s.cipher == KeysRead(first, events)[s.epoch]
  {
    if events != [] {
      HoldsKey(first, events[..|events| - 1]);
    }
  }

  /** The number was not delivered, nor one of its epoch 64 or more above it. */
  ghost predicate Fresh(delivered: seq<(nat, nat)>, epoch: nat, seqNum: nat) {
    forall k :: 0 <= k < |delivered| && delivered[k].0 == epoch ==>
      delivered[k].1 != seqNum && delivered[k].1 < seqNum + 64
  }

  /** In the clear the major version is enough. */
  predicate Speaks(key: ReadCipher, version: nat) {
    if key.isNull then version / 0x100 == 0xfe else version == key.version
  }

  /** `key` admits the record and makes `plain` of it; a record in the clear is
      taken as it is. */
  predicate Yields(key: ReadCipher, r: WireRecord, plain: seq<byte>) {
    Speaks(key, r.version) && if key.isNull then r.body == plain else key.open(r) == Some(plain)
  }

  ghost predicate YieldsNothing(key: ReadCipher, r: WireRecord) {
    forall plain :: !Yields(key, r, plain)
  }

  /** Over any run of packets and key changes, any record that arrives next is
      opened to `plain` exactly if it is of the current epoch, fresh, not too
      long, and the key changed to last makes that of it.  Else it is dropped,
      unless it yields too much; one that is not delivered changes nothing; one
      of a wrong version or too long takes the rest of its packet with it; and
      after a close nothing is opened at all. */
  lemma DeliveredExactly(first: ReadCipher, events: seq<ReadEvent>, r: WireRecord, rest: seq<byte>, plain: seq<byte>)
    requires EpochChanges(events) < EPOCH_RANGE && r.Valid()
    ensures var run := ReadAll(StartReading(first), events);
            var epoch := EpochChanges(events);
            var key := KeysRead(first, events)[epoch];
            var (result, consumed, next) := OpenRecord(run.state, RecordBytes(r) + rest);
            var admitted := |r.body| <= 16704 && r.epoch == epoch && Fresh(run.delivered, epoch, r.seqNum);
            && ((result.Opened? || result.Alert?) && result.content == plain <==>
                  admitted && Yields(key, r, plain) && |plain| <= 16384)
            && (result.Opened? ==> result.typ == r.typ) && (result.Alert? <==> Delivers(result) && r.typ == 21)
            && (admitted && Yields(key, r, plain) && |plain| > 16384 ==> result == Failed(RecordOverflow))
            && (!admitted || YieldsNothing(key, r) ==> result == Discard)
            && (Delivers(result) || next == run.state)
            && consumed == (if |r.body| <= 16704 && Speaks(key, r.version) then 13 + |r.body|
                            else |RecordBytes(r) + rest|)
            && OpenRecord(run.state.(closed := true), RecordBytes(r) + rest) ==
                 (CloseNotify, 0, run.state.(closed := true))
  {
    hide RecordBytes, ParseRecord, Record, ShouldDiscard;
    var run := ReadAll(StartReading(first), events);
    HoldsKey(first, events);
    NoRecordTwice(first, events);
    RecordRoundTrip(r, rest);
    if r.epoch == run.state.epoch {
      FreshExactly(run, r);
    }
    if run.state.cipher.VersionOk(r.version) && run.state.cipher.Open(r).Some? {
      assert Yields(run.state.cipher, r, run.state.cipher.Open(r).value);
    }
  }

  lemma FreshExactly(run: ReadRun, r: WireRecord)
    requires r.epoch == run.state.epoch && r.seqNum < SEQ_RANGE
    requires Represents(run.state.window, NumbersOf(run.delivered, r.epoch))
    ensures Fresh(run.delivered, r.epoch, r.seqNum) <==> !Stale(run.state, r)
  {
    hide ShouldDiscard;
    var seen := NumbersOf(run.delivered, r.epoch);
    DiscardsExactly(run.state.window, seen, r.Number());
    NumberIdentifies(run.delivered, r.epoch, r.seqNum);
    if run.state.window.max in seen {
      var k :| 0 <= k < |run.delivered| && run.delivered[k].0 == r.epoch &&
               run.state.window.max == r.epoch * SEQ_RANGE + run.delivered[k].1;
    }
    forall k | 0 <= k < |run.delivered| && run.delivered[k].0 == r.epoch
      ensures r.epoch * SEQ_RANGE + run.delivered[k].1 <= run.state.window.max
    {
      assert r.epoch * SEQ_RANGE + run.delivered[k].1 in seen;
    }
  }
}
