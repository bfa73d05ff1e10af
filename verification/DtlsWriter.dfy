/** Sealing DTLS records: the record numbers a writer uses over epoch changes,
    retransmissions in the previous epoch and failed writes, and the nonces
    made from them. */
module DtlsWriter {
  import opened Bits
  import opened Bytes
  import opened DtlsRecord
  import opened RecordTypes
  import opened ReplayWindow

  /** A write cipher; `seal` encrypts under an (epoch, number).  The sealed body
      holds an explicit nonce, the plaintext and at most `maxTag` bytes more. */
  datatype WriteCipher = WriteCipher(version: nat, nonceLen: nat, maxTag: nat,
                                     seal: (byte, nat, nat, seq<byte>) -> seq<byte>)
  {
    ghost predicate Valid() {
      && version < 0x1_0000
      && forall typ: byte, epoch: nat, seqNum: nat, plain: seq<byte> ::
           |plain| + nonceLen <= |seal(typ, epoch, seqNum, plain)| <= |plain| + nonceLen + maxTag
    }

    function MaxOverhead(): nat { nonceLen + maxTag }
  }

  datatype WriteState = WriteState(epoch: nat, seqNum: nat, lastSeqNum: nat,
                                   cipher: WriteCipher, lastCipher: WriteCipher)
  {
    ghost predicate Valid() {
      cipher.Valid() && lastCipher.Valid() &&
      epoch < EPOCH_RANGE && seqNum < SEQ_RANGE && lastSeqNum < SEQ_RANGE
    }

    function Cipher(previous: bool): WriteCipher { if previous then lastCipher else cipher }
    function Epoch(previous: bool): int { if previous then epoch - 1 else epoch }
    function Counter(previous: bool): nat { if previous then lastSeqNum else seqNum }

    function MaxSealOverhead(previous: bool): nat { HEADER_LENGTH + Cipher(previous).MaxOverhead() }
    function SealPrefixLen(previous: bool): nat { HEADER_LENGTH + Cipher(previous).nonceLen }

    /** The counter of that epoch moved on by one, in its 48 bits. */
    function Bumped(previous: bool): WriteState {
      if previous then this.(lastSeqNum := (lastSeqNum + 1) % SEQ_RANGE)
      else this.(seqNum := (seqNum + 1) % SEQ_RANGE)
    }
  }

  /** One run of a cipher: the epoch and number it ran under, on what, and what
      came out. */
  datatype Use = Use(epoch: nat, seqNum: nat, typ: byte, plain: seq<byte>, body: seq<byte>)

  /** Sealing one record into `maxOut` bytes.  `used` is the run of the cipher,
      also when the record is then given up. */
  datatype Sealing = Sealing(rec: Option<WireRecord>, state: WriteState, used: Option<Use>)

  function SealRecord(w: WriteState, previous: bool, typ: byte, plain: seq<byte>, maxOut: nat): Sealing
    requires previous ==> w.epoch >= 1
  {
    if maxOut < HEADER_LENGTH then Sealing(None, w, None) else
    var epoch, seqNum := w.Epoch(previous), w.Counter(previous);
    var body := w.Cipher(previous).seal(typ, epoch, seqNum, plain);
    if |body| > maxOut - HEADER_LENGTH then Sealing(None, w, None) else
    var rec := if seqNum + 1 == SEQ_RANGE || |body| >= 0x1_0000 then None
               else Some(WireRecord(typ, w.cipher.version, epoch, seqNum, body));
    Sealing(rec, w.Bumped(previous), Some(Use(epoch, seqNum, typ, plain, body)))
  }

  function NewWriteEpoch(w: WriteState, cipher: WriteCipher): WriteState {
    WriteState((w.epoch + 1) % EPOCH_RANGE, 0, w.seqNum, cipher, w.cipher)
  }

  class RecordSealer {
    var epoch: nat
    var seqNum: nat
    var lastSeqNum: nat
    var cipher: WriteCipher
    var lastCipher: WriteCipher

    ghost function View(): WriteState
      reads this
    {
      WriteState(epoch, seqNum, lastSeqNum, cipher, lastCipher)
    }

    /** Input and output share bytes, and not as sealing in place does. */
    predicate Overlaps(out: array<byte>, maxOut: nat, previous: bool, input: array<byte>, from: nat, to: nat)
      reads this
    {
      var prefix := HEADER_LENGTH + (if previous then lastCipher else cipher).nonceLen;
      out == input && from < maxOut && to > 0 && (maxOut < prefix || from != prefix)
    }

    constructor (cipher: WriteCipher)
      ensures View() == WriteState(0, 0, 0, cipher, cipher)
    {
      epoch, seqNum, lastSeqNum := 0, 0, 0;
      this.cipher, lastCipher := cipher, cipher;
    }

    method SetCipher(next: WriteCipher)
      modifies this
      ensures View() == NewWriteEpoch(old(View()), next)
    {
      epoch := (epoch + 1) % EPOCH_RANGE;
      lastSeqNum := seqNum;
      seqNum := 0;
      lastCipher := cipher;
      cipher := next;
    }

    /** Seals the bytes [from, to) of `input` into `out`, of which `maxOut` bytes
        may be used.  The two may overlap only where sealing in place puts the
        plaintext, right behind the prefix. */
    method Seal(out: array<byte>, maxOut: nat, previous: bool, typ: byte, input: array<byte>, from: nat, to: nat)
      returns (ok: bool, len: nat)
      requires maxOut <= out.Length && (previous ==> epoch >= 1) && from <= to <= input.Length
      modifies this, out
      ensures var sealing := SealRecord(old(View()), previous, typ, old(input[from..to]), maxOut);
              if old(Overlaps(out, maxOut, previous, input, from, to)) then
                !ok && View() == old(View()) && out[..] == old(out[..])
              else
                && View() == sealing.state && (ok <==> sealing.rec.Some?)
                && (ok ==> len <= maxOut && out[..len] == RecordBytes(sealing.rec.value))
    {
      hide ToBE;
      len := 0;
      if Overlaps(out, maxOut, previous, input, from, to) {
        return false, 0;
      }
      var plain := input[from..to];
      var recordEpoch, number, aead := epoch, seqNum, cipher;
      if previous {
        recordEpoch, number, aead := epoch - 1, lastSeqNum, lastCipher;
      }
      if maxOut < HEADER_LENGTH {
        return false, 0;
      }
      var header := [typ] + ToBE(cipher.version, 2) + ToBE(recordEpoch, 2) + ToBE(number, 6);
      CopyInto(out, 0, header);
      var body := aead.seal(typ, recordEpoch, number, plain);
      if |body| > maxOut - HEADER_LENGTH {
        return false, 0;
      }
      CopyInto(out, HEADER_LENGTH, body);
      ok := number + 1 != SEQ_RANGE;
      if previous {
        lastSeqNum := (lastSeqNum + 1) % SEQ_RANGE;
      } else {
        seqNum := (seqNum + 1) % SEQ_RANGE;
      }
      if !ok || |body| >= 0x1_0000 {
        return false, 0;
      }
      CopyInto(out, 11, ToBE(|body|, 2));
      len := HEADER_LENGTH + |body|;
      assert out[..len] == header + ToBE(|body|, 2) + body;
    }
  }

  lemma SealedRecordFits(w: WriteState, previous: bool, typ: byte, plain: seq<byte>, maxOut: nat)
    requires w.Valid() && (previous ==> w.epoch >= 1)
    ensures var sealing := SealRecord(w, previous, typ, plain, maxOut);
            && sealing.state.Valid()
            && (sealing.rec.Some? ==>
                 sealing.rec.value.Valid() && sealing.rec.value.typ == typ &&
                 sealing.rec.value.epoch == w.Epoch(previous) && |plain| <= |sealing.rec.value.body| &&
                 sealing.used == Some(Use(sealing.rec.value.epoch, sealing.rec.value.seqNum, typ, plain,
                                          sealing.rec.value.body)) &&
                 |RecordBytes(sealing.rec.value)| <= maxOut &&
                 |RecordBytes(sealing.rec.value)| <= |plain| + w.MaxSealOverhead(previous))
    ensures |plain| + w.MaxSealOverhead(previous) <= maxOut && w.Counter(previous) + 1 < SEQ_RANGE &&
            |plain| + w.Cipher(previous).MaxOverhead() < 0x1_0000 ==>
              SealRecord(w, previous, typ, plain, maxOut).rec.Some?
  {
  }

  // ----- Record numbers ---------------------------------------------------

  datatype WriteEvent =
    | Seal(previous: bool, typ: byte, plain: seq<byte>, maxOut: nat)
    | ChangeCipher(cipher: WriteCipher)

  /** The writer, and every run of a cipher so far. */
  datatype WriteRun = WriteRun(state: WriteState, used: seq<Use>)

  /** What a step needs to make sense: a previous epoch exists once the cipher
      has been changed, and epochs do not run out. */
  predicate Possible(w: WriteState, e: WriteEvent) {
    match e
    case ChangeCipher(_) => w.epoch + 1 < EPOCH_RANGE
    case Seal(previous, _, _, _) => previous ==> w.epoch >= 1
  }

  function WriteStep(run: WriteRun, e: WriteEvent): WriteRun
    requires Possible(run.state, e)
  {
    match e
    case ChangeCipher(cipher) => run.(state := NewWriteEpoch(run.state, cipher))
    case Seal(previous, typ, plain, maxOut) =>
      var sealing := SealRecord(run.state, previous, typ, plain, maxOut);
      WriteRun(sealing.state, run.used + match sealing.used case Some(n) => [n] case None => [])
  }

  predicate AllPossible(run: WriteRun, events: seq<WriteEvent>)
    decreases |events|
  {
    events == [] || (Possible(run.state, events[0]) && AllPossible(WriteStep(run, events[0]), events[1..]))
  }

  function WriteAll(run: WriteRun, events: seq<WriteEvent>): WriteRun
    requires AllPossible(run, events)
    decreases |events|
  {
    if events == [] then run else WriteAll(WriteStep(run, events[0]), events[1..])
  }

  ghost predicate NumbersIncrease(used: seq<Use>) {
    forall i, j :: 0 <= i < j < |used| && used[i].epoch == used[j].epoch ==> used[i].seqNum < used[j].seqNum
  }

  /** The last number of the epoch has been used. */
  predicate Spent(used: seq<Use>, epoch: int) {
    exists i :: 0 <= i < |used| && used[i].epoch == epoch && used[i].seqNum == SEQ_RANGE - 1
  }

  /** The step runs the cipher in an epoch after its last number. */
  predicate PastLast(run: WriteRun, e: WriteEvent)
    requires Possible(run.state, e)
  {
    e.Seal? && SealRecord(run.state, e.previous, e.typ, e.plain, e.maxOut).used.Some? &&
    Spent(run.used, run.state.Epoch(e.previous))
  }

  predicate NeverPastLast(run: WriteRun, events: seq<WriteEvent>)
    requires AllPossible(run, events)
    decreases |events|
  {
    events == [] || (!PastLast(run, events[0]) && NeverPastLast(WriteStep(run, events[0]), events[1..]))
  }

  ghost predicate WriteInv(run: WriteRun) {
    && run.state.epoch < EPOCH_RANGE && run.state.seqNum < SEQ_RANGE && run.state.lastSeqNum < SEQ_RANGE
    && NumbersIncrease(run.used)
    && forall k :: 0 <= k < |run.used| ==>
         run.used[k].epoch <= run.state.epoch && run.used[k].seqNum < SEQ_RANGE &&
         (run.used[k].epoch == run.state.epoch ==>
            run.used[k].seqNum < run.state.seqNum || Spent(run.used, run.state.epoch)) &&
         (run.used[k].epoch + 1 == run.state.epoch ==>
            run.used[k].seqNum < run.state.lastSeqNum || Spent(run.used, run.state.epoch - 1))
  }

  /** One step keeps the numbers increasing exactly if it does not run the cipher
      past the last number of its epoch. */
  lemma WriteStepExactly(run: WriteRun, e: WriteEvent)
    requires WriteInv(run) && Possible(run.state, e)
    ensures NumbersIncrease(WriteStep(run, e).used) <==> !PastLast(run, e)
    ensures !PastLast(run, e) ==> WriteInv(WriteStep(run, e))
  {
    hide SealRecord;
    if e.Seal? {
      SealUses(run.state, e.previous, e.typ, e.plain, e.maxOut);
      var used := SealRecord(run.state, e.previous, e.typ, e.plain, e.maxOut).used;
      if used.Some? {
        if PastLast(run, e) {
          SpentStops(run, e.previous, used.value);
        } else {
          NextNumber(run, e.previous, used.value);
        }
      } else {
        assert WriteStep(run, e) == run;
      }
    } else {
      ChangeKeepsInv(run, e.cipher);
    }
  }

  lemma SealUses(w: WriteState, previous: bool, typ: byte, plain: seq<byte>, maxOut: nat)
    requires previous ==> w.epoch >= 1
    ensures var sealing := SealRecord(w, previous, typ, plain, maxOut);
            if sealing.used.None? then sealing.state == w
            else
              && (sealing.used.value.epoch, sealing.used.value.seqNum) == (w.Epoch(previous), w.Counter(previous))
              && sealing.state == w.Bumped(previous)
  {
  }

  lemma SpentStops(run: WriteRun, previous: bool, use: Use)
    requires WriteInv(run) && (previous ==> run.state.epoch >= 1)
    requires Spent(run.used, run.state.Epoch(previous))
    requires use.epoch == run.state.Epoch(previous) && use.seqNum == run.state.Counter(previous)
    ensures !NumbersIncrease(run.used + [use])
  {
    var used := run.used + [use];
    var i :| 0 <= i < |run.used| && run.used[i].epoch == use.epoch && run.used[i].seqNum == SEQ_RANGE - 1;
    assert used[i].seqNum >= used[|run.used|].seqNum;
  }

  lemma NextNumber(run: WriteRun, previous: bool, use: Use)
    requires WriteInv(run) && (previous ==> run.state.epoch >= 1)
    requires !Spent(run.used, run.state.Epoch(previous))
    requires use.epoch == run.state.Epoch(previous) && use.seqNum == run.state.Counter(previous)
    ensures WriteInv(WriteRun(run.state.Bumped(previous), run.used + [use]))
  {
    var used := run.used + [use];
    assert forall k :: 0 <= k < |run.used| ==> used[k] == run.used[k];
    SpentMore(run.used, use, run.state.epoch);
    SpentMore(run.used, use, run.state.epoch - 1);
  }

  lemma SpentMore(used: seq<Use>, use: Use, at: int)
    ensures Spent(used + [use], at) <==> Spent(used, at) || (at == use.epoch && use.seqNum == SEQ_RANGE - 1)
  {
    var more := used + [use];
    assert more[|used|] == use;
    if Spent(used, at) {
      var i :| 0 <= i < |used| && used[i].epoch == at && used[i].seqNum == SEQ_RANGE - 1;
      assert more[i] == used[i];
    }
  }

  lemma ChangeKeepsInv(run: WriteRun, cipher: WriteCipher)
    requires WriteInv(run) && run.state.epoch + 1 < EPOCH_RANGE
    ensures WriteInv(run.(state := NewWriteEpoch(run.state, cipher)))
  {
  }

  lemma {:induction false} UsedGrows(run: WriteRun, events: seq<WriteEvent>)
    requires AllPossible(run, events)
    ensures run.used <= WriteAll(run, events).used
    decreases |events|
  {
    hide SealRecord;
    if events != [] {
      UsedGrows(WriteStep(run, events[0]), events[1..]);
    }
  }

  /** Record numbers strictly increase within each write epoch, over a run of
      seals in the current and the previous epoch, failed seals and epoch
      changes, exactly if no epoch is sealed in after its last number. */
  lemma {:induction false} RecordNumbersIncrease(from: WriteRun, events: seq<WriteEvent>)
    requires WriteInv(from) && AllPossible(from, events)
    ensures NumbersIncrease(WriteAll(from, events).used) <==> NeverPastLast(from, events)
    ensures NeverPastLast(from, events) ==> WriteInv(WriteAll(from, events))
    decreases |events|
  {
    hide SealRecord, PastLast;
    if events != [] {
      WriteStepExactly(from, events[0]);
      var next := WriteStep(from, events[0]);
      if PastLast(from, events[0]) {
        UsedGrows(next, events[1..]);
        NotIncreasing(next.used, WriteAll(next, events[1..]).used);
      } else {
        RecordNumbersIncrease(next, events[1..]);
      }
    }
  }

  lemma NotIncreasing(some: seq<Use>, all: seq<Use>)
    requires some <= all && !NumbersIncrease(some)
    ensures !NumbersIncrease(all)
  {
    var i, j :| 0 <= i < j < |some| && some[i].epoch == some[j].epoch && some[i].seqNum >= some[j].seqNum;
    assert all[i] == some[i] && all[j] == some[j];
  }

  /** In either epoch the seal that uses the last number fails, but leaves the
      counter at zero, and a seal after it uses number zero again. */
  lemma WrapRestartsNumbers(w: WriteState, previous: bool, typ: byte, plain: seq<byte>, maxOut: nat)
    requires w.Valid() && (previous ==> w.epoch >= 1) && w.Counter(previous) + 1 == SEQ_RANGE
    requires |plain| + w.MaxSealOverhead(previous) <= maxOut
    ensures var first := SealRecord(w, previous, typ, plain, maxOut);
            var second := SealRecord(first.state, previous, typ, plain, maxOut);
            && first.rec.None? && first.used.Some? && first.used.value.epoch == w.Epoch(previous)
            && first.used.value.seqNum == SEQ_RANGE - 1
            && second.used.Some? && second.used.value.epoch == w.Epoch(previous) && second.used.value.seqNum == 0
  {
  }

  // ----- Which key a record is sealed with --------------------------------

  /** The ciphers changed to, in order. */
  function Changes(events: seq<WriteEvent>): seq<WriteCipher> {
    if events == [] then [] else
    (match events[0] case ChangeCipher(next) => [next] case Seal(_, _, _, _) => []) + Changes(events[1..])
  }

  /** Every run of a cipher was of the one of its epoch, under the epoch and
      number noted, and made the body noted. */
  ghost predicate UnderKeys(used: seq<Use>, keys: seq<WriteCipher>) {
    forall k :: 0 <= k < |used| ==>
      used[k].epoch < |keys| &&
      used[k].body == keys[used[k].epoch].seal(used[k].typ, used[k].epoch, used[k].seqNum, used[k].plain)
  }

  /** The writer stands where the ciphers of epochs 0, 1 and so on are `keys`. */
  ghost predicate KeyInv(run: WriteRun, keys: seq<WriteCipher>) {
    && run.state.epoch + 1 == |keys| && run.state.cipher == keys[run.state.epoch]
    && (run.state.epoch > 0 ==> run.state.lastCipher == keys[run.state.epoch - 1])
    && UnderKeys(run.used, keys)
  }

  lemma StepUnderKeys(run: WriteRun, keys: seq<WriteCipher>, e: WriteEvent)
    requires KeyInv(run, keys) && Possible(run.state, e)
    ensures KeyInv(WriteStep(run, e), keys + if e.ChangeCipher? then [e.cipher] else [])
  {
    var next := WriteStep(run, e);
    if e.Seal? {
      var epoch, number := run.state.Epoch(e.previous), run.state.Counter(e.previous);
      var body := run.state.Cipher(e.previous).seal(e.typ, epoch, number, e.plain);
      assert next.used == run.used || next.used == run.used + [Use(epoch, number, e.typ, e.plain, body)];
      assert keys + [] == keys;
    }
  }

  lemma {:induction false} UsedUnderKeys(from: WriteRun, keys: seq<WriteCipher>, events: seq<WriteEvent>)
    requires KeyInv(from, keys) && AllPossible(from, events)
    ensures KeyInv(WriteAll(from, events), keys + Changes(events))
    decreases |events|
  {
    hide WriteStep, KeyInv;
    if events == [] {
      assert keys + [] == keys;
    } else {
      var e := events[0];
      var now := if e.ChangeCipher? then [e.cipher] else [];
      StepUnderKeys(from, keys, e);
      UsedUnderKeys(WriteStep(from, e), keys + now, events[1..]);
      assert keys + now + Changes(events[1..]) == keys + Changes(events);
    }
  }

  function StartWriting(first: WriteCipher): WriteRun {
    WriteRun(WriteState(0, 0, 0, first, first), [])
  }

  /** Over any run from the first record on: the epoch is the number of changes,
      the record sealed next carries the number the cipher ran under, and its
      body is what the cipher of that epoch makes under that number.  Its number
      is above all used in that epoch, unless the last one was used. */
  lemma SealedUnderItsKey(first: WriteCipher, events: seq<WriteEvent>, previous: bool, typ: byte, plain: seq<byte>,
                          maxOut: nat)
    requires AllPossible(StartWriting(first), events) && (previous ==> Changes(events) != [])
    ensures var keys, run := [first] + Changes(events), WriteAll(StartWriting(first), events);
            && (previous ==> run.state.epoch >= 1) && UnderKeys(run.used, keys)
            && var rec := SealRecord(run.state, previous, typ, plain, maxOut).rec;
               rec.Some? ==>
                 && rec.value.epoch == |keys| - (if previous then 2 else 1)
                 && rec.value.typ == typ && rec.value.version == keys[|keys| - 1].version
                 && rec.value.body == keys[rec.value.epoch].seal(typ, rec.value.epoch, rec.value.seqNum, plain)
                 && (NeverPastLast(StartWriting(first), events) && !Spent(run.used, rec.value.epoch) ==>
                       forall k :: 0 <= k < |run.used| && run.used[k].epoch == rec.value.epoch ==>
                         run.used[k].seqNum < rec.value.seqNum)
  {
    hide AllPossible, WriteAll, NeverPastLast;
    UsedUnderKeys(StartWriting(first), [first], events);
    RecordNumbersIncrease(StartWriting(first), events);
  }

  /** `reader` undoes `writer`, under the epoch and number of the record. */
  ghost predicate Undoes(reader: ReadCipher, writer: WriteCipher) {
    forall r: WireRecord, plain: seq<byte> ::
      r.body == writer.seal(r.typ, r.epoch, r.seqNum, plain) ==> reader.Open(r) == Some(plain)
  }

  /** The reader admits the writer's versions. */
  predicate Admits(reader: ReadCipher, writer: WriteCipher) {
    if reader.isNull then writer.version / 0x100 == DTLS_MAJOR else reader.version == writer.version
  }

  /** What was sealed is opened: at the reader's epoch, if it is fresh there and
      no longer than a record may be. */
  lemma SealedIsOpened(w: WriteState, previous: bool, typ: byte, plain: seq<byte>, maxOut: nat, s: ReadState,
                       rest: seq<byte>)
    requires w.Valid() && (previous ==> w.epoch >= 1) && |plain| <= MAX_PLAIN
    requires SealRecord(w, previous, typ, plain, maxOut).rec.Some?
    requires Undoes(s.cipher, w.Cipher(previous)) && Admits(s.cipher, w.cipher)
    requires !s.closed && !Stale(s, SealRecord(w, previous, typ, plain, maxOut).rec.value)
    ensures var rec := SealRecord(w, previous, typ, plain, maxOut).rec.value;
            var (result, consumed, _) := OpenRecord(s, RecordBytes(rec) + rest);
            |rec.body| <= MAX_ENCRYPTED ==>
              consumed == |RecordBytes(rec)| && result == if typ == RT_ALERT then Alert(plain) else Opened(typ, plain)
  {
    hide RecordBytes, ParseRecord, ShouldDiscard, Record;
    var rec := SealRecord(w, previous, typ, plain, maxOut).rec.value;
    SealedRecordFits(w, previous, typ, plain, maxOut);
    assert rec.body == w.Cipher(previous).seal(rec.typ, rec.epoch, rec.seqNum, plain);
    assert s.cipher.Open(rec) == Some(plain);
    RecordRoundTrip(rec, rest);
  }

  // ----- Nonces -----------------------------------------------------------

  /** The nonce from its variable part, the record number or random bytes: the
      fixed part in front of it, or XORed into it after left-padding with zeros. */
  function Nonce(xorFixed: bool, fixedNonce: seq<byte>, variable: seq<byte>): seq<nat>
    requires xorFixed ==> |fixedNonce| >= |variable|
  {
    if xorFixed then
      seq(|fixedNonce|, i requires 0 <= i < |fixedNonce| =>
        Xor(Padded(fixedNonce, variable)[i], fixedNonce[i]))
    else fixedNonce + variable
  }

  function Padded(fixedNonce: seq<byte>, variable: seq<byte>): (s: seq<byte>)
    requires |fixedNonce| >= |variable|
    ensures |s| == |fixedNonce|
  {
    seq(|fixedNonce| - |variable|, i => 0) + variable
  }

  /** `random` is what a cipher with a random nonce gets for this record. */
  method AssembleNonce(xorFixed: bool, fixedNonce: seq<byte>, random: Option<seq<byte>>, seqnum: seq<byte>)
    returns (nonce: array<nat>)
    requires xorFixed ==> |fixedNonce| >= |if random.Some? then random.value else seqnum|
    ensures nonce[..] == Nonce(xorFixed, fixedNonce, if random.Some? then random.value else seqnum)
  {
    hide Xor;
    var variable := if random.Some? then random.value else seqnum;
    var front := if xorFixed then |fixedNonce| - |variable| else |fixedNonce|;
    nonce := new nat[front + |variable|];
    for i := 0 to front
      invariant forall k :: 0 <= k < i ==> nonce[k] == if xorFixed then 0 else fixedNonce[k]
    {
      nonce[i] := if xorFixed then 0 else fixedNonce[i];
    }
    for i := 0 to |variable|
      invariant forall k :: 0 <= k < front ==> nonce[k] == if xorFixed then 0 else fixedNonce[k]
      invariant forall k :: 0 <= k < i ==> nonce[front + k] == variable[k]
    {
      nonce[front + i] := variable[i];
    }
    if xorFixed {
      assert nonce[..] == Padded(fixedNonce, variable);
      for i := 0 to |fixedNonce|
        invariant forall k :: 0 <= k < i ==> nonce[k] == Xor(Padded(fixedNonce, variable)[k], fixedNonce[k])
        invariant forall k :: i <= k < |fixedNonce| ==> nonce[k] == Padded(fixedNonce, variable)[k]
      {
        nonce[i] := Xor(nonce[i], fixedNonce[i]);
      }
    }
  }

  function SequenceField(epoch: nat, seqNum: nat): (s: seq<byte>)
    ensures |s| == 8
  {
    ToBE(epoch, 2) + ToBE(seqNum, 6)
  }

  /** Distinct record numbers give distinct nonces, in both forms. */
  lemma NoncesDistinct(xorFixed: bool, fixedNonce: seq<byte>, a: (nat, nat), b: (nat, nat))
    requires xorFixed ==> |fixedNonce| >= 8
    requires a.0 < EPOCH_RANGE && b.0 < EPOCH_RANGE && a.1 < SEQ_RANGE && b.1 < SEQ_RANGE
    requires a != b
    ensures Nonce(xorFixed, fixedNonce, SequenceField(a.0, a.1)) !=
            Nonce(xorFixed, fixedNonce, SequenceField(b.0, b.1))
  {
    var s, t := SequenceField(a.0, a.1), SequenceField(b.0, b.1);
    SequenceFieldInjective(a, b);
    var i :| 0 <= i < 8 && s[i] != t[i];
    if xorFixed {
      var k := |fixedNonce| - 8 + i;
      assert Padded(fixedNonce, s)[k] == s[i] && Padded(fixedNonce, t)[k] == t[i];
      assert Pow2(8) == 256 by { assert Pow2(4) == 16; Pow2Add(4, 4); }
      if Xor(s[i], fixedNonce[k]) == Xor(t[i], fixedNonce[k]) {
        XorCancel(s[i], t[i], fixedNonce[k], 8);
      }
      assert Nonce(true, fixedNonce, s)[k] != Nonce(true, fixedNonce, t)[k];
    } else {
      assert (fixedNonce + s)[|fixedNonce| + i] != (fixedNonce + t)[|fixedNonce| + i];
    }
  }

  /** Distinct fixed parts give distinct nonces for one record number. */
  lemma FixedPartsDistinct(xorFixed: bool, f: seq<byte>, g: seq<byte>, variable: seq<byte>)
    requires |f| == |g| && f != g && (xorFixed ==> |f| >= |variable|)
    ensures Nonce(xorFixed, f, variable) != Nonce(xorFixed, g, variable)
  {
    var k :| 0 <= k < |f| && f[k] != g[k];
    if xorFixed {
      var v := Padded(f, variable)[k];
      assert v == Padded(g, variable)[k];
      assert Pow2(8) == 256 by { assert Pow2(4) == 16; Pow2Add(4, 4); }
      XorCommutes(v, f[k]);
      XorCommutes(v, g[k]);
      if Xor(f[k], v) == Xor(g[k], v) {
        XorCancel(f[k], g[k], v, 8);
      }
      assert Nonce(true, f, variable)[k] != Nonce(true, g, variable)[k];
    } else {
      assert (f + variable)[k] != (g + variable)[k];
    }
  }

  /** No key is run twice under one nonce, over every run that does not seal past
      an epoch's last number: two runs in one epoch were of its one key, each
      under the number noted for it, and these give different nonces. */
  lemma NoncesNeverRepeat(from: WriteRun, keys: seq<WriteCipher>, events: seq<WriteEvent>, xorFixed: bool,
                          fixedNonce: seq<byte>, i: nat, j: nat)
    requires WriteInv(from) && KeyInv(from, keys) && AllPossible(from, events) && NeverPastLast(from, events)
    requires i < j < |WriteAll(from, events).used|
    requires WriteAll(from, events).used[i].epoch == WriteAll(from, events).used[j].epoch
    requires xorFixed ==> |fixedNonce| >= 8
    ensures var used := WriteAll(from, events).used;
            var epoch, a, b := used[i].epoch, used[i], used[j];
            && epoch < |keys + Changes(events)|
            && var key := (keys + Changes(events))[epoch];
            && a.body == key.seal(a.typ, epoch, a.seqNum, a.plain)
            && b.body == key.seal(b.typ, epoch, b.seqNum, b.plain)
            && Nonce(xorFixed, fixedNonce, SequenceField(epoch, a.seqNum)) !=
               Nonce(xorFixed, fixedNonce, SequenceField(epoch, b.seqNum))
  {
    hide Nonce, SequenceField, WriteAll, NeverPastLast;
    RecordNumbersIncrease(from, events);
    UsedUnderKeys(from, keys, events);
    var used := WriteAll(from, events).used;
    NoncesDistinct(xorFixed, fixedNonce, (used[i].epoch, used[i].seqNum), (used[j].epoch, used[j].seqNum));
  }

  lemma SequenceFieldInjective(a: (nat, nat), b: (nat, nat))
    requires a.0 < EPOCH_RANGE && b.0 < EPOCH_RANGE && a.1 < SEQ_RANGE && b.1 < SEQ_RANGE
    requires a != b
    ensures exists i :: 0 <= i < 8 && SequenceField(a.0, a.1)[i] != SequenceField(b.0, b.1)[i]
  {
    var s, t := SequenceField(a.0, a.1), SequenceField(b.0, b.1);
    Ranges();
    if forall i :: 0 <= i < 8 ==> s[i] == t[i] {
      assert s == t;
      assert s[..2] == ToBE(a.0, 2) && s[2..] == ToBE(a.1, 6);
      assert t[..2] == ToBE(b.0, 2) && t[2..] == ToBE(b.1, 6);
      BigEndianRoundTrip(a.0, 2);
      BigEndianRoundTrip(b.0, 2);
      BigEndianRoundTrip(a.1, 6);
      BigEndianRoundTrip(b.1, 6);
    }
  }
}
