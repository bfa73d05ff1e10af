/** The receiving end of the DTLS handshake transport: a ring of seven messages
    under reassembly. */
module DtlsReceiver {
  import opened Bytes
  import opened RecordTypes
  import opened DtlsRecord
  import opened HandshakeFragment

  const MAX_FLIGHT: nat := 7
  const MT_CCS: byte := 1

  /** The receiver as a value.  `slots[i]` holds the message whose number is `i`
      modulo seven; `nullCipher` says that records are not encrypted yet. */
  datatype Receiver = Receiver(readSeq: nat, slots: seq<Option<Partial>>, readEpoch: nat,
                               nullCipher: bool, maxMsgLen: nat, hasMessage: bool, hasCcs: bool,
                               flightSent: bool, flightHasReply: bool)

  datatype Outcome =
    | Accepted(r: Receiver)
    | Dropped(r: Receiver)
    | Rejected(code: AlertCode, r: Receiver)

  /** The ring invariant: a slot is empty or holds a message of the window
      [readSeq, readSeq + 7) in its place, with received positions of its body. */
  ghost predicate RingInv(r: Receiver) {
    && |r.slots| == MAX_FLIGHT && r.readSeq < U16
    && forall i :: 0 <= i < MAX_FLIGHT && r.slots[i].Some? ==>
         var m := r.slots[i].value;
         r.readSeq <= m.seqNum < r.readSeq + MAX_FLIGHT && m.seqNum < U16 && m.seqNum % MAX_FLIGHT == i &&
         m.got.Keys <= Interval(0, m.msgLen)
  }

  predicate Oversized(r: Receiver, h: Header) {
    h.fragOff > h.msgLen || h.fragOff + h.fragLen > h.msgLen || h.msgLen > r.maxMsgLen
  }

  /** A fragment from the past or from beyond the window is ignored. */
  predicate Ignored(r: Receiver, h: Header) {
    h.seqNum < r.readSeq || h.seqNum > r.readSeq + MAX_FLIGHT
  }

  predicate Mismatch(m: Partial, h: Header) {
    m.typ != h.typ || m.msgLen != h.msgLen
  }

  function AcceptFragment(r: Receiver, f: Fragment): Outcome
    requires |r.slots| == MAX_FLIGHT
  {
    var h := f.hdr;
    if Oversized(r, h) then Rejected(IllegalParameter, r)
    else if r.readEpoch == 1 && h.seqNum != r.readSeq then Rejected(UnexpectedMessage, r)
    else if Ignored(r, h) then Accepted(r)
    else PlaceFragment(r, f)
  }

  /** A fragment that the filter let through, put into the message it is of. */
  function PlaceFragment(r: Receiver, f: Fragment): Outcome
    requires |r.slots| == MAX_FLIGHT && !Ignored(r, f.hdr)
  {
    var h := f.hdr;
    if h.seqNum - r.readSeq >= MAX_FLIGHT then Rejected(InternalError, r)
    else
      var i := h.seqNum % MAX_FLIGHT;
      if r.slots[i].Some? && Mismatch(r.slots[i].value, h) then Rejected(IllegalParameter, r)
      else
        var m := if r.slots[i].Some? then r.slots[i].value else Begin(h);
        Accepted(r.(slots := r.slots[i := Some(Receive(m, h.fragOff, f.body))]))
  }

  /** All fragments of one handshake record. */
  function AcceptFragments(r: Receiver, payload: seq<byte>): Outcome
    requires |r.slots| == MAX_FLIGHT
    decreases |payload|
  {
    if payload == [] then Accepted(r) else
    match ParseFragment(payload)
    case None => Rejected(DecodeError, r)
    case Some((f, rest)) =>
      var step := AcceptFragment(r, f);
      if step.Accepted? then AcceptFragments(step.r, rest) else step
  }

  /** An opened record, by its type. */
  function HandleRecord(r: Receiver, typ: byte, content: seq<byte>): Outcome
    requires |r.slots| == MAX_FLIGHT
  {
    if typ == RT_APPLICATION_DATA then
      if r.nullCipher then Rejected(UnexpectedMessage, r) else Dropped(r)
    else if typ == RT_CHANGE_CIPHER_SPEC then
      if !r.nullCipher then Rejected(UnexpectedMessage, r)
      else if content != [MT_CCS] then Rejected(IllegalParameter, r)
      else Accepted(r.(hasCcs := true))
    else if typ == RT_HANDSHAKE then AcceptFragments(r, content)
    else Rejected(UnexpectedMessage, r)
  }

  function Current(r: Receiver): Option<Partial>
    requires |r.slots| == MAX_FLIGHT
  {
    r.slots[r.readSeq % MAX_FLIGHT]
  }

  /** The current message once it is complete: its type, and its bytes with the
      header in front. */
  function GetMessage(r: Receiver): Option<(byte, seq<byte>)>
    requires |r.slots| == MAX_FLIGHT
  {
    match Current(r)
    case Some(m) =>
      if m.Complete() then
        Some((m.typ, FragmentBytes(Fragment(Header(m.typ, m.msgLen, m.seqNum, 0, m.msgLen), m.Body()))))
      else None
    case None => None
  }

  function Looked(r: Receiver): Receiver
    requires |r.slots| == MAX_FLIGHT
  {
    r.(hasMessage := r.hasMessage || GetMessage(r).Some?)
  }

  function NextMessage(r: Receiver): Receiver
    requires |r.slots| == MAX_FLIGHT
  {
    r.(slots := r.slots[r.readSeq % MAX_FLIGHT := None],
       readSeq := (r.readSeq + 1) % U16,
       hasMessage := false,
       flightHasReply := r.flightHasReply || r.flightSent)
  }

  /** Whether anything but the message being looked at is buffered. */
  predicate HasUnprocessed(r: Receiver)
    requires |r.slots| == MAX_FLIGHT
  {
    r.hasCcs ||
    exists i :: 0 <= i < MAX_FLIGHT && r.slots[i].Some? &&
                !(r.hasMessage && i == r.readSeq % MAX_FLIGHT)
  }

  // ----- What every step keeps --------------------------------------------

  lemma AcceptFragmentKeepsRing(r: Receiver, f: Fragment)
    requires RingInv(r) && |f.body| == f.hdr.fragLen && f.hdr.seqNum < U16
    ensures RingInv(AcceptFragment(r, f).r)
    ensures AcceptFragment(r, f).Rejected? ==> AcceptFragment(r, f).r == r
  {
  }

  lemma {:induction false} AcceptFragmentsKeepsRing(r: Receiver, payload: seq<byte>)
    requires RingInv(r)
    ensures RingInv(AcceptFragments(r, payload).r)
    decreases |payload|
  {
    if payload != [] && ParseFragment(payload).Some? {
      var (f, rest) := ParseFragment(payload).value;
      AcceptFragmentKeepsRing(r, f);
      var step := AcceptFragment(r, f);
      if step.Accepted? {
        AcceptFragmentsKeepsRing(step.r, rest);
      }
    }
  }

  /** No record, whatever its bytes, breaks the ring; and a message that is
      complete stays as it is until it is consumed. */
  lemma HandleRecordKeepsRing(r: Receiver, typ: byte, content: seq<byte>, i: nat)
    requires RingInv(r) && i < MAX_FLIGHT
    ensures var out := HandleRecord(r, typ, content).r;
            && RingInv(out) && out.readSeq == r.readSeq
            && (r.slots[i].Some? && r.slots[i].value.Complete() ==> out.slots[i] == r.slots[i])
  {
    if typ == RT_HANDSHAKE {
      AcceptFragmentsKeepsRing(r, content);
      CompleteStays(r, content, i);
    }
  }

  lemma {:induction false} CompleteStays(r: Receiver, payload: seq<byte>, i: nat)
    requires RingInv(r) && i < MAX_FLIGHT
    ensures var out := AcceptFragments(r, payload).r;
            && out.readSeq == r.readSeq
            && |out.slots| == MAX_FLIGHT
            && (r.slots[i].Some? && r.slots[i].value.Complete() ==> out.slots[i] == r.slots[i])
    decreases |payload|
  {
    if payload != [] && ParseFragment(payload).Some? {
      var (f, rest) := ParseFragment(payload).value;
      AcceptFragmentKeepsRing(r, f);
      var step := AcceptFragment(r, f);
      if step.Accepted? {
        CompleteStays(step.r, rest, i);
      }
    }
  }

  /** Handling a record changes the slots and the ChangeCipherSpec flag only. */
  lemma HandleRecordFrame(r: Receiver, typ: byte, content: seq<byte>)
    requires |r.slots| == MAX_FLIGHT
    ensures var out := HandleRecord(r, typ, content).r;
            |out.slots| == MAX_FLIGHT && out == r.(slots := out.slots, hasCcs := out.hasCcs)
  {
    AcceptFragmentsFrame(r, content);
  }

  lemma {:induction false} AcceptFragmentsFrame(r: Receiver, payload: seq<byte>)
    requires |r.slots| == MAX_FLIGHT
    ensures var out := AcceptFragments(r, payload).r;
            |out.slots| == MAX_FLIGHT && out == r.(slots := out.slots)
    decreases |payload|
  {
    hide ParseFragment;
    if payload != [] && ParseFragment(payload).Some? {
      var (f, rest) := ParseFragment(payload).value;
      var step := AcceptFragment(r, f);
      if step.Accepted? {
        AcceptFragmentsFrame(step.r, rest);
      }
    }
  }

  /** Also where the number wraps around: nothing lies beyond the last one. */
  lemma NextMessageKeepsRing(r: Receiver)
    requires RingInv(r)
    ensures RingInv(NextMessage(r))
  {
  }

  /** The edge of the window: a fragment seven past the current message gets
      through the filter and is a fatal error; eight past, it is ignored. */
  lemma WindowEdge(r: Receiver, f: Fragment)
    requires RingInv(r) && r.readEpoch != 1 && !Oversized(r, f.hdr)
    ensures f.hdr.seqNum == r.readSeq + MAX_FLIGHT ==>
              AcceptFragment(r, f) == Rejected(InternalError, r)
    ensures f.hdr.seqNum > r.readSeq + MAX_FLIGHT ==> AcceptFragment(r, f) == Accepted(r)
  {
  }

  /** Epoch 1 carries one message at a time: a fragment of any other is fatal. */
  lemma EpochOneEdge(r: Receiver, f: Fragment)
    requires RingInv(r) && r.readEpoch == 1 && !Oversized(r, f.hdr)
    ensures f.hdr.seqNum != r.readSeq <==> AcceptFragment(r, f) == Rejected(UnexpectedMessage, r)
  {
  }

  // ----- The receiver in memory -------------------------------------------

  class HandshakeReceiver {
    var handshakeReadSeq: nat
    var incoming: seq<HmFragment?>
    var readEpoch: nat
    var nullCipher: bool
    const maxMsgLen: nat
    var hasMessage: bool
    var hasChangeCipherSpec: bool
    var outgoingMessagesComplete: bool
    var flightHasReply: bool
    ghost var Repr: set<object>
    ghost var model: Receiver

    ghost predicate SlotOk(i: nat)
      requires i < |incoming| && i < |model.slots|
      reads this, incoming[i], if incoming[i] == null then {} else incoming[i].Repr
    {
      if incoming[i] == null then model.slots[i] == None
      else incoming[i].Repr <= Repr && incoming[i].Valid() && model.slots[i] == Some(incoming[i].model)
    }

    /** `model` is the receiver as a value. */
    ghost predicate Valid()
      reads this, Repr
    {
      && this !in Repr
      && |incoming| == MAX_FLIGHT && |model.slots| == MAX_FLIGHT
      && handshakeReadSeq < U16
      && model == Receiver(handshakeReadSeq, model.slots, readEpoch, nullCipher, maxMsgLen, hasMessage,
                           hasChangeCipherSpec, outgoingMessagesComplete, flightHasReply)
      && (forall i :: 0 <= i < MAX_FLIGHT && incoming[i] != null ==>
            incoming[i] in Repr && incoming[i].Repr <= Repr)
      && (forall i :: 0 <= i < MAX_FLIGHT ==> SlotOk(i))
      && (forall i, j :: 0 <= i < j < MAX_FLIGHT && incoming[i] != null && incoming[j] != null ==>
            incoming[i].Repr !! incoming[j].Repr)
    }

    constructor (maxMsgLen: nat)
      ensures Valid() && fresh(Repr)
      ensures model == Receiver(0, [None, None, None, None, None, None, None], 0, true, maxMsgLen,
                                false, false, false, false)
      ensures RingInv(model)
    {
      handshakeReadSeq, readEpoch, nullCipher := 0, 0, true;
      this.maxMsgLen := maxMsgLen;
      hasMessage, hasChangeCipherSpec, outgoingMessagesComplete, flightHasReply := false, false, false, false;
      incoming := [null, null, null, null, null, null, null];
      Repr := {};
      model := Receiver(0, [None, None, None, None, None, None, None], 0, true, maxMsgLen,
                        false, false, false, false);
    }

    /** The message under reassembly that a fragment belongs to, begun now if
        this is its first fragment; `null` with an alert when there is none. */
    method GetIncoming(h: Header) returns (frag: HmFragment?, code: AlertCode)
      requires Valid() && h.Valid()
      modifies this`incoming, this`Repr, this`model
      ensures Valid() && fresh(Repr - old(Repr)) && old(Repr) <= Repr
      ensures var i, slots := h.seqNum % MAX_FLIGHT, old(model.slots);
              if h.seqNum < handshakeReadSeq || h.seqNum - handshakeReadSeq >= MAX_FLIGHT then
                frag == null && code == InternalError && model == old(model)
              else if slots[i].Some? && Mismatch(slots[i].value, h) then
                frag == null && code == IllegalParameter && model == old(model)
              else
                frag != null && frag == incoming[i] &&
                model == old(model).(slots := slots[i := if slots[i].Some? then slots[i] else Some(Begin(h))])
    {
      code := InternalError;
      if h.seqNum < handshakeReadSeq || h.seqNum - handshakeReadSeq >= MAX_FLIGHT {
        return null, InternalError;
      }
      var idx := h.seqNum % MAX_FLIGHT;
      frag := incoming[idx];
      assert SlotOk(idx);
      if frag != null {
        if frag.typ != h.typ || frag.msgLen != h.msgLen {
          return null, IllegalParameter;
        }
        assert model.slots == model.slots[idx := model.slots[idx]];
        return frag, code;
      }
      frag := BeginSlot(idx, h);
    }

    method BeginSlot(idx: nat, h: Header) returns (frag: HmFragment)
      requires Valid() && h.Valid() && idx < MAX_FLIGHT && incoming[idx] == null
      modifies this`incoming, this`Repr, this`model
      ensures Valid() && fresh(Repr - old(Repr)) && old(Repr) <= Repr
      ensures frag == incoming[idx]
      ensures model == old(model).(slots := old(model.slots)[idx := Some(Begin(h))])
    {
      frag := new HmFragment(h);
      incoming := incoming[idx := frag];
      Repr := Repr + frag.Repr;
      model := model.(slots := model.slots[idx := Some(Begin(h))]);
      forall i | 0 <= i < MAX_FLIGHT
        ensures SlotOk(i)
      {
        if i != idx {
          assert old(SlotOk(i));
        }
      }
    }

    /** Adds a body to the message in slot `idx` unless that is complete. */
    method AddTo(idx: nat, off: nat, body: seq<byte>)
      requires Valid() && idx < MAX_FLIGHT && incoming[idx] != null
      requires off + |body| <= incoming[idx].msgLen
      requires model.slots[idx].Some?
      modifies this`model, Repr
      ensures Valid()
      ensures model == old(model).(slots := old(model.slots)[idx := Some(Receive(old(model.slots)[idx].value, off, body))])
    {
      hide HmFragment.Valid, HmFragment.Shaped;
      forall i | 0 <= i < MAX_FLIGHT && incoming[i] != null
        ensures incoming[i] in incoming[i].Repr
      {
        assert SlotOk(i);
        incoming[i].OwnsItself();
      }
      assert SlotOk(idx);
      var frag := incoming[idx];
      var complete := frag.IsComplete();
      if !complete {
        frag.Add(off, body);
      }
      model := model.(slots := model.slots[idx := Some(frag.model)]);
      forall i | 0 <= i < MAX_FLIGHT
        ensures SlotOk(i)
      {
        if i != idx {
          assert old(SlotOk(i));
          assert incoming[i] != null ==> incoming[i].Repr !! frag.Repr;
        }
      }
    }

    /** A fragment for a message in the window. */
    method PlaceOne(f: Fragment) returns (ok: bool, code: AlertCode)
      requires Valid() && f.hdr.Valid() && !Ignored(model, f.hdr)
      requires f.hdr.fragOff + |f.body| <= f.hdr.msgLen
      modifies this`incoming, this`Repr, this`model, Repr
      ensures Valid() && fresh(Repr - old(Repr)) && old(Repr) <= Repr
      ensures (if ok then Accepted(model) else Rejected(code, model)) == PlaceFragment(old(model), f)
    {
      hide Receive;
      var h := f.hdr;
      var frag;
      frag, code := GetIncoming(h);
      if frag == null {
        return false, code;
      }
      ok := true;
      assert SlotOk(h.seqNum % MAX_FLIGHT);
      AddTo(h.seqNum % MAX_FLIGHT, h.fragOff, f.body);
    }

    /** One fragment of a handshake record. */
    method AcceptOne(f: Fragment) returns (ok: bool, code: AlertCode)
      requires Valid() && f.hdr.Valid() && |f.body| == f.hdr.fragLen
      modifies this`incoming, this`Repr, this`model, Repr
      ensures Valid() && fresh(Repr - old(Repr)) && old(Repr) <= Repr
      ensures (if ok then Accepted(model) else Rejected(code, model)) == AcceptFragment(old(model), f)
    {
      hide PlaceFragment;
      var h := f.hdr;
      code := InternalError;
      if h.fragOff > h.msgLen || h.fragOff + h.fragLen > h.msgLen || h.msgLen > maxMsgLen {
        return false, IllegalParameter;
      }
      if readEpoch == 1 && h.seqNum != handshakeReadSeq {
        return false, UnexpectedMessage;
      }
      if h.seqNum < handshakeReadSeq || h.seqNum > handshakeReadSeq + MAX_FLIGHT {
        return true, code;
      }
      ok, code := PlaceOne(f);
    }

    /** All fragments of a handshake record. */
    method AcceptPayload(payload: seq<byte>) returns (ok: bool, code: AlertCode)
      requires Valid()
      modifies this`incoming, this`Repr, this`model, Repr
      ensures Valid() && fresh(Repr - old(Repr)) && old(Repr) <= Repr
      ensures (if ok then Accepted(model) else Rejected(code, model)) == AcceptFragments(old(model), payload)
    {
      var rest := payload;
      ok, code := true, InternalError;
      while rest != []
        invariant ok && Valid() && fresh(Repr - old(Repr)) && old(Repr) <= Repr
        invariant AcceptFragments(model, rest) == AcceptFragments(old(model), payload)
        decreases |rest|
      {
        var parsed := ParseFragment(rest);
        if parsed.None? {
          return false, DecodeError;
        }
        ok, code := AcceptOne(parsed.value.0);
        if !ok {
          return;
        }
        rest := parsed.value.1;
      }
    }

    /** An opened record.  `discard` tells a record to drop from an accepted one. */
    method OpenHandshake(typ: byte, content: seq<byte>) returns (ok: bool, discard: bool, code: AlertCode)
      requires Valid()
      modifies this`incoming, this`Repr, this`model, this`hasChangeCipherSpec, Repr
      ensures Valid() && fresh(Repr - old(Repr)) && old(Repr) <= Repr
      ensures (if !ok then Rejected(code, model) else if discard then Dropped(model) else Accepted(model))
              == HandleRecord(old(model), typ, content)
    {
      ok, discard, code := true, false, UnexpectedMessage;
      if typ == RT_APPLICATION_DATA {
        return !nullCipher, true, UnexpectedMessage;
      } else if typ == RT_CHANGE_CIPHER_SPEC {
        if !nullCipher {
          return false, false, UnexpectedMessage;
        }
        if content != [MT_CCS] {
          return false, false, IllegalParameter;
        }
        hasChangeCipherSpec := true;
        model := model.(hasCcs := true);
        forall i | 0 <= i < MAX_FLIGHT
          ensures SlotOk(i)
        {
          assert old(SlotOk(i));
        }
      } else if typ == RT_HANDSHAKE {
        ok, code := AcceptPayload(content);
      } else {
        return false, false, UnexpectedMessage;
      }
    }

    method Get() returns (message: Option<(byte, seq<byte>)>)
      requires Valid()
      modifies this`hasMessage, this`model
      ensures Valid() && message == GetMessage(old(model)) && model == Looked(old(model))
    {
      assert SlotOk(handshakeReadSeq % MAX_FLIGHT);
      var frag := incoming[handshakeReadSeq % MAX_FLIGHT];
      if frag == null {
        return None;
      }
      var complete := frag.IsComplete();
      if !complete {
        return None;
      }
      var raw := frag.Raw();
      message := Some((frag.typ, raw));
      assert message == GetMessage(model);
      NoteMessage();
    }

    method NoteMessage()
      requires Valid()
      modifies this`hasMessage, this`model
      ensures Valid() && model == old(model).(hasMessage := true)
    {
      hide HmFragment.Valid, HmFragment.Shaped;
      hasMessage := true;
      model := model.(hasMessage := true);
      forall i | 0 <= i < MAX_FLIGHT
        ensures SlotOk(i)
      {
        assert old(SlotOk(i));
      }
    }

    /** Drops the current message; the caller has looked at it. */
    method Next()
      requires Valid() && hasMessage && GetMessage(model).Some?
      modifies this`incoming, this`handshakeReadSeq, this`hasMessage, this`flightHasReply, this`model
      ensures Valid() && model == NextMessage(old(model))
    {
      var idx := handshakeReadSeq % MAX_FLIGHT;
      incoming := incoming[idx := null];
      handshakeReadSeq := (handshakeReadSeq + 1) % U16;
      hasMessage := false;
      if outgoingMessagesComplete {
        flightHasReply := true;
      }
      model := NextMessage(model);
      forall i | 0 <= i < MAX_FLIGHT
        ensures SlotOk(i)
      {
        assert old(SlotOk(i));
      }
    }

    method Unprocessed() returns (found: bool)
      requires Valid()
      ensures found == HasUnprocessed(model)
    {
      if hasChangeCipherSpec {
        return true;
      }
      var current := handshakeReadSeq % MAX_FLIGHT;
      for i := 0 to MAX_FLIGHT
        invariant forall k :: 0 <= k < i ==> incoming[k] == null || (hasMessage && k == current)
      {
        if !(hasMessage && i == current) && incoming[i] != null {
          assert SlotOk(i);
          return true;
        }
      }
      forall i | 0 <= i < MAX_FLIGHT
        ensures model.slots[i].Some? <==> incoming[i] != null
      {
        assert SlotOk(i);
      }
      found := false;
    }
  }
}
