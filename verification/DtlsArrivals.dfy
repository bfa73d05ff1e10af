/** The receiving end of the DTLS handshake transport against any records at
    all: which it refuses, and what it makes of the others. */
module DtlsArrivals {
  import opened Bytes
  import opened HandshakeFragment
  import opened DtlsReceiver

  // ----- What a record holds ----------------------------------------------

  /** The fragments of a handshake record, if it is nothing but whole ones. */
  function Fragments(content: seq<byte>): Option<seq<Fragment>>
    decreases |content|
  {
    if content == [] then Some([]) else
    match ParseFragment(content)
    case None => None
    case Some((f, rest)) => match Fragments(rest) case None => None case Some(more) => Some([f] + more)
  }

  predicate InWindow(readSeq: nat, f: Fragment) { readSeq <= f.hdr.seqNum < readSeq + 7 }

  /** Those of messages of the window. */
  function Windowed(readSeq: nat, fs: seq<Fragment>): seq<Fragment> {
    if fs == [] then [] else (if InWindow(readSeq, fs[0]) then [fs[0]] else []) + Windowed(readSeq, fs[1..])
  }

  /** Within its message, which is not too long, and of a number that is waited
      for: in epoch 1 the current one only, and never the one just past the
      window. */
  predicate Admitted(r: Receiver, f: Fragment) {
    && f.hdr.fragOff + |f.body| <= f.hdr.msgLen <= r.maxMsgLen
    && (r.readEpoch == 1 ==> f.hdr.seqNum == r.readSeq) && f.hdr.seqNum != r.readSeq + 7
  }

  /** Fragments of one number are of one message. */
  predicate Agree(fs: seq<Fragment>) {
    forall i, j :: 0 <= i < |fs| && 0 <= j < |fs| && fs[i].hdr.seqNum == fs[j].hdr.seqNum ==>
      fs[i].hdr.typ == fs[j].hdr.typ && fs[i].hdr.msgLen == fs[j].hdr.msgLen
  }

  predicate Any(fs: seq<Fragment>, n: nat) { exists i :: 0 <= i < |fs| && fs[i].hdr.seqNum == n }

  /** The byte at `p` of message `n` came in a fragment. */
  predicate CameAt(fs: seq<Fragment>, n: nat, p: nat) {
    exists i :: 0 <= i < |fs| && fs[i].hdr.seqNum == n && p in Span(fs[i].hdr.fragOff, |fs[i].body|)
  }

  predicate CameAs(fs: seq<Fragment>, n: nat, p: nat, b: byte) {
    exists i :: 0 <= i < |fs| && fs[i].hdr.seqNum == n && p in Span(fs[i].hdr.fragOff, |fs[i].body|) &&
                fs[i].body[p - fs[i].hdr.fragOff] == b
  }

  /** `m` is what the fragments of number `n` make: of their type and length, with
      exactly the positions that came, and at each a byte that came there. */
  ghost predicate MadeOf(m: Partial, fs: seq<Fragment>, n: nat) {
    && m.seqNum == n && m.got.Keys <= Interval(0, m.msgLen)
    && (forall i :: 0 <= i < |fs| && fs[i].hdr.seqNum == n ==> fs[i].hdr.typ == m.typ && fs[i].hdr.msgLen == m.msgLen)
    && (forall p: nat :: p in m.got <==> CameAt(fs, n, p))
    && (forall p: nat :: p in m.got ==> CameAs(fs, n, p, m.got[p]))
  }

  ghost predicate SlotMadeOf(slot: Option<Partial>, fs: seq<Fragment>, n: nat) {
    match slot
    case None => !Any(fs, n)
    case Some(m) => Any(fs, n) && MadeOf(m, fs, n)
  }

  /** The ring is what the fragments make. */
  ghost predicate RingMadeOf(r: Receiver, fs: seq<Fragment>) {
    && RingInv(r) && Agree(fs) && (forall i :: 0 <= i < |fs| ==> fs[i].hdr.seqNum < r.readSeq + 7)
    && forall n: nat :: r.readSeq <= n < r.readSeq + 7 ==> SlotMadeOf(r.slots[n % MAX_FLIGHT], fs, n)
  }

  // ----- One fragment -----------------------------------------------------

  lemma {:induction false} SnocCame(fs: seq<Fragment>, f: Fragment, n: nat)
    ensures Any(fs + [f], n) <==> Any(fs, n) || f.hdr.seqNum == n
    ensures forall p: nat :: CameAt(fs + [f], n, p) <==>
              CameAt(fs, n, p) || (f.hdr.seqNum == n && p in Span(f.hdr.fragOff, |f.body|))
    ensures forall p: nat, b: byte :: CameAs(fs, n, p, b) ==> CameAs(fs + [f], n, p, b)
    ensures forall p: nat :: f.hdr.seqNum == n && p in Span(f.hdr.fragOff, |f.body|) ==>
              CameAs(fs + [f], n, p, f.body[p - f.hdr.fragOff])
  {
    hide CameAt, CameAs;
    var more := fs + [f];
    assert more[|fs|] == f && forall i :: 0 <= i < |fs| ==> more[i] == fs[i];
    if Any(fs, n) {
      var i :| 0 <= i < |fs| && fs[i].hdr.seqNum == n;
      assert more[i].hdr.seqNum == n;
    }
    forall p: nat
      ensures CameAt(more, n, p) <==> CameAt(fs, n, p) || (f.hdr.seqNum == n && p in Span(f.hdr.fragOff, |f.body|))
    {
      SnocCameAt(fs, f, n, p);
    }
    forall p: nat, b: byte | CameAs(fs, n, p, b)
      ensures CameAs(more, n, p, b)
    {
      SnocCameAs(fs, f, n, p, b);
    }
    forall p: nat | f.hdr.seqNum == n && p in Span(f.hdr.fragOff, |f.body|)
      ensures CameAs(more, n, p, f.body[p - f.hdr.fragOff])
    {
      LastCame(fs, f, p);
    }
  }

  lemma {:induction false} SnocCameAt(fs: seq<Fragment>, f: Fragment, n: nat, p: nat)
    ensures CameAt(fs + [f], n, p) <==> CameAt(fs, n, p) || (f.hdr.seqNum == n && p in Span(f.hdr.fragOff, |f.body|))
  {
    hide Span;
    var more := fs + [f];
    assert more[|fs|] == f && forall i :: 0 <= i < |fs| ==> more[i] == fs[i];
    if CameAt(fs, n, p) {
      var i :| 0 <= i < |fs| && fs[i].hdr.seqNum == n && p in Span(fs[i].hdr.fragOff, |fs[i].body|);
      assert more[i] == fs[i];
    }
  }

  lemma {:induction false} SnocCameAs(fs: seq<Fragment>, f: Fragment, n: nat, p: nat, b: byte)
    requires CameAs(fs, n, p, b)
    ensures CameAs(fs + [f], n, p, b)
  {
    var more := fs + [f];
    var i :| 0 <= i < |fs| && fs[i].hdr.seqNum == n && p in Span(fs[i].hdr.fragOff, |fs[i].body|) &&
             fs[i].body[p - fs[i].hdr.fragOff] == b;
    assert more[i] == fs[i];
  }

  lemma {:induction false} LastCame(fs: seq<Fragment>, f: Fragment, p: nat)
    requires p in Span(f.hdr.fragOff, |f.body|)
    ensures CameAs(fs + [f], f.hdr.seqNum, p, f.body[p - f.hdr.fragOff])
  {
    assert (fs + [f])[|fs|] == f;
  }

  /** A fragment of the message is received. */
  lemma {:induction false} ReceiveMadeOf(m: Partial, fs: seq<Fragment>, f: Fragment, n: nat)
    requires MadeOf(m, fs, n) && f.hdr.seqNum == n && f.hdr.typ == m.typ && f.hdr.msgLen == m.msgLen
    requires f.hdr.fragOff + |f.body| <= m.msgLen
    ensures MadeOf(Receive(m, f.hdr.fragOff, f.body), fs + [f], n)
  {
    hide CameAt, CameAs;
    SnocCame(fs, f, n);
    var more := fs + [f];
    assert more[|fs|] == f && forall i :: 0 <= i < |fs| ==> more[i] == fs[i];
  }

  lemma {:induction false} BeginMadeOf(fs: seq<Fragment>, f: Fragment)
    requires !Any(fs, f.hdr.seqNum)
    ensures MadeOf(Begin(f.hdr), fs, f.hdr.seqNum)
  {
  }

  lemma {:induction false} OtherMadeOf(slot: Option<Partial>, fs: seq<Fragment>, f: Fragment, n: nat)
    requires SlotMadeOf(slot, fs, n) && f.hdr.seqNum != n
    ensures SlotMadeOf(slot, fs + [f], n)
  {
    hide CameAt, CameAs, Any;
    SnocCame(fs, f, n);
  }

  lemma {:induction false} SnocAgree(r: Receiver, fs: seq<Fragment>, f: Fragment)
    requires RingMadeOf(r, fs) && InWindow(r.readSeq, f)
    ensures var slot := r.slots[f.hdr.seqNum % MAX_FLIGHT];
            Agree(fs + [f]) <==> slot.None? || !Mismatch(slot.value, f.hdr)
  {
    hide CameAt, CameAs;
    var n, more := f.hdr.seqNum, fs + [f];
    assert more[|fs|] == f && forall i :: 0 <= i < |fs| ==> more[i] == fs[i];
    assert SlotMadeOf(r.slots[n % MAX_FLIGHT], fs, n);
    if Agree(more) && Any(fs, n) {
      var i :| 0 <= i < |fs| && fs[i].hdr.seqNum == n;
      assert more[i] == fs[i];
    }
  }

  /** A fragment is accepted exactly if it is admitted and, in the window, agrees
      with those before it; and then the ring is what it and they make. */
  lemma {:induction false} FragmentExactly(r: Receiver, fs: seq<Fragment>, f: Fragment)
    requires RingMadeOf(r, fs) && |f.body| == f.hdr.fragLen && f.hdr.seqNum < U16
    ensures var out := AcceptFragment(r, f);
            var more := if InWindow(r.readSeq, f) then fs + [f] else fs;
            && (out.Accepted? <==> Admitted(r, f) && Agree(more)) && (out.Accepted? || out.Rejected?)
            && (out.Accepted? ==> RingMadeOf(out.r, more) && out.r == r.(slots := out.r.slots))
  {
    hide MadeOf, Any, Receive;
    var out := AcceptFragment(r, f);
    AcceptFragmentKeepsRing(r, f);
    if InWindow(r.readSeq, f) {
      SnocAgree(r, fs, f);
      if out.Accepted? {
        WindowGrows(r, fs, f);
      }
    }
  }

  lemma {:induction false} WindowGrows(r: Receiver, fs: seq<Fragment>, f: Fragment)
    requires RingMadeOf(r, fs) && |f.body| == f.hdr.fragLen && InWindow(r.readSeq, f)
    requires AcceptFragment(r, f).Accepted?
    ensures forall n: nat :: r.readSeq <= n < r.readSeq + 7 ==>
              SlotMadeOf(AcceptFragment(r, f).r.slots[n % MAX_FLIGHT], fs + [f], n)
  {
    hide MadeOf, Any, Receive;
    var i := f.hdr.seqNum;
    SnocCame(fs, f, i);
    forall n: nat | r.readSeq <= n < r.readSeq + 7
      ensures SlotMadeOf(AcceptFragment(r, f).r.slots[n % MAX_FLIGHT], fs + [f], n)
    {
      var slot := r.slots[n % MAX_FLIGHT];
      assert SlotMadeOf(slot, fs, n);
      if n == i {
        if slot.None? { BeginMadeOf(fs, f); }
        ReceiveMadeOf(if slot.Some? then slot.value else Begin(f.hdr), fs, f, n);
      } else {
        OtherMadeOf(slot, fs, f, n);
        assert n % MAX_FLIGHT != i % MAX_FLIGHT;
      }
    }
  }

  // ----- One record -------------------------------------------------------

  lemma {:induction false} AgreePrefix(fs: seq<Fragment>, more: seq<Fragment>)
    requires Agree(fs + more)
    ensures Agree(fs)
  {
    var all := fs + more;
    forall i, j | 0 <= i < |fs| && 0 <= j < |fs| && fs[i].hdr.seqNum == fs[j].hdr.seqNum
      ensures fs[i].hdr.typ == fs[j].hdr.typ && fs[i].hdr.msgLen == fs[j].hdr.msgLen
    {
      assert all[i] == fs[i] && all[j] == fs[j];
    }
  }

  predicate AllAdmitted(r: Receiver, fs: seq<Fragment>) {
    forall i :: 0 <= i < |fs| ==> Admitted(r, fs[i])
  }

  /** A handshake record is accepted exactly if it is nothing but whole fragments,
      each of them admitted, and those of the window agree with all before them;
      and then the ring is what they make together. */
  lemma {:induction false} HandshakeExactly(r: Receiver, fs: seq<Fragment>, content: seq<byte>)
    requires RingMadeOf(r, fs)
    ensures var out := AcceptFragments(r, content);
            && (out.Accepted? <==>
                  Fragments(content).Some? && AllAdmitted(r, Fragments(content).value) &&
                  Agree(fs + Windowed(r.readSeq, Fragments(content).value)))
            && (out.Accepted? || out.Rejected?)
            && (out.Accepted? ==>
                  RingMadeOf(out.r, fs + Windowed(r.readSeq, Fragments(content).value)) &&
                  out.r == r.(slots := out.r.slots))
    decreases |content|
  {
    hide RingMadeOf, Agree, AcceptFragment, Admitted, ParseFragment;
    if content == [] {
      assert fs + [] == fs;
      MadeAgrees(r, fs);
    } else if ParseFragment(content).Some? {
      var (f, rest) := ParseFragment(content).value;
      MadeAgrees(r, fs);
      MadeLength(r, fs);
      FragmentExactly(r, fs, f);
      var step := AcceptFragment(r, f);
      var more := if InWindow(r.readSeq, f) then fs + [f] else fs;
      if Fragments(rest).Some? {
        var later := Fragments(rest).value;
        assert ([f] + later)[1..] == later;
        assert fs + Windowed(r.readSeq, [f] + later) == more + Windowed(r.readSeq, later);
        AdmittedSplit(r, f, later);
        if Agree(more + Windowed(r.readSeq, later)) {
          AgreePrefix(more, Windowed(r.readSeq, later));
        }
      }
      if step.Accepted? {
        MadeLength(step.r, more);
        HandshakeExactly(step.r, more, rest);
        SameAdmitted(r, step.r);
      }
    }
  }

  lemma {:induction false} MadeAgrees(r: Receiver, fs: seq<Fragment>)
    requires RingMadeOf(r, fs)
    ensures Agree(fs)
  {
  }

  lemma {:induction false} MadeLength(r: Receiver, fs: seq<Fragment>)
    requires RingMadeOf(r, fs)
    ensures |r.slots| == MAX_FLIGHT
  {
  }

  lemma {:induction false} AdmittedSplit(r: Receiver, f: Fragment, later: seq<Fragment>)
    ensures AllAdmitted(r, [f] + later) <==> Admitted(r, f) && AllAdmitted(r, later)
  {
    var all := [f] + later;
    assert all[0] == f && forall i :: 0 <= i < |later| ==> all[i + 1] == later[i];
    if AllAdmitted(r, all) {
      forall i | 0 <= i < |later|
        ensures Admitted(r, later[i])
      {
        assert Admitted(r, all[i + 1]);
      }
    }
  }

  lemma {:induction false} SameAdmitted(r: Receiver, r': Receiver)
    requires r' == r.(slots := r'.slots)
    ensures forall fs :: AllAdmitted(r, fs) <==> AllAdmitted(r', fs)
  {
    hide Span;
    forall fs
      ensures AllAdmitted(r, fs) <==> AllAdmitted(r', fs)
    {
      assert forall f :: Admitted(r, f) <==> Admitted(r', f);
    }
  }

  // ----- Runs -------------------------------------------------------------

  /** An opened record comes; the handshake looks for a message, or takes one; or
      this end's own flight is all sent. */
  datatype Happens = Comes(typ: byte, content: seq<byte>) | Looks | Takes | IsSent

  /** The receiver, the fragments of the window that came, the messages taken, and
      how many had been taken when the own flight was first sent. */
  datatype Arrivals = Arrivals(r: Receiver, came: seq<Fragment>, taken: seq<(byte, seq<byte>)>, ccs: bool,
                               looked: bool, sentAt: Option<nat>, failed: bool)

  function Meets(a: Arrivals, h: Happens): Arrivals
    requires |a.r.slots| == MAX_FLIGHT
  {
    if a.failed then a else
    match h
    case Comes(typ, content) =>
      var out := HandleRecord(a.r, typ, content);
      a.(r := out.r, failed := out.Rejected?, ccs := a.ccs || typ == 20,
         came := if typ == 22 && Fragments(content).Some?
                 then a.came + Windowed(a.r.readSeq, Fragments(content).value) else a.came)
    case Looks => a.(r := Looked(a.r), looked := a.looked || GetMessage(a.r).Some?)
    case Takes =>
      (match GetMessage(a.r)
       case None => a
       case Some(m) => a.(r := NextMessage(Looked(a.r)), taken := a.taken + [m], looked := false))
    case IsSent =>
      a.(r := a.r.(flightSent := true), sentAt := if a.sentAt.None? then Some(|a.taken|) else a.sentAt)
  }

  /** A record that is no reason to end the connection: a ChangeCipherSpec while
      nothing is encrypted, application data once it is, or a handshake record of
      admitted fragments that agree with those before. */
  predicate Lawful(a: Arrivals, typ: byte, content: seq<byte>) {
    if typ == 20 then a.r.nullCipher && content == [1]
    else if typ == 23 then !a.r.nullCipher
    else
      && typ == 22 && Fragments(content).Some? && AllAdmitted(a.r, Fragments(content).value)
      && Agree(a.came + Windowed(a.r.readSeq, Fragments(content).value))
  }

  /** Message number `n` as it was handed out: with its header in front, and every
      byte of its body as it came. */
  ghost predicate HandedOut(m: (byte, seq<byte>), fs: seq<Fragment>, n: nat) {
    exists body: seq<byte> ::
      && m.1 == FragmentBytes(Fragment(Header(m.0, |body|, n, 0, |body|), body)) && Any(fs, n)
      && (forall i :: 0 <= i < |fs| && fs[i].hdr.seqNum == n ==> fs[i].hdr.typ == m.0 && fs[i].hdr.msgLen == |body|)
      && (forall p: nat :: p < |body| ==> CameAs(fs, n, p, body[p]))
  }

  /** All of message `n` has come. */
  ghost predicate AllCame(fs: seq<Fragment>, n: nat) {
    exists i :: 0 <= i < |fs| && fs[i].hdr.seqNum == n && forall p: nat :: p < fs[i].hdr.msgLen ==> CameAt(fs, n, p)
  }

  ghost predicate ArrivalsInv(a: Arrivals, base: nat) {
    && RingMadeOf(a.r, a.came) && a.r.readSeq == base + |a.taken| && a.r.hasCcs == a.ccs
    && (forall k :: 0 <= k < |a.taken| ==> HandedOut(a.taken[k], a.came, base + k))
    && (forall i :: 0 <= i < |a.came| ==>
          a.came[i].hdr.fragOff + |a.came[i].body| <= a.came[i].hdr.msgLen <= a.r.maxMsgLen)
    && a.r.hasMessage == a.looked && (a.looked ==> AllCame(a.came, a.r.readSeq))
    && a.r.flightSent == a.sentAt.Some? && (a.sentAt.Some? ==> a.sentAt.value <= |a.taken|)
    && (a.r.flightHasReply <==> a.sentAt.Some? && a.sentAt.value < |a.taken|)
  }

  /** What more fragments leave as it was. */
  lemma {:induction false} HandedOutStays(m: (byte, seq<byte>), fs: seq<Fragment>, more: seq<Fragment>, n: nat)
    requires HandedOut(m, fs, n) && forall i :: 0 <= i < |more| ==> more[i].hdr.seqNum != n
    ensures HandedOut(m, fs + more, n)
  {
    hide FragmentBytes, CameAs;
    var all := fs + more;
    var body: seq<byte> :|
      && m.1 == FragmentBytes(Fragment(Header(m.0, |body|, n, 0, |body|), body)) && Any(fs, n)
      && (forall i :: 0 <= i < |fs| && fs[i].hdr.seqNum == n ==> fs[i].hdr.typ == m.0 && fs[i].hdr.msgLen == |body|)
      && (forall p: nat :: p < |body| ==> CameAs(fs, n, p, body[p]));
    assert forall i :: 0 <= i < |fs| ==> all[i] == fs[i];
    assert Any(all, n) by {
      var i :| 0 <= i < |fs| && fs[i].hdr.seqNum == n;
      assert all[i].hdr.seqNum == n;
    }
    forall p: nat | p < |body|
      ensures CameAs(all, n, p, body[p])
    {
      CameAsMore(fs, more, n, p, body[p]);
    }
  }

  lemma {:induction false} CameAsMore(fs: seq<Fragment>, more: seq<Fragment>, n: nat, p: nat, b: byte)
    requires CameAs(fs, n, p, b)
    ensures CameAs(fs + more, n, p, b)
  {
    var all := fs + more;
    var i :| 0 <= i < |fs| && fs[i].hdr.seqNum == n && p in Span(fs[i].hdr.fragOff, |fs[i].body|) &&
             fs[i].body[p - fs[i].hdr.fragOff] == b;
    assert all[i] == fs[i];
  }

  lemma {:induction false} AllCameMore(fs: seq<Fragment>, more: seq<Fragment>, n: nat)
    requires AllCame(fs, n)
    ensures AllCame(fs + more, n)
  {
    hide Span;
    var all := fs + more;
    var i :| 0 <= i < |fs| && fs[i].hdr.seqNum == n && forall p: nat :: p < fs[i].hdr.msgLen ==> CameAt(fs, n, p);
    assert all[i] == fs[i];
    forall p: nat | p < fs[i].hdr.msgLen
      ensures CameAt(all, n, p)
    {
      assert CameAt(fs, n, p);
      var k :| 0 <= k < |fs| && fs[k].hdr.seqNum == n && p in Span(fs[k].hdr.fragOff, |fs[k].body|);
      assert all[k] == fs[k];
    }
  }

  lemma {:induction false} WindowedIn(readSeq: nat, fs: seq<Fragment>)
    ensures forall i :: 0 <= i < |Windowed(readSeq, fs)| ==>
              Windowed(readSeq, fs)[i].hdr.seqNum >= readSeq && Windowed(readSeq, fs)[i] in fs
    decreases |fs|
  {
    if fs != [] {
      WindowedIn(readSeq, fs[1..]);
    }
  }

  /** A message is there exactly if all of it came, and then it is what came. */
  lemma {:induction false} CurrentExactly(r: Receiver, fs: seq<Fragment>)
    requires RingMadeOf(r, fs)
    ensures GetMessage(r).Some? <==> AllCame(fs, r.readSeq)
    ensures GetMessage(r).Some? ==> HandedOut(GetMessage(r).value, fs, r.readSeq)
  {
    hide FragmentBytes, CameAs, CameAt;
    var n := r.readSeq;
    var slot := r.slots[n % MAX_FLIGHT];
    assert SlotMadeOf(slot, fs, n);
    if slot.Some? {
      var m := slot.value;
      if m.Complete() {
        var body := m.Body();
        var i :| 0 <= i < |fs| && fs[i].hdr.seqNum == n;
        assert forall p: nat :: p < fs[i].hdr.msgLen ==> p in m.got;
        assert HandedOut(GetMessage(r).value, fs, n);
      }
    }
  }

  /** Any record is fatal exactly if it is not lawful; anything else leaves the
      receiver what the fragments that came make it. */
  lemma {:induction false} MeetsExactly(a: Arrivals, h: Happens, base: nat)
    requires ArrivalsInv(a, base) && !a.failed && base + |a.taken| + 1 < U16
    ensures Meets(a, h).failed <==> h.Comes? && !Lawful(a, h.typ, h.content)
    ensures !Meets(a, h).failed ==> ArrivalsInv(Meets(a, h), base)
  {
    hide HandedOut, AllCame, RingMadeOf, AllAdmitted, Agree, GetMessage;
    MadeLength(a.r, a.came);
    match h
    case Comes(typ, content) =>
      if typ == 22 {
        HandshakeExactly(a.r, a.came, content);
        if !Meets(a, h).failed { HandshakeComes(a, content, base); }
      } else {
        CcsIrrelevant(a.r, a.came);
      }
    case Looks =>
      CurrentExactly(a.r, a.came);
      FlagsIrrelevant(a.r, a.came, Looked(a.r));
    case Takes =>
      CurrentExactly(a.r, a.came);
      if GetMessage(a.r).Some? { TakeMade(a.r, a.came); }
    case IsSent => FlagsIrrelevant(a.r, a.came, a.r.(flightSent := true));
  }

  lemma {:induction false} HandshakeComes(a: Arrivals, content: seq<byte>, base: nat)
    requires ArrivalsInv(a, base) && !a.failed && |a.r.slots| == MAX_FLIGHT
    requires AcceptFragments(a.r, content).Accepted? && Fragments(content).Some?
    requires AllAdmitted(a.r, Fragments(content).value)
    requires RingMadeOf(AcceptFragments(a.r, content).r, a.came + Windowed(a.r.readSeq, Fragments(content).value))
    requires AcceptFragments(a.r, content).r == a.r.(slots := AcceptFragments(a.r, content).r.slots)
    ensures ArrivalsInv(Meets(a, Comes(22, content)), base)
  {
    hide HandedOut, AllCame, RingMadeOf, Agree, AcceptFragments, Fragments, Windowed;
    var more := Windowed(a.r.readSeq, Fragments(content).value);
    WindowedIn(a.r.readSeq, Fragments(content).value);
    forall k | 0 <= k < |a.taken|
      ensures HandedOut(a.taken[k], a.came + more, base + k)
    {
      HandedOutStays(a.taken[k], a.came, more, base + k);
    }
    if a.looked {
      AllCameMore(a.came, more, a.r.readSeq);
    }
    forall i | 0 <= i < |more|
      ensures more[i].hdr.fragOff + |more[i].body| <= more[i].hdr.msgLen <= a.r.maxMsgLen
    {
      var fs := Fragments(content).value;
      assert Windowed(a.r.readSeq, fs)[i] in fs;
      AdmittedIn(a.r, fs, more[i]);
    }
  }

  lemma {:induction false} AdmittedIn(r: Receiver, fs: seq<Fragment>, f: Fragment)
    requires AllAdmitted(r, fs) && f in fs
    ensures Admitted(r, f)
  {
    var j :| 0 <= j < |fs| && fs[j] == f;
    assert Admitted(r, fs[j]);
  }

  lemma {:induction false} CcsIrrelevant(r: Receiver, fs: seq<Fragment>)
    requires RingMadeOf(r, fs)
    ensures RingMadeOf(r.(hasCcs := true), fs)
  {
    hide SlotMadeOf, Agree;
  }

  lemma {:induction false} FlagsIrrelevant(r: Receiver, fs: seq<Fragment>, r': Receiver)
    requires RingMadeOf(r, fs) && r' == r.(hasMessage := r'.hasMessage, flightSent := r'.flightSent)
    ensures RingMadeOf(r', fs)
  {
    hide SlotMadeOf, Agree;
  }

  lemma {:induction false} TakeMade(r: Receiver, fs: seq<Fragment>)
    requires RingMadeOf(r, fs) && r.readSeq + 1 < U16
    ensures RingMadeOf(NextMessage(Looked(r)), fs)
  {
    hide MadeOf, Agree, GetMessage;
    NextMessageKeepsRing(Looked(r));
    var r' := NextMessage(Looked(r));
    forall n: nat | r'.readSeq <= n < r'.readSeq + 7
      ensures SlotMadeOf(r'.slots[n % MAX_FLIGHT], fs, n)
    {
      if n < r.readSeq + 7 {
        assert SlotMadeOf(r.slots[n % MAX_FLIGHT], fs, n);
        assert n % MAX_FLIGHT != r.readSeq % MAX_FLIGHT;
      } else {
        assert n % MAX_FLIGHT == r.readSeq % MAX_FLIGHT;
      }
    }
  }

  // ----- Whole runs -------------------------------------------------------

  lemma {:induction false} MeetsLength(a: Arrivals, h: Happens)
    requires |a.r.slots| == MAX_FLIGHT
    ensures |Meets(a, h).r.slots| == MAX_FLIGHT
  {
    hide HandleRecord, GetMessage;
    if h.Comes? {
      HandleRecordFrame(a.r, h.typ, h.content);
    }
  }

  function RunOn(a: Arrivals, hs: seq<Happens>): (end: Arrivals)
    requires |a.r.slots| == MAX_FLIGHT
    ensures |end.r.slots| == MAX_FLIGHT
  {
    if hs == [] then a else
    var before := RunOn(a, hs[..|hs| - 1]);
    MeetsLength(before, hs[|hs| - 1]);
    Meets(before, hs[|hs| - 1])
  }

  /** Every record that came was lawful where it came. */
  predicate AllLawful(a: Arrivals, hs: seq<Happens>)
    requires |a.r.slots| == MAX_FLIGHT
  {
    hs == [] ||
    (AllLawful(a, hs[..|hs| - 1]) &&
     var last := hs[|hs| - 1];
     last.Comes? ==> Lawful(RunOn(a, hs[..|hs| - 1]), last.typ, last.content))
  }

  function Waiting(base: nat, epoch: nat, nullCipher: bool, maxMsgLen: nat): Arrivals {
    Arrivals(Receiver(base, [None, None, None, None, None, None, None], epoch, nullCipher, maxMsgLen,
                      false, false, false, false), [], [], false, false, None, false)
  }

  /** Whatever records come, in whatever order: the connection ends exactly at the
      first one that is not lawful.  Until then the ring is what the fragments
      that came make; the messages taken are numbered from `base`, and every byte
      of theirs came in a fragment of that number, type and length; and the next
      message is there exactly if all of it came. */
  lemma {:induction false} ArrivalsExactly(base: nat, epoch: nat, nullCipher: bool, maxMsgLen: nat, hs: seq<Happens>)
    requires base + |hs| + 1 < U16
    ensures var end := RunOn(Waiting(base, epoch, nullCipher, maxMsgLen), hs);
            && (!end.failed <==> AllLawful(Waiting(base, epoch, nullCipher, maxMsgLen), hs))
            && (!end.failed ==>
                  ArrivalsInv(end, base) && |end.taken| <= |hs| &&
                  (GetMessage(end.r).Some? <==> AllCame(end.came, base + |end.taken|)))
    decreases |hs|
  {
    hide ArrivalsInv, Meets, Lawful, AllCame, GetMessage;
    var a := Waiting(base, epoch, nullCipher, maxMsgLen);
    if hs == [] {
      WaitingInv(base, epoch, nullCipher, maxMsgLen);
    } else {
      var front, last := hs[..|hs| - 1], hs[|hs| - 1];
      ArrivalsExactly(base, epoch, nullCipher, maxMsgLen, front);
      var before := RunOn(a, front);
      if before.failed {
        StillFailed(before, last);
      } else {
        MeetsExactly(before, last, base);
        MeetsTakes(before, last);
      }
    }
    if !RunOn(a, hs).failed { NextExactly(RunOn(a, hs), base); }
  }

  lemma {:induction false} WaitingInv(base: nat, epoch: nat, nullCipher: bool, maxMsgLen: nat)
    requires base < U16
    ensures ArrivalsInv(Waiting(base, epoch, nullCipher, maxMsgLen), base)
  {
  }

  lemma {:induction false} StillFailed(a: Arrivals, h: Happens)
    requires |a.r.slots| == MAX_FLIGHT && a.failed
    ensures Meets(a, h) == a
  {
  }

  lemma {:induction false} MeetsTakes(a: Arrivals, h: Happens)
    requires |a.r.slots| == MAX_FLIGHT
    ensures |Meets(a, h).taken| <= |a.taken| + 1
  {
    hide HandleRecord, GetMessage;
  }

  lemma {:induction false} NextExactly(a: Arrivals, base: nat)
    requires ArrivalsInv(a, base)
    ensures |a.r.slots| == MAX_FLIGHT && (GetMessage(a.r).Some? <==> AllCame(a.came, base + |a.taken|))
  {
    hide RingMadeOf, AllCame, GetMessage, HandedOut;
    MadeLength(a.r, a.came);
    CurrentExactly(a.r, a.came);
  }

  /** A fragment of a message not taken yet, other than the one looked at. */
  predicate LeftOver(a: Arrivals, base: nat, i: nat)
    requires i < |a.came|
  {
    a.came[i].hdr.seqNum >= base + |a.taken| && !(a.looked && a.came[i].hdr.seqNum == base + |a.taken|)
  }

  lemma {:induction false} LeftInSlot(a: Arrivals, base: nat, i: nat)
    requires ArrivalsInv(a, base) && i < |a.came| && LeftOver(a, base, i)
    ensures |a.r.slots| == MAX_FLIGHT && HasUnprocessed(a.r)
  {
    hide MadeOf, HandedOut, AllCame, Agree;
    var n := a.came[i].hdr.seqNum;
    assert Any(a.came, n);
    assert SlotMadeOf(a.r.slots[n % MAX_FLIGHT], a.came, n);
    assert n != a.r.readSeq ==> n % MAX_FLIGHT != a.r.readSeq % MAX_FLIGHT;
  }

  lemma {:induction false} SlotIsLeft(a: Arrivals, base: nat, k: nat) returns (i: nat)
    requires ArrivalsInv(a, base) && k < MAX_FLIGHT && |a.r.slots| == MAX_FLIGHT && a.r.slots[k].Some?
    requires !(a.r.hasMessage && k == a.r.readSeq % MAX_FLIGHT)
    ensures i < |a.came| && LeftOver(a, base, i)
  {
    hide MadeOf, HandedOut, AllCame, Agree;
    var n := a.r.slots[k].value.seqNum;
    assert SlotMadeOf(a.r.slots[n % MAX_FLIGHT], a.came, n);
    i :| 0 <= i < |a.came| && a.came[i].hdr.seqNum == n;
  }

  /** Something is left over exactly if a ChangeCipherSpec came, or a fragment of a
      message not taken yet, other than the one being looked at. */
  lemma {:induction false} LeftOverExactly(a: Arrivals, base: nat)
    requires ArrivalsInv(a, base)
    ensures |a.r.slots| == MAX_FLIGHT
    ensures HasUnprocessed(a.r) <==> a.ccs || exists i :: 0 <= i < |a.came| && LeftOver(a, base, i)
  {
    hide RingMadeOf, HandedOut, AllCame, LeftOver;
    MadeLength(a.r, a.came);
    if HasUnprocessed(a.r) && !a.ccs {
      var k :| 0 <= k < MAX_FLIGHT && a.r.slots[k].Some? && !(a.r.hasMessage && k == a.r.readSeq % MAX_FLIGHT);
      var i := SlotIsLeft(a, base, k);
    }
    if i :| 0 <= i < |a.came| && LeftOver(a, base, i) {
      LeftInSlot(a, base, i);
    }
  }
}
