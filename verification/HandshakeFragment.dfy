/** DTLS handshake fragments on the wire, and one incoming message being put
    together from them. */
module HandshakeFragment {
  import opened Bits
  import opened Bytes

  const HM_HEADER_LENGTH: nat := 12
  const U24: nat := 0x100_0000
  const U16: nat := 0x1_0000

  datatype Header = Header(typ: byte, msgLen: nat, seqNum: nat, fragOff: nat, fragLen: nat)
  {
    predicate Valid() {
      msgLen < U24 && seqNum < U16 && fragOff < U24 && fragLen < U24
    }
  }

  datatype Fragment = Fragment(hdr: Header, body: seq<byte>)

  function HeaderBytes(h: Header): (s: seq<byte>)
    ensures |s| == HM_HEADER_LENGTH
  {
    [h.typ] + ToBE(h.msgLen, 3) + ToBE(h.seqNum, 2) + ToBE(h.fragOff, 3) + ToBE(h.fragLen, 3)
  }

  function FragmentBytes(f: Fragment): seq<byte> {
    HeaderBytes(f.hdr) + f.body
  }

  /** The fragment at the front of `s`, and what follows it. */
  function ParseFragment(s: seq<byte>): (r: Option<(Fragment, seq<byte>)>)
    ensures r.Some? ==> |r.value.0.body| == r.value.0.hdr.fragLen && |r.value.1| < |s|
    ensures r.Some? ==> r.value.0.hdr.Valid()
  {
    if |s| < HM_HEADER_LENGTH then None else
    HeaderFieldsBounded(s);
    var h := Header(s[0], FromBE(s[1..4]), FromBE(s[4..6]), FromBE(s[6..9]), FromBE(s[9..12]));
    if |s| - HM_HEADER_LENGTH < h.fragLen then None else
    Some((Fragment(h, s[HM_HEADER_LENGTH..HM_HEADER_LENGTH + h.fragLen]),
          s[HM_HEADER_LENGTH + h.fragLen..]))
  }

  lemma HeaderFieldsBounded(s: seq<byte>)
    requires |s| >= HM_HEADER_LENGTH
    ensures FromBE(s[1..4]) < U24 && FromBE(s[4..6]) < U16
    ensures FromBE(s[6..9]) < U24 && FromBE(s[9..12]) < U24
  {
    Ranges();
    FromBEBound(s[1..4]);
    FromBEBound(s[4..6]);
    FromBEBound(s[6..9]);
    FromBEBound(s[9..12]);
  }

  /** A fragment is read back from the front of any input it starts. */
  lemma FragmentRoundTrip(f: Fragment, rest: seq<byte>)
    requires f.hdr.Valid() && f.hdr.fragLen == |f.body|
    ensures ParseFragment(FragmentBytes(f) + rest) == Some((f, rest))
  {
    var s := FragmentBytes(f) + rest;
    var h := f.hdr;
    Ranges();
    BigEndianRoundTrip(h.msgLen, 3);
    BigEndianRoundTrip(h.seqNum, 2);
    BigEndianRoundTrip(h.fragOff, 3);
    BigEndianRoundTrip(h.fragLen, 3);
    assert s[1..4] == ToBE(h.msgLen, 3);
    assert s[4..6] == ToBE(h.seqNum, 2);
    assert s[6..9] == ToBE(h.fragOff, 3);
    assert s[9..12] == ToBE(h.fragLen, 3);
    assert s[HM_HEADER_LENGTH..HM_HEADER_LENGTH + h.fragLen] == f.body;
    assert s[HM_HEADER_LENGTH + h.fragLen..] == rest;
  }

  /** Any bytes: they begin with a fragment exactly if they are its bytes and
      whatever follows. */
  lemma FragmentParsesExactly(s: seq<byte>, f: Fragment, rest: seq<byte>)
    ensures ParseFragment(s) == Some((f, rest)) <==>
              f.hdr.Valid() && f.hdr.fragLen == |f.body| && s == FragmentBytes(f) + rest
  {
    hide ToBE, FromBE;
    if f.hdr.Valid() && f.hdr.fragLen == |f.body| && s == FragmentBytes(f) + rest {
      FragmentRoundTrip(f, rest);
    }
    if ParseFragment(s) == Some((f, rest)) {
      HeaderUnique(s);
      assert s == s[..12] + f.body + rest;
    }
  }

  lemma HeaderUnique(s: seq<byte>)
    requires ParseFragment(s).Some?
    ensures HeaderBytes(ParseFragment(s).value.0.hdr) == s[..12]
  {
    hide ToBE, FromBE;
    BigEndianUnique(s[1..4]);
    BigEndianUnique(s[4..6]);
    BigEndianUnique(s[6..9]);
    BigEndianUnique(s[9..12]);
    assert s[..12] == [s[0]] + s[1..4] + s[4..6] + s[6..9] + s[9..12];
  }

  /** Where the fields of a fragment lie in its bytes, high bytes first. */
  lemma FragmentLayout(f: Fragment)
    requires f.hdr.Valid()
    ensures var s, h := FragmentBytes(f), f.hdr;
            && |s| == 12 + |f.body| && s[0] == h.typ && Pair(Pair(s[1], s[2]), s[3]) == h.msgLen
            && Pair(s[4], s[5]) == h.seqNum && Pair(Pair(s[6], s[7]), s[8]) == h.fragOff
            && Pair(Pair(s[9], s[10]), s[11]) == h.fragLen && s[12..] == f.body
  {
    var s, h := FragmentBytes(f), f.hdr;
    assert s[1..4] == ToBE(h.msgLen, 3) && s[4..6] == ToBE(h.seqNum, 2);
    assert s[6..9] == ToBE(h.fragOff, 3) && s[9..12] == ToBE(h.fragLen, 3);
    ThreeBytes(h.msgLen);
    TwoBytes(h.seqNum);
    ThreeBytes(h.fragOff);
    ThreeBytes(h.fragLen);
  }

  // ----- A message under reassembly ---------------------------------------

  /** What has arrived of one message: its header data and the received bytes
      by position. */
  datatype Partial = Partial(typ: byte, seqNum: nat, msgLen: nat, got: map<nat, byte>)
  {
    predicate Complete() { got.Keys == Interval(0, msgLen) }

    function Body(): (s: seq<byte>)
      requires Complete()
      ensures |s| == msgLen && forall p :: 0 <= p < msgLen ==> p in got && s[p] == got[p]
    {
      seq(msgLen, p requires 0 <= p < msgLen => got[p])
    }
  }

  function Begin(h: Header): Partial {
    Partial(h.typ, h.seqNum, h.msgLen, map[])
  }

  function Span(off: nat, len: nat): set<nat> {
    Interval(off, off + len)
  }

  function Piece(off: nat, body: seq<byte>): map<nat, byte> {
    map p | p in Span(off, |body|) :: body[p - off]
  }

  /** A fragment of the message arrives; a complete message no longer changes. */
  function Receive(m: Partial, off: nat, body: seq<byte>): Partial {
    if m.Complete() then m else m.(got := m.got + Piece(off, body))
  }

  // ----- The bitmask of received bytes ------------------------------------

  function BitRange(start: nat, end: nat): (r: byte)
    requires start <= 8 && end <= 8
  {
    Pow2Monotone(start, 8);
    assert Pow2(8) == 256 by { assert Pow2(4) == 16; Pow2Add(4, 4); }
    Pow2Monotone(8, 32);
    And(Not(Pow2(start) - 1, 32), Pow2(end) - 1) % 256
  }

  lemma BitRangeBits(start: nat, end: nat, k: nat)
    requires start <= 8 && end <= 8 && k < 8
    ensures Bit(BitRange(start, end), k) <==> start <= k < end
  {
    assert Pow2(8) == 256 by { assert Pow2(4) == 16; Pow2Add(4, 4); }
    Pow2Monotone(start, 8);
    Pow2Monotone(8, 32);
    var x := And(Not(Pow2(start) - 1, 32), Pow2(end) - 1);
    ModBit(x, 8, k);
    AndBit(Not(Pow2(start) - 1, 32), Pow2(end) - 1, k);
    NotBit(Pow2(start) - 1, 32, k);
    OnesBit(start, k);
    OnesBit(end, k);
  }

  function OrByte(a: byte, b: byte): (r: byte) {
    assert Pow2(8) == 256 by { assert Pow2(4) == 16; Pow2Add(4, 4); }
    OrBound(a, b, 8);
    Or(a, b)
  }

  /** The value byte `i` of the mask takes when [start, end) is marked. */
  function MarkedByte(v: byte, i: nat, start: nat, end: nat): byte {
    if start / 8 == end / 8 then
      if i == start / 8 then OrByte(v, BitRange(start % 8, end % 8)) else v
    else if i == start / 8 then OrByte(v, BitRange(start % 8, 8))
    else if start / 8 < i < end / 8 then 0xff
    else if i == end / 8 && end % 8 != 0 then OrByte(v, BitRange(0, end % 8))
    else v
  }

  lemma FullByte(k: nat)
    requires k < 8
    ensures Bit(0xff, k)
  {
    assert Pow2(8) == 256 by { assert Pow2(4) == 16; Pow2Add(4, 4); }
    OnesBit(8, k);
  }

  /** Marking sets exactly the bits of the range. */
  lemma MarkedByteBits(v: byte, i: nat, start: nat, end: nat, k: nat)
    requires start < end && k < 8
    ensures Bit(MarkedByte(v, i, start, end), k) <==> Bit(v, k) || start <= 8 * i + k < end
  {
    FullByte(k);
    if start / 8 == end / 8 {
      BitRangeBits(start % 8, end % 8, k);
      OrBit(v, BitRange(start % 8, end % 8), k);
    } else if i == start / 8 {
      BitRangeBits(start % 8, 8, k);
      OrBit(v, BitRange(start % 8, 8), k);
    } else if i == end / 8 && end % 8 != 0 {
      BitRangeBits(0, end % 8, k);
      OrBit(v, BitRange(0, end % 8), k);
    }
  }

  predicate Has(mask: seq<byte>, p: nat) {
    p / 8 < |mask| && Bit(mask[p / 8], p % 8)
  }

  /** A mask for `msgLen` bytes, with no bit set past them. */
  predicate MaskFor(mask: seq<byte>, msgLen: nat) {
    && |mask| == (msgLen + 7) / 8
    && forall i, k :: 0 <= i < |mask| && 0 <= k < 8 && 8 * i + k >= msgLen ==> !Bit(mask[i], k)
  }

  /** The completeness test over whole bytes and the partial last byte. */
  predicate LooksFull(mask: seq<byte>, msgLen: nat)
    requires |mask| == (msgLen + 7) / 8
  {
    && (forall i :: 0 <= i < msgLen / 8 ==> mask[i] == 0xff)
    && (msgLen % 8 != 0 ==> mask[msgLen / 8] == BitRange(0, msgLen % 8))
  }

  lemma AllBitsFullByte(v: byte)
    requires forall k :: 0 <= k < 8 ==> Bit(v, k)
    ensures v == 0xff
  {
    assert Pow2(8) == 256 by { assert Pow2(4) == 16; Pow2Add(4, 4); }
    forall k | 0 <= k < 8
      ensures Bit(0xff, k)
    {
      FullByte(k);
    }
    SameBits(v, 0xff, 8);
  }

  lemma LowBitsRange(v: byte, n: nat)
    requires n < 8 && forall k :: 0 <= k < 8 ==> (Bit(v, k) <==> k < n)
    ensures v == BitRange(0, n)
  {
    assert Pow2(8) == 256 by { assert Pow2(4) == 16; Pow2Add(4, 4); }
    forall k | 0 <= k < 8
      ensures Bit(BitRange(0, n), k) <==> k < n
    {
      BitRangeBits(0, n, k);
    }
    SameBits(v, BitRange(0, n), 8);
  }

  lemma LooksFullHasAll(mask: seq<byte>, msgLen: nat, p: nat)
    requires MaskFor(mask, msgLen) && LooksFull(mask, msgLen) && p < msgLen
    ensures Has(mask, p)
  {
    if p / 8 < msgLen / 8 {
      FullByte(p % 8);
    } else {
      BitRangeBits(0, msgLen % 8, p % 8);
    }
  }

  lemma HasAllLooksFull(mask: seq<byte>, msgLen: nat)
    requires MaskFor(mask, msgLen) && forall p :: 0 <= p < msgLen ==> Has(mask, p)
    ensures LooksFull(mask, msgLen)
  {
    forall i | 0 <= i < msgLen / 8
      ensures mask[i] == 0xff
    {
      forall k | 0 <= k < 8
        ensures Bit(mask[i], k)
      {
        assert Has(mask, 8 * i + k);
      }
      AllBitsFullByte(mask[i]);
    }
    if msgLen % 8 != 0 {
      var i := msgLen / 8;
      forall k | 0 <= k < msgLen % 8
        ensures Bit(mask[i], k)
      {
        assert Has(mask, 8 * i + k);
      }
      LowBitsRange(mask[i], msgLen % 8);
    }
  }

  /** The completeness test succeeds exactly when every byte has arrived. */
  lemma FullExactly(mask: seq<byte>, msgLen: nat)
    requires MaskFor(mask, msgLen)
    ensures LooksFull(mask, msgLen) <==> Received(mask, msgLen) == Interval(0, msgLen)
  {
    if LooksFull(mask, msgLen) {
      forall p | 0 <= p < msgLen
        ensures Has(mask, p)
      {
        LooksFullHasAll(mask, msgLen, p);
      }
    }
    if Received(mask, msgLen) == Interval(0, msgLen) {
      forall p | 0 <= p < msgLen
        ensures Has(mask, p)
      {
        assert p in Received(mask, msgLen);
      }
      HasAllLooksFull(mask, msgLen);
    }
  }

  lemma MarkedMask(mask: seq<byte>, mask': seq<byte>, msgLen: nat, start: nat, end: nat)
    requires MaskFor(mask, msgLen) && |mask'| == |mask| && start < end <= msgLen
    requires forall i :: 0 <= i < |mask| ==> mask'[i] == MarkedByte(mask[i], i, start, end)
    ensures MaskFor(mask', msgLen)
    ensures Received(mask', msgLen) == Received(mask, msgLen) + Interval(start, end)
  {
    forall i, k | 0 <= i < |mask| && 0 <= k < 8
      ensures Bit(mask'[i], k) <==> Bit(mask[i], k) || start <= 8 * i + k < end
    {
      MarkedByteBits(mask[i], i, start, end, k);
    }
    forall p | 0 <= p < msgLen
      ensures Has(mask', p) <==> Has(mask, p) || start <= p < end
    {
      assert 8 * (p / 8) + p % 8 == p;
    }
  }

  function Received(mask: seq<byte>, msgLen: nat): set<nat> {
    set p | p in Interval(0, msgLen) && Has(mask, p)
  }

  method MarkBits(mask: array<byte>, start: nat, end: nat)
    requires start < end && (end + 7) / 8 <= mask.Length
    modifies mask
    ensures forall i :: 0 <= i < mask.Length ==> mask[i] == MarkedByte(old(mask[i]), i, start, end)
  {
    hide OrByte, BitRange;
    if start / 8 == end / 8 {
      mask[start / 8] := OrByte(mask[start / 8], BitRange(start % 8, end % 8));
    } else {
      mask[start / 8] := OrByte(mask[start / 8], BitRange(start % 8, 8));
      for i := start / 8 + 1 to end / 8
        invariant forall j :: 0 <= j < i ==> mask[j] == MarkedByte(old(mask[j]), j, start, end)
        invariant forall j :: i <= j < mask.Length ==> mask[j] == old(mask[j])
      {
        mask[i] := 0xff;
      }
      if end % 8 != 0 {
        mask[end / 8] := OrByte(mask[end / 8], BitRange(0, end % 8));
      }
    }
  }

  method TestFull(mask: array<byte>, msgLen: nat) returns (full: bool)
    requires mask.Length == (msgLen + 7) / 8
    ensures full == LooksFull(mask[..], msgLen)
  {
    for i := 0 to msgLen / 8
      invariant forall j :: 0 <= j < i ==> mask[j] == 0xff
    {
      if mask[i] != 0xff {
        return false;
      }
    }
    full := msgLen % 8 == 0 || mask[msgLen / 8] == BitRange(0, msgLen % 8);
  }

  /** The received bytes of a message buffer, by position in the body. */
  function Pick(data: seq<byte>, got: set<nat>): map<nat, byte> {
    map p | p in got && HM_HEADER_LENGTH + p < |data| :: data[HM_HEADER_LENGTH + p]
  }

  lemma PickAfterCopy(data: seq<byte>, data': seq<byte>, got: set<nat>, off: nat, body: seq<byte>)
    requires |data| == |data'| && HM_HEADER_LENGTH + off + |body| <= |data|
    requires forall j :: 0 <= j < |body| ==> data'[HM_HEADER_LENGTH + off + j] == body[j]
    requires forall j :: 0 <= j < |data| && !(HM_HEADER_LENGTH + off <= j < HM_HEADER_LENGTH + off + |body|)
               ==> data'[j] == data[j]
    ensures Pick(data', got + Span(off, |body|)) == Pick(data, got) + Piece(off, body)
  {
  }

  lemma PickKeys(data: seq<byte>, got: set<nat>, msgLen: nat)
    requires |data| == HM_HEADER_LENGTH + msgLen && got <= Interval(0, msgLen)
    ensures Pick(data, got).Keys == got
  {
  }

  /** An incoming message, held in one buffer with its header.  `model` is what
      has arrived of it. */
  class HmFragment {
    const typ: byte
    const seqNum: nat
    const msgLen: nat
    const data: array<byte>
    var reassembly: array?<byte>
    ghost var model: Partial
    ghost const Repr: set<object>

    ghost predicate Shaped()
      reads this, Repr
    {
      && this in Repr && data in Repr && (reassembly != null ==> reassembly in Repr)
      && msgLen < U24 && seqNum < U16
      && data.Length == HM_HEADER_LENGTH + msgLen
      && data[..HM_HEADER_LENGTH] == HeaderBytes(Header(typ, msgLen, seqNum, 0, msgLen))
      && reassembly != data
      && (reassembly != null ==> MaskFor(reassembly[..], msgLen))
    }

    ghost function Got(): set<nat>
      requires reassembly != null ==> reassembly in Repr
      reads this, Repr
    {
      if reassembly == null then Interval(0, msgLen) else Received(reassembly[..], msgLen)
    }

    /** The bitmask is kept exactly until every byte has arrived. */
    ghost predicate Valid()
      reads this, Repr
    {
      && Shaped()
      && model == Partial(typ, seqNum, msgLen, Pick(data[..], Got()))
      && (reassembly == null <==> model.Complete())
    }

    lemma OwnsItself()
      requires Valid()
      ensures this in Repr
    {
    }

    constructor (h: Header)
      requires h.Valid()
      ensures Valid() && model == Begin(h)
      ensures typ == h.typ && seqNum == h.seqNum && msgLen == h.msgLen
      ensures fresh(Repr)
    {
      typ, seqNum, msgLen := h.typ, h.seqNum, h.msgLen;
      var whole := Header(h.typ, h.msgLen, h.seqNum, 0, h.msgLen);
      var head := HeaderBytes(whole);
      var buffer := new byte[HM_HEADER_LENGTH + h.msgLen](i => if 0 <= i < |head| then head[i] else 0);
      data := buffer;
      if h.msgLen > 0 {
        var mask := new byte[(h.msgLen + 7) / 8](i => 0);
        reassembly := mask;
        Repr := {this, buffer, mask};
      } else {
        reassembly := null;
        Repr := {this, buffer};
      }
      model := Begin(h);
      new;
      assert data[..HM_HEADER_LENGTH] == head;
      forall i: nat ensures !Bit(0, i) {
        ZeroBit(i);
      }
      assert Got() == {};
      assert 0 in Interval(0, msgLen) <==> msgLen > 0;
    }

    /** Marks bytes [start, end) as received, and drops the bitmask when that
        makes the message complete. */
    method Mark(start: nat, end: nat)
      requires Shaped() && reassembly != null
      requires start <= end <= msgLen && Got() != Interval(0, msgLen)
      modifies this`reassembly, reassembly
      ensures reassembly == null || reassembly == old(reassembly)
      ensures Got() == old(Got()) + Interval(start, end)
      ensures reassembly == null <==> Got() == Interval(0, msgLen)
      ensures Shaped()
    {
      if start == end {
        return;
      }
      ghost var was := reassembly[..];
      MarkBits(reassembly, start, end);
      MarkedMask(was, reassembly[..], msgLen, start, end);
      FullExactly(reassembly[..], msgLen);
      var full := TestFull(reassembly, msgLen);
      if full {
        reassembly := null;
      }
    }

    /** Copies a fragment's body into place and marks it. */
    method Add(off: nat, body: seq<byte>)
      requires Valid() && reassembly != null && off + |body| <= msgLen
      modifies Repr
      ensures Valid()
      ensures model == Receive(old(model), off, body)
    {
      ghost var got, was := Got(), data[..];
      PickKeys(was, got, msgLen);
      CopyInto(data, HM_HEADER_LENGTH + off, body);
      assert data[..HM_HEADER_LENGTH] == was[..HM_HEADER_LENGTH];
      PickAfterCopy(was, data[..], got, off, body);
      Mark(off, off + |body|);
      assert Got() == got + Span(off, |body|);
      model := Receive(model, off, body);
      PickKeys(data[..], Got(), msgLen);
    }

    method IsComplete() returns (complete: bool)
      requires Valid()
      ensures complete == model.Complete() == (reassembly == null)
    {
      complete := reassembly == null;
    }

    /** The whole message, header included, as its sender wrote it. */
    method Raw() returns (raw: seq<byte>)
      requires Valid() && model.Complete()
      ensures raw == FragmentBytes(Fragment(Header(model.typ, model.msgLen, model.seqNum, 0, model.msgLen), model.Body()))
    {
      raw := data[..];
      assert model.Body() == data[HM_HEADER_LENGTH..];
    }
  }
}
