/** What the encoder writes, as a list of fields. */
module PbListing {
  import opened Bytes
  import opened PbVarint
  import opened PbSchema
  import opened PbEncode
  import opened PbDecode
  import opened PbFields
  import opened PbRoundTrip

  function Payload(f: Field, v: Value): seq<byte> {
    match EncodeValue(f, v) case None => [] case Some(s) => s
  }

  function Single(f: Field, v: Value): seq<Entry> { [Entry(f, WireType(f.kind), Payload(f, v))] }

  function Each(f: Field, items: seq<Value>): seq<Entry> {
    if items == [] then [] else Single(f, items[0]) + Each(f, items[1..])
  }

  /** One entry for a value that is there, none for a proto3 zero, an absent value
      or an empty array; an array whose kind can be packed is one entry. */
  function Listed(f: Field, slot: Slot): seq<Entry> {
    match slot
    case One(v) => if f.rule == Optional(false) && IsZeroValue(f, v) then [] else Single(f, v)
    case Opt(has, v) => if has then Single(f, v) else []
    case Many(items) =>
      if items == [] then []
      else if Packable(f.kind) then
        [Entry(f, 2, Prefixed(match EncodePayload(f, items) case None => [] case Some(s) => s))]
      else Each(f, items)
    case Chosen(v) => Single(f, v)
    case Unchosen => []
  }

  /** All of a message, in the order of its descriptor. */
  function Listing(fields: seq<Field>, m: Message): seq<Entry> {
    if fields == [] then [] else
    (if fields[0].tag in m then Listed(fields[0], m[fields[0].tag]) else []) + Listing(fields[1..], m)
  }

  /** The entries, and then those of the bytes behind them. */
  function Before(es: seq<Entry>, more: Option<(seq<Entry>, seq<byte>)>): Option<(seq<Entry>, seq<byte>)> {
    match more case None => None case Some((later, left)) => Some((es + later, left))
  }

  lemma {:induction false} BeforeJoins(a: seq<Entry>, b: seq<Entry>, more: Option<(seq<Entry>, seq<byte>)>)
    ensures Before(a, Before(b, more)) == Before(a + b, more) && Before([], more) == more
  {
    if more.Some? {
      assert a + (b + more.value.0) == (a + b) + more.value.0;
      assert [] + more.value.0 == more.value.0;
    }
  }

  // ----- Values -----------------------------------------------------------

  lemma {:induction false} PrefixedSized(b: seq<byte>, t: seq<byte>)
    requires |b| < U32
    ensures PrefixedSize(Prefixed(b) + t) == Some(|Prefixed(b)|)
  {
    hide Prefixed, TakePrefixed, PrefixedSize;
    var s := Prefixed(b) + t;
    PrefixedIsTaken(b, t);
    PrefixedLocal(s);
    var n := PrefixedSize(s).value;
    assert |s[n..]| == |t|;
  }

  lemma {:induction false} NumberSized(f: Field, n: int, t: seq<byte>)
    requires EncodeNumber(f, n).Some?
    ensures Packable(f.kind) && WireType(f.kind) != 2
    ensures PayloadSize(f, WireType(f.kind), EncodeNumber(f, n).value + t) == Some(|EncodeNumber(f, n).value|)
  {
    hide EncodeVarint, VarintLength, ToLE;
    match f.kind
    case Varint => VarintSized(ToUnsigned(n, U64), t);
    case Uvarint => VarintSized(n, t);
    case Svarint =>
      ZigzagBijection(n, 0);
      VarintSized(Zigzag(n), t);
    case Fixed32 =>
    case Fixed64 =>
  }

  lemma {:induction false} VarintSized(v: nat, t: seq<byte>)
    requires v < U64
    ensures VarintSize(EncodeVarint(v) + t) == Some(|EncodeVarint(v)|)
  {
    EncodedVarint(v, t);
    SixtyFourBits(v);
  }

  /** An encoded value takes just its own bytes. */
  lemma {:induction false} ValueSized(f: Field, v: Value, t: seq<byte>)
    requires EncodeValue(f, v).Some? && |EncodeValue(f, v).value| < U32
    ensures PayloadSize(f, WireType(f.kind), EncodeValue(f, v).value + t) == Some(|EncodeValue(f, v).value|)
  {
    hide EncodeNumber, PayloadSize, PrefixedSize, Prefixed, EncodeMessage;
    match v
    case Num(n) => NumberSized(f, n, t);
    case Blob(b) =>
      PrefixedShorter(b);
      PrefixedSized(b, t);
      DelimitedSize(f, EncodeValue(f, v).value + t);
    case Msg(m) =>
      var s := EncodeMessage(f.sub, m).value;
      PrefixedShorter(s);
      PrefixedSized(s, t);
      DelimitedSize(f, EncodeValue(f, v).value + t);
  }

  lemma {:induction false} PrefixedShorter(b: seq<byte>)
    ensures |b| <= |Prefixed(b)|
  {
  }

  lemma {:induction false} DelimitedSize(f: Field, s: seq<byte>)
    requires !Packable(f.kind)
    ensures PayloadSize(f, WireType(f.kind), s) == PrefixedSize(s)
  {
  }

  // ----- Fields -----------------------------------------------------------

  /** A tag and a value in front are one entry. */
  lemma {:induction false} EntryInFront(fields: seq<Field>, f: Field, wireType: nat, p: seq<byte>, t: seq<byte>)
    requires 1 <= f.tag <= MAX_TAG && wireType < 8 && Find(fields, f.tag) == Some(f)
    requires PayloadSize(f, wireType, p + t) == Some(|p|)
    ensures Entries(fields, EncodeTag(f.tag, wireType) + p + t) == Before([Entry(f, wireType, p)], Entries(fields, t))
  {
    hide EncodeTag, DecodeTag, PayloadSize, SkipField;
    TagIsRead(f.tag, wireType, p + t);
    assert EncodeTag(f.tag, wireType) + p + t == EncodeTag(f.tag, wireType) + (p + t);
    assert (p + t)[..|p|] == p && (p + t)[|p|..] == t;
    TagSome(f.tag, wireType);
  }

  lemma {:induction false} TagSome(tag: nat, wireType: nat)
    ensures EncodeTag(tag, wireType) != []
  {
  }

  lemma {:induction false} WireTypeSmall(k: Kind)
    ensures WireType(k) < 8
  {
  }

  lemma {:induction false} SingleInFront(fields: seq<Field>, f: Field, v: Value, t: seq<byte>)
    requires 1 <= f.tag <= MAX_TAG && Find(fields, f.tag) == Some(f)
    requires EncodeTagged(f, v).Some? && |EncodeTagged(f, v).value| < U32
    ensures Entries(fields, EncodeTagged(f, v).value + t) == Before(Single(f, v), Entries(fields, t))
  {
    hide EncodeValue, EncodeTag, PayloadSize, Entries;
    ValueSized(f, v, t);
    WireTypeSmall(f.kind);
    EntryInFront(fields, f, WireType(f.kind), EncodeValue(f, v).value, t);
  }

  lemma {:induction false} EachInFront(fields: seq<Field>, f: Field, items: seq<Value>, t: seq<byte>)
    requires 1 <= f.tag <= MAX_TAG && Find(fields, f.tag) == Some(f)
    requires EncodeEntries(f, items).Some? && |EncodeEntries(f, items).value| < U32
    ensures Entries(fields, EncodeEntries(f, items).value + t) == Before(Each(f, items), Entries(fields, t))
    decreases |items|
  {
    hide EncodeTagged, Entries, Single;
    if items == [] {
      assert [] + t == t;
      BeforeJoins([], [], Entries(fields, t));
    } else {
      var a, b := EncodeTagged(f, items[0]).value, EncodeEntries(f, items[1..]).value;
      SingleInFront(fields, f, items[0], b + t);
      EachInFront(fields, f, items[1..], t);
      assert (a + b) + t == a + (b + t);
      BeforeJoins(Single(f, items[0]), Each(f, items[1..]), Entries(fields, t));
    }
  }

  lemma {:induction false} SlotInFront(fields: seq<Field>, f: Field, slot: Slot, t: seq<byte>)
    requires 1 <= f.tag <= MAX_TAG && Find(fields, f.tag) == Some(f)
    requires EncodeSlot(f, slot).Some? && |EncodeSlot(f, slot).value| < U32
    ensures Entries(fields, EncodeSlot(f, slot).value + t) == Before(Listed(f, slot), Entries(fields, t))
  {
    hide EncodeTagged, EncodeEntries, EncodePayload, Entries, Single, Each, EncodeTag, Prefixed, IsZeroValue, PayloadSize;
    assert [] + t == t;
    BeforeJoins([], [], Entries(fields, t));
    match slot
    case One(v) => if !(f.rule == Optional(false) && IsZeroValue(f, v)) { SingleInFront(fields, f, v, t); }
    case Opt(has, v) => if has { SingleInFront(fields, f, v, t); }
    case Chosen(v) => SingleInFront(fields, f, v, t);
    case Unchosen =>
    case Many(items) =>
      if items != [] {
        if Packable(f.kind) {
          PackedInFront(fields, f, items, t);
        } else {
          EachInFront(fields, f, items, t);
        }
      }
  }

  lemma {:induction false} PackedInFront(fields: seq<Field>, f: Field, items: seq<Value>, t: seq<byte>)
    requires 1 <= f.tag <= MAX_TAG && Find(fields, f.tag) == Some(f) && f.rule.Repeated? && Packable(f.kind)
    requires EncodePayload(f, items).Some? && |EncodeTag(f.tag, 2) + Prefixed(EncodePayload(f, items).value)| < U32
    ensures Entries(fields, EncodeTag(f.tag, 2) + Prefixed(EncodePayload(f, items).value) + t) ==
            Before([Entry(f, 2, Prefixed(EncodePayload(f, items).value))], Entries(fields, t))
  {
    hide EncodePayload, EncodeTag, Prefixed, PrefixedSize, Entries;
    var b := EncodePayload(f, items).value;
    PrefixedShorter(b);
    PrefixedSized(b, t);
    EntryInFront(fields, f, 2, Prefixed(b), t);
  }

  // ----- Messages ---------------------------------------------------------

  lemma {:induction false} RestListed(fields: seq<Field>, rest: seq<Field>, m: Message)
    requires forall i :: 0 <= i < |rest| ==> 1 <= rest[i].tag <= MAX_TAG && Find(fields, rest[i].tag) == Some(rest[i])
    requires EncodeMessage(rest, m).Some? && |EncodeMessage(rest, m).value| < U32
    ensures Entries(fields, EncodeMessage(rest, m).value) == Some((Listing(rest, m), []))
    decreases |rest|
  {
    hide EncodeSlot, Listed, Entries, Find;
    if rest == [] {
      NoEntriesIn(fields);
    } else {
      var f := rest[0];
      var a, b := EncodeSlot(f, m[f.tag]).value, EncodeMessage(rest[1..], m).value;
      SlotInFront(fields, f, m[f.tag], b);
      RestListed(fields, rest[1..], m);
    }
  }

  lemma {:induction false} NoEntriesIn(fields: seq<Field>)
    ensures Entries(fields, []) == Some(([], []))
  {
  }

  /** What is written of a message is, field by field in the order of the
      descriptor, what is there, and nothing else: no proto3 zero, no absent
      value, and every array that can be packed as one field. */
  lemma {:induction false} MessageListed(fields: seq<Field>, m: Message)
    requires WellFormed(fields) && EncodeMessage(fields, m).Some? && |EncodeMessage(fields, m).value| < U32
    ensures Entries(fields, EncodeMessage(fields, m).value) == Some((Listing(fields, m), []))
  {
    hide Entries, Listing, EncodeMessage;
    forall i | 0 <= i < |fields|
      ensures 1 <= fields[i].tag <= MAX_TAG && Find(fields, fields[i].tag) == Some(fields[i])
    {
      assert WellFormedField(fields[i]);
      FindDistinct(fields, fields[i]);
    }
    RestListed(fields, fields, m);
  }
}
