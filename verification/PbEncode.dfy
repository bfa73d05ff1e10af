/** What the encoder writes: the bytes of a message, or none where encoding is
    an error. */
module PbEncode {
  import opened Bytes
  import opened PbVarint
  import opened PbSchema

  const BYTES_OFFSET: nat := 4

  function Prefixed(b: seq<byte>): seq<byte> {
    EncodeVarint(|b|) + b
  }

  function EncodeTag(tag: nat, wireType: nat): seq<byte> {
    EncodeVarint(tag * 8 + wireType)
  }

  /** The number of values of the C integer type of that size. */
  function IntRange(dataSize: nat): (w: Option<nat>)
    ensures w.Some? ==> w.value > 0
  {
    if dataSize == 1 then Some(0x100)
    else if dataSize == 2 then Some(0x1_0000)
    else if dataSize == 4 then Some(U32)
    else if dataSize == 8 then Some(U64)
    else None
  }

  /** A number by its kind and size; a value outside its C type cannot occur. */
  function EncodeNumber(f: Field, n: int): Option<seq<byte>> {
    match f.kind
    case Varint =>
      var w := IntRange(f.dataSize);
      if w.Some? && InSigned(n, w.value) then Some(EncodeVarint(ToUnsigned(n, U64))) else None
    case Uvarint =>
      var w := IntRange(f.dataSize);
      if w.Some? && 0 <= n < w.value then Some(EncodeVarint(n)) else None
    case Svarint =>
      var w := IntRange(f.dataSize);
      if w.Some? && InSigned(n, w.value) then Some(EncodeVarint(Zigzag(n))) else None
    case Fixed32 => if 0 <= n < U32 then Some(ToLE(n, 4)) else None
    case Fixed64 => if 0 <= n < U64 then Some(ToLE(n, 8)) else None
    case _ => None
  }

  /** A bytes array must fit its buffer; the text of a string cannot but fit. */
  function EncodeBlob(f: Field, b: seq<byte>): Option<seq<byte>> {
    match f.kind
    case BytesArray => if |b| + BYTES_OFFSET > f.dataSize then None else Some(Prefixed(b))
    case Text => if |b| <= f.dataSize && 0 !in b then Some(Prefixed(b)) else None
    case FixedBytes => if |b| == f.dataSize then Some(Prefixed(b)) else None
    case _ => None
  }

  function EncodeValue(f: Field, v: Value): Option<seq<byte>>
    decreases f, 0
  {
    match v
    case Num(n) => EncodeNumber(f, n)
    case Blob(b) => EncodeBlob(f, b)
    case Msg(m) =>
      if !f.kind.Submessage? then None else
      match EncodeMessage(f.sub, m) case None => None case Some(s) => Some(Prefixed(s))
  }

  /** All entries of an array behind one another, without tags. */
  function EncodePayload(f: Field, items: seq<Value>): Option<seq<byte>>
    decreases f, 1, |items|
  {
    if items == [] then Some([]) else
    match EncodeValue(f, items[0])
    case None => None
    case Some(a) => match EncodePayload(f, items[1..]) case None => None case Some(b) => Some(a + b)
  }

  function EncodeTagged(f: Field, v: Value): Option<seq<byte>>
    decreases f, 1
  {
    match EncodeValue(f, v)
    case None => None
    case Some(s) => Some(EncodeTag(f.tag, WireType(f.kind)) + s)
  }

  function EncodeEntries(f: Field, items: seq<Value>): Option<seq<byte>>
    decreases f, 2, |items|
  {
    if items == [] then Some([]) else
    match EncodeTagged(f, items[0])
    case None => None
    case Some(a) => match EncodeEntries(f, items[1..]) case None => None case Some(b) => Some(a + b)
  }

  /** An array is packed if its kind can be. */
  function EncodeArray(f: Field, items: seq<Value>): Option<seq<byte>>
    decreases f, 3
  {
    if items == [] then Some([])
    else if |items| > f.arraySize then None
    else if Packable(f.kind) then
      match EncodePayload(f, items) case None => None case Some(s) => Some(EncodeTag(f.tag, 2) + Prefixed(s))
    else EncodeEntries(f, items)
  }

  predicate IsZeroValue(f: Field, v: Value)
    decreases f, 0
  {
    match v
    case Num(n) => n == 0 && Packable(f.kind)
    case Blob(b) => b == [] && (f.kind.BytesArray? || f.kind.Text? || (f.kind.FixedBytes? && f.dataSize == 0))
    case Msg(m) => f.kind.Submessage? && IsZeroMessage(f.sub, m)
  }

  /** A field that a proto3 message does not have to send. */
  predicate IsZeroSlot(f: Field, slot: Slot)
    decreases f, 1
  {
    match slot
    case One(v) => f.rule == Optional(false) && IsZeroValue(f, v)
    case Opt(has, _) => f.rule == Optional(true) && !has
    case Many(items) => f.rule.Repeated? && items == []
    case Unchosen => f.rule.OneOf?
    case Chosen(_) => false
  }

  predicate IsZeroMessage(fields: seq<Field>, m: Message)
    decreases fields
  {
    fields != [] ==>
      fields[0].tag in m && IsZeroSlot(fields[0], m[fields[0].tag]) && IsZeroMessage(fields[1..], m)
  }

  /** One field; a slot that is not of the field's rule cannot occur. */
  function EncodeSlot(f: Field, slot: Slot): Option<seq<byte>>
    decreases f, 4
  {
    match slot
    case One(v) =>
      if f.rule == Optional(false) then (if IsZeroValue(f, v) then Some([]) else EncodeTagged(f, v))
      else if f.rule.Required? then EncodeTagged(f, v) else None
    case Opt(has, v) =>
      if f.rule != Optional(true) then None else if has then EncodeTagged(f, v) else Some([])
    case Many(items) =>
      if f.rule == Repeated(true) || (f.rule == Repeated(false) && |items| == f.arraySize) then EncodeArray(f, items)
      else None
    case Chosen(v) => if f.rule.OneOf? then EncodeTagged(f, v) else None
    case Unchosen => if f.rule.OneOf? then Some([]) else None
  }

  /** Another member of a oneof is chosen. */
  predicate SiblingChosen(fields: seq<Field>, rule: Rule, m: Message) {
    exists i :: 0 <= i < |fields| && fields[i].rule == rule && fields[i].tag in m && m[fields[i].tag].Chosen?
  }

  /** Field by field; two members of one oneof cannot be chosen both. */
  function EncodeMessage(fields: seq<Field>, m: Message): Option<seq<byte>>
    decreases fields
  {
    if fields == [] then Some([])
    else if fields[0].tag !in m then None
    else if m[fields[0].tag].Chosen? && SiblingChosen(fields[1..], fields[0].rule, m) then None
    else
      match EncodeSlot(fields[0], m[fields[0].tag])
      case None => None
      case Some(a) => match EncodeMessage(fields[1..], m) case None => None case Some(b) => Some(a + b)
  }
}
