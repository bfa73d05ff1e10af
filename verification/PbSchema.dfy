/** Message descriptors with static allocation, and messages as values. */
module PbSchema {
  import opened Bytes
  import opened PbVarint

  const MAX_TAG: nat := 0x1FFF_FFFF
  const MAX_REQUIRED: nat := 64

  datatype Kind =
    | Varint | Uvarint | Svarint | Fixed32 | Fixed64
    | BytesArray | Text | Submessage | FixedBytes

  /** `hasField` is false for a proto3 singular field; `counted` is false for an
      array that is always full; members of one oneof share a `group`. */
  datatype Rule = Required | Optional(hasField: bool) | Repeated(counted: bool) | OneOf(group: nat)

  /** `delta` is the distance of the data from the end of the field before. */
  datatype Field = Field(tag: nat, rule: Rule, kind: Kind, delta: nat, dataSize: nat, arraySize: nat,
                         sub: seq<Field>, deflt: Option<Value>)

  /** An integer, the bytes of an array or the text of a string, or a message. */
  datatype Value = Num(n: int) | Blob(b: seq<byte>) | Msg(m: Message)

  /** What a struct holds for one field. */
  datatype Slot =
    | One(v: Value)
    | Opt(has: bool, v: Value)
    | Many(items: seq<Value>)
    | Chosen(v: Value)
    | Unchosen

  type Message = map<nat, Slot>

  predicate Packable(k: Kind) {
    k.Varint? || k.Uvarint? || k.Svarint? || k.Fixed32? || k.Fixed64?
  }

  function WireType(k: Kind): nat {
    match k
    case Varint | Uvarint | Svarint => 0
    case Fixed64 => 1
    case Fixed32 => 5
    case _ => 2
  }

  function Find(fields: seq<Field>, tag: nat): (r: Option<Field>)
    ensures r.Some? ==> r.value in fields && r.value.tag == tag
    ensures r.None? ==> forall f :: f in fields ==> f.tag != tag
  {
    if fields == [] then None
    else if fields[0].tag == tag then Some(fields[0])
    else Find(fields[1..], tag)
  }

  predicate DistinctTags(fields: seq<Field>) {
    forall i, j :: 0 <= i < j < |fields| ==> fields[i].tag != fields[j].tag
  }

  /** Tags and sizes in their C ranges; no default value on a proto3 singular
      field, and no fixed-count array directly in a proto3 singular message. */
  predicate WellFormed(fields: seq<Field>) {
    DistinctTags(fields) && forall i :: 0 <= i < |fields| ==> WellFormedField(fields[i])
  }

  predicate WellFormedField(f: Field) {
    && 1 <= f.tag <= MAX_TAG && f.dataSize < U32 && f.arraySize < U32
    && (f.kind.Submessage? ==> WellFormed(f.sub))
    && (f.rule == Optional(false) ==>
          f.deflt.None? && (f.kind.Submessage? ==> forall i :: 0 <= i < |f.sub| ==> f.sub[i].rule != Repeated(false)))
  }

  lemma FindDistinct(fields: seq<Field>, f: Field)
    requires DistinctTags(fields) && f in fields
    ensures Find(fields, f.tag) == Some(f)
  {
  }

  // ----- Defaults ---------------------------------------------------------

  function Zeros(n: nat): seq<byte> {
    seq(n, i => 0)
  }

  function DefaultValue(f: Field): Value
    decreases f, 0
  {
    if f.kind.Submessage? then Msg(Defaults(f.sub))
    else if f.deflt.Some? then f.deflt.value
    else ZeroValue(f)
  }

  function ZeroValue(f: Field): Value {
    match f.kind
    case BytesArray | Text => Blob([])
    case FixedBytes => Blob(Zeros(f.dataSize))
    case _ => Num(0)
  }

  function DefaultSlot(f: Field): Slot
    decreases f, 1
  {
    match f.rule
    case Required => One(DefaultValue(f))
    case Optional(hasField) => if hasField then Opt(false, DefaultValue(f)) else One(DefaultValue(f))
    case Repeated(_) => Many([])
    case OneOf(_) => Unchosen
  }

  function Defaults(fields: seq<Field>): Message
    decreases fields
  {
    if fields == [] then map[]
    else Defaults(fields[1..])[fields[0].tag := DefaultSlot(fields[0])]
  }

  lemma {:induction false} DefaultsHas(fields: seq<Field>, tag: nat)
    ensures tag in Defaults(fields) <==> Find(fields, tag).Some?
    ensures tag in Defaults(fields) ==> Defaults(fields)[tag] == DefaultSlot(Find(fields, tag).value)
  {
    hide DefaultSlot;
    if fields != [] {
      DefaultsHas(fields[1..], tag);
    }
  }

  // ----- Projection on another descriptor ---------------------------------

  /** Every field of `fields` is in `whole`, the same but for its default and,
      in a submessage, for fields left out at any depth. */
  predicate SubSchema(fields: seq<Field>, whole: seq<Field>) {
    forall i :: 0 <= i < |fields| ==>
      Find(whole, fields[i].tag).Some? && SubField(fields[i], Find(whole, fields[i].tag).value)
  }

  predicate SubField(f: Field, w: Field) {
    && f.tag == w.tag && f.rule == w.rule && f.kind == w.kind
    && f.dataSize == w.dataSize && f.arraySize == w.arraySize
    && (f.kind.Submessage? ==> SubSchema(f.sub, w.sub))
  }

  function ProjectValue(f: Field, v: Value): Value
    decreases f, 0
  {
    if f.kind.Submessage? && v.Msg? then Msg(Project(f.sub, v.m)) else v
  }

  function ProjectItems(f: Field, items: seq<Value>): (r: seq<Value>)
    ensures |r| == |items|
    decreases f, 1, |items|
  {
    if items == [] then [] else ProjectItems(f, items[..|items| - 1]) + [ProjectValue(f, items[|items| - 1])]
  }

  function ProjectSlot(f: Field, slot: Slot): Slot
    decreases f, 2
  {
    match slot
    case One(v) => One(ProjectValue(f, v))
    case Opt(has, v) => if has then Opt(true, ProjectValue(f, v)) else DefaultSlot(f)
    case Many(items) => Many(ProjectItems(f, items))
    case Chosen(v) => Chosen(ProjectValue(f, v))
    case Unchosen => Unchosen
  }

  /** The message with only the fields of `fields`, and the value of an optional
      field that is not present at its default. */
  function Project(fields: seq<Field>, m: Message): Message
    decreases fields
  {
    if fields == [] then map[]
    else
      var f := fields[0];
      Project(fields[1..], m)[f.tag := if f.tag in m then ProjectSlot(f, m[f.tag]) else DefaultSlot(f)]
  }

  lemma {:induction false} ProjectHas(fields: seq<Field>, m: Message, tag: nat)
    ensures tag in Project(fields, m) <==> Find(fields, tag).Some?
    ensures tag in Project(fields, m) ==>
              var f := Find(fields, tag).value;
              Project(fields, m)[tag] == if tag in m then ProjectSlot(f, m[tag]) else DefaultSlot(f)
  {
    hide DefaultSlot, ProjectSlot;
    if fields != [] {
      ProjectHas(fields[1..], m, tag);
    }
  }
}
