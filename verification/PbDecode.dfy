/** What the decoder makes of a byte string: a message and the bytes left, or
    nothing where decoding is an error. */
module PbDecode {
  import opened Bytes
  import opened PbVarint
  import opened PbSchema
  import opened PbEncode

  datatype TagResult = Tag(tag: nat, wireType: nat, rest: seq<byte>) | Stop(rest: seq<byte>) | BadTag

  /** The end of the bytes, or a zero, ends the message. */
  function DecodeTag(s: seq<byte>): (r: TagResult)
    ensures r.Tag? ==> |r.rest| < |s|
    ensures r.Stop? ==> |r.rest| <= |s|
  {
    if s == [] then Stop([]) else
    match Varint32(s)
    case None => BadTag
    case Some((v, rest)) => if v == 0 then Stop(rest) else Tag(v / 8, v % 8, rest)
  }

  function Take(s: seq<byte>, n: nat): (r: Option<(seq<byte>, seq<byte>)>)
    ensures r.Some? ==> r.value.0 + r.value.1 == s && |r.value.0| == n
  {
    if |s| < n then None else Some((s[..n], s[n..]))
  }

  /** A length and that many bytes. */
  function TakePrefixed(s: seq<byte>): (r: Option<(seq<byte>, seq<byte>)>)
    ensures r.Some? ==> |r.value.0| + |r.value.1| < |s|
  {
    match Varint32(s) case None => None case Some((n, rest)) => Take(rest, n)
  }

  function SkipField(wireType: nat, s: seq<byte>): (r: Option<seq<byte>>)
    ensures r.Some? ==> |r.value| <= |s|
  {
    if wireType == 0 then
      match VarintLength(s) case None => None case Some(n) => Some(s[n..])
    else if wireType == 1 then
      match Take(s, 8) case None => None case Some((_, rest)) => Some(rest)
    else if wireType == 2 then
      match TakePrefixed(s) case None => None case Some((_, rest)) => Some(rest)
    else if wireType == 5 then
      match Take(s, 4) case None => None case Some((_, rest)) => Some(rest)
    else None
  }

  function DecodeNumber(f: Field, s: seq<byte>): (r: Option<(int, seq<byte>)>)
    ensures r.Some? ==> |r.value.1| < |s|
  {
    if f.kind.Fixed32? then
      match Take(s, 4) case None => None case Some((b, rest)) => Some((FromLE(b), rest))
    else if f.kind.Fixed64? then
      match Take(s, 8) case None => None case Some((b, rest)) => Some((FromLE(b), rest))
    else
      match Varint64(s)
      case None => None
      case Some((v, rest)) =>
        match DecodeInteger(f, v) case None => None case Some(n) => Some((n, rest))
  }

  /** A 64-bit varint as the field's integer, if it fits; a signed field of 32
      bits or less looks at the low 32 bits only. */
  function DecodeInteger(f: Field, v: nat): Option<int> {
    match IntRange(f.dataSize)
    case None => None
    case Some(w) =>
      if f.kind.Varint? then
        var n := if f.dataSize == 8 then ToSigned(v, U64) else ToSigned(v, U32);
        if InSigned(n, w) then Some(n) else None
      else if f.kind.Uvarint? then
        if v < w then Some(v) else None
      else
        var n := Unzigzag(v);
        if InSigned(n, w) then Some(n) else None
  }

  function UpToZero(b: seq<byte>): seq<byte> {
    if b == [] || b[0] == 0 then [] else [b[0]] + UpToZero(b[1..])
  }

  /** Bytes, a string that leaves room for its terminator, or bytes of a fixed
      length, where none stand for zeros. */
  function DecodeBlob(f: Field, b: seq<byte>): Option<seq<byte>> {
    match f.kind
    case BytesArray => if |b| + BYTES_OFFSET > f.dataSize then None else Some(b)
    case Text => if |b| + 1 > f.dataSize then None else Some(UpToZero(b))
    case FixedBytes =>
      if |b| == 0 then Some(Zeros(f.dataSize)) else if |b| == f.dataSize then Some(b) else None
    case _ => None
  }

  /** What is decoded so far: the message, the tags of required fields seen, and
      the fixed-count array being filled. */
  datatype State = State(m: Message, seen: set<nat>, fixed: Option<Field>)

  /** The value of a field, over `base` when it is a message. */
  function DecodeValue(f: Field, base: Value, s: seq<byte>): (r: Option<(Value, seq<byte>)>)
    ensures r.Some? ==> |r.value.1| < |s|
    decreases |s|, 0
  {
    if Packable(f.kind) then
      match DecodeNumber(f, s) case None => None case Some((n, rest)) => Some((Num(n), rest))
    else
      match TakePrefixed(s)
      case None => None
      case Some((b, rest)) =>
        if f.kind.Submessage? then
          match DecodeMessage(f.sub, if base.Msg? then base.m else map[], b)
          case None => None
          case Some((m, _)) => Some((Msg(m), rest))
        else
          match DecodeBlob(f, b) case None => None case Some(c) => Some((Blob(c), rest))
  }

  /** The entries of a packed array, after those in `items`. */
  function DecodePacked(f: Field, items: seq<Value>, s: seq<byte>): Option<seq<Value>>
    decreases |s|, 1
  {
    if s == [] then Some(items)
    else if |items| >= f.arraySize then None
    else
      match DecodeValue(f, DefaultValue(f), s)
      case None => None
      case Some((v, rest)) => DecodePacked(f, items + [v], rest)
  }

  function ItemsOf(m: Message, tag: nat): seq<Value> {
    if tag in m && m[tag].Many? then m[tag].items else []
  }

  function ValueOf(m: Message, f: Field): Value {
    if f.tag in m && (m[f.tag].One? || m[f.tag].Opt?) then m[f.tag].v else DefaultValue(f)
  }

  /** The message with one member of a oneof chosen, and its siblings not. */
  function Choose(fields: seq<Field>, m: Message, f: Field, v: Value): Message {
    (map t | t in m :: if m[t].Chosen? && Find(fields, t).Some? && Find(fields, t).value.rule == f.rule
                       then Unchosen else m[t])[f.tag := Chosen(v)]
  }

  predicate FixedComplete(st: State) {
    st.fixed.Some? ==> |ItemsOf(st.m, st.fixed.value.tag)| == st.fixed.value.arraySize
  }

  /** A fixed-count array begins anew unless it is the one being filled, and
      then the one before must be complete. */
  function EnterFixed(st: State, f: Field): Option<State> {
    if f.rule != Repeated(false) || st.fixed == Some(f) then Some(st)
    else if !FixedComplete(st) then None
    else Some(st.(m := st.m[f.tag := Many([])], fixed := Some(f)))
  }

  /** One field with its wire type, which matters for arrays only. */
  function DecodeSlot(fields: seq<Field>, f: Field, wireType: nat, st: State, s: seq<byte>)
    : (r: Option<(State, seq<byte>)>)
    ensures r.Some? ==> |r.value.1| < |s|
    decreases |s|, 2
  {
    match f.rule
    case Required =>
      (match DecodeValue(f, ValueOf(st.m, f), s)
       case None => None
       case Some((v, rest)) => Some((st.(m := st.m[f.tag := One(v)], seen := st.seen + {f.tag}), rest)))
    case Optional(hasField) =>
      (match DecodeValue(f, ValueOf(st.m, f), s)
       case None => None
       case Some((v, rest)) => Some((st.(m := st.m[f.tag := if hasField then Opt(true, v) else One(v)]), rest)))
    case OneOf(_) =>
      (match DecodeValue(f, DefaultValue(f), s)
       case None => None
       case Some((v, rest)) => Some((st.(m := Choose(fields, st.m, f, v)), rest)))
    case Repeated(_) =>
      (match EnterFixed(st, f)
       case None => None
       case Some(st) => DecodeArray(f, wireType, st, s))
  }

  function DecodeArray(f: Field, wireType: nat, st: State, s: seq<byte>): (r: Option<(State, seq<byte>)>)
    ensures r.Some? ==> |r.value.1| < |s|
    decreases |s|, 1
  {
    var items := ItemsOf(st.m, f.tag);
    if wireType == 2 && Packable(f.kind) then
      match TakePrefixed(s)
      case None => None
      case Some((b, rest)) =>
        match DecodePacked(f, items, b)
        case None => None
        case Some(all) => Some((st.(m := st.m[f.tag := Many(all)]), rest))
    else if |items| >= f.arraySize then None
    else
      match DecodeValue(f, DefaultValue(f), s)
      case None => None
      case Some((v, rest)) => Some((st.(m := st.m[f.tag := Many(items + [v])]), rest))
  }

  /** Field by field, to the end of `s` or a zero tag. */
  function DecodeLoop(fields: seq<Field>, st: State, s: seq<byte>): (r: Option<(State, seq<byte>)>)
    ensures r.Some? ==> |r.value.1| <= |s|
    decreases |s|, 3
  {
    if s == [] then Some((st, [])) else
    match DecodeTag(s)
    case BadTag => None
    case Stop(rest) => Some((st, rest))
    case Tag(tag, wireType, rest) =>
      if fields == [] && tag == 0 then None else
      match Find(fields, tag)
      case None =>
        (match SkipField(wireType, rest)
         case None => None
         case Some(next) => DecodeLoop(fields, st, next))
      case Some(f) =>
        (match DecodeSlot(fields, f, wireType, st, rest)
         case None => None
         case Some((st', next)) => DecodeLoop(fields, st', next))
  }

  /** The tags of the required fields, in order. */
  function RequiredTags(fields: seq<Field>): seq<nat> {
    if fields == [] then []
    else (if fields[0].rule.Required? then [fields[0].tag] else []) + RequiredTags(fields[1..])
  }

  /** Only the first 64 required fields are checked. */
  predicate RequiredSeen(fields: seq<Field>, seen: set<nat>) {
    var tags := RequiredTags(fields);
    forall i :: 0 <= i < |tags| && i < MAX_REQUIRED ==> tags[i] in seen
  }

  /** Decoding over what `m` holds. */
  function DecodeMessage(fields: seq<Field>, m: Message, s: seq<byte>): (r: Option<(Message, seq<byte>)>)
    decreases |s|, 4
  {
    match DecodeLoop(fields, State(m, {}, None), s)
    case None => None
    case Some((st, rest)) =>
      if FixedComplete(st) && RequiredSeen(fields, st.seen) then Some((st.m, rest)) else None
  }

  function Decode(fields: seq<Field>, s: seq<byte>): Option<(Message, seq<byte>)> {
    DecodeMessage(fields, Defaults(fields), s)
  }

  lemma {:induction false} RequiredTagIs(fields: seq<Field>, i: nat) returns (k: nat)
    requires i < |RequiredTags(fields)|
    ensures k < |fields| && fields[k].rule.Required? && RequiredTags(fields)[i] == fields[k].tag
  {
    if fields[0].rule.Required? && i == 0 {
      k := 0;
    } else {
      var j := RequiredTagIs(fields[1..], if fields[0].rule.Required? then i - 1 else i);
      k := j + 1;
    }
  }

  lemma {:induction false} RequiredTagsDistinct(fields: seq<Field>, i: nat, j: nat)
    requires DistinctTags(fields) && i < j < |RequiredTags(fields)|
    ensures RequiredTags(fields)[i] != RequiredTags(fields)[j]
  {
    if fields[0].rule.Required? && i == 0 {
      var k := RequiredTagIs(fields[1..], j - 1);
    } else {
      var n := if fields[0].rule.Required? then 1 else 0;
      RequiredTagsDistinct(fields[1..], i - n, j - n);
    }
  }
}
