/** Decoding what the encoder wrote, with the same descriptor or with one that
    lacks some of its fields. */
module PbRoundTrip {
  import opened Bytes
  import opened PbVarint
  import opened PbSchema
  import opened PbEncode
  import opened PbDecode

  // ----- What can be read back --------------------------------------------

  /** Lengths are read in 32 bits. */
  predicate LengthOk(s: Option<seq<byte>>) {
    s.Some? ==> |s.value| < U32
  }

  /** Value `v` of the writer's field `w` is readable by a reader whose field is
      `f`, or who skips it. */
  predicate ReadableValue(w: Field, f: Option<Field>, v: Value)
    decreases w, 0
  {
    match v
    case Num(_) => true
    case Blob(b) => f.Some? && f.value.kind.Text? ==> |b| < f.value.dataSize
    case Msg(m) => LengthOk(EncodeMessage(w.sub, m)) && (f.Some? ==> ReadableMessage(w.sub, f.value.sub, m))
  }

  predicate ReadableItems(w: Field, f: Option<Field>, items: seq<Value>)
    decreases w, 1, |items|
  {
    items == [] || (ReadableValue(w, f, items[0]) && ReadableItems(w, f, items[1..]))
  }

  predicate ReadableSlot(w: Field, f: Option<Field>, slot: Slot)
    decreases w, 2
  {
    match slot
    case One(v) => (w.rule == Optional(false) && IsZeroValue(w, v)) || ReadableValue(w, f, v)
    case Opt(has, v) => has ==> ReadableValue(w, f, v)
    case Many(items) => if Packable(w.kind) then LengthOk(EncodePayload(w, items)) else ReadableItems(w, f, items)
    case Chosen(v) => ReadableValue(w, f, v)
    case Unchosen => true
  }

  /** Every string the reader knows leaves room for its terminator, and every
      embedded length fits 32 bits. */
  predicate ReadableMessage(whole: seq<Field>, fields: seq<Field>, m: Message)
    decreases whole
  {
    whole != [] && whole[0].tag in m ==>
      ReadableSlot(whole[0], Find(fields, whole[0].tag), m[whole[0].tag]) && ReadableMessage(whole[1..], fields, m)
  }

  // ----- One value --------------------------------------------------------

  lemma PrefixedIsTaken(b: seq<byte>, t: seq<byte>)
    requires |b| < U63
    ensures TakePrefixed(Prefixed(b) + t) == if |b| < U32 then Some((b, t)) else None
  {
    assert Prefixed(b) + t == EncodeVarint(|b|) + (b + t);
    hide EncodeVarint, Varint32;
    if |b| < U32 {
      Varint32RoundTrip(|b|, b + t);
    } else {
      Varint32Refuses(|b|, b + t);
    }
    assert (b + t)[..|b|] == b && (b + t)[|b|..] == t;
  }

  lemma TagIsRead(tag: nat, wireType: nat, t: seq<byte>)
    requires 1 <= tag <= MAX_TAG && wireType < 8
    ensures DecodeTag(EncodeTag(tag, wireType) + t) == Tag(tag, wireType, t)
  {
    hide EncodeVarint, Varint32;
    assert EncodeTag(tag, wireType) + t != [];
    Varint32RoundTrip(tag * 8 + wireType, t);
  }

  lemma SignedIntegerFits(f: Field, n: int)
    requires f.kind.Varint? && IntRange(f.dataSize).Some? && InSigned(n, IntRange(f.dataSize).value)
    ensures DecodeInteger(f, ToUnsigned(n, U64)) == Some(n)
  {
    if n < 0 {
      assert ToUnsigned(n, U64) == n + U64;
      assert (n + U64) % U32 == n % U32 by { AddMultiple32(n); }
    }
    if f.dataSize == 8 {
      TwosComplement(n, U64);
    } else {
      TwosComplement(n, U32);
    }
  }

  lemma AddMultiple32(n: int)
    ensures (n + U64) % U32 == n % U32
  {
  }

  lemma ZigzagFits(f: Field, n: int)
    requires f.kind.Svarint? && IntRange(f.dataSize).Some? && InSigned(n, IntRange(f.dataSize).value)
    ensures Zigzag(n) < U64 && DecodeInteger(f, Zigzag(n)) == Some(n)
  {
    hide Zigzag, Unzigzag;
    ZigzagBijection(n, 0);
  }

  lemma NumberIsRead(f: Field, n: int, t: seq<byte>)
    requires EncodeNumber(f, n).Some?
    ensures DecodeNumber(f, EncodeNumber(f, n).value + t) == Some((n, t))
  {
    hide EncodeVarint, Varint64, DecodeInteger, Zigzag, ToLE, FromLE, ToUnsigned;
    Ranges();
    var s := EncodeNumber(f, n).value;
    match f.kind
    case Varint =>
      SignedIntegerFits(f, n);
      UnsignedBound(n);
      VarintRoundTrip(ToUnsigned(n, U64), t);
    case Uvarint =>
      VarintRoundTrip(n, t);
      assert DecodeInteger(f, n) == Some(n) by { UnsignedFits(f, n); }
    case Svarint =>
      ZigzagFits(f, n);
      VarintRoundTrip(Zigzag(n), t);
    case Fixed32 =>
      LittleEndianRoundTrip(n, 4);
      assert (s + t)[..4] == s && (s + t)[4..] == t;
    case Fixed64 =>
      LittleEndianRoundTrip(n, 8);
      assert (s + t)[..8] == s && (s + t)[8..] == t;
  }

  lemma UnsignedBound(n: int)
    ensures ToUnsigned(n, U64) < U64
  {
  }

  lemma UnsignedFits(f: Field, n: nat)
    requires f.kind.Uvarint? && IntRange(f.dataSize).Some? && n < IntRange(f.dataSize).value
    ensures DecodeInteger(f, n) == Some(n)
  {
  }

  lemma {:induction false} NoZero(b: seq<byte>)
    requires 0 !in b
    ensures UpToZero(b) == b
  {
    if b != [] {
      assert b[0] in b;
      NoZero(b[1..]);
    }
  }

  lemma BlobIsRead(f: Field, b: seq<byte>)
    requires EncodeBlob(f, b).Some?
    ensures DecodeBlob(f, b) == if f.kind.Text? && |b| == f.dataSize then None else Some(b)
  {
    if f.kind.Text? {
      NoZero(b);
    } else if f.kind.FixedBytes? && b == [] {
      assert Zeros(0) == b;
    }
  }

  lemma PrefixedLonger(b: seq<byte>)
    ensures |b| < |Prefixed(b)|
  {
  }

  /** A skipped value: exactly the bytes the encoder emitted for it. */
  lemma ValueIsSkipped(w: Field, v: Value, t: seq<byte>)
    requires w.dataSize < U32
    requires EncodeValue(w, v).Some? && |EncodeValue(w, v).value| < U63
    ensures SkipField(WireType(w.kind), EncodeValue(w, v).value + t) ==
            if ReadableValue(w, None, v) then Some(t) else None
  {
    hide EncodeVarint, EncodeMessage, ToLE, Zigzag, TakePrefixed, VarintLength, Prefixed;
    var s := EncodeValue(w, v).value;
    match v
    case Num(n) =>
      if w.kind.Fixed32? || w.kind.Fixed64? {
        assert (s + t)[|s|..] == t;
      } else {
        var u := if w.kind.Varint? then ToUnsigned(n, U64) else if w.kind.Uvarint? then n else Zigzag(n);
        EncodedVarint(u, t);
        assert (s + t)[|s|..] == t;
      }
    case Blob(b) =>
      PrefixedLonger(b);
      PrefixedIsTaken(b, t);
    case Msg(m) =>
      PrefixedLonger(EncodeMessage(w.sub, m).value);
      PrefixedIsTaken(EncodeMessage(w.sub, m).value, t);
  }

  /** A field the reader knows: read as its projection. */
  lemma {:induction false} ValueIsRead(w: Field, f: Field, v: Value, t: seq<byte>)
    requires WellFormedField(w) && WellFormedField(f) && SubField(f, w)
    requires EncodeValue(w, v).Some? && |EncodeValue(w, v).value| < U63
    ensures DecodeValue(f, DefaultValue(f), EncodeValue(w, v).value + t) ==
            if ReadableValue(w, Some(f), v) then Some((ProjectValue(f, v), t)) else None
    decreases w, 0
  {
    hide EncodeVarint, EncodeMessage, EncodeNumber, DecodeNumber, TakePrefixed, Prefixed, Defaults, Project, DecodeMessage;
    var s := EncodeValue(w, v).value;
    match v
    case Num(n) =>
      assert EncodeNumber(f, n) == EncodeNumber(w, n) by { SameNumber(w, f, n); }
      assert Packable(f.kind) by { NumberIsPackable(w, n); }
      NumberIsRead(f, n, t);
    case Blob(b) =>
      PrefixedLonger(b);
      PrefixedIsTaken(b, t);
      BlobIsRead(f, b);
    case Msg(m) =>
      var body := EncodeMessage(w.sub, m).value;
      PrefixedLonger(body);
      PrefixedIsTaken(body, t);
      MessageIsRead(w.sub, f.sub, m);
  }

  lemma SameNumber(w: Field, f: Field, n: int)
    requires SubField(f, w)
    ensures EncodeNumber(f, n) == EncodeNumber(w, n)
  {
  }

  lemma NumberIsPackable(w: Field, n: int)
    requires EncodeNumber(w, n).Some?
    ensures Packable(w.kind)
  {
  }

  // ----- Zero values of proto3 singular fields ----------------------------

  lemma {:induction false} ZeroValueProjects(w: Field, f: Field, v: Value)
    requires WellFormedField(w) && WellFormedField(f) && SubField(f, w)
    requires f.rule == Optional(false) && IsZeroValue(w, v)
    ensures ProjectValue(f, v) == DefaultValue(f)
    decreases w, 0
  {
    if v.Msg? {
      ZeroMessageProjects(w.sub, f.sub, v.m);
    }
  }

  lemma {:induction false} ZeroMessageHas(whole: seq<Field>, m: Message, i: nat)
    requires i < |whole| && IsZeroMessage(whole, m)
    ensures whole[i].tag in m && IsZeroSlot(whole[i], m[whole[i].tag])
    decreases |whole|
  {
    hide IsZeroSlot;
    if i > 0 {
      ZeroMessageHas(whole[1..], m, i - 1);
    }
  }

  /** Leaving out a zero message is right: it reads back as the defaults. */
  lemma {:induction false} ZeroMessageProjects(whole: seq<Field>, fields: seq<Field>, m: Message)
    requires WellFormed(whole) && WellFormed(fields) && SubSchema(fields, whole)
    requires IsZeroMessage(whole, m)
    ensures Project(fields, m) == Defaults(fields)
    decreases whole
  {
    hide Project, Defaults, IsZeroSlot, IsZeroMessage, WellFormedField, DefaultSlot, ProjectSlot;
    var p, d := Project(fields, m), Defaults(fields);
    forall tag
      ensures tag in p <==> tag in d
      ensures tag in p ==> p[tag] == d[tag]
    {
      ProjectHas(fields, m, tag);
      DefaultsHas(fields, tag);
      if tag in p {
        var f := Find(fields, tag).value;
        var i :| 0 <= i < |fields| && fields[i] == f;
        var w := Find(whole, tag).value;
        var j :| 0 <= j < |whole| && whole[j] == w;
        ZeroMessageHas(whole, m, j);
        ZeroSlotProjects(w, f, m[tag]);
      }
    }
  }

  lemma {:induction false} ZeroSlotProjects(w: Field, f: Field, slot: Slot)
    requires WellFormedField(w) && WellFormedField(f) && SubField(f, w) && IsZeroSlot(w, slot)
    ensures ProjectSlot(f, slot) == DefaultSlot(f)
    decreases w, 1
  {
    if slot.One? {
      ZeroValueProjects(w, f, slot.v);
    }
  }

  // ----- One field --------------------------------------------------------

  /** How reading the writer's field `w` with this slot changes the state. */
  function Absorb(fields: seq<Field>, w: Field, slot: Slot, st: State): State {
    match Find(fields, w.tag)
    case None => st
    case Some(f) =>
      match slot
      case One(v) =>
        if f.rule.Required? then st.(m := st.m[f.tag := ProjectSlot(f, slot)], seen := st.seen + {f.tag})
        else if IsZeroValue(w, v) then st else st.(m := st.m[f.tag := ProjectSlot(f, slot)])
      case Opt(has, v) => if has then st.(m := st.m[f.tag := ProjectSlot(f, slot)]) else st
      case Many(items) =>
        if items == [] then st
        else st.(m := st.m[f.tag := ProjectSlot(f, slot)], fixed := if f.rule == Repeated(false) then Some(f) else st.fixed)
      case Chosen(v) => st.(m := st.m[f.tag := ProjectSlot(f, slot)])
      case Unchosen => st
  }

  /** Reading can go on: no fixed-count array is half full. */
  ghost predicate Steady(fields: seq<Field>, st: State) {
    FixedComplete(st) && (forall tag :: tag in st.m ==> Find(fields, tag).Some?)
  }

  /** The reader's field for `w` is untouched, and no sibling of it is chosen
      if `w` is. */
  ghost predicate Untouched(fields: seq<Field>, w: Field, slot: Slot, st: State) {
    var f := Find(fields, w.tag);
    f.Some? ==>
      && f.value.tag in st.m && st.m[f.value.tag] == DefaultSlot(f.value)
      && (st.fixed.Some? ==> st.fixed.value.tag != w.tag)
      && (slot.Chosen? ==>
            forall tag :: tag in st.m && st.m[tag].Chosen? ==>
              Find(fields, tag).None? || Find(fields, tag).value.rule != w.rule)
  }

  predicate Pair(w: Field, f: Field) {
    WellFormedField(w) && WellFormedField(f) && SubField(f, w)
  }

  /** Reader and writer agree on the field, if the reader has it. */
  predicate Known(fields: seq<Field>, w: Field) {
    WellFormedField(w) && (Find(fields, w.tag).Some? ==> Pair(w, Find(fields, w.tag).value))
  }

  /** What the loop does with the bytes after a tag. */
  function Dispatch(fields: seq<Field>, st: State, tag: nat, wireType: nat, s: seq<byte>): Option<(State, seq<byte>)> {
    match Find(fields, tag)
    case None =>
      (match SkipField(wireType, s) case None => None case Some(next) => DecodeLoop(fields, st, next))
    case Some(f) =>
      (match DecodeSlot(fields, f, wireType, st, s)
       case None => None
       case Some((st', next)) => DecodeLoop(fields, st', next))
  }

  lemma LoopReadsTag(fields: seq<Field>, st: State, tag: nat, wireType: nat, s: seq<byte>)
    requires 1 <= tag <= MAX_TAG && wireType < 8
    ensures DecodeLoop(fields, st, EncodeTag(tag, wireType) + s) == Dispatch(fields, st, tag, wireType, s)
  {
    hide EncodeVarint, SkipField, DecodeSlot, DecodeTag;
    TagIsRead(tag, wireType, s);
  }

  /** One tagged value of a field that is not an array. */
  lemma {:induction false} TaggedIsRead(fields: seq<Field>, w: Field, slot: Slot, v: Value, st: State, t: seq<byte>)
    requires Known(fields, w) && Steady(fields, st) && Untouched(fields, w, slot, st)
    requires EncodeTagged(w, v).Some? && |EncodeTagged(w, v).value| < U63
    requires (w.rule.Required? && slot == One(v)) || (w.rule.OneOf? && slot == Chosen(v)) ||
             (w.rule == Optional(true) && slot == Opt(true, v)) ||
             (w.rule == Optional(false) && slot == One(v) && !IsZeroValue(w, v))
    ensures DecodeLoop(fields, st, EncodeTagged(w, v).value + t) ==
            if ReadableValue(w, Find(fields, w.tag), v) then DecodeLoop(fields, Absorb(fields, w, slot, st), t)
            else None
    decreases w, 1
  {
    hide EncodeVarint, SkipField, DecodeValue, EncodeValue, ReadableValue, DefaultValue, ProjectValue, DecodeLoop,
      WellFormedField, SubField, IsZeroValue;
    var body := EncodeValue(w, v).value;
    var wireType := WireType(w.kind);
    assert EncodeTagged(w, v).value + t == EncodeTag(w.tag, wireType) + (body + t);
    TagInRange(w);
    LoopReadsTag(fields, st, w.tag, wireType, body + t);
    match Find(fields, w.tag)
    case None => ValueIsSkipped(w, v, t);
    case Some(f) =>
      SameField(w, f);
      ValueIsRead(w, f, v, t);
      if slot.Chosen? && ReadableValue(w, Some(f), v) {
        ChooseOnly(fields, st.m, f, ProjectValue(f, v));
      }
  }

  lemma TagInRange(w: Field)
    requires WellFormedField(w)
    ensures 1 <= w.tag <= MAX_TAG && w.dataSize < U32
  {
  }

  lemma SameField(w: Field, f: Field)
    requires SubField(f, w)
    ensures f.tag == w.tag && f.rule == w.rule && f.kind == w.kind && f.arraySize == w.arraySize
  {
  }

  lemma ChooseOnly(fields: seq<Field>, m: Message, f: Field, v: Value)
    requires f.tag in m && !m[f.tag].Chosen?
    requires forall tag :: tag in m && m[tag].Chosen? ==>
               Find(fields, tag).None? || Find(fields, tag).value.rule != f.rule
    ensures Choose(fields, m, f, v) == m[f.tag := Chosen(v)]
  {
  }

  // ----- Arrays -----------------------------------------------------------

  lemma {:induction false} NumbersProjectToThemselves(f: Field, items: seq<Value>)
    requires !f.kind.Submessage?
    ensures ProjectItems(f, items) == items
    decreases |items|
  {
    if items != [] {
      NumbersProjectToThemselves(f, items[..|items| - 1]);
      assert items == items[..|items| - 1] + [items[|items| - 1]];
    }
  }

  lemma PackableIsReadable(w: Field, f: Option<Field>, v: Value)
    requires Packable(w.kind) && EncodeValue(w, v).Some?
    ensures v.Num? && ReadableValue(w, f, v)
  {
  }

  lemma {:induction false} PackedIsRead(w: Field, f: Field, done: seq<Value>, items: seq<Value>)
    requires Pair(w, f) && Packable(w.kind)
    requires EncodePayload(w, items).Some? && |EncodePayload(w, items).value| < U63
    requires |done| + |items| <= f.arraySize
    ensures DecodePacked(f, done, EncodePayload(w, items).value) == Some(done + items)
    decreases w, 1, |items|
  {
    hide EncodeValue, DecodeValue, ReadableValue, WellFormedField, SubField, DefaultValue;
    if items == [] {
      assert done + items == done;
    } else {
      var rest := EncodePayload(w, items[1..]).value;
      SameField(w, f);
      PackableIsReadable(w, Some(f), items[0]);
      ValueIsRead(w, f, items[0], rest);
      assert ProjectValue(f, items[0]) == items[0];
      PackedIsRead(w, f, done + [items[0]], items[1..]);
      assert done + [items[0]] + items[1..] == done + items;
    }
  }

  /** The state once the first entries of an array are in. */
  function Filled(fields: seq<Field>, w: Field, done: seq<Value>, st: State): State {
    Absorb(fields, w, Many(done), st)
  }

  lemma EnteredFixed(fields: seq<Field>, w: Field, f: Field, done: seq<Value>, next: seq<Value>, st: State)
    requires Find(fields, w.tag) == Some(f) && w.rule == f.rule && f.rule.Repeated? && next != []
    requires Steady(fields, st) && Untouched(fields, w, Many(done), st)
    ensures var entered := EnterFixed(Filled(fields, w, done, st), f);
            entered.Some? && ItemsOf(entered.value.m, f.tag) == ProjectItems(f, done) &&
            entered.value.(m := entered.value.m[f.tag := Many(ProjectItems(f, next))]) ==
            Filled(fields, w, next, st)
  {
  }

  lemma {:induction false} PackedArrayIsRead(fields: seq<Field>, w: Field, items: seq<Value>, st: State, t: seq<byte>)
    requires Known(fields, w) && Steady(fields, st) && Untouched(fields, w, Many(items), st)
    requires w.rule.Repeated? && Packable(w.kind) && items != [] && |items| <= w.arraySize
    requires EncodeArray(w, items).Some? && |EncodeArray(w, items).value| < U63
    ensures DecodeLoop(fields, st, EncodeArray(w, items).value + t) ==
            if ReadableSlot(w, Find(fields, w.tag), Many(items))
            then DecodeLoop(fields, Filled(fields, w, items, st), t) else None
    decreases w, 2
  {
    hide EncodeVarint, DecodePacked, EncodePayload, DecodeLoop, WellFormedField, SubField, Filled, EnterFixed,
      ReadableItems, TakePrefixed, Steady, Untouched;
    var payload := EncodePayload(w, items).value;
    TagInRange(w);
    PrefixedLonger(payload);
    PrefixedIsTaken(payload, t);
    assert EncodeArray(w, items).value + t == EncodeTag(w.tag, 2) + (Prefixed(payload) + t);
    LoopReadsTag(fields, st, w.tag, 2, Prefixed(payload) + t);
    match Find(fields, w.tag)
    case None => SkippedFills(fields, w, items, st);
    case Some(f) => PackedSlotIsRead(fields, w, f, items, st, t);
  }

  lemma {:induction false} PackedSlotIsRead(fields: seq<Field>, w: Field, f: Field, items: seq<Value>, st: State,
                                            t: seq<byte>)
    requires Find(fields, w.tag) == Some(f) && Pair(w, f) && Steady(fields, st) && Untouched(fields, w, Many(items), st)
    requires w.rule.Repeated? && Packable(w.kind) && items != [] && |items| <= w.arraySize
    requires EncodePayload(w, items).Some? && |EncodePayload(w, items).value| < U63
    ensures var payload := EncodePayload(w, items).value;
            DecodeSlot(fields, f, 2, st, Prefixed(payload) + t) ==
            if |payload| < U32 then Some((Filled(fields, w, items, st), t)) else None
    decreases w, 1, |items| + 1
  {
    hide EncodePayload, DecodePacked, WellFormedField, SubField, Filled, EnterFixed, TakePrefixed, Steady, Untouched,
      Prefixed, ProjectItems, ItemsOf;
    var payload := EncodePayload(w, items).value;
    PrefixedIsTaken(payload, t);
    SameField(w, f);
    PackedIsRead(w, f, [], items);
    assert [] + items == items;
    NumbersProjectToThemselves(f, items);
    NothingFilled(fields, w, st);
    ArrayUntouched(fields, w, items, [], st);
    EnteredFixed(fields, w, f, [], items, st);
    NoItems(f);
    var entered := EnterFixed(st, f).value;
    assert DecodeSlot(fields, f, 2, st, Prefixed(payload) + t) == DecodeArray(f, 2, entered, Prefixed(payload) + t);
  }

  lemma NoItems(f: Field)
    ensures ProjectItems(f, []) == []
  {
  }

  lemma NothingFilled(fields: seq<Field>, w: Field, st: State)
    ensures Filled(fields, w, [], st) == st
  {
  }

  lemma ArrayUntouched(fields: seq<Field>, w: Field, a: seq<Value>, b: seq<Value>, st: State)
    requires Untouched(fields, w, Many(a), st)
    ensures Untouched(fields, w, Many(b), st)
  {
  }

  /** Entry `i` of an array that is not packed. */
  lemma {:induction false} EntryIsRead(fields: seq<Field>, w: Field, items: seq<Value>, i: nat, st: State, t: seq<byte>)
    requires Known(fields, w) && Steady(fields, st) && Untouched(fields, w, Many(items), st)
    requires w.rule.Repeated? && !Packable(w.kind) && i < |items| <= w.arraySize
    requires EncodeTagged(w, items[i]).Some? && |EncodeTagged(w, items[i]).value| < U63
    ensures DecodeLoop(fields, Filled(fields, w, items[..i], st), EncodeTagged(w, items[i]).value + t) ==
            if ReadableValue(w, Find(fields, w.tag), items[i])
            then DecodeLoop(fields, Filled(fields, w, items[..i + 1], st), t) else None
    decreases w, 1
  {
    hide EncodeVarint, SkipField, DecodeValue, EncodeValue, ReadableValue, DefaultValue, ProjectValue, DecodeLoop,
      WellFormedField, SubField, Filled, EnterFixed, Steady, Untouched;
    var v := items[i];
    var body := EncodeValue(w, v).value;
    var before := Filled(fields, w, items[..i], st);
    assert EncodeTagged(w, v).value + t == EncodeTag(w.tag, WireType(w.kind)) + (body + t);
    TagInRange(w);
    LoopReadsTag(fields, before, w.tag, WireType(w.kind), body + t);
    match Find(fields, w.tag)
    case None =>
      ValueIsSkipped(w, v, t);
      SkippedFills(fields, w, items[..i], st);
      SkippedFills(fields, w, items[..i + 1], st);
    case Some(f) =>
      SameField(w, f);
      ValueIsRead(w, f, v, t);
      ArrayUntouched(fields, w, items, items[..i], st);
      EnteredFixed(fields, w, f, items[..i], items[..i + 1], st);
      assert items[..i + 1][..i] == items[..i];
      assert ProjectItems(f, items[..i + 1]) == ProjectItems(f, items[..i]) + [ProjectValue(f, v)];
      var entered := EnterFixed(before, f).value;
      assert DecodeSlot(fields, f, WireType(w.kind), before, body + t) == DecodeArray(f, WireType(w.kind), entered, body + t);
      assert |ItemsOf(entered.m, f.tag)| == i;
  }

  lemma SkippedFills(fields: seq<Field>, w: Field, done: seq<Value>, st: State)
    requires Find(fields, w.tag).None?
    ensures Filled(fields, w, done, st) == st
  {
  }

  lemma {:induction false} EntriesAreRead(fields: seq<Field>, w: Field, items: seq<Value>, i: nat, st: State, t: seq<byte>)
    requires Known(fields, w) && Steady(fields, st) && Untouched(fields, w, Many(items), st)
    requires w.rule.Repeated? && !Packable(w.kind) && i <= |items| <= w.arraySize
    requires EncodeEntries(w, items[i..]).Some? && |EncodeEntries(w, items[i..]).value| < U63
    ensures DecodeLoop(fields, Filled(fields, w, items[..i], st), EncodeEntries(w, items[i..]).value + t) ==
            if ReadableItems(w, Find(fields, w.tag), items[i..])
            then DecodeLoop(fields, Filled(fields, w, items, st), t) else None
    decreases w, 2, |items| - i
  {
    hide EncodeTagged, ReadableValue, DecodeLoop, WellFormedField, SubField, Filled, Steady, Untouched;
    if i == |items| {
      assert items[..i] == items && [] + t == t;
    } else {
      assert items[i..][1..] == items[i + 1..] && items[i..][0] == items[i];
      var a, b := EncodeTagged(w, items[i]).value, EncodeEntries(w, items[i + 1..]).value;
      assert a + b + t == a + (b + t);
      EntryIsRead(fields, w, items, i, st, b + t);
      EntriesAreRead(fields, w, items, i + 1, st, t);
    }
  }

  // ----- Any field --------------------------------------------------------

  lemma {:induction false} SlotIsRead(fields: seq<Field>, w: Field, slot: Slot, st: State, t: seq<byte>)
    requires Known(fields, w) && Steady(fields, st) && Untouched(fields, w, slot, st)
    requires EncodeSlot(w, slot).Some? && |EncodeSlot(w, slot).value| < U63
    ensures DecodeLoop(fields, st, EncodeSlot(w, slot).value + t) ==
            if ReadableSlot(w, Find(fields, w.tag), slot)
            then DecodeLoop(fields, Absorb(fields, w, slot, st), t) else None
    decreases w, 3
  {
    hide EncodeTagged, EncodePayload, EncodeEntries, DecodeLoop, ReadableValue, ReadableItems, ProjectSlot,
      WellFormedField, SubField, IsZeroValue, Steady, Untouched, Prefixed, EncodeTag;
    var s := EncodeSlot(w, slot).value;
    KnownRule(fields, w);
    match slot
    case One(v) =>
      if s != [] || w.rule.Required? || !IsZeroValue(w, v) {
        TaggedNotEmpty(w, v);
        TaggedIsRead(fields, w, slot, v, st, t);
      } else {
        assert s + t == t;
      }
    case Opt(has, v) =>
      if has {
        TaggedIsRead(fields, w, slot, v, st, t);
      } else {
        assert s + t == t;
      }
    case Chosen(v) => TaggedIsRead(fields, w, slot, v, st, t);
    case Unchosen => assert s + t == t;
    case Many(items) =>
      if items == [] {
        assert s + t == t;
        EmptyIsReadable(w, Find(fields, w.tag));
      } else if Packable(w.kind) {
        PackedArrayIsRead(fields, w, items, st, t);
      } else {
        assert items[..0] == [] && items[0..] == items;
        NothingFilled(fields, w, st);
        EntriesAreRead(fields, w, items, 0, st, t);
      }
  }

  lemma KnownRule(fields: seq<Field>, w: Field)
    requires Known(fields, w)
    ensures Find(fields, w.tag).Some? ==> Find(fields, w.tag).value.rule == w.rule
  {
  }

  lemma TaggedNotEmpty(w: Field, v: Value)
    ensures EncodeTagged(w, v).Some? ==> EncodeTagged(w, v).value != []
  {
  }

  lemma EmptyIsReadable(w: Field, f: Option<Field>)
    ensures ReadableSlot(w, f, Many([]))
  {
  }

  /** The slot is in, and nothing else changed. */
  lemma AbsorbFacts(fields: seq<Field>, w: Field, slot: Slot, st: State)
    requires Known(fields, w) && Steady(fields, st) && Untouched(fields, w, slot, st)
    requires EncodeSlot(w, slot).Some?
    ensures var st' := Absorb(fields, w, slot, st);
            && Steady(fields, st') && st'.m.Keys == st.m.Keys && st.seen <= st'.seen
            && (forall tag :: tag in st.m && tag != w.tag ==> st'.m[tag] == st.m[tag])
            && (st'.fixed == st.fixed || (st'.fixed.Some? && st'.fixed.value.tag == w.tag))
            && (Find(fields, w.tag).Some? ==>
                  var f := Find(fields, w.tag).value;
                  st'.m[w.tag] == ProjectSlot(f, slot) && (f.rule.Required? ==> w.tag in st'.seen))
  {
    hide EncodeTagged, EncodeArray, WellFormedField, SubField, IsZeroValue, ProjectItems, ProjectValue, DefaultValue;
    if Find(fields, w.tag).Some? {
      var f := Find(fields, w.tag).value;
      SameField(w, f);
      if slot.One? && !f.rule.Required? && IsZeroValue(w, slot.v) {
        ZeroValueProjects(w, f, slot.v);
      }
    }
  }

  // ----- A whole message --------------------------------------------------

  /** Ready for the writer's fields in `rest`. */
  ghost predicate Ready(fields: seq<Field>, rest: seq<Field>, m: Message, st: State) {
    && Steady(fields, st) && DistinctTags(rest)
    && (forall i :: 0 <= i < |rest| ==>
          Known(fields, rest[i]) && (rest[i].tag in m ==> Untouched(fields, rest[i], m[rest[i].tag], st)))
  }

  lemma ReadyNext(fields: seq<Field>, rest: seq<Field>, m: Message, st: State)
    requires Ready(fields, rest, m, st) && rest != [] && EncodeMessage(rest, m).Some?
    ensures Ready(fields, rest[1..], m, Absorb(fields, rest[0], m[rest[0].tag], st))
  {
    hide EncodeSlot, WellFormedField, SubField, ProjectSlot, Absorb, Steady, Known;
    var w, slot := rest[0], m[rest[0].tag];
    AbsorbFacts(fields, w, slot, st);
    var st' := Absorb(fields, w, slot, st);
    forall i | 0 <= i < |rest[1..]|
      ensures Known(fields, rest[1..][i])
      ensures rest[1..][i].tag in m ==> Untouched(fields, rest[1..][i], m[rest[1..][i].tag], st')
    {
      var next := rest[1..][i];
      assert next == rest[i + 1];
      if next.tag in m {
        NextUntouched(fields, rest, i, m, st);
      }
    }
  }

  lemma NextUntouched(fields: seq<Field>, rest: seq<Field>, i: nat, m: Message, st: State)
    requires Ready(fields, rest, m, st) && i < |rest| - 1 && EncodeMessage(rest, m).Some?
    requires rest[i + 1].tag in m
    ensures Untouched(fields, rest[1..][i], m[rest[i + 1].tag], Absorb(fields, rest[0], m[rest[0].tag], st))
  {
    hide EncodeSlot, WellFormedField, SubField, Absorb, Steady, ProjectValue, ProjectItems, DefaultSlot;
    var w, slot, next := rest[0], m[rest[0].tag], rest[i + 1];
    assert next == rest[1..][i];
    AbsorbFacts(fields, w, slot, st);
    KnownRule(fields, w);
    assert Untouched(fields, next, m[next.tag], st);
    var st' := Absorb(fields, w, slot, st);
    if m[next.tag].Chosen? && slot.Chosen? {
      assert w.rule != next.rule;
    }
    if w.tag in st'.m && Find(fields, w.tag).Some? && st'.m[w.tag].Chosen? {
      ChosenProjects(Find(fields, w.tag).value, slot);
    }
  }

  lemma ChosenProjects(f: Field, slot: Slot)
    requires ProjectSlot(f, slot).Chosen?
    ensures slot.Chosen?
  {
  }

  /** The state after all fields in `rest`. */
  function Finish(fields: seq<Field>, rest: seq<Field>, m: Message, st: State): State {
    if rest == [] || rest[0].tag !in m then st
    else Finish(fields, rest[1..], m, Absorb(fields, rest[0], m[rest[0].tag], st))
  }

  lemma {:induction false} FieldsAreRead(fields: seq<Field>, rest: seq<Field>, m: Message, st: State)
    requires Ready(fields, rest, m, st)
    requires EncodeMessage(rest, m).Some? && |EncodeMessage(rest, m).value| < U63
    ensures DecodeLoop(fields, st, EncodeMessage(rest, m).value) ==
            if ReadableMessage(rest, fields, m) then Some((Finish(fields, rest, m, st), [])) else None
    decreases rest, 0
  {
    hide EncodeSlot, DecodeLoop, ReadableSlot, WellFormedField, SubField, Absorb, Steady, Known, Untouched;
    if rest == [] {
      assert DecodeLoop(fields, st, []) == Some((st, [])) by { NothingToRead(fields, st); }
    } else {
      var w, slot := rest[0], m[rest[0].tag];
      assert Untouched(fields, w, slot, st) && Known(fields, w);
      SlotIsRead(fields, w, slot, st, EncodeMessage(rest[1..], m).value);
      ReadyNext(fields, rest, m, st);
      FieldsAreRead(fields, rest[1..], m, Absorb(fields, w, slot, st));
    }
  }

  lemma NothingToRead(fields: seq<Field>, st: State)
    ensures DecodeLoop(fields, st, []) == Some((st, []))
  {
  }

  lemma {:induction false} FinishFacts(fields: seq<Field>, rest: seq<Field>, m: Message, st: State, tag: nat)
    requires Ready(fields, rest, m, st) && EncodeMessage(rest, m).Some?
    ensures var end := Finish(fields, rest, m, st);
            && Steady(fields, end) && end.m.Keys == st.m.Keys && st.seen <= end.seen
            && (tag in st.m && Find(rest, tag).None? ==> end.m[tag] == st.m[tag])
            && (tag in st.m && Find(rest, tag).Some? && Find(fields, tag).Some? ==>
                  tag in m && end.m[tag] == ProjectSlot(Find(fields, tag).value, m[tag]) &&
                  (Find(fields, tag).value.rule.Required? ==> tag in end.seen))
    decreases |rest|
  {
    hide EncodeSlot, WellFormedField, SubField, Absorb, Steady, Known, Untouched, ProjectSlot;
    if rest != [] {
      var w, slot := rest[0], m[rest[0].tag];
      assert Untouched(fields, w, slot, st) && Known(fields, w);
      AbsorbFacts(fields, w, slot, st);
      ReadyNext(fields, rest, m, st);
      FinishFacts(fields, rest[1..], m, Absorb(fields, w, slot, st), tag);
      if w.tag == tag {
        LaterDistinct(rest);
      }
    }
  }

  lemma LaterDistinct(rest: seq<Field>)
    requires rest != [] && DistinctTags(rest)
    ensures Find(rest[1..], rest[0].tag).None?
  {
  }

  lemma KnownFields(whole: seq<Field>, fields: seq<Field>, w: Field)
    requires WellFormed(whole) && WellFormed(fields) && SubSchema(fields, whole) && w in whole
    ensures Known(fields, w)
  {
  }

  function Start(fields: seq<Field>): State {
    State(Defaults(fields), {}, None)
  }

  lemma ReadyToStart(whole: seq<Field>, fields: seq<Field>, m: Message)
    requires WellFormed(whole) && WellFormed(fields) && SubSchema(fields, whole)
    ensures Ready(fields, whole, m, Start(fields))
  {
    hide WellFormedField, SubField, Defaults, SubSchema, Known;
    forall tag
      ensures tag in Defaults(fields) <==> Find(fields, tag).Some?
      ensures tag in Defaults(fields) ==> Defaults(fields)[tag] == DefaultSlot(Find(fields, tag).value)
    {
      DefaultsHas(fields, tag);
    }
    forall i | 0 <= i < |whole|
      ensures Known(fields, whole[i])
    {
      KnownFields(whole, fields, whole[i]);
    }
  }

  lemma FinishIsProjection(whole: seq<Field>, fields: seq<Field>, m: Message)
    requires WellFormed(whole) && WellFormed(fields) && SubSchema(fields, whole)
    requires EncodeMessage(whole, m).Some?
    ensures var end := Finish(fields, whole, m, Start(fields));
            end.m == Project(fields, m) && FixedComplete(end) && RequiredSeen(fields, end.seen)
  {
    hide WellFormedField, SubField, Defaults, Known, ProjectSlot, DefaultSlot, Project, Finish, Ready, EncodeMessage,
      RequiredTags;
    ReadyToStart(whole, fields, m);
    var end, p := Finish(fields, whole, m, Start(fields)), Project(fields, m);
    FinishFacts(fields, whole, m, Start(fields), 0);
    forall tag
      ensures tag in end.m <==> tag in p
      ensures tag in p ==> end.m[tag] == p[tag]
      ensures Find(fields, tag).Some? && Find(fields, tag).value.rule.Required? ==> tag in end.seen
    {
      FinishFacts(fields, whole, m, Start(fields), tag);
      ProjectHas(fields, m, tag);
      DefaultsHas(fields, tag);
      if Find(fields, tag).Some? {
        InWriter(whole, fields, tag);
      }
    }
    forall i | 0 <= i < |RequiredTags(fields)|
      ensures RequiredTags(fields)[i] in end.seen
    {
      var k := RequiredTagIs(fields, i);
      FindDistinct(fields, fields[k]);
    }
  }

  lemma InWriter(whole: seq<Field>, fields: seq<Field>, tag: nat)
    requires SubSchema(fields, whole) && Find(fields, tag).Some?
    ensures Find(whole, tag).Some?
  {
  }

  /** Schema projection.  A message encoded with one descriptor is decoded with
      another that lacks some of its fields, at any depth and in any order, as
      the message with those fields removed and the absent ones at their
      defaults, and every byte is consumed; exactly when each string that is
      known leaves room for its terminator and each embedded length fits 32
      bits.  Otherwise decoding fails. */
  lemma {:induction false} MessageIsRead(whole: seq<Field>, fields: seq<Field>, m: Message)
    requires WellFormed(whole) && WellFormed(fields) && SubSchema(fields, whole)
    requires EncodeMessage(whole, m).Some? && |EncodeMessage(whole, m).value| < U63
    ensures Decode(fields, EncodeMessage(whole, m).value) ==
            if ReadableMessage(whole, fields, m) then Some((Project(fields, m), [])) else None
    decreases whole, 1
  {
    hide WellFormed, SubSchema, EncodeMessage, DecodeLoop, ReadableMessage, Project, Finish, Ready, FixedComplete,
      RequiredSeen, Defaults;
    ReadyToStart(whole, fields, m);
    FieldsAreRead(fields, whole, m, Start(fields));
    FinishIsProjection(whole, fields, m);
  }

  lemma {:induction false} SubSchemaReflexive(fields: seq<Field>)
    requires WellFormed(fields)
    ensures SubSchema(fields, fields)
    decreases fields
  {
    hide SubField;
    forall i | 0 <= i < |fields|
      ensures Find(fields, fields[i].tag) == Some(fields[i])
      ensures SubField(fields[i], fields[i])
    {
      FindDistinct(fields, fields[i]);
      SubFieldReflexive(fields[i]);
    }
  }

  lemma {:induction false} SubFieldReflexive(f: Field)
    requires WellFormedField(f)
    ensures SubField(f, f)
    decreases f
  {
    if f.kind.Submessage? {
      SubSchemaReflexive(f.sub);
    }
  }

  /** Round trip: with the same descriptor, every field comes back. */
  lemma RoundTrip(fields: seq<Field>, m: Message)
    requires WellFormed(fields)
    requires EncodeMessage(fields, m).Some? && |EncodeMessage(fields, m).value| < U63
    ensures Decode(fields, EncodeMessage(fields, m).value) ==
            if ReadableMessage(fields, fields, m) then Some((Project(fields, m), [])) else None
  {
    SubSchemaReflexive(fields);
    MessageIsRead(fields, fields, m);
  }

  // ----- Messages that come back as they were -----------------------------

  predicate NormalValue(f: Field, v: Value)
    decreases f, 0
  {
    v.Msg? && f.kind.Submessage? ==> NormalMessage(f.sub, v.m)
  }

  predicate NormalItems(f: Field, items: seq<Value>)
    decreases f, 1
  {
    forall i :: 0 <= i < |items| ==> NormalValue(f, items[i])
  }

  predicate NormalSlot(f: Field, slot: Slot)
    decreases f, 2
  {
    match slot
    case One(v) => NormalValue(f, v)
    case Opt(has, v) => if has then NormalValue(f, v) else slot == DefaultSlot(f)
    case Many(items) => NormalItems(f, items)
    case Chosen(v) => NormalValue(f, v)
    case Unchosen => true
  }

  /** The fields are those of the descriptor, and values that are not present
      are at their defaults. */
  predicate NormalMessage(fields: seq<Field>, m: Message)
    decreases fields
  {
    && (forall tag :: tag in m ==> Find(fields, tag).Some?)
    && forall i :: 0 <= i < |fields| ==> fields[i].tag in m && NormalSlot(fields[i], m[fields[i].tag])
  }

  lemma {:induction false} NormalItemsProject(f: Field, items: seq<Value>)
    requires NormalItems(f, items)
    ensures ProjectItems(f, items) == items
    decreases f, 1, |items|
  {
    hide NormalValue, ProjectValue;
    if items != [] {
      var front := items[..|items| - 1];
      NormalItemsProject(f, front);
      NormalValueProjects(f, items[|items| - 1]);
      assert items == front + [items[|items| - 1]];
    }
  }

  lemma {:induction false} NormalValueProjects(f: Field, v: Value)
    requires NormalValue(f, v)
    ensures ProjectValue(f, v) == v
    decreases f, 0
  {
    if v.Msg? && f.kind.Submessage? {
      NormalProjects(f.sub, v.m);
    }
  }

  lemma {:induction false} NormalSlotProjects(f: Field, slot: Slot)
    requires NormalSlot(f, slot)
    ensures ProjectSlot(f, slot) == slot
    decreases f, 2
  {
    hide NormalValue, NormalItems, ProjectValue, ProjectItems, DefaultSlot;
    match slot
    case One(v) => NormalValueProjects(f, v);
    case Opt(has, v) => if has { NormalValueProjects(f, v); }
    case Many(items) => NormalItemsProject(f, items);
    case Chosen(v) => NormalValueProjects(f, v);
    case Unchosen =>
  }

  lemma {:induction false} NormalProjects(fields: seq<Field>, m: Message)
    requires NormalMessage(fields, m)
    ensures Project(fields, m) == m
    decreases fields, 3
  {
    hide NormalSlot, ProjectSlot, DefaultSlot;
    forall tag
      ensures tag in Project(fields, m) <==> tag in m
      ensures tag in m ==> Project(fields, m)[tag] == m[tag]
    {
      ProjectHas(fields, m, tag);
      if Find(fields, tag).Some? {
        var f := Find(fields, tag).value;
        var i :| 0 <= i < |fields| && fields[i] == f;
        NormalSlotProjects(f, m[tag]);
      }
    }
  }

  /** Such a message comes back exactly, if it can be read at all. */
  lemma RoundTripExactly(fields: seq<Field>, m: Message)
    requires WellFormed(fields) && NormalMessage(fields, m)
    requires EncodeMessage(fields, m).Some? && |EncodeMessage(fields, m).value| < U63
    ensures Decode(fields, EncodeMessage(fields, m).value) == Some((m, [])) <==> ReadableMessage(fields, fields, m)
  {
    hide WellFormed, NormalMessage, EncodeMessage, ReadableMessage, Project, Decode;
    RoundTrip(fields, m);
    NormalProjects(fields, m);
  }

  /** The condition on strings matters: text that fills its buffer is written,
      and refused when read. */
  lemma UnterminatedString()
    ensures var f := Field(1, Required, Text, 0, 1, 0, [], None);
            var m := map[1 := One(Blob([65]))];
            EncodeMessage([f], m) == Some([10, 1, 65]) && Decode([f], [10, 1, 65]).None?
  {
    var f := Field(1, Required, Text, 0, 1, 0, [], None);
    var m: Message := map[1 := One(Blob([65]))];
    var text: seq<byte> := [65];
    assert Prefixed(text) == [1] + text == [1, 65];
    assert EncodeBlob(f, text) == Some([1, 65]);
    assert EncodeTag(1, 2) == [10];
    assert EncodeTag(1, 2) + [1, 65] == [10, 1, 65];
    assert EncodeTagged(f, Blob([65])) == Some([10, 1, 65]);
    assert EncodeMessage([f][1..], m) == Some([]);
    assert [10, 1, 65] + [] == [10, 1, 65];
    assert WellFormed([f]);
    RoundTrip([f], m);
    assert !ReadableValue(f, Some(f), Blob([65]));
  }
}
