/** The encoder in memory: a stream that counts bytes, or writes them into a
    bounded buffer. */
module PbOutput {
  import opened Bytes
  import opened PbVarint
  import opened PbSchema
  import opened PbEncode

  // ----- What the C types guarantee of a message --------------------------

  /** A size that no `size_t` computation overflows. */
  predicate Small(s: Option<seq<byte>>) {
    s.Some? ==> |s.value| < U63
  }

  /** A value of the field's C type. */
  predicate TypedValue(f: Field, v: Value)
    decreases f, 0
  {
    match f.kind
    case Varint => v.Num? && (IntRange(f.dataSize).Some? ==> InSigned(v.n, IntRange(f.dataSize).value))
    case Uvarint => v.Num? && (IntRange(f.dataSize).Some? ==> 0 <= v.n < IntRange(f.dataSize).value)
    case Svarint => v.Num? && (IntRange(f.dataSize).Some? ==> InSigned(v.n, IntRange(f.dataSize).value))
    case Fixed32 => v.Num? && 0 <= v.n < U32
    case Fixed64 => v.Num? && 0 <= v.n < U64
    case BytesArray => v.Blob?
    case Text => v.Blob? && |v.b| <= f.dataSize && 0 !in v.b
    case FixedBytes => v.Blob? && |v.b| == f.dataSize
    case Submessage => v.Msg? && TypedMessage(f.sub, v.m) && Small(EncodeMessage(f.sub, v.m))
  }

  predicate TypedItems(f: Field, items: seq<Value>)
    decreases f, 1
  {
    forall i :: 0 <= i < |items| ==> TypedValue(f, items[i])
  }

  predicate TypedSlot(f: Field, slot: Slot)
    decreases f, 2
  {
    match f.rule
    case Required => slot.One? && TypedValue(f, slot.v)
    case Optional(hasField) => (if hasField then slot.Opt? else slot.One?) && TypedValue(f, slot.v)
    case Repeated(counted) =>
      slot.Many? && TypedItems(f, slot.items) && (!counted ==> |slot.items| == f.arraySize) &&
      Small(EncodePayload(f, slot.items))
    case OneOf(_) => slot.Unchosen? || (slot.Chosen? && TypedValue(f, slot.v))
  }

  predicate TypedMessage(fields: seq<Field>, m: Message)
    decreases fields
  {
    fields != [] ==>
      && fields[0].tag in m && TypedSlot(fields[0], m[fields[0].tag])
      && !(m[fields[0].tag].Chosen? && SiblingChosen(fields[1..], fields[0].rule, m))
      && TypedMessage(fields[1..], m)
  }

  /** For typed messages the encoder's errors are these alone: a bytes array or
      an array over its size, or an integer of an unknown size. */
  lemma TypedNumberEncodes(f: Field, v: Value)
    requires TypedValue(f, v) && Packable(f.kind)
    ensures EncodeValue(f, v).Some? <==> f.kind.Fixed32? || f.kind.Fixed64? || IntRange(f.dataSize).Some?
    ensures f.kind.Fixed32? ==> |EncodeValue(f, v).value| == 4
    ensures f.kind.Fixed64? ==> |EncodeValue(f, v).value| == 8
  {
  }

  lemma {:induction false} FixedPayload(f: Field, items: seq<Value>)
    requires TypedItems(f, items) && (f.kind.Fixed32? || f.kind.Fixed64?)
    ensures EncodePayload(f, items).Some?
    ensures |EncodePayload(f, items).value| == (if f.kind.Fixed32? then 4 else 8) * |items|
    decreases |items|
  {
    if items != [] {
      TypedNumberEncodes(f, items[0]);
      FixedPayload(f, items[1..]);
    }
  }

  lemma {:induction false} PayloadSnoc(f: Field, items: seq<Value>, v: Value)
    ensures EncodePayload(f, items + [v]) ==
            if EncodePayload(f, items).Some? && EncodeValue(f, v).Some?
            then Some(EncodePayload(f, items).value + EncodeValue(f, v).value) else None
    decreases |items|
  {
    hide EncodeValue;
    if items == [] {
      assert items + [v] == [v] && [v][1..] == [];
      if EncodeValue(f, v).Some? {
        assert EncodeValue(f, v).value + [] == [] + EncodeValue(f, v).value;
      }
    } else {
      assert (items + [v])[1..] == items[1..] + [v];
      PayloadSnoc(f, items[1..], v);
      if EncodeValue(f, items[0]).Some? && EncodePayload(f, items[1..]).Some? && EncodeValue(f, v).Some? {
        AppendAssoc(EncodeValue(f, items[0]).value, EncodePayload(f, items[1..]).value, EncodeValue(f, v).value);
      }
    }
  }

  lemma {:induction false} EntriesSnoc(f: Field, items: seq<Value>, v: Value)
    ensures EncodeEntries(f, items + [v]) ==
            if EncodeEntries(f, items).Some? && EncodeTagged(f, v).Some?
            then Some(EncodeEntries(f, items).value + EncodeTagged(f, v).value) else None
    decreases |items|
  {
    hide EncodeTagged;
    if items == [] {
      assert items + [v] == [v] && [v][1..] == [];
      if EncodeTagged(f, v).Some? {
        assert EncodeTagged(f, v).value + [] == [] + EncodeTagged(f, v).value;
      }
    } else {
      assert (items + [v])[1..] == items[1..] + [v];
      EntriesSnoc(f, items[1..], v);
      if EncodeTagged(f, items[0]).Some? && EncodeEntries(f, items[1..]).Some? && EncodeTagged(f, v).Some? {
        AppendAssoc(EncodeTagged(f, items[0]).value, EncodeEntries(f, items[1..]).value, EncodeTagged(f, v).value);
      }
    }
  }

  lemma {:induction false} PayloadPrefix(f: Field, items: seq<Value>, i: nat)
    requires i <= |items|
    ensures EncodePayload(f, items[..i]).None? ==> EncodePayload(f, items).None?
    ensures EncodePayload(f, items).Some? ==>
              EncodePayload(f, items[..i]).Some? && |EncodePayload(f, items[..i]).value| <= |EncodePayload(f, items).value|
    decreases |items| - i
  {
    hide EncodePayload;
    if i < |items| {
      PayloadPrefix(f, items, i + 1);
      assert items[..i + 1] == items[..i] + [items[i]];
      PayloadSnoc(f, items[..i], items[i]);
    } else {
      assert items[..i] == items;
    }
  }

  lemma {:induction false} EntriesPrefix(f: Field, items: seq<Value>, i: nat)
    requires i <= |items|
    ensures EncodeEntries(f, items[..i]).None? ==> EncodeEntries(f, items).None?
    ensures EncodeEntries(f, items).Some? ==>
              EncodeEntries(f, items[..i]).Some? && |EncodeEntries(f, items[..i]).value| <= |EncodeEntries(f, items).value|
    decreases |items| - i
  {
    hide EncodeEntries;
    if i < |items| {
      EntriesPrefix(f, items, i + 1);
      assert items[..i + 1] == items[..i] + [items[i]];
      EntriesSnoc(f, items[..i], items[i]);
    } else {
      assert items[..i] == items;
    }
  }


  lemma BlobIsSmall(f: Field, b: seq<byte>)
    requires WellFormedField(f) && TypedValue(f, Blob(b))
    ensures EncodeBlob(f, b).Some? ==> |b| < U63
  {
  }

  class OutputStream {
    const sizing: bool
    const buffer: array<byte>
    const maxSize: nat
    var offset: nat
    var bytesWritten: nat

    ghost predicate Valid()
      reads this
    {
      !sizing ==> bytesWritten <= maxSize && offset + (maxSize - bytesWritten) <= buffer.Length
    }

    /** The buffer up to where the next byte goes. */
    ghost function Out(): seq<byte>
      requires Valid()
      reads this, buffer
    {
      if sizing then [] else buffer[..offset]
    }

    /** From a state with `written` bytes and buffer contents `out`, the bytes of
        `s` were added; it fails if there are none, or no room for them. */
    ghost predicate Added(ok: bool, written: nat, out: seq<byte>, s: Option<seq<byte>>)
      requires Valid()
      reads this, buffer
    {
      && (ok <==> s.Some? && (sizing || written + |s.value| <= maxSize))
      && (ok ==> bytesWritten == written + |s.value| && Out() == if sizing then [] else out + s.value)
    }

    constructor Sizing()
      ensures Valid() && sizing && bytesWritten == 0 && fresh(buffer)
    {
      sizing, maxSize, offset, bytesWritten := true, 0, 0, 0;
      buffer := new byte[0];
    }

    constructor Over(buffer: array<byte>, offset: nat, maxSize: nat)
      requires offset + maxSize <= buffer.Length
      ensures Valid() && !sizing && bytesWritten == 0
      ensures this.buffer == buffer && this.offset == offset && this.maxSize == maxSize
    {
      sizing, this.maxSize, this.offset, bytesWritten := false, maxSize, offset, 0;
      this.buffer := buffer;
    }

    method Write(s: seq<byte>) returns (ok: bool)
      requires Valid()
      modifies this, buffer
      ensures Valid() && Added(ok, old(bytesWritten), old(Out()), Some(s))
    {
      if !sizing {
        if bytesWritten + |s| > maxSize {
          return false;
        }
        ghost var out := Out();
        CopyInto(buffer, offset, s);
        offset := offset + |s|;
        assert buffer[..offset] == out + s;
      }
      bytesWritten := bytesWritten + |s|;
      ok := true;
    }

    /** In sizing, bytes that were counted already. */
    method Count(n: nat)
      requires Valid() && sizing
      modifies this`bytesWritten
      ensures Valid() && bytesWritten == old(bytesWritten) + n
    {
      bytesWritten := bytesWritten + n;
    }

    method WriteVarint(v: nat) returns (ok: bool)
      requires Valid() && v < U64
      modifies this, buffer
      ensures Valid() && Added(ok, old(bytesWritten), old(Out()), Some(EncodeVarint(v)))
    {
      var bytes, n := EncodeToBuffer(v);
      ok := Write(bytes[..n]);
    }

    method WritePrefixed(b: seq<byte>) returns (ok: bool)
      requires Valid() && |b| < U64
      modifies this, buffer
      ensures Valid() && Added(ok, old(bytesWritten), old(Out()), Some(Prefixed(b)))
    {
      hide EncodeVarint;
      ghost var out := Out();
      ok := WriteVarint(|b|);
      if ok {
        ok := Write(b);
        assert (out + EncodeVarint(|b|)) + b == out + Prefixed(b);
      }
    }

    method WriteTag(f: Field, wireType: nat) returns (ok: bool)
      requires Valid() && f.tag <= MAX_TAG && wireType < 8
      modifies this, buffer
      ensures Valid() && Added(ok, old(bytesWritten), old(Out()), Some(EncodeTag(f.tag, wireType)))
    {
      ok := WriteVarint(f.tag * 8 + wireType);
    }

    method WriteNumber(f: Field, n: int) returns (ok: bool)
      requires Valid() && Packable(f.kind) && TypedValue(f, Num(n))
      modifies this, buffer
      ensures Valid() && Added(ok, old(bytesWritten), old(Out()), EncodeNumber(f, n))
    {
      hide EncodeVarint, Zigzag, ToLE;
      match f.kind
      case Fixed32 => ok := Write(ToLE(n, 4));
      case Fixed64 => ok := Write(ToLE(n, 8));
      case Varint =>
        if IntRange(f.dataSize).None? {
          return false;
        }
        ok := WriteVarint(ToUnsigned(n, U64));
      case Uvarint =>
        if IntRange(f.dataSize).None? {
          return false;
        }
        ok := WriteVarint(n);
      case Svarint =>
        if IntRange(f.dataSize).None? {
          return false;
        }
        ZigzagBijection(n, 0);
        ok := WriteVarint(Zigzag(n));
    }

    method WriteBlob(f: Field, b: seq<byte>) returns (ok: bool)
      requires Valid() && TypedValue(f, Blob(b)) && (EncodeBlob(f, b).Some? ==> |b| < U63)
      modifies this, buffer
      ensures Valid() && Added(ok, old(bytesWritten), old(Out()), EncodeBlob(f, b))
    {
      hide Prefixed;
      if f.kind.BytesArray? && |b| + BYTES_OFFSET > f.dataSize {
        return false;
      }
      ok := WritePrefixed(b);
    }

    method WriteValue(f: Field, v: Value) returns (ok: bool)
      requires Valid() && WellFormedField(f) && TypedValue(f, v)
      modifies this, buffer
      ensures Valid() && Added(ok, old(bytesWritten), old(Out()), EncodeValue(f, v))
      decreases f, 0
    {
      hide EncodeNumber, EncodeBlob, EncodeMessage, Prefixed, TypedMessage;
      match v
      case Num(n) => ok := WriteNumber(f, n);
      case Blob(b) =>
        BlobIsSmall(f, b);
        ok := WriteBlob(f, b);
      case Msg(m) =>
        ok := WriteSubmessage(f.sub, m);
    }

    /** First counted with a stream of its own, then written into a part of the
        buffer of just that size. */
    method WriteSubmessage(fields: seq<Field>, m: Message) returns (ok: bool)
      requires Valid() && WellFormed(fields) && TypedMessage(fields, m)
      requires Small(EncodeMessage(fields, m))
      modifies this, buffer
      ensures Valid()
      ensures Added(ok, old(bytesWritten), old(Out()),
                    if EncodeMessage(fields, m).Some? then Some(Prefixed(EncodeMessage(fields, m).value)) else None)
      decreases fields, 2
    {
      hide EncodeMessage, TypedMessage, WellFormed, EncodeVarint;
      var counting := new OutputStream.Sizing();
      ok := counting.WriteMessage(fields, m);
      if !ok {
        return false;
      }
      var size := counting.bytesWritten;
      ghost var out := Out();
      ok := WriteVarint(size);
      if !ok {
        return false;
      }
      if sizing {
        Count(size);
        return true;
      }
      if bytesWritten + size > maxSize {
        return false;
      }
      ok := WritePart(fields, m, size);
      AppendAssoc(out, EncodeVarint(size), EncodeMessage(fields, m).value);
    }

    /** The size never changes between the two passes. */
    method WritePart(fields: seq<Field>, m: Message, size: nat) returns (ok: bool)
      requires Valid() && !sizing && WellFormed(fields) && TypedMessage(fields, m)
      requires EncodeMessage(fields, m).Some? && size == |EncodeMessage(fields, m).value|
      requires bytesWritten + size <= maxSize
      modifies this, buffer
      ensures Valid() && ok
      ensures bytesWritten == old(bytesWritten) + size && Out() == old(Out()) + EncodeMessage(fields, m).value
      decreases fields, 1
    {
      hide EncodeMessage, TypedMessage, WellFormed;
      var part := new OutputStream.Over(buffer, offset, size);
      ok := part.WriteMessage(fields, m);
      bytesWritten := bytesWritten + part.bytesWritten;
      offset := part.offset;
      if part.bytesWritten != size {
        assert false;
        return false;
      }
    }

    method WriteTagged(f: Field, v: Value) returns (ok: bool)
      requires Valid() && WellFormedField(f) && TypedValue(f, v)
      modifies this, buffer
      ensures Valid() && Added(ok, old(bytesWritten), old(Out()), EncodeTagged(f, v))
      decreases f, 1
    {
      hide EncodeValue, EncodeTag, TypedValue;
      ghost var out, tag := Out(), EncodeTag(f.tag, WireType(f.kind));
      ok := WriteTag(f, WireType(f.kind));
      if ok {
        ok := WriteValue(f, v);
        if EncodeValue(f, v).Some? {
          assert (out + tag) + EncodeValue(f, v).value == out + (tag + EncodeValue(f, v).value);
        }
      }
    }

    /** The size of a packed array before it is written. */
    method PackedSize(f: Field, items: seq<Value>) returns (ok: bool, size: nat)
      requires WellFormedField(f) && Packable(f.kind) && TypedItems(f, items)
      ensures ok <==> EncodePayload(f, items).Some?
      ensures ok ==> size == |EncodePayload(f, items).value|
      decreases f, 2
    {
      hide EncodePayload, EncodeValue, TypedValue, WellFormedField;
      size := 0;
      if f.kind.Fixed32? {
        FixedPayload(f, items);
        return true, 4 * |items|;
      }
      if f.kind.Fixed64? {
        FixedPayload(f, items);
        return true, 8 * |items|;
      }
      var counting := new OutputStream.Sizing();
      ok := counting.WriteItems(f, items);
      size := counting.bytesWritten;
    }

    method WriteItems(f: Field, items: seq<Value>) returns (ok: bool)
      requires Valid() && WellFormedField(f) && TypedItems(f, items)
      modifies this, buffer
      ensures Valid() && Added(ok, old(bytesWritten), old(Out()), EncodePayload(f, items))
      decreases f, 1
    {
      hide EncodePayload, EncodeValue, TypedValue, WellFormedField;
      ghost var out := Out();
      assert EncodePayload(f, items[..0]) == Some([]) by { NoItems(f); }
      var i := 0;
      while i < |items|
        invariant i <= |items| && Valid()
        invariant EncodePayload(f, items[..i]).Some?
        invariant Added(true, old(bytesWritten), out, EncodePayload(f, items[..i]))
      {
        assert items[..i + 1] == items[..i] + [items[i]];
        PayloadSnoc(f, items[..i], items[i]);
        PayloadPrefix(f, items, i + 1);
        ok := WriteValue(f, items[i]);
        if !ok {
          return false;
        }
        AppendAssoc(out, EncodePayload(f, items[..i]).value, EncodeValue(f, items[i]).value);
        i := i + 1;
      }
      assert items[..i] == items;
      ok := true;
    }

    method WriteEntries(f: Field, items: seq<Value>) returns (ok: bool)
      requires Valid() && WellFormedField(f) && TypedItems(f, items)
      modifies this, buffer
      ensures Valid() && Added(ok, old(bytesWritten), old(Out()), EncodeEntries(f, items))
      decreases f, 2
    {
      hide EncodeEntries, EncodeTagged, TypedValue, WellFormedField;
      ghost var out := Out();
      assert EncodeEntries(f, items[..0]) == Some([]) by { NoItems(f); }
      var i := 0;
      while i < |items|
        invariant i <= |items| && Valid()
        invariant EncodeEntries(f, items[..i]).Some?
        invariant Added(true, old(bytesWritten), out, EncodeEntries(f, items[..i]))
      {
        assert items[..i + 1] == items[..i] + [items[i]];
        EntriesSnoc(f, items[..i], items[i]);
        EntriesPrefix(f, items, i + 1);
        ok := WriteTagged(f, items[i]);
        if !ok {
          return false;
        }
        AppendAssoc(out, EncodeEntries(f, items[..i]).value, EncodeTagged(f, items[i]).value);
        i := i + 1;
      }
      assert items[..i] == items;
      ok := true;
    }

    method WriteArray(f: Field, items: seq<Value>) returns (ok: bool)
      requires Valid() && WellFormedField(f) && TypedItems(f, items) && Small(EncodePayload(f, items))
      modifies this, buffer
      ensures Valid() && Added(ok, old(bytesWritten), old(Out()), EncodeArray(f, items))
      decreases f, 3
    {
      hide EncodePayload, EncodeEntries, TypedItems, EncodeVarint;
      ghost var out := Out();
      if |items| == 0 {
        assert out + [] == out;
        return true;
      }
      if |items| > f.arraySize {
        return false;
      }
      if !Packable(f.kind) {
        ok := WriteEntries(f, items);
        return;
      }
      ghost var payload := EncodePayload(f, items);
      ok := WriteTag(f, 2);
      if !ok {
        return false;
      }
      var size;
      ok, size := PackedSize(f, items);
      if !ok {
        return false;
      }
      ok := WriteVarint(size);
      if !ok {
        return false;
      }
      if sizing {
        Count(size);
        return true;
      }
      ghost var before := Out();
      ok := WriteItems(f, items);
      Joined(out, EncodeTag(f.tag, 2), EncodeVarint(size), payload.value);
    }

    method WriteSlot(f: Field, slot: Slot) returns (ok: bool)
      requires Valid() && WellFormedField(f) && TypedSlot(f, slot)
      modifies this, buffer
      ensures Valid() && Added(ok, old(bytesWritten), old(Out()), EncodeSlot(f, slot))
      decreases f, 4
    {
      hide EncodeTagged, EncodeArray, TypedValue, TypedItems, WellFormedField, IsZeroValue;
      assert Out() + [] == Out();
      match f.rule
      case Required => ok := WriteTagged(f, slot.v);
      case Optional(hasField) =>
        var present := if hasField then slot.has else !IsZeroValue(f, slot.v);
        ok := true;
        if present {
          ok := WriteTagged(f, slot.v);
        }
      case Repeated(_) => ok := WriteArray(f, slot.items);
      case OneOf(_) =>
        ok := true;
        if slot.Chosen? {
          ok := WriteTagged(f, slot.v);
        }
    }

    /** Sizing counts exactly the bytes that writing emits, and writing into a
        bounded buffer succeeds exactly if sizing does and the size fits. */
    method WriteMessage(fields: seq<Field>, m: Message) returns (ok: bool)
      requires Valid() && WellFormed(fields) && TypedMessage(fields, m)
      modifies this, buffer
      ensures Valid() && Added(ok, old(bytesWritten), old(Out()), EncodeMessage(fields, m))
      decreases fields, 0
    {
      hide EncodeSlot, TypedSlot, WellFormedField, EncodeMessage, TypedMessage;
      ghost var out, written, done := Out(), bytesWritten, [];
      assert out + [] == out;
      WholeIsRest(fields, m);
      var i := 0;
      while i < |fields|
        invariant i <= |fields| && Valid() && TypedMessage(fields[i..], m)
        invariant Added(true, written, out, Some(done))
        invariant EncodeMessage(fields, m) == Appended(done, EncodeMessage(fields[i..], m))
      {
        NextField(fields, m, i, done);
        ok := WriteSlot(fields[i], m[fields[i].tag]);
        if !ok {
          return false;
        }
        ghost var s := EncodeSlot(fields[i], m[fields[i].tag]).value;
        AppendAssoc(out, done, s);
        done := done + s;
        i := i + 1;
      }
      NoFields(fields[i..], m);
      assert done + [] == done;
      ok := true;
    }
  }

  /** The size of a message without writing it. */
  method EncodedSize(fields: seq<Field>, m: Message) returns (ok: bool, size: nat)
    requires WellFormed(fields) && TypedMessage(fields, m)
    ensures ok <==> EncodeMessage(fields, m).Some?
    ensures ok ==> size == |EncodeMessage(fields, m).value|
  {
    var counting := new OutputStream.Sizing();
    ok := counting.WriteMessage(fields, m);
    size := counting.bytesWritten;
  }

  function Appended(done: seq<byte>, rest: Option<seq<byte>>): Option<seq<byte>> {
    match rest case None => None case Some(r) => Some(done + r)
  }

  lemma WholeIsRest(fields: seq<Field>, m: Message)
    ensures fields[0..] == fields
    ensures EncodeMessage(fields, m) == Appended([], EncodeMessage(fields, m))
  {
    hide EncodeMessage;
    if EncodeMessage(fields, m).Some? {
      assert [] + EncodeMessage(fields, m).value == EncodeMessage(fields, m).value;
    }
  }

  lemma NoFields(fields: seq<Field>, m: Message)
    requires fields == []
    ensures EncodeMessage(fields, m) == Some([])
  {
  }

  lemma NextField(fields: seq<Field>, m: Message, i: nat, done: seq<byte>)
    requires i < |fields| && TypedMessage(fields[i..], m)
    requires EncodeMessage(fields, m) == Appended(done, EncodeMessage(fields[i..], m))
    ensures var f := fields[i];
            && f.tag in m && TypedSlot(f, m[f.tag]) && TypedMessage(fields[i + 1..], m)
            && var s := EncodeSlot(f, m[f.tag]);
            && EncodeMessage(fields, m) ==
               (if s.None? then None else Appended(done + s.value, EncodeMessage(fields[i + 1..], m)))
  {
    hide EncodeSlot, TypedSlot;
    assert fields[i..][0] == fields[i] && fields[i..][1..] == fields[i + 1..];
    var s, rest := EncodeSlot(fields[i], m[fields[i].tag]), EncodeMessage(fields[i + 1..], m);
    if s.Some? && rest.Some? {
      AppendAssoc(done, s.value, rest.value);
    }
  }

  lemma NoItems(f: Field)
    ensures EncodePayload(f, []) == Some([]) && EncodeEntries(f, []) == Some([])
  {
  }

  lemma Joined(out: seq<byte>, tag: seq<byte>, size: seq<byte>, payload: seq<byte>)
    ensures ((out + tag) + size) + payload == out + (tag + (size + payload))
  {
  }
}
