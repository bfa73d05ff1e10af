/** The decoder in memory: a stream over part of a buffer, and the loop that
    fills in a message. */
module PbInput {
  import opened Bits
  import opened Bytes
  import opened PbVarint
  import opened PbSchema
  import opened PbEncode
  import opened PbDecode
  import opened PbIter

  class InputStream {
    const source: seq<byte>
    var state: nat
    var bytesLeft: nat

    ghost predicate Valid()
      reads this
    {
      state + bytesLeft <= |source|
    }

    /** Where the stream ends, which reading does not change. */
    ghost function End(): nat
      reads this
    {
      state + bytesLeft
    }

    /** The bytes still to be read. */
    ghost function Rest(): seq<byte>
      requires Valid()
      reads this
    {
      source[state..state + bytesLeft]
    }

    constructor (source: seq<byte>, state: nat, bytesLeft: nat)
      requires state + bytesLeft <= |source|
      ensures Valid() && this.source == source && this.state == state && this.bytesLeft == bytesLeft
    {
      this.source, this.state, this.bytesLeft := source, state, bytesLeft;
    }

    method Read(count: nat) returns (ok: bool, data: seq<byte>)
      requires Valid()
      modifies this
      ensures Valid() && End() == old(End())
      ensures (if ok then Some((data, Rest())) else None) == Take(old(Rest()), count)
      ensures ok ==> state == old(state) + count && bytesLeft == old(bytesLeft) - count
    {
      if bytesLeft < count {
        return false, [];
      }
      ghost var rest := Rest();
      data := source[state..state + count];
      state, bytesLeft := state + count, bytesLeft - count;
      assert rest[..count] == data && rest[count..] == Rest();
      ok := true;
    }

    method ReadByte() returns (ok: bool, b: byte)
      requires Valid()
      modifies this
      ensures Valid() && End() == old(End())
      ensures (ok <==> old(Rest()) != []) && (!ok ==> Rest() == [])
      ensures ok ==> b == old(Rest())[0] && Rest() == old(Rest())[1..] && bytesLeft == old(bytesLeft) - 1
    {
      if bytesLeft == 0 {
        return false, 0;
      }
      ok, b := true, source[state];
      state, bytesLeft := state + 1, bytesLeft - 1;
    }

    method ReadVarint64() returns (ok: bool, v: nat)
      requires Valid()
      modifies this
      ensures Valid() && End() == old(End())
      ensures (if ok then Some((v, Rest())) else None) == Varint64(old(Rest()))
    {
      Pow2Words();
      hide Insert, Base128, VarintLength, Pow2;
      ghost var s, i := Rest(), 0;
      assert Base128(s[..0]) % U64 == 0 by { EmptyBase128(s[..0]); }
      var bitpos := 0;
      v := 0;
      while true
        invariant Valid() && End() == old(End()) && i <= |s| && i <= 10 && bitpos == 7 * i
        invariant Rest() == s[i..]
        invariant forall k :: 0 <= k < i ==> Continues(s[k])
        invariant v == Base128(s[..i]) % U64
        decreases 10 - i
      {
        if bitpos >= 64 {
          return false, 0;
        }
        var b;
        ok, b := ReadByte();
        if !ok {
          return false, 0;
        }
        InsertNext(s[..i], b, 64);
        assert s[..i] + [b] == s[..i + 1];
        v := Insert(v, b, bitpos, 64);
        bitpos := (bitpos + 7) % 256;
        i := i + 1;
        if !Continues(b) {
          VarintLengthIs(s, i);
          return true, v;
        }
      }
    }

    method ReadVarint32() returns (ok: bool, v: nat)
      requires Valid()
      modifies this
      ensures Valid() && End() == old(End())
      ensures (if ok then Some((v, Rest())) else None) == Varint32(old(Rest()))
      ensures old(Rest()) == [] ==> Rest() == []
    {
      hide Insert, Overflows;
      ghost var s := Rest();
      var b;
      ok, b := ReadByte();
      if !ok {
        return false, 0;
      }
      v := b;
      if !Continues(b) {
        return;
      }
      var bitpos: nat := 7;
      v := b % 0x80;
      while Continues(b)
        invariant Valid() && End() == old(End()) && ok
        invariant Continues(b) ==> Varint32(s) == Varint32From(Rest(), bitpos, v)
        invariant !Continues(b) ==>
                    Varint32(s) == if bitpos == 35 && b % 0x80 >= 0x10 then None else Some((v, Rest()))
        decreases bytesLeft, Continues(b)
      {
        ok, b := ReadByte();
        if !ok {
          return false, 0;
        }
        if bitpos >= 32 {
          if Overflows(v, b, bitpos) {
            return false, 0;
          }
        } else {
          v := Insert(v, b, bitpos, 32);
        }
        bitpos := (bitpos + 7) % 256;
      }
      if bitpos == 35 && b % 0x80 >= 0x10 {
        return false, 0;
      }
    }

    method ReadTag() returns (ok: bool, eof: bool, tag: nat, wireType: nat)
      requires Valid()
      modifies this
      ensures Valid() && End() == old(End())
      ensures match DecodeTag(old(Rest()))
              case BadTag => !ok && !eof
              case Stop(rest) => !ok && eof && Rest() == rest
              case Tag(t, w, rest) => ok && tag == t && wireType == w && Rest() == rest && bytesLeft < old(bytesLeft)
    {
      hide Varint32;
      eof, tag, wireType := bytesLeft == 0, 0, 0;
      var v;
      ok, v := ReadVarint32();
      if !ok {
        return;
      }
      if v == 0 {
        return false, true, 0, 0;
      }
      tag, wireType := v / 8, v % 8;
    }

    /** A substream over a length and that many bytes, which this stream then
        lacks until it is closed. */
    method OpenPrefixed() returns (ok: bool, sub: InputStream)
      requires Valid()
      modifies this
      ensures Valid() && fresh(sub) && sub.Valid()
      ensures ok <==> TakePrefixed(old(Rest())).Some?
      ensures !ok ==> End() == old(End())
      ensures ok ==> sub.End() + bytesLeft == old(End())
      ensures ok ==> var (b, rest) := TakePrefixed(old(Rest())).value;
                sub.source == source && sub.Rest() == b && sub.bytesLeft == |b| &&
                sub.state == state && bytesLeft == |rest| && state + |b| + |rest| <= |source| &&
                source[state + |b|..state + |b| + |rest|] == rest
    {
      hide Varint32;
      var size;
      ok, size := ReadVarint32();
      sub := new InputStream(source, 0, 0);
      if !ok || bytesLeft < size {
        return false, sub;
      }
      ghost var rest := Rest();
      sub := new InputStream(source, state, size);
      bytesLeft := bytesLeft - size;
      assert sub.Rest() == rest[..size];
      assert source[state + size..state + size + bytesLeft] == rest[size..];
    }

    /** Skips what the substream has not read, and goes on after it. */
    method Close(sub: InputStream)
      requires Valid() && sub.Valid() && sub != this && sub.source == source
      requires sub.state + sub.bytesLeft + bytesLeft <= |source|
      modifies this, sub
      ensures Valid() && bytesLeft == old(bytesLeft)
      ensures state == old(sub.state) + old(sub.bytesLeft)
    {
      if sub.bytesLeft != 0 {
        var ok, data := sub.Read(sub.bytesLeft);
      }
      state := sub.state;
    }

    method Skip(wireType: nat) returns (ok: bool)
      requires Valid()
      modifies this
      ensures Valid() && End() == old(End())
      ensures (if ok then Some(Rest()) else None) == SkipField(wireType, old(Rest()))
    {
      hide VarintLength, TakePrefixed;
      var data;
      if wireType == 0 {
        ok := SkipVarint();
      } else if wireType == 1 {
        ok, data := Read(8);
      } else if wireType == 2 {
        ok := SkipString();
      } else if wireType == 5 {
        ok, data := Read(4);
      } else {
        ok := false;
      }
    }

    method SkipVarint() returns (ok: bool)
      requires Valid()
      modifies this
      ensures Valid() && End() == old(End())
      ensures ok <==> VarintLength(old(Rest())).Some?
      ensures ok ==> Rest() == old(Rest())[VarintLength(old(Rest())).value..]
    {
      ghost var s, i := Rest(), 0;
      while true
        invariant Valid() && End() == old(End()) && i <= |s| && Rest() == s[i..]
        invariant forall k :: 0 <= k < i ==> Continues(s[k])
        decreases bytesLeft
      {
        var b;
        ok, b := ReadByte();
        if !ok {
          return false;
        }
        i := i + 1;
        if !Continues(b) {
          VarintLengthIs(s, i);
          return true;
        }
      }
    }

    method SkipString() returns (ok: bool)
      requires Valid()
      modifies this
      ensures Valid() && End() == old(End())
      ensures ok <==> TakePrefixed(old(Rest())).Some?
      ensures ok ==> Rest() == TakePrefixed(old(Rest())).value.1
    {
      hide Varint32;
      var size, data;
      ok, size := ReadVarint32();
      if ok {
        ok, data := Read(size);
      }
    }

    method ReadNumber(f: Field) returns (ok: bool, n: int)
      requires Valid()
      modifies this
      ensures Valid() && End() == old(End())
      ensures (if ok then Some((n, Rest())) else None) == DecodeNumber(f, old(Rest()))
    {
      hide Varint64, FromLE, DecodeInteger;
      n := 0;
      if f.kind.Fixed32? || f.kind.Fixed64? {
        var data;
        ok, data := Read(if f.kind.Fixed32? then 4 else 8);
        if ok {
          n := FromLE(data);
        }
        return;
      }
      var v;
      ok, v := ReadVarint64();
      if ok {
        var decoded := DecodeInteger(f, v);
        ok := decoded.Some?;
        if ok {
          n := decoded.value;
        }
      }
    }

    method ReadBlob(f: Field) returns (ok: bool, b: seq<byte>)
      requires Valid() && !Packable(f.kind) && !f.kind.Submessage?
      modifies this
      ensures Valid() && End() == old(End())
      ensures (if ok then Some((Blob(b), Rest())) else None) == DecodeValue(f, DefaultValue(f), old(Rest()))
    {
      hide Varint32, DefaultValue;
      var size;
      ok, size := ReadVarint32();
      b := [];
      if !ok {
        return;
      }
      match f.kind
      case BytesArray =>
        if size + BYTES_OFFSET > f.dataSize {
          return false, [];
        }
        ok, b := Read(size);
      case Text =>
        if size + 1 > f.dataSize {
          return false, [];
        }
        ok, b := Read(size);
        b := UpToZero(b);
      case FixedBytes =>
        if size == 0 {
          return true, Zeros(f.dataSize);
        }
        if size != f.dataSize {
          return false, [];
        }
        ok, b := Read(size);
    }

    method ReadValue(f: Field, start: Value) returns (ok: bool, v: Value)
      requires Valid() && WellFormedField(f)
      modifies this
      ensures Valid() && End() <= old(End()) && (ok ==> End() == old(End()))
      ensures (if ok then Some((v, Rest())) else None) == DecodeValue(f, start, old(Rest()))
      decreases bytesLeft, 0
    {
      hide DecodeNumber, DecodeBlob, TakePrefixed, DefaultValue, DecodeMessage;
      v := start;
      if Packable(f.kind) {
        var n;
        ok, n := ReadNumber(f);
        v := Num(n);
        return;
      }
      if !f.kind.Submessage? {
        var b;
        ok, b := ReadBlob(f);
        v := Blob(b);
        return;
      }
      var sub;
      ok, sub := OpenPrefixed();
      if !ok {
        return;
      }
      var m := if start.Msg? then start.m else map[];
      ok, m := sub.ReadMessage(f.sub, m);
      Close(sub);
      v := Msg(m);
    }

    /** An entry, or all entries of a packed array; `size` is the count so far. */
    method ReadArray(f: Field, wireType: nat, items: seq<Value>) returns (ok: bool, all: seq<Value>)
      requires Valid() && WellFormedField(f)
      modifies this
      ensures Valid() && End() <= old(End()) && (ok ==> End() == old(End()))
      ensures forall st: State :: ItemsOf(st.m, f.tag) == items ==>
                (if ok then Some((st.(m := st.m[f.tag := Many(all)]), Rest())) else None) ==
                DecodeArray(f, wireType, st, old(Rest()))
      decreases bytesLeft, 2
    {
      hide DecodeValue, TakePrefixed, DefaultValue;
      all := items;
      if wireType == 2 && Packable(f.kind) {
        var sub;
        ok, sub := OpenPrefixed();
        if !ok {
          return;
        }
        ghost var packed := sub.Rest();
        while sub.bytesLeft > 0 && |all| < f.arraySize
          modifies sub
          invariant sub.Valid() && sub.bytesLeft <= |packed| && sub.End() == state + |packed|
          invariant ok && End() + |packed| == old(End())
          invariant DecodePacked(f, items, packed) == DecodePacked(f, all, sub.Rest())
          decreases sub.bytesLeft
        {
          var v;
          ok, v := sub.ReadValue(f, DefaultValue(f));
          if !ok {
            break;
          }
          all := all + [v];
        }
        if sub.bytesLeft != 0 {
          return false, all;
        }
        Close(sub);
        return;
      }
      if |items| >= f.arraySize {
        return false, items;
      }
      var v;
      ok, v := ReadValue(f, DefaultValue(f));
      all := items + [v];
    }

    /** One field, once an array of fixed count has been entered. */
    method ReadSlot(fields: seq<Field>, f: Field, wireType: nat, m: Message, ghost st: State)
      returns (ok: bool, next: Message)
      requires Valid() && WellFormedField(f) && st.m == m && EnterFixed(st, f) == Some(st)
      modifies this
      ensures Valid() && End() <= old(End()) && (ok ==> End() == old(End()))
      ensures match DecodeSlot(fields, f, wireType, st, old(Rest()))
              case None => !ok
              case Some((st', rest)) =>
                ok && next == st'.m && Rest() == rest && st'.fixed == st.fixed &&
                st'.seen == (if f.rule.Required? then st.seen + {f.tag} else st.seen)
      decreases bytesLeft, 3
    {
      hide DecodeValue, DecodeArray, DefaultValue, EnterFixed, Choose;
      next := m;
      match f.rule
      case Required =>
        var v;
        ok, v := ReadValue(f, ValueOf(m, f));
        next := m[f.tag := One(v)];
      case Optional(hasField) =>
        var v;
        ok, v := ReadValue(f, ValueOf(m, f));
        next := m[f.tag := if hasField then Opt(true, v) else One(v)];
      case OneOf(_) =>
        var v;
        ok, v := ReadValue(f, DefaultValue(f));
        next := Choose(fields, m, f, v);
      case Repeated(_) =>
        var all;
        ok, all := ReadArray(f, wireType, ItemsOf(m, f.tag));
        next := m[f.tag := Many(all)];
    }

    /** The field the iterator found: marked if it is required, entered if its
        count is fixed, and read. */
    method ReadFound(fields: seq<Field>, iter: FieldIter, words: array<nat>, wireType: nat, start: Message,
                     from: Option<Field>, ghost st: State, ghost marked: set<nat>)
      returns (ok: bool, m: Message, fixed: Option<Field>, ghost st': State, ghost marked': set<nat>)
      requires Valid() && WellFormed(fields)
      requires iter.Valid() && iter.fields == fields && fields != []
      requires st.m == start && st.fixed == from
      requires words.Length == 2 && Marks(words[..], marked) && Agree(fields, marked, st.seen)
      modifies this, words
      ensures Valid() && End() <= old(End()) && (ok ==> End() == old(End()))
      ensures ok ==> st'.m == m && st'.fixed == fixed && Marks(words[..], marked') && Agree(fields, marked', st'.seen)
      ensures (if ok then Some((st', Rest())) else None) ==
              DecodeSlot(fields, fields[iter.pos], wireType, st, old(Rest()))
      decreases bytesLeft, 4
    {
      hide DecodeSlot, WellFormedField, RequiredTags, Marks, EnterFixed, DataOffset, RequiredBefore;
      var f := fields[iter.pos];
      m, fixed, st', marked' := start, from, st, marked;
      ghost var entered := EnterFixed(st, f);
      EnteredSlot(fields, f, wireType, st, Rest());
      EntersWhen(st, f);
      if f.rule == Repeated(false) && fixed != Some(f) {
        if fixed.Some? && |ItemsOf(m, fixed.value.tag)| != fixed.value.arraySize {
          return false, m, fixed, st, marked;
        }
        fixed, m := Some(f), m[f.tag := Many([])];
      }
      if f.rule.Required? {
        RequiredIndex(fields, iter.pos);
        AgreeNext(fields, marked, st.seen, iter.requiredFieldIndex);
        if iter.requiredFieldIndex < MAX_REQUIRED {
          MarkSeen(words, iter.requiredFieldIndex, marked);
          marked' := marked + {iter.requiredFieldIndex};
        }
      }
      ghost var before := Rest();
      ok, m := ReadSlot(fields, f, wireType, m, entered.value);
      if ok {
        st' := DecodeSlot(fields, f, wireType, entered.value, before).value.0;
      }
    }

    /** Field by field over what the message holds, finding each field from
        where the last one was, and marking required ones in two words. */
    method ReadMessage(fields: seq<Field>, start: Message) returns (ok: bool, m: Message)
      requires Valid() && WellFormed(fields)
      modifies this
      ensures Valid() && End() <= old(End()) && (ok ==> End() == old(End()))
      ensures (if ok then Some((m, Rest())) else None) == DecodeMessage(fields, start, old(Rest()))
      decreases bytesLeft, 5
    {
      hide DecodeSlot, DecodeTag, SkipField, WellFormedField, RequiredTags, Marks, Agree, DataOffset, RequiredBefore;
      ghost var st, marked: set<nat> := State(start, {}, None), {};
      ghost var result := DecodeLoop(fields, st, Rest());
      var words := new nat[2](i => 0);
      NothingMarked(words[..]);
      NothingSeen(fields);
      var iter := new FieldIter(fields);
      var fixed: Option<Field>, stopped := None, false;
      m := start;
      while bytesLeft > 0 && !stopped
        invariant Valid() && End() == old(End()) && bytesLeft <= old(bytesLeft)
        invariant iter.Valid() && iter.fields == fields
        invariant st.m == m && st.fixed == fixed
        invariant result == if stopped then Some((st, Rest())) else DecodeLoop(fields, st, Rest())
        invariant Marks(words[..], marked) && Agree(fields, marked, st.seen)
        decreases bytesLeft, !stopped
      {
        var eof, tag, wireType;
        ok, eof, tag, wireType := ReadTag();
        if !ok {
          if !eof {
            return false, m;
          }
          stopped := true;
          continue;
        }
        var found := iter.FindTag(tag);
        if !found {
          ok := Skip(wireType);
          if !ok {
            return false, m;
          }
          continue;
        }
        if fields == [] {
          return false, m;
        }
        FindDistinct(fields, fields[iter.pos]);
        ok, m, fixed, st, marked := ReadFound(fields, iter, words, wireType, m, fixed, st, marked);
        if !ok {
          return false, m;
        }
      }
      if fixed.Some? && |ItemsOf(m, fixed.value.tag)| != fixed.value.arraySize {
        return false, m;
      }
      var count := iter.CountRequired();
      AgreeEnds(fields, marked, st.seen);
      ok := AllSeen(words, count, marked);
    }
  }

  lemma NothingSeen(fields: seq<Field>)
    ensures Agree(fields, {}, {})
  {
  }

  lemma AgreeEnds(fields: seq<Field>, marked: set<nat>, seen: set<nat>)
    requires Agree(fields, marked, seen)
    ensures forall i :: i in marked ==> i < |RequiredTags(fields)|
    ensures (forall i :: 0 <= i < |RequiredTags(fields)| && i < MAX_REQUIRED ==> i in marked) <==>
            RequiredSeen(fields, seen)
  {
  }

  lemma EntersWhen(st: State, f: Field)
    ensures EnterFixed(st, f) ==
            if f.rule == Repeated(false) && st.fixed != Some(f) then
              if st.fixed.Some? && |ItemsOf(st.m, st.fixed.value.tag)| != st.fixed.value.arraySize then None
              else Some(st.(m := st.m[f.tag := Many([])], fixed := Some(f)))
            else Some(st)
  {
  }

  lemma EnteredSlot(fields: seq<Field>, f: Field, wireType: nat, st: State, s: seq<byte>)
    ensures var entered := EnterFixed(st, f);
            DecodeSlot(fields, f, wireType, st, s) ==
            (if entered.None? then None else DecodeSlot(fields, f, wireType, entered.value, s)) &&
            (entered.Some? ==> EnterFixed(entered.value, f) == entered)
  {
  }

  lemma NothingMarked(words: seq<nat>)
    requires words == [0, 0]
    ensures Marks(words, {})
  {
    forall i: nat | i < 64
      ensures !Marked(words, i)
    {
      ZeroBit(i % 32);
    }
  }

  /** The marked indices are those of the required fields seen, of the first 64. */
  ghost predicate Agree(fields: seq<Field>, marked: set<nat>, seen: set<nat>) {
    var tags := RequiredTags(fields);
    && (forall i :: i in marked ==> i < |tags| && i < MAX_REQUIRED)
    && (forall i :: 0 <= i < |tags| && i < MAX_REQUIRED ==> (i in marked <==> tags[i] in seen))
  }

  lemma AgreeNext(fields: seq<Field>, marked: set<nat>, seen: set<nat>, index: nat)
    requires DistinctTags(fields) && Agree(fields, marked, seen) && index < |RequiredTags(fields)|
    ensures Agree(fields, if index < MAX_REQUIRED then marked + {index} else marked,
                  seen + {RequiredTags(fields)[index]})
  {
    hide RequiredTags;
    var tags := RequiredTags(fields);
    forall i | 0 <= i < |tags| && i != index
      ensures tags[i] != tags[index]
    {
      RequiredTagsDistinct(fields, if i < index then i else index, if i < index then index else i);
    }
  }

  /** Decoding a message from a buffer: the defaults first, then the bytes. */
  method DecodeBuffer(fields: seq<Field>, source: seq<byte>) returns (r: Option<(Message, seq<byte>)>)
    requires WellFormed(fields)
    ensures r == Decode(fields, source)
  {
    var stream := new InputStream(source, 0, |source|);
    assert stream.Rest() == source;
    var ok, m := stream.ReadMessage(fields, Defaults(fields));
    r := if ok then Some((m, source[stream.state..stream.state + stream.bytesLeft])) else None;
  }
}
