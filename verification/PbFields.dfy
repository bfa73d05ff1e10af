/** What any bytes say, field by field: the decoder's one pass with its state
    against a reading of the bytes as a list of fields. */
module PbFields {
  import opened Bytes
  import opened PbVarint
  import opened PbSchema
  import opened PbEncode
  import opened PbDecode
  import opened PbIter

  // ----- The bytes as fields ----------------------------------------------

  /** One occurrence of a field that the descriptor has, with the bytes of its
      value. */
  datatype Entry = Entry(f: Field, wireType: nat, payload: seq<byte>)

  function VarintSize(s: seq<byte>): Option<nat> {
    match VarintLength(s) case None => None case Some(n) => if n <= 10 then Some(n) else None
  }

  function PrefixedSize(s: seq<byte>): (n: Option<nat>)
    ensures n.Some? ==> n.value <= |s|
  {
    match Varint32(s)
    case None => None
    case Some((n, rest)) => if n <= |rest| then Some(|s| - |rest| + n) else None
  }

  /** How many bytes the value of a field takes: by its kind, but for a packed
      array, which its wire type tells. */
  function PayloadSize(f: Field, wireType: nat, s: seq<byte>): (n: Option<nat>)
    ensures n.Some? ==> n.value <= |s|
  {
    if !Packable(f.kind) || (f.rule.Repeated? && wireType == 2) then PrefixedSize(s)
    else if f.kind.Fixed32? then if |s| >= 4 then Some(4) else None
    else if f.kind.Fixed64? then if |s| >= 8 then Some(8) else None
    else VarintSize(s)
  }

  /** The fields in the bytes up to their end or a zero, and what is left.
      Fields that the descriptor does not have are left out. */
  function Entries(fields: seq<Field>, s: seq<byte>): Option<(seq<Entry>, seq<byte>)>
    decreases |s|
  {
    if s == [] then Some(([], [])) else
    match DecodeTag(s)
    case BadTag => None
    case Stop(rest) => Some(([], rest))
    case Tag(tag, wireType, rest) =>
      if fields == [] && tag == 0 then None else
      match Find(fields, tag)
      case None =>
        (match SkipField(wireType, rest) case None => None case Some(next) => Entries(fields, next))
      case Some(f) =>
        (match PayloadSize(f, wireType, rest)
         case None => None
         case Some(n) =>
           match Entries(fields, rest[n..])
           case None => None
           case Some((more, left)) => Some(([Entry(f, wireType, rest[..n])] + more, left)))
  }

  lemma {:induction false} EntriesAreFields(fields: seq<Field>, s: seq<byte>)
    ensures Entries(fields, s).Some? ==> OfFields(fields, Entries(fields, s).value.0)
    decreases |s|
  {
    hide DecodeTag, SkipField, PayloadSize, Find, OfFields;
    NoneOfFields(fields);
    if s != [] && DecodeTag(s).Tag? && !(fields == [] && DecodeTag(s).tag == 0) {
      var t := DecodeTag(s);
      match Find(fields, t.tag)
      case None => if SkipField(t.wireType, t.rest).Some? { EntriesAreFields(fields, SkipField(t.wireType, t.rest).value); }
      case Some(f) =>
        if PayloadSize(f, t.wireType, t.rest).Some? {
          var n := PayloadSize(f, t.wireType, t.rest).value;
          EntriesAreFields(fields, t.rest[n..]);
          if Entries(fields, t.rest[n..]).Some? {
            OneMoreOfFields(fields, Entry(f, t.wireType, t.rest[..n]), Entries(fields, t.rest[n..]).value.0);
          }
        }
    }
  }

  predicate OfFields(fields: seq<Field>, es: seq<Entry>) {
    forall k :: 0 <= k < |es| ==> Find(fields, es[k].f.tag) == Some(es[k].f)
  }

  lemma {:induction false} NoneOfFields(fields: seq<Field>)
    ensures OfFields(fields, [])
  {
  }

  lemma {:induction false} OneMoreOfFields(fields: seq<Field>, e: Entry, es: seq<Entry>)
    requires OfFields(fields, es) && Find(fields, e.f.tag) == Some(e.f)
    ensures OfFields(fields, [e] + es)
  {
    hide Find;
    var all := [e] + es;
    assert forall k :: 0 < k < |all| ==> all[k] == es[k - 1];
  }

  // ----- A value is read from its own bytes -------------------------------

  /** The 32-bit decoder looks no further than the varint. */
  lemma {:induction false} Varint32FromLocal(s: seq<byte>, bitpos: nat, result: nat)
    requires Varint32From(s, bitpos, result).Some?
    ensures var (v, rest) := Varint32From(s, bitpos, result).value;
            var n := |s| - |rest|;
            && rest == s[n..]
            && forall t :: Varint32From(s[..n] + t, bitpos, result) == Some((v, t))
    decreases |s|
  {
    hide Insert32, Overflows;
    var (v, rest) := Varint32From(s, bitpos, result).value;
    var n := |s| - |rest|;
    if Continues(s[0]) {
      Varint32FromLocal(s[1..], (bitpos + 7) % 256, Insert32(result, s[0], bitpos));
      forall t
        ensures Varint32From(s[..n] + t, bitpos, result) == Some((v, t))
      {
        assert (s[..n] + t)[1..] == s[1..][..n - 1] + t;
      }
    } else {
      forall t
        ensures Varint32From(s[..n] + t, bitpos, result) == Some((v, t))
      {
        assert (s[..n] + t)[1..] == t;
      }
    }
  }

  lemma {:induction false} Varint32Local(s: seq<byte>, t: seq<byte>)
    requires Varint32(s).Some?
    ensures var (v, rest) := Varint32(s).value;
            var n := |s| - |rest|;
            rest == s[n..] && Varint32(s[..n] + t) == Some((v, t))
  {
    var (v, rest) := Varint32(s).value;
    var n := |s| - |rest|;
    if Continues(s[0]) {
      Varint32FromLocal(s[1..], 7, s[0] % 0x80);
      assert (s[..n] + t)[1..] == s[1..][..n - 1] + t;
    } else {
      assert (s[..n] + t)[1..] == t;
    }
  }

  lemma {:induction false} PrefixedLocal(s: seq<byte>)
    ensures match PrefixedSize(s)
            case None => TakePrefixed(s).None?
            case Some(n) =>
              && TakePrefixed(s).Some? && TakePrefixed(s).value.1 == s[n..]
              && TakePrefixed(s[..n]) == Some((TakePrefixed(s).value.0, []))
  {
    hide Varint32;
    if Varint32(s).Some? {
      var (v, rest) := Varint32(s).value;
      if v <= |rest| {
        var k := |s| - |rest|;
        var n := k + v;
        Varint32Local(s, rest[..v]);
        assert s[..n] == s[..k] + rest[..v];
        assert s[n..] == rest[v..];
        assert rest[..v][..v] == rest[..v];
      }
    }
  }

  lemma {:induction false} NumberLocal(f: Field, s: seq<byte>)
    requires Packable(f.kind)
    ensures match PayloadSize(f, 0, s)
            case None => DecodeNumber(f, s).None?
            case Some(n) =>
              match DecodeNumber(f, s[..n])
              case None => DecodeNumber(f, s).None?
              case Some((v, rest)) => rest == [] && DecodeNumber(f, s) == Some((v, s[n..]))
  {
    hide DecodeInteger, FromLE, Base128;
    if f.kind.Fixed32? {
      if |s| >= 4 { assert s[..4][..4] == s[..4]; }
    } else if f.kind.Fixed64? {
      if |s| >= 8 { assert s[..8][..8] == s[..8]; }
    } else if VarintSize(s).Some? {
      var n := VarintSize(s).value;
      VarintLengthIs(s[..n], n);
      assert s[..n][..n] == s[..n];
    }
  }

  /** The number of bytes of a value, by its kind. */
  function ValueSize(f: Field, s: seq<byte>): (n: Option<nat>)
    ensures n.Some? ==> n.value <= |s|
  {
    if Packable(f.kind) then PayloadSize(f, 0, s) else PrefixedSize(s)
  }

  lemma {:induction false} ValueLocal(f: Field, base: Value, s: seq<byte>)
    ensures match ValueSize(f, s)
            case None => DecodeValue(f, base, s).None?
            case Some(n) =>
              match DecodeValue(f, base, s[..n])
              case None => DecodeValue(f, base, s).None?
              case Some((v, rest)) => rest == [] && DecodeValue(f, base, s) == Some((v, s[n..]))
  {
    hide DecodeNumber, TakePrefixed, PrefixedSize, PayloadSize, DecodeMessage;
    if Packable(f.kind) {
      NumberLocal(f, s);
    } else {
      PrefixedLocal(s);
    }
  }

  lemma {:induction false} SlotLocal(fields: seq<Field>, f: Field, wireType: nat, st: State, s: seq<byte>)
    ensures match PayloadSize(f, wireType, s)
            case None => DecodeSlot(fields, f, wireType, st, s).None?
            case Some(n) =>
              match DecodeSlot(fields, f, wireType, st, s[..n])
              case None => DecodeSlot(fields, f, wireType, st, s).None?
              case Some((st', rest)) => rest == [] && DecodeSlot(fields, f, wireType, st, s) == Some((st', s[n..]))
  {
    hide DecodeValue, TakePrefixed, PrefixedSize, DecodePacked, Choose, EnterFixed, ItemsOf, ValueOf;
    match f.rule
    case Required => ValueLocal(f, ValueOf(st.m, f), s);
    case Optional(_) => ValueLocal(f, ValueOf(st.m, f), s);
    case OneOf(_) => ValueLocal(f, DefaultValue(f), s);
    case Repeated(_) =>
      ValueLocal(f, DefaultValue(f), s);
      PrefixedLocal(s);
  }

  // ----- One pass is a pass over the fields -------------------------------

  function ReadEntry(fields: seq<Field>, st: State, e: Entry): Option<State> {
    match DecodeSlot(fields, e.f, e.wireType, st, e.payload) case None => None case Some((st', _)) => Some(st')
  }

  function ReadEntries(fields: seq<Field>, st: State, es: seq<Entry>): Option<State> {
    if es == [] then Some(st) else
    match ReadEntries(fields, st, es[..|es| - 1])
    case None => None
    case Some(st') => ReadEntry(fields, st', es[|es| - 1])
  }

  lemma {:induction false} ReadFirst(fields: seq<Field>, st: State, e: Entry, es: seq<Entry>)
    ensures ReadEntries(fields, st, [e] + es) ==
            match ReadEntry(fields, st, e) case None => None case Some(st') => ReadEntries(fields, st', es)
    decreases |es|
  {
    hide ReadEntry;
    var all := [e] + es;
    if es == [] {
      assert all[..0] == [] && all[0] == e;
      assert ReadEntries(fields, st, all[..0]) == Some(st);
    } else {
      assert all[..|all| - 1] == [e] + es[..|es| - 1];
      ReadFirst(fields, st, e, es[..|es| - 1]);
    }
  }

  /** Decoding fails exactly if the bytes are no fields or some field cannot be
      read, each from its own bytes; and otherwise it leaves what follows them. */
  lemma {:induction false} LoopIsFields(fields: seq<Field>, st: State, s: seq<byte>)
    ensures DecodeLoop(fields, st, s) ==
            match Entries(fields, s)
            case None => None
            case Some((es, left)) =>
              match ReadEntries(fields, st, es) case None => None case Some(st') => Some((st', left))
    decreases |s|
  {
    hide DecodeTag, SkipField, PayloadSize, DecodeSlot;
    if s == [] || DecodeTag(s).BadTag? || DecodeTag(s).Stop? {
      assert ReadEntries(fields, st, []) == Some(st);
    } else if !(fields == [] && DecodeTag(s).tag == 0) {
      var t := DecodeTag(s);
      match Find(fields, t.tag)
      case None => if SkipField(t.wireType, t.rest).Some? { LoopIsFields(fields, st, SkipField(t.wireType, t.rest).value); }
      case Some(f) => SlotIsField(fields, st, f, t.wireType, t.rest);
    }
  }

  lemma {:induction false} SlotIsField(fields: seq<Field>, st: State, f: Field, wireType: nat, s: seq<byte>)
    ensures (match DecodeSlot(fields, f, wireType, st, s)
             case None => None
             case Some((st', next)) => DecodeLoop(fields, st', next)) ==
            match PayloadSize(f, wireType, s)
            case None => None
            case Some(n) =>
              match Entries(fields, s[n..])
              case None => None
              case Some((more, left)) =>
                match ReadEntries(fields, st, [Entry(f, wireType, s[..n])] + more)
                case None => None
                case Some(st') => Some((st', left))
    decreases |s|, 1
  {
    hide PayloadSize, DecodeSlot, DecodeLoop, Entries;
    SlotLocal(fields, f, wireType, st, s);
    if PayloadSize(f, wireType, s).Some? {
      var n := PayloadSize(f, wireType, s).value;
      var e := Entry(f, wireType, s[..n]);
      if Entries(fields, s[n..]).Some? { ReadFirst(fields, st, e, Entries(fields, s[n..]).value.0); }
      if DecodeSlot(fields, f, wireType, st, s).Some? {
        LoopIsFields(fields, DecodeSlot(fields, f, wireType, st, s).value.0, s[n..]);
      }
    }
  }

  // ----- What the fields of a message say ---------------------------------

  /** The entries of one field, and those of all members of one oneof. */
  function Mine(es: seq<Entry>, f: Field): seq<Entry> {
    if es == [] then [] else
    var last := es[|es| - 1];
    Mine(es[..|es| - 1], f) + (if last.f == f then [last] else [])
  }

  function Group(es: seq<Entry>, rule: Rule): seq<Entry> {
    if es == [] then [] else
    var last := es[|es| - 1];
    Group(es[..|es| - 1], rule) + (if last.f.rule == rule then [last] else [])
  }

  /** The values of one field read over each other; a message is merged into what
      came before, anything else replaces it. */
  function Merged(f: Field, base: Value, mine: seq<Entry>): Option<Value> {
    if mine == [] then Some(base) else
    match Merged(f, base, mine[..|mine| - 1])
    case None => None
    case Some(before) =>
      match DecodeValue(f, before, mine[|mine| - 1].payload) case None => None case Some((v, _)) => Some(v)
  }

  /** The value of one entry by itself. */
  function Alone(f: Field, e: Entry): Option<Value> {
    match DecodeValue(f, DefaultValue(f), e.payload) case None => None case Some((v, _)) => Some(v)
  }

  /** The entries of a packed array, however many. */
  function PackedItems(f: Field, s: seq<byte>): Option<seq<Value>>
    decreases |s|
  {
    if s == [] then Some([]) else
    match DecodeValue(f, DefaultValue(f), s)
    case None => None
    case Some((v, rest)) => match PackedItems(f, rest) case None => None case Some(more) => Some([v] + more)
  }

  /** What one occurrence of a repeated field brings. */
  function ItemsIn(f: Field, e: Entry): Option<seq<Value>> {
    if e.wireType == 2 && Packable(f.kind) then
      match TakePrefixed(e.payload) case None => None case Some((b, _)) => PackedItems(f, b)
    else
      match DecodeValue(f, DefaultValue(f), e.payload) case None => None case Some((v, _)) => Some([v])
  }

  function AllItems(f: Field, mine: seq<Entry>): Option<seq<Value>> {
    if mine == [] then Some([]) else
    match AllItems(f, mine[..|mine| - 1])
    case None => None
    case Some(before) =>
      match ItemsIn(f, mine[|mine| - 1]) case None => None case Some(more) => Some(before + more)
  }

  /** Whether the last of the fixed-count fields is `f`. */
  predicate Filling(es: seq<Entry>, f: Field) {
    es != [] &&
    var last := es[|es| - 1];
    if last.f.rule == Repeated(false) then last.f == f else Filling(es[..|es| - 1], f)
  }

  /** The last entries of `f` with no other fixed-count field between them. */
  function LastRun(es: seq<Entry>, f: Field): seq<Entry> {
    if es == [] then [] else
    var front, last := es[..|es| - 1], es[|es| - 1];
    if last.f != f then LastRun(front, f)
    else if Filling(front, f) then LastRun(front, f) + [last] else [last]
  }

  /** A slot has the form that its field's rule gives it. */
  predicate Shape(f: Field, slot: Slot) {
    match f.rule
    case Required => slot.One?
    case Optional(hasField) => if hasField then slot.Opt? else slot.One?
    case Repeated(_) => slot.Many? && |slot.items| <= f.arraySize
    case OneOf(_) => slot.Chosen? || slot.Unchosen?
  }

  predicate Shaped(fields: seq<Field>, m: Message) {
    forall i :: 0 <= i < |fields| ==> fields[i].tag in m && Shape(fields[i], m[fields[i].tag])
  }

  /** What `slot` has to be after the entries `es`, when it was `old` before. */
  ghost predicate Says(es: seq<Entry>, f: Field, was: Slot, slot: Slot) {
    var mine := Mine(es, f);
    match f.rule
    case Required => was.One? && slot.One? && Merged(f, was.v, mine) == Some(slot.v)
    case Optional(hasField) =>
      if mine == [] then slot == was
      else if hasField then was.Opt? && slot.Opt? && slot.has && Merged(f, was.v, mine) == Some(slot.v)
      else was.One? && slot.One? && Merged(f, was.v, mine) == Some(slot.v)
    case OneOf(_) =>
      var group := Group(es, f.rule);
      if group == [] then slot == was
      else
        var last := group[|group| - 1];
        if last.f == f then slot.Chosen? && Alone(f, last) == Some(slot.v)
        else slot.Unchosen?
    case Repeated(counted) =>
      if mine == [] then slot == was
      else
        && slot.Many? && |slot.items| <= f.arraySize
        && if counted then was.Many? && AllItems(f, mine).Some? && slot.items == was.items + AllItems(f, mine).value
           else AllItems(f, LastRun(es, f)) == Some(slot.items) && (Filling(es, f) || |slot.items| == f.arraySize)
  }

  /** The required fields that occur, by tag. */
  function RequiredIn(es: seq<Entry>): set<nat> {
    set k | 0 <= k < |es| && es[k].f.rule.Required? :: es[k].f.tag
  }

  /** The state of the one pass after the entries `es`. */
  ghost predicate StateSays(fields: seq<Field>, m: Message, es: seq<Entry>, st: State)
    requires Shaped(fields, m)
  {
    && Shaped(fields, st.m) && st.seen == RequiredIn(es)
    && (st.fixed.Some? ==> st.fixed.value.rule == Repeated(false) && Find(fields, st.fixed.value.tag) == st.fixed)
    && (forall f: Field :: f.rule == Repeated(false) ==> (st.fixed == Some(f) <==> Filling(es, f)))
    && forall i :: 0 <= i < |fields| ==> Says(es, fields[i], m[fields[i].tag], st.m[fields[i].tag])
  }

  lemma {:induction false} PackedIsItems(f: Field, items: seq<Value>, s: seq<byte>)
    requires |items| <= f.arraySize
    ensures DecodePacked(f, items, s) ==
            match PackedItems(f, s)
            case None => None
            case Some(more) => if |items + more| <= f.arraySize then Some(items + more) else None
    decreases |s|
  {
    hide DecodeValue;
    if s == [] {
      assert items + [] == items;
    } else if DecodeValue(f, DefaultValue(f), s).Some? {
      var (v, rest) := DecodeValue(f, DefaultValue(f), s).value;
      if |items| < f.arraySize {
        PackedIsItems(f, items + [v], rest);
        if PackedItems(f, rest).Some? {
          assert (items + [v]) + PackedItems(f, rest).value == items + ([v] + PackedItems(f, rest).value);
        }
      }
    }
  }

  /** An array takes what an entry brings, if there is room. */
  lemma {:induction false} ArrayIsItems(st: State, e: Entry)
    requires |ItemsOf(st.m, e.f.tag)| <= e.f.arraySize
    ensures var r := DecodeArray(e.f, e.wireType, st, e.payload);
            var more := ItemsIn(e.f, e);
            && (r.Some? <==> more.Some? && |ItemsOf(st.m, e.f.tag) + more.value| <= e.f.arraySize)
            && (r.Some? ==> r.value.0 == st.(m := st.m[e.f.tag := Many(ItemsOf(st.m, e.f.tag) + more.value)]))
  {
    hide DecodeValue, TakePrefixed, PackedItems, DecodePacked;
    if e.wireType == 2 && Packable(e.f.kind) && TakePrefixed(e.payload).Some? {
      PackedIsItems(e.f, ItemsOf(st.m, e.f.tag), TakePrefixed(e.payload).value.0);
    }
  }

  // ----- What one more entry does -----------------------------------------

  lemma {:induction false} SnocMine(es: seq<Entry>, e: Entry, f: Field)
    ensures var more := es + [e];
            && Mine(more, f) == Mine(es, f) + (if e.f == f then [e] else [])
            && Group(more, f.rule) == Group(es, f.rule) + (if e.f.rule == f.rule then [e] else [])
            && LastRun(more, f) == (if e.f != f then LastRun(es, f)
                                    else if Filling(es, f) then LastRun(es, f) + [e] else [e])
            && Filling(more, f) == if e.f.rule == Repeated(false) then e.f == f else Filling(es, f)
  {
    var more := es + [e];
    assert more[..|more| - 1] == es && more[|more| - 1] == e;
  }

  lemma {:induction false} SnocRequired(es: seq<Entry>, e: Entry)
    ensures RequiredIn(es + [e]) == RequiredIn(es) + (if e.f.rule.Required? then {e.f.tag} else {})
  {
    var more := es + [e];
    assert more[|es|] == e && forall k :: 0 <= k < |es| ==> more[k] == es[k];
    forall t | t in RequiredIn(es)
      ensures t in RequiredIn(more)
    {
      var k :| 0 <= k < |es| && es[k].f.rule.Required? && es[k].f.tag == t;
      assert more[k].f.tag == t;
    }
    if e.f.rule.Required? {
      assert more[|es|].f.tag in RequiredIn(more);
    }
  }

  lemma {:induction false} SnocMerged(f: Field, base: Value, mine: seq<Entry>, e: Entry)
    ensures Merged(f, base, mine + [e]) ==
            match Merged(f, base, mine)
            case None => None
            case Some(before) => match DecodeValue(f, before, e.payload) case None => None case Some((v, _)) => Some(v)
    ensures AllItems(f, mine + [e]) ==
            match AllItems(f, mine)
            case None => None
            case Some(before) => match ItemsIn(f, e) case None => None case Some(more) => Some(before + more)
  {
    hide DecodeValue, ItemsIn;
    var more := mine + [e];
    assert more[..|more| - 1] == mine && more[|more| - 1] == e;
  }

  /** The field of the entry, if it is of a single value. */
  lemma {:induction false} SingleSays(fields: seq<Field>, es: seq<Entry>, e: Entry, st: State, was: Slot)
    requires !e.f.rule.Repeated? && e.f.tag in st.m && ReadEntry(fields, st, e).Some?
    requires Shape(e.f, was) && Shape(e.f, st.m[e.f.tag]) && Says(es, e.f, was, st.m[e.f.tag])
    ensures var m := ReadEntry(fields, st, e).value.m;
            e.f.tag in m && Shape(e.f, m[e.f.tag]) && Says(es + [e], e.f, was, m[e.f.tag])
  {
    hide DecodeValue, Mine, Group, Merged, AllItems, LastRun, Filling;
    SnocMine(es, e, e.f);
    if !e.f.rule.OneOf? {
      NoEntries(e.f, was.v);
      SnocMerged(e.f, was.v, Mine(es, e.f), e);
    }
  }

  lemma {:induction false} NoEntries(f: Field, base: Value)
    ensures Merged(f, base, []) == Some(base) && AllItems(f, []) == Some([])
  {
  }

  lemma {:induction false} OneItem(f: Field, e: Entry)
    ensures AllItems(f, [e]) == ItemsIn(f, e)
  {
    hide ItemsIn;
    NoEntries(f, Num(0));
    SnocMerged(f, Num(0), [], e);
    assert [] + [e] == [e];
    if ItemsIn(f, e).Some? {
      assert [] + ItemsIn(f, e).value == ItemsIn(f, e).value;
    }
  }

  /** The field of the entry, if it is an array: what was entered is extended. */
  lemma {:induction false} ArrayGrows(fields: seq<Field>, st: State, e: Entry)
    requires e.f.rule.Repeated? && e.f.tag in st.m && ReadEntry(fields, st, e).Some? && Shape(e.f, st.m[e.f.tag])
    ensures var m := ReadEntry(fields, st, e).value.m;
            var before := if e.f.rule == Repeated(false) && st.fixed != Some(e.f) then [] else st.m[e.f.tag].items;
            && ItemsIn(e.f, e).Some? && |before + ItemsIn(e.f, e).value| <= e.f.arraySize
            && e.f.tag in m && m[e.f.tag] == Many(before + ItemsIn(e.f, e).value)
  {
    hide DecodeValue, DecodeArray, ItemsIn;
    ArrayIsItems(EnterFixed(st, e.f).value, e);
  }

  lemma {:induction false} CountedSays(fields: seq<Field>, es: seq<Entry>, e: Entry, st: State, was: Slot)
    requires e.f.rule == Repeated(true) && e.f.tag in st.m && ReadEntry(fields, st, e).Some?
    requires Shape(e.f, was) && Shape(e.f, st.m[e.f.tag]) && Says(es, e.f, was, st.m[e.f.tag])
    ensures var m := ReadEntry(fields, st, e).value.m;
            e.f.tag in m && Shape(e.f, m[e.f.tag]) && Says(es + [e], e.f, was, m[e.f.tag])
  {
    hide ReadEntry, Mine, Group, Merged, AllItems, LastRun, Filling, ItemsIn;
    SnocMine(es, e, e.f);
    ArrayGrows(fields, st, e);
    NoEntries(e.f, Num(0));
    SnocMerged(e.f, Num(0), Mine(es, e.f), e);
    var more := ItemsIn(e.f, e).value;
    assert was.items + [] == was.items;
    var before := AllItems(e.f, Mine(es, e.f)).value;
    assert st.m[e.f.tag].items == was.items + before;
    assert (was.items + before) + more == was.items + (before + more);
    assert Mine(es, e.f) + [e] != [];
  }

  lemma {:induction false} FixedSays(fields: seq<Field>, es: seq<Entry>, e: Entry, st: State, was: Slot)
    requires e.f.rule == Repeated(false) && e.f.tag in st.m && ReadEntry(fields, st, e).Some?
    requires Shape(e.f, was) && Shape(e.f, st.m[e.f.tag]) && Says(es, e.f, was, st.m[e.f.tag])
    requires st.fixed == Some(e.f) <==> Filling(es, e.f)
    ensures var m := ReadEntry(fields, st, e).value.m;
            e.f.tag in m && Shape(e.f, m[e.f.tag]) && Says(es + [e], e.f, was, m[e.f.tag])
  {
    hide ReadEntry, Mine, Group, Merged, AllItems, LastRun, Filling, ItemsIn;
    SnocMine(es, e, e.f);
    ArrayGrows(fields, st, e);
    OneItem(e.f, e);
    SnocMerged(e.f, Num(0), LastRun(es, e.f), e);
    FillingHasRun(es, e.f);
    assert [] + ItemsIn(e.f, e).value == ItemsIn(e.f, e).value;
    assert Mine(es, e.f) + [e] != [];
  }

  lemma {:induction false} FillingHasRun(es: seq<Entry>, f: Field)
    ensures Filling(es, f) && f.rule == Repeated(false) ==> Mine(es, f) != []
  {
    if es != [] {
      FillingHasRun(es[..|es| - 1], f);
    }
  }

  /** An entry leaves the other fields alone, but for the members of its oneof. */
  lemma {:induction false} EntryKeeps(fields: seq<Field>, st: State, e: Entry, f: Field)
    requires e.f.tag != f.tag && f.tag in st.m && ReadEntry(fields, st, e).Some?
    requires Find(fields, f.tag) == Some(f)
    ensures var m := ReadEntry(fields, st, e).value.m;
            && f.tag in m
            && m[f.tag] == if e.f.rule.OneOf? && e.f.rule == f.rule && st.m[f.tag].Chosen? then Unchosen else st.m[f.tag]
  {
    hide DecodeValue, TakePrefixed, DecodePacked, DecodeArray, EnterFixed;
    match e.f.rule
    case Required =>
    case Optional(_) =>
    case OneOf(_) =>
    case Repeated(_) =>
      EnterKeeps(st, e.f, f.tag);
      ArrayKeeps(EnterFixed(st, e.f).value, e, f.tag);
  }

  lemma {:induction false} EnterKeeps(st: State, f: Field, tag: nat)
    requires tag != f.tag && tag in st.m && EnterFixed(st, f).Some?
    ensures var st' := EnterFixed(st, f).value; tag in st'.m && st'.m[tag] == st.m[tag]
  {
  }

  lemma {:induction false} ArrayKeeps(st: State, e: Entry, tag: nat)
    requires tag != e.f.tag && tag in st.m && DecodeArray(e.f, e.wireType, st, e.payload).Some?
    ensures var st' := DecodeArray(e.f, e.wireType, st, e.payload).value.0; tag in st'.m && st'.m[tag] == st.m[tag]
  {
    hide DecodeValue, TakePrefixed, DecodePacked;
  }

  /** A fixed-count field is entered only if the one before it is full. */
  lemma {:induction false} EntryFollowsFull(fields: seq<Field>, st: State, e: Entry, f: Field)
    requires e.f.rule == Repeated(false) && ReadEntry(fields, st, e).Some?
    requires st.fixed == Some(f) && e.f != f && f.tag in st.m && st.m[f.tag].Many?
    ensures |st.m[f.tag].items| == f.arraySize
  {
    hide DecodeValue, TakePrefixed, DecodePacked;
  }

  /** Any other field. */
  lemma {:induction false} OtherSays(fields: seq<Field>, es: seq<Entry>, e: Entry, st: State, f: Field, was: Slot)
    requires e.f.tag != f.tag && f.tag in st.m && ReadEntry(fields, st, e).Some?
    requires Find(fields, f.tag) == Some(f)
    requires Shape(f, was) && Shape(f, st.m[f.tag]) && Says(es, f, was, st.m[f.tag])
    requires f.rule == Repeated(false) ==> (st.fixed == Some(f) <==> Filling(es, f))
    ensures var m := ReadEntry(fields, st, e).value.m;
            f.tag in m && Shape(f, m[f.tag]) && Says(es + [e], f, was, m[f.tag])
  {
    hide ReadEntry, Mine, Group, Merged, AllItems, LastRun, Filling, Alone;
    SnocMine(es, e, f);
    EntryKeeps(fields, st, e, f);
    assert Mine(es, f) + [] == Mine(es, f) && Group(es, f.rule) + [] == Group(es, f.rule);
    if e.f.rule == Repeated(false) && f.rule == Repeated(false) && st.fixed == Some(f) {
      EntryFollowsFull(fields, st, e, f);
    }
  }

  lemma {:induction false} EntryNotes(fields: seq<Field>, st: State, e: Entry)
    requires ReadEntry(fields, st, e).Some?
    ensures var st' := ReadEntry(fields, st, e).value;
            && st'.seen == st.seen + (if e.f.rule.Required? then {e.f.tag} else {})
            && st'.fixed == if e.f.rule == Repeated(false) then Some(e.f) else st.fixed
  {
    hide DecodeValue, DecodeArray;
    match e.f.rule
    case Required =>
    case Optional(_) =>
    case OneOf(_) =>
    case Repeated(_) => ArrayNotes(EnterFixed(st, e.f).value, e);
  }

  lemma {:induction false} ArrayNotes(st: State, e: Entry)
    requires DecodeArray(e.f, e.wireType, st, e.payload).Some?
    ensures var st' := DecodeArray(e.f, e.wireType, st, e.payload).value.0; st' == st.(m := st'.m)
  {
    hide DecodeValue, TakePrefixed, DecodePacked;
  }

  /** One more entry, in the state of the one pass. */
  lemma {:induction false} EntrySays(fields: seq<Field>, m: Message, es: seq<Entry>, st: State, e: Entry)
    requires DistinctTags(fields) && Shaped(fields, m) && StateSays(fields, m, es, st)
    requires Find(fields, e.f.tag) == Some(e.f) && ReadEntry(fields, st, e).Some?
    ensures StateSays(fields, m, es + [e], ReadEntry(fields, st, e).value)
  {
    hide ReadEntry, Says, Shape, Filling, RequiredIn;
    var st' := ReadEntry(fields, st, e).value;
    EntryNotes(fields, st, e);
    SnocRequired(es, e);
    forall i | 0 <= i < |fields|
      ensures fields[i].tag in st'.m && Shape(fields[i], st'.m[fields[i].tag])
      ensures Says(es + [e], fields[i], m[fields[i].tag], st'.m[fields[i].tag])
    {
      FindDistinct(fields, fields[i]);
      FieldSays(fields, es, e, st, fields[i], m[fields[i].tag]);
    }
    forall f: Field | f.rule == Repeated(false)
      ensures st'.fixed == Some(f) <==> Filling(es + [e], f)
    {
      SnocMine(es, e, f);
    }
  }

  lemma {:induction false} FieldSays(fields: seq<Field>, es: seq<Entry>, e: Entry, st: State, f: Field, was: Slot)
    requires Find(fields, e.f.tag) == Some(e.f) && Find(fields, f.tag) == Some(f)
    requires f.tag in st.m && ReadEntry(fields, st, e).Some?
    requires Shape(f, was) && Shape(f, st.m[f.tag]) && Says(es, f, was, st.m[f.tag])
    requires f.rule == Repeated(false) ==> (st.fixed == Some(f) <==> Filling(es, f))
    ensures var m := ReadEntry(fields, st, e).value.m;
            f.tag in m && Shape(f, m[f.tag]) && Says(es + [e], f, was, m[f.tag])
  {
    hide ReadEntry, Says, Shape, Filling;
    if e.f.tag != f.tag {
      OtherSays(fields, es, e, st, f, was);
    } else if f.rule == Repeated(true) {
      CountedSays(fields, es, e, st, was);
    } else if f.rule == Repeated(false) {
      FixedSays(fields, es, e, st, was);
    } else {
      SingleSays(fields, es, e, st, was);
    }
  }

  lemma {:induction false} AllSay(fields: seq<Field>, m: Message, es: seq<Entry>)
    requires DistinctTags(fields) && Shaped(fields, m) && OfFields(fields, es)
    requires ReadEntries(fields, State(m, {}, None), es).Some?
    ensures StateSays(fields, m, es, ReadEntries(fields, State(m, {}, None), es).value)
    decreases |es|
  {
    hide ReadEntry, Shaped, StateSays, DistinctTags, Find;
    if es == [] {
      NothingSaid(fields, m);
    } else {
      var front, e := es[..|es| - 1], es[|es| - 1];
      forall k | 0 <= k < |front|
        ensures Find(fields, front[k].f.tag) == Some(front[k].f)
      {
        assert es[k] == front[k];
      }
      AllSay(fields, m, front);
      EntrySays(fields, m, front, ReadEntries(fields, State(m, {}, None), front).value, e);
      assert front + [e] == es;
    }
  }

  lemma {:induction false} NothingSaid(fields: seq<Field>, m: Message)
    requires Shaped(fields, m)
    ensures StateSays(fields, m, [], State(m, {}, None))
  {
    forall i | 0 <= i < |fields|
      ensures Says([], fields[i], m[fields[i].tag], m[fields[i].tag])
    {
      assert Mine([], fields[i]) == [] && Group([], fields[i].rule) == [];
    }
  }

  // ----- Whole messages ---------------------------------------------------

  lemma {:induction false} DefaultsShaped(fields: seq<Field>)
    requires DistinctTags(fields)
    ensures Shaped(fields, Defaults(fields))
  {
    hide Defaults, DefaultValue;
    forall i | 0 <= i < |fields|
      ensures fields[i].tag in Defaults(fields) && Shape(fields[i], Defaults(fields)[fields[i].tag])
    {
      DefaultsHas(fields, fields[i].tag);
      FindDistinct(fields, fields[i]);
    }
  }

  /** The first 64 required fields occur. */
  predicate RequiredOccur(fields: seq<Field>, es: seq<Entry>) {
    forall k :: 0 <= k < |fields| && fields[k].rule.Required? && RequiredBefore(fields, k) < 64 ==>
      exists j :: 0 <= j < |es| && es[j].f.tag == fields[k].tag
  }

  /** The last fixed-count array is full. */
  ghost predicate LastFull(es: seq<Entry>, fields: seq<Field>, m: Message)
    requires Shaped(fields, m)
  {
    forall i :: 0 <= i < |fields| && fields[i].rule == Repeated(false) && Filling(es, fields[i]) ==>
      |m[fields[i].tag].items| == fields[i].arraySize
  }

  lemma {:induction false} SeenIsOccur(fields: seq<Field>, es: seq<Entry>)
    requires DistinctTags(fields) && OfFields(fields, es)
    ensures RequiredSeen(fields, RequiredIn(es)) <==> RequiredOccur(fields, es)
  {
    hide RequiredBefore, RequiredTags;
    if RequiredSeen(fields, RequiredIn(es)) {
      forall k | 0 <= k < |fields| && fields[k].rule.Required? && RequiredBefore(fields, k) < 64
        ensures exists j :: 0 <= j < |es| && es[j].f.tag == fields[k].tag
      {
        RequiredIndex(fields, k);
        assert RequiredTags(fields)[RequiredBefore(fields, k)] in RequiredIn(es);
      }
    }
    if RequiredOccur(fields, es) {
      forall i | 0 <= i < |RequiredTags(fields)| && i < MAX_REQUIRED
        ensures RequiredTags(fields)[i] in RequiredIn(es)
      {
        var k := RequiredTagAt(fields, i);
        var j :| 0 <= j < |es| && es[j].f.tag == fields[k].tag;
        FindDistinct(fields, fields[k]);
        assert es[j].f == fields[k];
        assert es[j].f.tag in RequiredIn(es);
      }
    }
  }

  /** The required field of an index. */
  lemma {:induction false} RequiredTagAt(fields: seq<Field>, i: nat) returns (k: nat)
    requires DistinctTags(fields) && i < |RequiredTags(fields)|
    ensures k < |fields| && fields[k].rule.Required? && RequiredTags(fields)[i] == fields[k].tag
    ensures RequiredBefore(fields, k) == i
  {
    hide RequiredBefore, RequiredTags;
    k := RequiredTagIs(fields, i);
    RequiredIndex(fields, k);
    var j := RequiredBefore(fields, k);
    if j < i {
      RequiredTagsDistinct(fields, j, i);
    } else if i < j {
      RequiredTagsDistinct(fields, i, j);
    }
  }

  /** Decoding over what a message holds, on any bytes: it succeeds exactly if the
      bytes are fields, each can be read, the last fixed-count array is full and
      the first 64 required fields occur; and then every field of the message is
      what its entries say. */
  lemma {:induction false} MessageSays(fields: seq<Field>, m: Message, s: seq<byte>)
    requires DistinctTags(fields) && Shaped(fields, m)
    ensures var r, es := DecodeMessage(fields, m, s), Entries(fields, s);
            if es.None? || ReadEntries(fields, State(m, {}, None), es.value.0).None? then r.None?
            else
              var st := ReadEntries(fields, State(m, {}, None), es.value.0).value;
              && StateSays(fields, m, es.value.0, st)
              && (r.Some? <==> LastFull(es.value.0, fields, st.m) && RequiredOccur(fields, es.value.0))
              && (r.Some? ==> r.value == (st.m, es.value.1))
  {
    hide DecodeLoop, ReadEntries, RequiredOccur, RequiredSeen, RequiredIn, Says, Shape, Filling;
    LoopIsFields(fields, State(m, {}, None), s);
    EntriesAreFields(fields, s);
    if Entries(fields, s).Some? {
      var es := Entries(fields, s).value.0;
      SeenIsOccur(fields, es);
      if ReadEntries(fields, State(m, {}, None), es).Some? {
        AllSay(fields, m, es);
        FullExactly(fields, m, es, ReadEntries(fields, State(m, {}, None), es).value);
      }
    }
  }

  lemma {:induction false} FullExactly(fields: seq<Field>, m: Message, es: seq<Entry>, st: State)
    requires DistinctTags(fields) && Shaped(fields, m) && StateSays(fields, m, es, st)
    ensures FixedComplete(st) <==> LastFull(es, fields, st.m)
  {
    hide Says, Filling;
    if st.fixed.Some? {
      var f := st.fixed.value;
      var i :| 0 <= i < |fields| && fields[i] == f;
    }
    forall i | 0 <= i < |fields| && fields[i].rule == Repeated(false) && Filling(es, fields[i])
      ensures st.fixed == Some(fields[i])
    {
    }
  }

  // ----- What this means for a message ------------------------------------

  /** The last entry of a oneof, if `at` is its place. */
  predicate LastOf(es: seq<Entry>, rule: Rule, at: nat) {
    at < |es| && es[at].f.rule == rule && forall j :: at < j < |es| ==> es[j].f.rule != rule
  }

  lemma {:induction false} GroupLast(es: seq<Entry>, rule: Rule, at: nat)
    requires LastOf(es, rule, at)
    ensures Group(es, rule) != [] && Group(es, rule)[|Group(es, rule)| - 1] == es[at]
  {
    if at < |es| - 1 {
      GroupLast(es[..|es| - 1], rule, at);
    }
  }

  lemma {:induction false} GroupEmpty(es: seq<Entry>, rule: Rule)
    ensures Group(es, rule) == [] <==> forall j :: 0 <= j < |es| ==> es[j].f.rule != rule
  {
    if es != [] {
      var front := es[..|es| - 1];
      GroupEmpty(front, rule);
      assert forall j :: 0 <= j < |front| ==> front[j] == es[j];
    }
  }

  lemma {:induction false} MineIs(es: seq<Entry>, f: Field, at: nat)
    requires at < |es| && es[at].f == f && forall j :: at < j < |es| ==> es[j].f != f
    ensures Mine(es, f) != [] && Mine(es, f)[|Mine(es, f)| - 1] == es[at]
  {
    if at < |es| - 1 {
      MineIs(es[..|es| - 1], f, at);
    }
  }

  lemma {:induction false} MineEmpty(es: seq<Entry>, f: Field)
    ensures Mine(es, f) == [] <==> forall j :: 0 <= j < |es| ==> es[j].f != f
  {
    if es != [] {
      var front := es[..|es| - 1];
      MineEmpty(front, f);
      assert forall j :: 0 <= j < |front| ==> front[j] == es[j];
    }
  }

  /** What a decoded message says of one field. */
  lemma {:induction false} DecodedSays(fields: seq<Field>, s: seq<byte>, f: Field)
    requires DistinctTags(fields) && f in fields && Decode(fields, s).Some?
    ensures Entries(fields, s).Some? && f.tag in Decode(fields, s).value.0
    ensures var slot := Decode(fields, s).value.0[f.tag];
            Shape(f, slot) && Says(Entries(fields, s).value.0, f, DefaultSlot(f), slot)
    ensures f.rule == Repeated(false) && Filling(Entries(fields, s).value.0, f) ==>
              |Decode(fields, s).value.0[f.tag].items| == f.arraySize
  {
    hide DecodeMessage, ReadEntries, Says, Shape, Defaults, RequiredOccur, RequiredIn, Filling, DefaultSlot;
    DefaultsShaped(fields);
    MessageSays(fields, Defaults(fields), s);
    var i :| 0 <= i < |fields| && fields[i] == f;
    DefaultsHas(fields, f.tag);
    FindDistinct(fields, f);
  }

  /** In every message decoded from any bytes, a member of a oneof is chosen if and
      only if the last field of that oneof in the bytes is that member; and its
      value is that of this last field alone. */
  lemma {:induction false} LastMemberChosen(fields: seq<Field>, s: seq<byte>, f: Field, at: nat)
    requires DistinctTags(fields) && f in fields && f.rule.OneOf? && Decode(fields, s).Some?
    ensures Entries(fields, s).Some? && f.tag in Decode(fields, s).value.0
    ensures var es, slot := Entries(fields, s).value.0, Decode(fields, s).value.0[f.tag];
            && ((forall j :: 0 <= j < |es| ==> es[j].f.rule != f.rule) ==> slot == Unchosen)
            && (LastOf(es, f.rule, at) ==>
                  if es[at].f == f then
                    DecodeValue(f, DefaultValue(f), es[at].payload).Some? &&
                    slot == Chosen(DecodeValue(f, DefaultValue(f), es[at].payload).value.0)
                  else slot == Unchosen)
  {
    hide Decode, Entries, DefaultValue, DecodeValue, Group, Mine;
    DecodedSays(fields, s, f);
    var es := Entries(fields, s).value.0;
    GroupEmpty(es, f.rule);
    if LastOf(es, f.rule, at) {
      GroupLast(es, f.rule, at);
    }
  }

  /** So at most one member of a oneof is chosen. */
  lemma {:induction false} OneMemberChosen(fields: seq<Field>, s: seq<byte>, f: Field, g: Field)
    requires DistinctTags(fields) && f in fields && g in fields && f.rule.OneOf? && f.rule == g.rule
    requires Decode(fields, s).Some?
    ensures f.tag in Decode(fields, s).value.0 && g.tag in Decode(fields, s).value.0
    ensures Decode(fields, s).value.0[f.tag].Chosen? && Decode(fields, s).value.0[g.tag].Chosen? ==> f == g
  {
    hide Decode, Entries, DefaultValue, DecodeValue, Group, Mine;
    DecodedSays(fields, s, f);
    DecodedSays(fields, s, g);
  }

  /** No bytes decode to a message unless each of its first 64 required fields is
      among them. */
  lemma {:induction false} RequiredPresent(fields: seq<Field>, s: seq<byte>, k: nat)
    requires DistinctTags(fields) && Decode(fields, s).Some?
    requires k < |fields| && fields[k].rule.Required? && RequiredBefore(fields, k) < 64
    ensures Entries(fields, s).Some?
    ensures exists j :: 0 <= j < |Entries(fields, s).value.0| && Entries(fields, s).value.0[j].f.tag == fields[k].tag
  {
    hide DecodeMessage, ReadEntries, Defaults, RequiredBefore, RequiredIn, Says, Filling, Entries;
    DefaultsShaped(fields);
    MessageSays(fields, Defaults(fields), s);
  }

  /** A singular field that is no message has the value of its last occurrence,
      and without one its default. */
  lemma {:induction false} LastValueWins(fields: seq<Field>, s: seq<byte>, f: Field, at: nat)
    requires DistinctTags(fields) && f in fields && (f.rule.Required? || f.rule.Optional?) && !f.kind.Submessage?
    requires Decode(fields, s).Some?
    ensures Entries(fields, s).Some? && f.tag in Decode(fields, s).value.0
    ensures var es, slot := Entries(fields, s).value.0, Decode(fields, s).value.0[f.tag];
            && ((forall j :: 0 <= j < |es| ==> es[j].f != f) ==> slot == DefaultSlot(f))
            && (at < |es| && es[at].f == f && (forall j :: at < j < |es| ==> es[j].f != f) ==>
                  Alone(f, es[at]).Some? &&
                  slot == if f.rule == Optional(true) then Opt(true, Alone(f, es[at]).value)
                          else One(Alone(f, es[at]).value))
  {
    hide Decode, Entries, DefaultValue, Group, Mine, Merged, DecodeNumber, TakePrefixed;
    DecodedSays(fields, s, f);
    var es := Entries(fields, s).value.0;
    MineEmpty(es, f);
    NoEntries(f, DefaultValue(f));
    if at < |es| && es[at].f == f && (forall j :: at < j < |es| ==> es[j].f != f) {
      MineIs(es, f, at);
      LastMerged(f, DefaultValue(f), Mine(es, f));
    }
  }

  /** A singular message is its occurrences merged, one into another. */
  lemma {:induction false} MessagesMerge(fields: seq<Field>, s: seq<byte>, f: Field)
    requires DistinctTags(fields) && f in fields && (f.rule.Required? || f.rule.Optional?) && f.kind.Submessage?
    requires Decode(fields, s).Some?
    ensures Entries(fields, s).Some? && f.tag in Decode(fields, s).value.0
    ensures var mine, slot := Mine(Entries(fields, s).value.0, f), Decode(fields, s).value.0[f.tag];
            if mine == [] then slot == DefaultSlot(f)
            else (slot.One? || (slot.Opt? && slot.has)) && Merged(f, Msg(Defaults(f.sub)), mine) == Some(slot.v)
  {
    hide Decode, Entries, Group, Mine, Merged, DecodeNumber, TakePrefixed, Defaults;
    DecodedSays(fields, s, f);
    NoEntries(f, DefaultValue(f));
  }

  lemma {:induction false} LastMerged(f: Field, base: Value, mine: seq<Entry>)
    requires mine != [] && !f.kind.Submessage? && Merged(f, base, mine).Some?
    ensures Merged(f, base, mine) == Alone(f, mine[|mine| - 1])
  {
    hide DecodeNumber, TakePrefixed, DefaultValue;
  }

  /** An array is the items of all its occurrences in order; one of fixed count is
      those of its last run, and is full if it occurs at all. */
  lemma {:induction false} ArrayIsAllItems(fields: seq<Field>, s: seq<byte>, f: Field)
    requires DistinctTags(fields) && f in fields && f.rule.Repeated? && Decode(fields, s).Some?
    ensures Entries(fields, s).Some? && f.tag in Decode(fields, s).value.0
    ensures var es, slot := Entries(fields, s).value.0, Decode(fields, s).value.0[f.tag];
            && slot.Many? && |slot.items| <= f.arraySize
            && (f.rule == Repeated(true) ==> AllItems(f, Mine(es, f)) == Some(slot.items))
            && (f.rule == Repeated(false) && (exists j :: 0 <= j < |es| && es[j].f == f) ==>
                  AllItems(f, LastRun(es, f)) == Some(slot.items) && |slot.items| == f.arraySize)
  {
    hide Decode, Entries, DefaultValue, Group, Mine, AllItems, LastRun, Filling;
    DecodedSays(fields, s, f);
    var es := Entries(fields, s).value.0;
    MineEmpty(es, f);
    NoEntries(f, Num(0));
    var slot := Decode(fields, s).value.0[f.tag];
    assert [] + slot.items == slot.items;
    if AllItems(f, Mine(es, f)).Some? {
      assert [] + AllItems(f, Mine(es, f)).value == AllItems(f, Mine(es, f)).value;
    }
  }

  // ----- What one value says ----------------------------------------------

  /** The values of a C integer of that many bytes: 256 to that power. */
  predicate Sized(dataSize: nat, w: int) {
    (dataSize, w) in {(1, 0x100), (2, 0x1_0000), (4, 0x1_0000_0000), (8, 0x1_0000_0000_0000_0000)}
  }

  /** A varint is read as `n` if and only if `n` fits the field's C type and is what
      the varint stands for: the same modulo 2^64 or, in up to 32 bits, 2^32; the
      same; or the number that zigzag gives it to. */
  lemma {:induction false} IntegerExactly(f: Field, v: nat, n: int, w: int)
    requires v < 0x1_0000_0000_0000_0000 && Sized(f.dataSize, w)
    ensures DecodeInteger(f, v) == Some(n) <==>
              if f.kind.Varint? then
                -w <= 2 * n < w && (n - v) % (if f.dataSize == 8 then 0x1_0000_0000_0000_0000 else 0x1_0000_0000) == 0
              else if f.kind.Uvarint? then n == v && v < w
              else -w <= 2 * n < w && v == if n >= 0 then 2 * n else -2 * n - 1
  {
    hide ToSigned, Unzigzag;
    UnzigzagIs(v);
    if f.dataSize == 8 {
      SignedWord(v, n, U64);
    } else {
      SignedWord(v, n, U32);
    }
  }

  /** Two's complement finds the one number of the word that is the same modulo
      its size. */
  lemma {:induction false} SignedWord(v: nat, n: int, m: nat)
    requires m == U32 || m == U64
    ensures InSigned(ToSigned(v, m), m) && (ToSigned(v, m) == n <==> InSigned(n, m) && (n - v) % m == 0)
  {
    if m == U32 { SignedWord32(v, n); } else { SignedWord64(v, n); }
  }

  lemma {:induction false} SignedWord32(v: nat, n: int)
    ensures ToSigned(v, U32) == n <==> InSigned(n, U32) && (n - v) % U32 == 0
  {
  }

  lemma {:induction false} SignedWord64(v: nat, n: int)
    ensures ToSigned(v, U64) == n <==> InSigned(n, U64) && (n - v) % U64 == 0
  {
  }

  /** Bytes are taken as they are, within their buffer; a string up to its first
      zero, with room for one more; bytes of a fixed length whole, or zeros. */
  lemma {:induction false} BlobExactly(f: Field, b: seq<byte>, c: seq<byte>)
    requires f.kind.BytesArray? || f.kind.Text? || f.kind.FixedBytes?
    ensures DecodeBlob(f, b) == Some(c) <==>
              if f.kind.BytesArray? then c == b && |b| + BYTES_OFFSET <= f.dataSize
              else if f.kind.Text? then
                |b| < f.dataSize && c <= b && 0 !in c && (|c| < |b| ==> b[|c|] == 0)
              else |c| == f.dataSize && (c == b || (b == [] && forall i :: 0 <= i < |c| ==> c[i] == 0))
  {
    if f.kind.Text? {
      UpToZeroIs(b, c);
    } else if f.kind.FixedBytes? && |c| == f.dataSize && b == [] && forall i :: 0 <= i < |c| ==> c[i] == 0 {
      assert c == Zeros(f.dataSize);
    }
  }

  lemma {:induction false} UpToZeroIs(b: seq<byte>, c: seq<byte>)
    ensures UpToZero(b) == c <==> c <= b && 0 !in c && (|c| < |b| ==> b[|c|] == 0)
  {
    if b != [] && b[0] != 0 && c != [] {
      UpToZeroIs(b[1..], c[1..]);
      if c[0] == b[0] {
        assert c == [c[0]] + c[1..] && b == [b[0]] + b[1..];
        assert 0 in c <==> 0 in c[1..];
        assert c <= b <==> c[1..] <= b[1..];
      }
    }
  }

  /** Four or eight bytes are a number, low byte first. */
  lemma {:induction false} LittleEndianLayout(s: seq<byte>)
    requires |s| == 4 || |s| == 8
    ensures FromLE(s) ==
            if |s| == 4 then Pair(Pair(Pair(s[3], s[2]), s[1]), s[0])
            else Pair(Pair(Pair(Pair(Pair(Pair(Pair(s[7], s[6]), s[5]), s[4]), s[3]), s[2]), s[1]), s[0])
  {
    HornerLE(s);
    HornerLE(s[1..]);
    HornerLE(s[2..]);
    HornerLE(s[3..]);
    if |s| == 8 {
      HornerLE(s[4..]);
      HornerLE(s[5..]);
      HornerLE(s[6..]);
      HornerLE(s[7..]);
    }
  }

  lemma {:induction false} HornerLE(s: seq<byte>)
    requires s != []
    ensures FromLE(s) == Pair(FromLE(s[1..]), s[0])
  {
  }

  // ----- Tags, skipping, merging and defaults ------------------------------

  /** A tag is the first varint without its three low bits; the end of the bytes,
      or a zero, ends the message. */
  lemma {:induction false} TagExactly(s: seq<byte>)
    ensures match DecodeTag(s)
            case Stop(rest) => (s == [] && rest == []) || Varint32(s) == Some((0, rest))
            case BadTag => s != [] && Varint32(s).None?
            case Tag(tag, wireType, rest) => wireType < 8 && 8 * tag + wireType > 0 &&
                                             Varint32(s) == Some((8 * tag + wireType, rest))
  {
    hide Varint32;
  }

  /** A field that the descriptor does not have is skipped over just the bytes that
      a field of its wire type is read from; any other wire type is an error. */
  lemma {:induction false} SkippedAsRead(f: Field, wireType: nat, s: seq<byte>)
    ensures wireType !in {0, 1, 2, 5} ==> SkipField(wireType, s).None?
    ensures wireType == WireType(f.kind) && ValueSize(f, s).Some? ==>
              SkipField(wireType, s) == Some(s[ValueSize(f, s).value..])
    ensures wireType == WireType(f.kind) && wireType != 0 && ValueSize(f, s).None? ==> SkipField(wireType, s).None?
  {
    hide TakePrefixed, PrefixedSize;
    PrefixedLocal(s);
  }

  /** Decoding a message into one that was there: each field is what the new bytes
      say over what it was, and what they do not mention stays. */
  lemma {:induction false} MergeExactly(f: Field, m: Message, s: seq<byte>)
    requires f.kind.Submessage? && DistinctTags(f.sub) && Shaped(f.sub, m) && DecodeValue(f, Msg(m), s).Some?
    ensures TakePrefixed(s).Some? && Entries(f.sub, TakePrefixed(s).value.0).Some?
    ensures var es, v := Entries(f.sub, TakePrefixed(s).value.0).value.0, DecodeValue(f, Msg(m), s).value.0;
            && v.Msg? && Shaped(f.sub, v.m)
            && forall i :: 0 <= i < |f.sub| ==> Says(es, f.sub[i], m[f.sub[i].tag], v.m[f.sub[i].tag])
  {
    hide Says, Shape, TakePrefixed, ReadEntries, Entries, DecodeMessage, RequiredOccur, RequiredIn, Filling;
    MessageSays(f.sub, m, TakePrefixed(s).value.0);
  }

  lemma {:induction false} UnmentionedStays(es: seq<Entry>, f: Field, was: Slot, slot: Slot)
    requires Says(es, f, was, slot) && Shape(f, was) && forall j :: 0 <= j < |es| ==> es[j].f != f && es[j].f.rule != f.rule
    ensures slot == was
  {
    hide Mine, Group, AllItems, LastRun, Merged;
    MineEmpty(es, f);
    GroupEmpty(es, f.rule);
    if f.rule.Required? { NoEntries(f, was.v); }
  }

  /** Where nothing is read: the default that the descriptor gives, else zero,
      nothing, or as many zeros as the bytes are long; and not present. */
  lemma {:induction false} DefaultsExactly(fields: seq<Field>, f: Field)
    requires DistinctTags(fields) && f in fields
    ensures f.tag in Defaults(fields)
    ensures var slot := Defaults(fields)[f.tag];
            if f.rule.Repeated? then slot == Many([])
            else if f.rule.OneOf? then slot == Unchosen
            else
              && (if f.rule == Optional(true) then slot.Opt? && !slot.has else slot.One?)
              && (if f.kind.Submessage? then slot.v == Msg(Defaults(f.sub))
                  else if f.deflt.Some? then slot.v == f.deflt.value
                  else if Packable(f.kind) then slot.v == Num(0)
                  else slot.v.Blob? && (forall i :: 0 <= i < |slot.v.b| ==> slot.v.b[i] == 0) &&
                       |slot.v.b| == if f.kind.FixedBytes? then f.dataSize else 0)
  {
    DefaultsHas(fields, f.tag);
    FindDistinct(fields, f);
  }
}
