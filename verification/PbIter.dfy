/** The wrapping field iterator, and the bitmap of required fields seen. */
module PbIter {
  import opened Bits
  import opened PbVarint
  import opened PbSchema
  import opened PbDecode

  const SIZE_MAX: nat := U32 - 1
  const ALL_BITS: nat := U32 - 1

  // ----- What the iterator keeps ------------------------------------------

  /** The number of required fields before position `pos`. */
  function RequiredBefore(fields: seq<Field>, pos: nat): nat
    requires pos <= |fields|
  {
    if pos == 0 then 0 else RequiredBefore(fields, pos - 1) + (if fields[pos - 1].rule.Required? then 1 else 0)
  }

  lemma {:induction false} RequiredTagsSnoc(fields: seq<Field>, f: Field)
    ensures RequiredTags(fields + [f]) == RequiredTags(fields) + (if f.rule.Required? then [f.tag] else [])
  {
    var last := if f.rule.Required? then [f.tag] else [];
    if fields == [] {
      assert fields + [f] == [f] && [f][1..] == [];
      assert RequiredTags([f]) == last + RequiredTags([]);
      assert last + [] == [] + last;
    } else {
      var first := if fields[0].rule.Required? then [fields[0].tag] else [];
      assert (fields + [f])[1..] == fields[1..] + [f];
      RequiredTagsSnoc(fields[1..], f);
      assert first + (RequiredTags(fields[1..]) + last) == (first + RequiredTags(fields[1..])) + last;
    }
  }

  /** Position `pos` is the required field of that index. */
  lemma {:induction false} RequiredIndex(fields: seq<Field>, pos: nat)
    requires pos <= |fields|
    ensures RequiredBefore(fields, pos) == |RequiredTags(fields[..pos])| <= |RequiredTags(fields)|
    ensures RequiredTags(fields[..pos]) <= RequiredTags(fields)
    ensures pos < |fields| && fields[pos].rule.Required? ==>
              RequiredBefore(fields, pos) < |RequiredTags(fields)| &&
              RequiredTags(fields)[RequiredBefore(fields, pos)] == fields[pos].tag
    decreases |fields| - pos
  {
    RequiredPrefix(fields, pos);
    if pos < |fields| {
      RequiredIndex(fields, pos + 1);
      assert fields[..pos + 1] == fields[..pos] + [fields[pos]];
      RequiredTagsSnoc(fields[..pos], fields[pos]);
    } else {
      assert fields[..pos] == fields;
    }
  }

  lemma {:induction false} RequiredPrefix(fields: seq<Field>, pos: nat)
    requires pos <= |fields|
    ensures RequiredBefore(fields, pos) == |RequiredTags(fields[..pos])|
  {
    if pos > 0 {
      RequiredPrefix(fields, pos - 1);
      assert fields[..pos] == fields[..pos - 1] + [fields[pos - 1]];
      RequiredTagsSnoc(fields[..pos - 1], fields[pos - 1]);
    }
  }

  /** Bytes of a struct that a field takes. */
  function MemberSize(f: Field): nat {
    if f.rule.Repeated? then f.dataSize * f.arraySize else f.dataSize
  }

  predicate InUnion(fields: seq<Field>, pos: nat)
    requires 0 < pos < |fields|
  {
    fields[pos - 1].rule.OneOf? && fields[pos].rule.OneOf? && fields[pos].delta == SIZE_MAX
  }

  /** Where the data of the field at `pos` is: a sum of sizes and deltas. */
  function DataOffset(fields: seq<Field>, pos: nat): nat
    requires pos < |fields|
  {
    if pos == 0 then fields[0].delta
    else if InUnion(fields, pos) then DataOffset(fields, pos - 1)
    else DataOffset(fields, pos - 1) + MemberSize(fields[pos - 1]) + fields[pos].delta
  }

  /** The members of a union share one place. */
  lemma {:induction false} UnionShares(fields: seq<Field>, i: nat, j: nat)
    requires i <= j < |fields| && forall k :: i < k <= j ==> InUnion(fields, k)
    ensures DataOffset(fields, i) == DataOffset(fields, j)
  {
    if i < j {
      UnionShares(fields, i, j - 1);
    }
  }

  /** A member that no other member of its union follows lies in front of all
      later ones, so that writing it touches none of them. */
  lemma {:induction false} MembersDisjoint(fields: seq<Field>, i: nat, j: nat)
    requires i < j < |fields| && !InUnion(fields, i + 1)
    ensures DataOffset(fields, i) + MemberSize(fields[i]) <= DataOffset(fields, j)
  {
    if i + 1 < j {
      MembersDisjoint(fields, i, j - 1);
    }
  }

  class FieldIter {
    const fields: seq<Field>
    var pos: nat
    var requiredFieldIndex: nat
    var dataOffset: nat

    /** On a field, or at the terminator of an empty message type; the counters
        are those of the position, however it was reached. */
    ghost predicate Valid()
      reads this
    {
      (if fields == [] then pos == 0 && requiredFieldIndex == 0
          else pos < |fields| && requiredFieldIndex == RequiredBefore(fields, pos) &&
               dataOffset == DataOffset(fields, pos))
    }

    constructor (fields: seq<Field>)
      ensures Valid() && this.fields == fields && pos == 0
    {
      this.fields, pos, requiredFieldIndex := fields, 0, 0;
      dataOffset := if fields == [] then 0 else fields[0].delta;
    }

    /** To the next field; from the last one back to the first, with `false`. */
    method Next() returns (more: bool)
      requires Valid()
      modifies this
      ensures Valid()
      ensures more <==> old(pos) + 1 < |fields|
      ensures pos == if more then old(pos) + 1 else 0
    {
      if fields == [] {
        return false;
      }
      var prev := pos;
      pos := pos + 1;
      if pos == |fields| {
        pos, requiredFieldIndex, dataOffset := 0, 0, fields[0].delta;
        return false;
      }
      if fields[prev].rule.OneOf? && fields[pos].rule.OneOf? && fields[pos].delta == SIZE_MAX {
        return true;
      }
      if fields[prev].rule.Required? {
        requiredFieldIndex := requiredFieldIndex + 1;
      }
      dataOffset := dataOffset + MemberSize(fields[prev]) + fields[pos].delta;
      more := true;
    }

    /** From wherever it is, finds the field with a tag if there is one; at the
        terminator of an empty message type, tag zero is found. */
    method FindTag(tag: nat) returns (found: bool)
      requires Valid()
      modifies this
      ensures Valid()
      ensures found <==> if fields == [] then tag == 0 else exists i :: 0 <= i < |fields| && fields[i].tag == tag
      ensures found && fields != [] ==> fields[pos].tag == tag
      ensures !found ==> pos == old(pos)
    {
      if fields == [] {
        return tag == 0;
      }
      var start := pos;
      found := fields[pos].tag == tag;
      if found {
        return;
      }
      var more := Next();
      while pos != start
        invariant Valid() && start < |fields| && fields[start].tag != tag
        invariant pos > start ==> forall i :: start <= i < pos ==> fields[i].tag != tag
        invariant pos <= start ==> forall i :: (start <= i < |fields| || 0 <= i < pos) ==> fields[i].tag != tag
        decreases if pos > start then |fields| + start - pos else start - pos
      {
        if fields[pos].tag == tag {
          return true;
        }
        more := Next();
      }
      found := false;
    }

    /** From wherever it is, seeks to the end and counts. */
    method CountRequired() returns (count: nat)
      requires Valid()
      modifies this
      ensures Valid() && count == |RequiredTags(fields)|
    {
      var n, last := 0, pos;
      var more := true;
      while more
        invariant Valid()
        invariant fields != [] && !more ==> last == |fields| - 1 && n == RequiredBefore(fields, last)
        invariant fields == [] && !more ==> n == 0
        invariant fields != [] && more ==> pos < |fields|
        invariant !more ==> pos == 0
        decreases more, |fields| - pos
      {
        n, last := requiredFieldIndex, pos;
        more := Next();
      }
      count := n;
      if fields != [] {
        if fields[last].rule.Required? {
          count := count + 1;
        }
        RequiredPrefix(fields, |fields|);
        assert fields[..|fields|] == fields;
      }
    }
  }

  // ----- The bitmap of required fields ------------------------------------

  predicate Marked(words: seq<nat>, i: nat)
    requires |words| == 2 && i < 64
  {
    Bit(words[i / 32], i % 32)
  }

  /** The two words hold the indices in `marked`. */
  ghost predicate Marks(words: seq<nat>, marked: set<nat>) {
    && |words| == 2 && words[0] < U32 && words[1] < U32
    && forall i: nat :: i < 64 ==> (Marked(words, i) <==> i in marked)
  }

  lemma OnesBits(ones: nat, r: nat)
    requires ones == Pow2(r) - 1
    ensures forall i: nat :: Bit(ones, i) == (i < r)
  {
    forall i: nat
      ensures Bit(ones, i) == (i < r)
    {
      OnesBit(r, i);
    }
  }

  /** Word `k` has exactly its first `r` bits set if those indices are marked,
      and no others are in its part. */
  lemma WordSays(words: seq<nat>, marked: set<nat>, k: nat, r: nat)
    requires Marks(words, marked) && k < 2 && r <= 32
    requires forall i :: i in marked ==> !(32 * k + r <= i < 32 * k + 32)
    ensures words[k] == Pow2(r) - 1 <==> forall i :: 32 * k <= i < 32 * k + r ==> i in marked
  {
    hide Pow2, Bit;
    Pow2Words();
    Pow2Monotone(r, 32);
    OnesBits(Pow2(r) - 1, r);
    forall i: nat | i < 32
      ensures Bit(words[k], i) <==> 32 * k + i in marked
    {
      assert Marked(words, 32 * k + i) <==> 32 * k + i in marked;
    }
    if forall i :: 32 * k <= i < 32 * k + r ==> i in marked {
      SameBits(words[k], Pow2(r) - 1, 32);
    } else {
      var i :| 32 * k <= i < 32 * k + r && i !in marked;
      assert !Bit(words[k], i - 32 * k);
    }
  }

  lemma ShiftedOnes(r: nat)
    requires 0 < r <= 32
    ensures ALL_BITS / Pow2(32 - r) == Pow2(r) - 1
  {
    hide Pow2;
    Pow2Words();
    Pow2Add(r, 32 - r);
    var p, q := Pow2(r), Pow2(32 - r);
    MulDistributes(p, 1, q);
    ModUnique(ALL_BITS, q, p - 1, q - 1);
  }

  lemma MarkWord(w: nat, k: nat)
    requires w < U32 && k < 32
    ensures Or(w, Pow2(k)) < U32
    ensures forall i :: 0 <= i < 32 ==> (Bit(Or(w, Pow2(k)), i) <==> Bit(w, i) || i == k)
  {
    hide Pow2, Or, Bit;
    Pow2Words();
    Pow2Less(k, 32);
    OrBound(w, Pow2(k), 32);
    forall i | 0 <= i < 32
      ensures Bit(Or(w, Pow2(k)), i) <==> Bit(w, i) || i == k
    {
      OrBit(w, Pow2(k), i);
      Pow2Bit(k, i);
    }
  }

  method MarkSeen(words: array<nat>, index: nat, ghost marked: set<nat>)
    requires words.Length == 2 && index < MAX_REQUIRED && Marks(words[..], marked)
    modifies words
    ensures Marks(words[..], marked + {index})
  {
    hide Or, Bit, Pow2;
    MarkWord(words[index / 32], index % 32);
    ghost var before := words[..];
    words[index / 32] := Or(words[index / 32], Pow2(index % 32));
    forall i: nat | i < 64
      ensures Marked(words[..], i) <==> i in marked + {index}
    {
      assert Marked(before, i) <==> i in marked;
    }
  }

  /** The test on the words passes exactly when every index below the count,
      of the 64 there is room for, is marked. */
  method AllSeen(words: array<nat>, count: nat, ghost marked: set<nat>) returns (ok: bool)
    requires words.Length == 2 && Marks(words[..], marked)
    requires forall i :: i in marked ==> i < count
    ensures ok <==> forall i :: 0 <= i < count && i < MAX_REQUIRED ==> i in marked
  {
    hide Bit, Pow2, Marks;
    var n := if count > MAX_REQUIRED then MAX_REQUIRED else count;
    var whole, rest := n / 32, n % 32;
    Pow2Words();
    var i := 0;
    while i < whole
      invariant i <= whole
      invariant forall j :: 0 <= j < 32 * i ==> j in marked
    {
      WordSays(words[..], marked, i, 32);
      if words[i] != ALL_BITS {
        return false;
      }
      i := i + 1;
    }
    if rest != 0 {
      WordSays(words[..], marked, whole, rest);
      ShiftedOnes(rest);
      if words[whole] != ALL_BITS / Pow2(32 - rest) {
        return false;
      }
    }
    ok := true;
  }
}
