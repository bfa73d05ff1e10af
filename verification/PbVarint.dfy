/** Base-128 varints, zigzag and little-endian integers of Protocol Buffers. */
module PbVarint {
  import opened Bits
  import opened Bytes

  const U32: nat := 0x1_0000_0000
  const U64: nat := 0x1_0000_0000_0000_0000
  const U63: nat := 0x8000_0000_0000_0000
  const MAX_VARINT_BYTES: nat := 10

  // ----- The meaning of a varint ------------------------------------------

  predicate Continues(b: byte) { b >= 0x80 }

  /** The length of the varint at the front of `s`, if it ends. */
  function VarintLength(s: seq<byte>): (n: Option<nat>)
    ensures n.Some? ==> 0 < n.value <= |s| && !Continues(s[n.value - 1])
    ensures n.Some? ==> forall i :: 0 <= i < n.value - 1 ==> Continues(s[i])
    ensures n.None? ==> forall i :: 0 <= i < |s| ==> Continues(s[i])
  {
    if s == [] then None
    else if !Continues(s[0]) then Some(1)
    else match VarintLength(s[1..]) case None => None case Some(n) => Some(n + 1)
  }

  /** Seven bits a byte, the first byte least significant. */
  function Base128(s: seq<byte>): nat {
    if s == [] then 0 else s[0] % 0x80 + 0x80 * Base128(s[1..])
  }

  lemma {:induction false} Base128Snoc(s: seq<byte>, b: byte)
    ensures Base128(s + [b]) == Base128(s) + Pow2(7 * |s|) * (b % 0x80)
  {
    if s == [] {
      assert s + [b] == [b];
      assert Base128([b]) == b % 0x80 + 0x80 * Base128([]);
    } else {
      assert (s + [b])[1..] == s[1..] + [b];
      Base128Snoc(s[1..], b);
      Pow2Add(7, 7 * |s[1..]|);
      Pow2Seven();
      Rearrange(Base128(s[1..]), Pow2(7 * |s[1..]|), b % 0x80);
    }
  }

  lemma Rearrange(x: nat, p: nat, b: nat)
    ensures 0x80 * (x + p * b) == 0x80 * x + (0x80 * p) * b
  {
  }

  lemma Pow2Seven()
    ensures Pow2(7) == 0x80 && Pow2(4) == 16 && Pow2(3) == 8
  {
  }

  lemma Pow2Words()
    ensures Pow2(8) == 0x100 && Pow2(32) == U32 && Pow2(64) == U64
  {
    Pow2Seven();
    Pow2Add(4, 4);
    Pow2Add(8, 8);
    Pow2Add(16, 16);
    Pow2Add(32, 32);
  }

  lemma {:induction false} Base128Bound(s: seq<byte>)
    ensures Base128(s) < Pow2(7 * |s|)
    decreases |s|
  {
    if s != [] {
      Base128Bound(s[1..]);
      Pow2Add(7, 7 * |s[1..]|);
      Pow2Seven();
    }
  }

  // ----- Encoding ---------------------------------------------------------

  function EncodeVarint(v: nat): (s: seq<byte>)
    ensures |s| > 0
  {
    if v < 0x80 then [v] else [v % 0x80 + 0x80] + EncodeVarint(v / 0x80)
  }

  /** An encoding is one varint with the value encoded. */
  lemma {:induction false} EncodedVarint(v: nat, rest: seq<byte>)
    ensures VarintLength(EncodeVarint(v) + rest) == Some(|EncodeVarint(v)|)
    ensures Base128(EncodeVarint(v)) == v
    decreases v
  {
    var s := EncodeVarint(v);
    if v < 0x80 {
      assert Base128(s) == s[0] % 0x80 + 0x80 * Base128(s[1..]);
    } else {
      EncodedVarint(v / 0x80, rest);
      assert (s + rest)[1..] == EncodeVarint(v / 0x80) + rest;
      assert s[1..] == EncodeVarint(v / 0x80);
    }
  }

  /** A value below 2^(7n) takes at most n bytes; 64 bits take at most ten. */
  lemma {:induction false} EncodedLength(v: nat, n: nat)
    requires n > 0 && v < Pow2(7 * n)
    ensures |EncodeVarint(v)| <= n
    decreases n
  {
    Pow2Seven();
    if v >= 0x80 {
      assert n > 1;
      Pow2Add(7, 7 * (n - 1));
      EncodedLength(v / 0x80, n - 1);
    }
  }

  lemma SixtyFourBits(v: nat)
    requires v < U64
    ensures |EncodeVarint(v)| <= MAX_VARINT_BYTES
  {
    Pow2Words();
    Pow2Less(64, 70);
    EncodedLength(v, 10);
  }

  /** `s` without the mark on its last byte. */
  function Unmarked(s: seq<byte>): seq<byte>
    requires s != [] && Continues(s[|s| - 1])
  {
    s[..|s| - 1] + [s[|s| - 1] - 0x80]
  }

  lemma EncodeStep(front: seq<byte>, v: nat)
    ensures var marked := front + [v % 0x80 + 0x80];
            front + EncodeVarint(v) == if v < 0x80 then Unmarked(marked) else marked + EncodeVarint(v / 0x80)
  {
  }

  /** The encoder's buffer of ten bytes is never overrun. */
  method EncodeToBuffer(value: nat) returns (buffer: array<byte>, i: nat)
    requires value < U64
    ensures buffer.Length == MAX_VARINT_BYTES && i <= MAX_VARINT_BYTES
    ensures buffer[..i] == EncodeVarint(value)
  {
    buffer := new byte[10];
    if value <= 0x7F {
      buffer[0] := value;
      return buffer, 1;
    }
    SixtyFourBits(value);
    hide EncodeVarint;
    var v := value;
    i := 0;
    while v != 0
      invariant i <= |EncodeVarint(value)|
      invariant v != 0 ==> buffer[..i] + EncodeVarint(v) == EncodeVarint(value)
      invariant v == 0 ==> i > 0 && Continues(buffer[i - 1]) && Unmarked(buffer[..i]) == EncodeVarint(value)
    {
      EncodeStep(buffer[..i], v);
      ghost var before := buffer[..i];
      buffer[i] := v % 0x80 + 0x80;
      assert buffer[..i + 1] == before + [v % 0x80 + 0x80];
      v := v / 0x80;
      i := i + 1;
    }
    ghost var marked := buffer[..i];
    buffer[i - 1] := buffer[i - 1] - 0x80;
    assert buffer[..i] == Unmarked(marked);
  }

  // ----- The 64-bit decoder -----------------------------------------------

  /** A varint of at most ten bytes, in 64 bits; and what follows it. */
  function Varint64(s: seq<byte>): (r: Option<(nat, seq<byte>)>)
    ensures r.Some? ==> r.value.0 < U64 && |r.value.1| < |s|
  {
    match VarintLength(s)
    case None => None
    case Some(n) => if n <= MAX_VARINT_BYTES then Some((Base128(s[..n]) % U64, s[n..])) else None
  }

  /** ORing in bits above all those already there, in a word of `w` bits. */
  lemma OrShift(x: nat, b: nat, k: nat, w: nat)
    requires x < Pow2(k)
    ensures Or(x % Pow2(w), Shl(b, k, w)) == (x + b * Pow2(k)) % Pow2(w)
  {
    hide Or, Shl, Bit, Pow2;
    OrDisjoint(x, b, k);
    ShlBound(b, k, w);
    OrBound(x % Pow2(w), Shl(b, k, w), w);
    var whole := Or(x, b * Pow2(k));
    forall i | 0 <= i < w
      ensures Bit(Or(x % Pow2(w), Shl(b, k, w)), i) == Bit(whole % Pow2(w), i)
    {
      OrBit(x % Pow2(w), Shl(b, k, w), i);
      OrBit(x, b * Pow2(k), i);
      ModBit(x, w, i);
      ModBit(whole, w, i);
      ShiftedBit(b, k, i);
      ShlBit(b, k, w, i);
    }
    SameBits(Or(x % Pow2(w), Shl(b, k, w)), whole % Pow2(w), w);
  }

  /** The next seven bits of a varint. */
  function Insert(result: nat, b: byte, bitpos: nat, w: nat): nat {
    Or(result, Shl(b % 0x80, bitpos, w))
  }

  lemma InsertNext(s: seq<byte>, b: byte, w: nat)
    ensures Insert(Base128(s) % Pow2(w), b, 7 * |s|, w) == Base128(s + [b]) % Pow2(w)
  {
    hide Or, Shl, Pow2, Base128;
    Base128Snoc(s, b);
    Base128Bound(s);
    OrShift(Base128(s), b % 0x80, 7 * |s|, w);
    Commute(b % 0x80, Pow2(7 * |s|));
  }

  lemma Commute(a: nat, b: nat)
    ensures a * b == b * a
  {
  }

  lemma EmptyBase128(s: seq<byte>)
    requires s == []
    ensures Base128(s) == 0
  {
  }

  lemma VarintLengthIs(s: seq<byte>, n: nat)
    requires 0 < n <= |s| && !Continues(s[n - 1]) && forall i :: 0 <= i < n - 1 ==> Continues(s[i])
    ensures VarintLength(s) == Some(n)
  {
  }

  /** Every 64-bit value is decoded from its encoding, whatever follows. */
  lemma VarintRoundTrip(v: nat, rest: seq<byte>)
    requires v < U64
    ensures Varint64(EncodeVarint(v) + rest) == Some((v, rest))
  {
    EncodedVarint(v, rest);
    SixtyFourBits(v);
    var s := EncodeVarint(v);
    assert (s + rest)[..|s|] == s && (s + rest)[|s|..] == rest;
  }

  // ----- The 32-bit decoder -----------------------------------------------

  /** The byte at `bitpos` overflows 32 bits, unless it extends the sign. */
  predicate Overflows(result: nat, b: byte, bitpos: nat) {
    b % 0x80 != 0 && (result < 0x8000_0000 || b != if bitpos < 63 then 0xFF else 0x01)
  }

  function Insert32(result: nat, b: byte, bitpos: nat): nat {
    if bitpos >= 32 then result else Insert(result, b, bitpos, 32)
  }

  /** From the second byte on; `bitpos` is an 8-bit counter. */
  function Varint32From(s: seq<byte>, bitpos: nat, result: nat): (r: Option<(nat, seq<byte>)>)
    ensures r.Some? ==> |r.value.1| < |s|
    decreases |s|
  {
    if s == [] then None else
    var b, next := s[0], (bitpos + 7) % 256;
    if bitpos >= 32 && Overflows(result, b, bitpos) then None
    else if Continues(b) then Varint32From(s[1..], next, Insert32(result, b, bitpos))
    else if next == 35 && b % 0x80 >= 0x10 then None
    else Some((Insert32(result, b, bitpos), s[1..]))
  }

  /** The decoder used for tags, lengths and sizes. */
  function Varint32(s: seq<byte>): (r: Option<(nat, seq<byte>)>)
    ensures r.Some? ==> |r.value.1| < |s|
  {
    if s == [] then None
    else if !Continues(s[0]) then Some((s[0], s[1..]))
    else Varint32From(s[1..], 7, s[0] % 0x80)
  }

  lemma HighBitsVanish(s: seq<byte>, b: byte)
    requires |s| >= 5
    ensures Base128(s + [b]) % U32 == Base128(s) % U32
  {
    hide Base128, Pow2;
    Base128Snoc(s, b);
    Pow2Words();
    Pow2Add(32, 7 * |s| - 32);
    Regroup(Pow2(7 * |s| - 32), b % 0x80);
    AddMultiple(Base128(s), Pow2(7 * |s| - 32) * (b % 0x80));
  }

  lemma Regroup(p: nat, b: nat)
    ensures (U32 * p) * b == U32 * (p * b)
  {
  }

  lemma AddMultiple(x: nat, q: nat)
    ensures (x + U32 * q) % U32 == x % U32
  {
  }

  lemma Insert32Next(s: seq<byte>, b: byte)
    ensures Insert32(Base128(s) % U32, b, 7 * |s|) == Base128(s + [b]) % U32
  {
    hide Insert, Base128;
    Pow2Words();
    if 7 * |s| >= 32 {
      HighBitsVanish(s, b);
    } else {
      InsertNext(s, b, 32);
    }
  }

  /** Within ten bytes, what the 32-bit decoder accepts is one varint, and its
      result is the low 32 bits. */
  lemma {:induction false} Varint32FromMeans(s: seq<byte>, i: nat, v: nat, rest: seq<byte>)
    requires 1 <= i <= |s| && forall k :: 0 <= k < i ==> Continues(s[k])
    requires Varint32From(s[i..], 7 * i, Base128(s[..i]) % U32) == Some((v, rest))
    requires |s| - |rest| <= MAX_VARINT_BYTES
    ensures |rest| < |s| && VarintLength(s) == Some(|s| - |rest|)
    ensures rest == s[|s| - |rest|..] && v == Base128(s[..|s| - |rest|]) % U32
    decreases |s| - i
  {
    hide Insert32, Base128, Overflows, VarintLength;
    var b := s[i];
    assert s[..i] + [b] == s[..i + 1] && s[i..][1..] == s[i + 1..];
    Insert32Next(s[..i], b);
    if Continues(b) {
      Varint32FromMeans(s, i + 1, v, rest);
    } else {
      VarintLengthIs(s, i + 1);
    }
  }

  /** An encoding of at most ten bytes that the 32-bit decoder accepts, the
      64-bit decoder accepts too, with the same bytes read and the same low 32
      bits. */
  lemma Varint32Agrees(s: seq<byte>)
    requires Varint32(s).Some? && |s| - |Varint32(s).value.1| <= MAX_VARINT_BYTES
    ensures Varint64(s).Some?
    ensures Varint64(s).value.1 == Varint32(s).value.1
    ensures Varint64(s).value.0 % U32 == Varint32(s).value.0
  {
    hide Base128, Varint32From;
    FirstByte(s);
    if Continues(s[0]) {
      Varint32FromMeans(s, 1, Varint32(s).value.0, Varint32(s).value.1);
    } else {
      VarintLengthIs(s, 1);
    }
    LowBits(Base128(s[..|s| - |Varint32(s).value.1|]));
  }

  lemma LowBits(x: nat)
    ensures (x % U64) % U32 == x % U32
  {
  }

  /** Ten bytes are the exact bound: beyond it the 64-bit decoder refuses. */
  lemma Varint32AgreesExactly(s: seq<byte>)
    requires Varint32(s).Some?
    ensures Varint64(s).Some? && Varint64(s).value.1 == Varint32(s).value.1 <==>
            |s| - |Varint32(s).value.1| <= MAX_VARINT_BYTES
  {
    if |s| - |Varint32(s).value.1| <= MAX_VARINT_BYTES {
      Varint32Agrees(s);
    }
  }

  /** And the bound is reached: eleven bytes that one decoder accepts and the
      other refuses. */
  lemma ElevenBytes()
    ensures var s := [0x80, 0x80, 0x80, 0x80, 0x80, 0x80, 0x80, 0x80, 0x80, 0x80, 0];
            Varint32(s) == Some((0, [])) && Varint64(s).None?
  {
    hide Varint32From;
    var s: seq<byte> := [0x80, 0x80, 0x80, 0x80, 0x80, 0x80, 0x80, 0x80, 0x80, 0x80, 0];
    ElevenZeros(s, 1);
    VarintLengthIs(s, 11);
  }

  lemma {:induction false} ElevenZeros(s: seq<byte>, i: nat)
    requires |s| == 11 && 1 <= i <= 10
    requires forall k :: 0 <= k < 11 ==> s[k] == if k < 10 then 0x80 else 0
    ensures Varint32From(s[i..], 7 * i, 0) == Some((0, []))
    decreases 11 - i
  {
    hide Pow2;
    assert s[i..][1..] == s[i + 1..];
    assert Insert32(0, s[i], 7 * i) == 0 by { ZeroInsert(7 * i); }
    if i < 10 {
      ElevenZeros(s, i + 1);
    }
  }

  lemma ZeroInsert(bitpos: nat)
    ensures Insert(0, 0, bitpos, 32) == 0 && Insert(0, 0x80, bitpos, 32) == 0
  {
    hide Pow2;
    assert 0 * Pow2(bitpos) == 0;
    assert Shl(0, bitpos, 32) == 0;
  }

  lemma {:induction false} Varint32FromAccepts(s: seq<byte>, n: nat, i: nat)
    requires 1 <= i < n <= 5 && n <= |s| && VarintLength(s) == Some(n)
    requires Base128(s[..n]) < U32
    ensures Varint32From(s[i..], 7 * i, Base128(s[..i]) % U32) == Some((Base128(s[..n]), s[n..]))
    decreases n - i
  {
    hide Insert, Base128, VarintLength;
    var b := s[i];
    assert Continues(b) <==> i < n - 1;
    assert s[..i] + [b] == s[..i + 1] && s[i..][1..] == s[i + 1..];
    Insert32Next(s[..i], b);
    if i + 1 < n {
      Varint32FromAccepts(s, n, i + 1);
    } else if n == 5 {
      FifthByte(s[..4], b);
    }
  }

  lemma FifthByte(s: seq<byte>, b: byte)
    requires |s| == 4 && Base128(s + [b]) < U32
    ensures b % 0x80 < 0x10
  {
    Base128Snoc(s, b);
    Pow2Seven();
    assert Pow2(28) == 0x1000_0000 by { Pow2Add(7, 7); Pow2Add(14, 14); }
  }

  /** A value below 2^32 is decoded by the 32-bit decoder. */
  lemma Varint32RoundTrip(v: nat, rest: seq<byte>)
    requires v < U32
    ensures Varint32(EncodeVarint(v) + rest) == Some((v, rest))
  {
    hide EncodeVarint, Varint32From, Base128;
    var e := EncodeVarint(v);
    var s := e + rest;
    EncodedVarint(v, rest);
    FiveBytes(v);
    assert s[..|e|] == e && s[|e|..] == rest;
    FirstByte(s);
    if Continues(s[0]) {
      Varint32FromAccepts(s, |e|, 1);
    } else {
      VarintLengthIs(s, 1);
    }
  }

  lemma FirstByte(s: seq<byte>)
    requires s != []
    ensures Base128(s[..1]) == s[0] % 0x80
  {
  }

  lemma FiveBytes(v: nat)
    requires v < U32
    ensures |EncodeVarint(v)| <= 5
  {
    Pow2Words();
    Pow2Less(32, 35);
    EncodedLength(v, 5);
  }

  lemma {:induction false} LastByteNonZero(v: nat)
    requires v > 0
    ensures var e := EncodeVarint(v); e[|e| - 1] != 0
  {
    if v >= 0x80 {
      LastByteNonZero(v / 0x80);
    }
  }

  /** Where the encoding of a value of 33 to 63 bits ends, and how. */
  lemma LongEncoding(v: nat)
    requires U32 <= v < U63
    ensures var e := EncodeVarint(v);
            5 <= |e| <= 9 && 0 < e[|e| - 1] < 0x80 && (|e| == 5 ==> e[4] >= 0x10)
  {
    var e := EncodeVarint(v);
    LastByteNonZero(v);
    EncodedVarint(v, []);
    assert e + [] == e;
    Pow2Seven();
    Pow2Words();
    assert Pow2(14) == 0x4000 by { Pow2Add(7, 7); }
    assert Pow2(28) == 0x1000_0000 by { Pow2Add(14, 14); }
    assert Pow2(63) == U63 by { Pow2Add(1, 63); }
    hide EncodeVarint, Base128;
    EncodedLength(v, 9);
    Base128Bound(e);
    if |e| <= 4 {
      Pow2Monotone(7 * |e|, 28);
    }
    if |e| == 5 {
      assert e == e[..4] + [e[4]];
      Base128Snoc(e[..4], e[4]);
      Base128Bound(e[..4]);
    }
  }

  lemma {:induction false} Varint32FromRefuses(s: seq<byte>, n: nat, i: nat, result: nat)
    requires 5 <= n <= 9 && 1 <= i < n <= |s|
    requires forall k :: 0 <= k < n - 1 ==> Continues(s[k])
    requires 0 < s[n - 1] < 0x80 && (n == 5 ==> s[4] >= 0x10)
    ensures Varint32From(s[i..], 7 * i, result).None?
    decreases n - i
  {
    hide Insert;
    assert s[i..][0] == s[i] && s[i..][1..] == s[i + 1..];
    if i < n - 1 {
      Varint32FromRefuses(s, n, i + 1, Insert32(result, s[i], 7 * i));
    }
  }

  /** The 32-bit decoder refuses every longer value, up to 63 bits. */
  lemma Varint32Refuses(v: nat, rest: seq<byte>)
    requires U32 <= v < U63
    ensures Varint32(EncodeVarint(v) + rest).None?
  {
    LongEncoding(v);
    EncodedVarint(v, rest);
    hide EncodeVarint, Varint32From;
    var s := EncodeVarint(v) + rest;
    Varint32FromRefuses(s, |EncodeVarint(v)|, 1, s[0] % 0x80);
  }

  // ----- Signed values ----------------------------------------------------

  /** Two's complement in `w` values: 2^8, 2^16, 2^32 or 2^64. */
  function ToUnsigned(x: int, w: nat): nat
    requires w > 0
  {
    x % w
  }

  function ToSigned(u: nat, w: nat): int
    requires w > 0
  {
    if u % w < w / 2 then u % w else u % w - w
  }

  predicate InSigned(x: int, w: int) { -w <= 2 * x < w }

  lemma TwosComplement(x: int, w: nat)
    requires w == 0x100 || w == 0x1_0000 || w == U32 || w == U64
    ensures InSigned(x, w) <==> ToSigned(ToUnsigned(x, w), w) == x
  {
  }

  /** The encoder's shifts and complement on 64 bits. */
  function Zigzag(x: int): nat {
    if x < 0 then U64 - 1 - ToUnsigned(x, U64) * 2 % U64 else ToUnsigned(x, U64) * 2 % U64
  }

  function Unzigzag(u: nat): int {
    if u % 2 == 1 then ToSigned(ToUnsigned(U64 - 1 - u / 2, U64), U64) else ToSigned(u / 2, U64)
  }

  lemma ZigzagIs(x: int)
    requires InSigned(x, U64)
    ensures Zigzag(x) == if x < 0 then -2 * x - 1 else 2 * x
  {
  }

  lemma UnzigzagIs(u: nat)
    requires u < U64
    ensures Unzigzag(u) == if u % 2 == 1 then -(u / 2) - 1 else u / 2
  {
  }

  /** Zigzag is a bijection between the signed and the unsigned 64-bit values,
      that keeps small magnitudes small. */
  lemma ZigzagBijection(x: int, u: nat)
    requires InSigned(x, U64) && u < U64
    ensures Zigzag(x) < U64 && Unzigzag(Zigzag(x)) == x
    ensures InSigned(Unzigzag(u), U64) && Zigzag(Unzigzag(u)) == u
    ensures Zigzag(x) == if x < 0 then -2 * x - 1 else 2 * x
  {
    hide Zigzag, Unzigzag;
    ZigzagIs(x);
    UnzigzagIs(Zigzag(x));
    UnzigzagIs(u);
    ZigzagIs(Unzigzag(u));
  }

  // ----- Fixed-width integers ---------------------------------------------

  function ToLE(x: nat, n: nat): (s: seq<byte>)
    ensures |s| == n
  {
    if n == 0 then [] else [x % 256] + ToLE(x / 256, n - 1)
  }

  function FromLE(s: seq<byte>): nat {
    if s == [] then 0 else s[0] + 256 * FromLE(s[1..])
  }

  lemma {:induction false} LittleEndianRoundTrip(x: nat, n: nat)
    requires x < Range(n)
    ensures FromLE(ToLE(x, n)) == x
  {
    if n > 0 {
      LittleEndianRoundTrip(x / 256, n - 1);
      assert ToLE(x, n)[1..] == ToLE(x / 256, n - 1);
    }
  }

}
