/** Byte strings, and the big-endian integers the record and handshake headers
    are made of. */
module Bytes {

  type byte = x: nat | x < 256

  datatype Option<+T> = None | Some(value: T)

  /** 256^n, the number of values an n-byte field can take. */
  function Range(n: nat): (r: nat)
    ensures 0 < r
  {
    if n == 0 then 1 else 256 * Range(n - 1)
  }

  function ToBE(x: nat, n: nat): (s: seq<byte>)
    ensures |s| == n
  {
    if n == 0 then [] else ToBE(x / 256, n - 1) + [x % 256]
  }

  function FromBE(s: seq<byte>): nat {
    if s == [] then 0 else FromBE(s[..|s| - 1]) * 256 + s[|s| - 1]
  }

  lemma {:induction false} BigEndianRoundTrip(x: nat, n: nat)
    requires x < Range(n)
    ensures FromBE(ToBE(x, n)) == x
  {
    if n > 0 {
      var s := ToBE(x, n);
      assert s[..|s| - 1] == ToBE(x / 256, n - 1);
      BigEndianRoundTrip(x / 256, n - 1);
    }
  }

  lemma {:induction false} FromBEBound(s: seq<byte>)
    ensures FromBE(s) < Range(|s|)
  {
    if s != [] {
      FromBEBound(s[..|s| - 1]);
    }
  }

  lemma {:induction false} BigEndianUnique(s: seq<byte>)
    ensures ToBE(FromBE(s), |s|) == s
  {
    if s != [] {
      BigEndianUnique(s[..|s| - 1]);
    }
  }

  /** A number from its high part and its lowest byte. */
  function Pair(high: nat, low: byte): nat { high * 0x100 + low }

  lemma TwoBytes(x: nat)
    requires x < 0x1_0000
    ensures var s := ToBE(x, 2); Pair(s[0], s[1]) == x
  {
    assert ToBE(x / 256, 1) == ToBE(x / 256 / 256, 0) + [x / 256 % 256];
  }

  lemma ThreeBytes(x: nat)
    requires x < 0x100_0000
    ensures var s := ToBE(x, 3); Pair(Pair(s[0], s[1]), s[2]) == x
  {
    TwoBytes(x / 256);
  }

  lemma FromThree(s: seq<byte>)
    requires |s| == 3
    ensures FromBE(s) == Pair(Pair(s[0], s[1]), s[2])
  {
    assert s[..2][..1] == s[..1] && s[..1][..0] == [];
    assert FromBE(s[..1]) == FromBE([]) * 256 + s[0];
    assert FromBE(s[..2]) == FromBE(s[..2][..1]) * 256 + s[..2][1];
  }

  lemma SixBytes(x: nat)
    requires x < 0x1_0000_0000_0000
    ensures var s := ToBE(x, 6); Pair(Pair(Pair(Pair(Pair(s[0], s[1]), s[2]), s[3]), s[4]), s[5]) == x
  {
    assert ToBE(x, 6) == ToBE(x / 256, 5) + [x % 256];
    assert ToBE(x / 256, 5) == ToBE(x / 256 / 256, 4) + [x / 256 % 256];
    assert ToBE(x / 256 / 256, 4) == ToBE(x / 256 / 256 / 256, 3) + [x / 256 / 256 % 256];
    ThreeBytes(x / 256 / 256 / 256);
  }

  /** The standard widths. */
  lemma Ranges()
    ensures Range(1) == 0x100 && Range(2) == 0x1_0000 && Range(3) == 0x100_0000
    ensures Range(4) == 0x1_0000_0000 && Range(6) == 0x1_0000_0000_0000
    ensures Range(8) == 0x1_0000_0000_0000_0000
  {
  }

  function Min(a: int, b: int): int { if a < b then a else b }

  lemma AppendAssoc<T>(a: seq<T>, b: seq<T>, c: seq<T>)
    ensures a + (b + c) == (a + b) + c
  {
  }

  /** The set of positions `lo <= p < hi`. */
  function Interval(lo: nat, hi: nat): (s: set<nat>)
    ensures forall p: nat :: p in s <==> lo <= p < hi
  {
    if lo >= hi then {} else Interval(lo, hi - 1) + {hi - 1}
  }

  /** Copies bytes into a buffer, byte by byte. */
  method CopyInto(data: array<byte>, at: nat, body: seq<byte>)
    requires at + |body| <= data.Length
    modifies data
    ensures forall j :: 0 <= j < |body| ==> data[at + j] == body[j]
    ensures forall j :: 0 <= j < data.Length && !(at <= j < at + |body|) ==> data[j] == old(data[j])
    ensures data[..at] == old(data[..at]) && data[at..at + |body|] == body
  {
    for i := 0 to |body|
      invariant forall j :: 0 <= j < i ==> data[at + j] == body[j]
      invariant forall j :: 0 <= j < data.Length && !(at <= j < at + i) ==> data[j] == old(data[j])
    {
      data[at + i] := body[i];
    }
  }
}
