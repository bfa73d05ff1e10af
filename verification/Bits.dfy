/** Unsigned machine words as naturals below 2^w, with the C bit operators
    written out arithmetically.  Shifts that leave the word are cut with an
    explicit `% Pow2(w)` by the caller. */
module Bits {

  function Pow2(n: nat): (r: nat)
    ensures 0 < r
  {
    if n == 0 then 1 else 2 * Pow2(n - 1)
  }

  /** Bit `i` of `x`. */
  predicate Bit(x: nat, i: nat) {
    if i == 0 then x % 2 == 1 else Bit(x / 2, i - 1)
  }

  function Or(a: nat, b: nat): nat
    decreases a + b
  {
    if a == 0 then b else if b == 0 then a
    else (if a % 2 == 1 || b % 2 == 1 then 1 else 0) + 2 * Or(a / 2, b / 2)
  }

  function And(a: nat, b: nat): nat
    decreases a
  {
    if a == 0 || b == 0 then 0
    else (if a % 2 == 1 && b % 2 == 1 then 1 else 0) + 2 * And(a / 2, b / 2)
  }

  function Xor(a: nat, b: nat): nat
    decreases a + b
  {
    if a == 0 then b else if b == 0 then a
    else (if a % 2 != b % 2 then 1 else 0) + 2 * Xor(a / 2, b / 2)
  }

  /** `x << s` in a `w`-bit word. */
  function Shl(x: nat, s: nat, w: nat): nat {
    (x * Pow2(s)) % Pow2(w)
  }

  /** `~x` in a `w`-bit word. */
  function Not(x: nat, w: nat): nat
    requires x < Pow2(w)
  {
    Pow2(w) - 1 - x
  }

  lemma {:induction false} Pow2Add(a: nat, b: nat)
    ensures Pow2(a + b) == Pow2(a) * Pow2(b)
  {
    if a == 0 {
    } else {
      Pow2Add(a - 1, b);
      assert Pow2(a + b) == 2 * Pow2(a - 1 + b);
    }
  }

  lemma {:induction false} Pow2Monotone(a: nat, b: nat)
    requires a <= b
    ensures Pow2(a) <= Pow2(b)
  {
    if a < b {
      Pow2Monotone(a, b - 1);
    }
  }

  lemma Pow2Less(a: nat, b: nat)
    requires a < b
    ensures Pow2(a) < Pow2(b)
  {
    Pow2Monotone(a + 1, b);
  }

  lemma ShlBound(x: nat, s: nat, w: nat)
    ensures Shl(x, s, w) < Pow2(w)
  {
  }

  lemma {:induction false} ZeroBit(i: nat)
    ensures !Bit(0, i)
  {
    if i > 0 {
      ZeroBit(i - 1);
    }
  }

  lemma {:induction false} OrBit(a: nat, b: nat, i: nat)
    ensures Bit(Or(a, b), i) == (Bit(a, i) || Bit(b, i))
    decreases i
  {
    ZeroBit(i);
    if a != 0 && b != 0 && i > 0 {
      OrBit(a / 2, b / 2, i - 1);
    }
  }

  lemma {:induction false} AndBit(a: nat, b: nat, i: nat)
    ensures Bit(And(a, b), i) == (Bit(a, i) && Bit(b, i))
    decreases i
  {
    ZeroBit(i);
    if a != 0 && b != 0 && i > 0 {
      AndBit(a / 2, b / 2, i - 1);
    }
  }

  lemma {:induction false} XorBit(a: nat, b: nat, i: nat)
    ensures Bit(Xor(a, b), i) == (Bit(a, i) != Bit(b, i))
    decreases i
  {
    ZeroBit(i);
    if a != 0 && b != 0 && i > 0 {
      XorBit(a / 2, b / 2, i - 1);
    }
  }

  lemma {:induction false} Pow2Bit(k: nat, i: nat)
    ensures Bit(Pow2(k), i) == (i == k)
    decreases k
  {
    if k == 0 {
      if i > 0 {
        ZeroBit(i - 1);
      }
    } else if i > 0 {
      Pow2Bit(k - 1, i - 1);
    }
  }

  /** The word `2^k - 1` has exactly its `k` low bits set. */
  lemma {:induction false} OnesBit(k: nat, i: nat)
    ensures Bit(Pow2(k) - 1, i) == (i < k)
    decreases k
  {
    if k == 0 {
      ZeroBit(i);
    } else if i > 0 {
      assert (Pow2(k) - 1) / 2 == Pow2(k - 1) - 1;
      OnesBit(k - 1, i - 1);
    }
  }

  /** Cutting a word at width `w` keeps the bits below `w` and clears the rest. */
  lemma {:induction false} ModBit(x: nat, w: nat, i: nat)
    ensures Bit(x % Pow2(w), i) == (i < w && Bit(x, i))
    decreases w
  {
    if w == 0 {
      assert x % 1 == 0;
      ZeroBit(i);
    } else {
      HalfMod(x, w);
      if i > 0 {
        ModBit(x / 2, w - 1, i - 1);
      }
    }
  }

  lemma HalfMod(x: nat, w: nat)
    requires w > 0
    ensures (x % Pow2(w)) / 2 == (x / 2) % Pow2(w - 1)
    ensures (x % Pow2(w)) % 2 == x % 2
  {
    hide Pow2, IsHalf;
    assert IsHalf(Pow2(w - 1), Pow2(w)) by {
      DoublePow2(w);
    }
    HalfOf(x, Pow2(w - 1), Pow2(w), x / Pow2(w), x % Pow2(w));
  }

  predicate IsHalf(p: nat, d: nat) {
    d == 2 * p
  }

  lemma DoublePow2(w: nat)
    requires w > 0
    ensures IsHalf(Pow2(w - 1), Pow2(w))
  {
  }

  lemma HalfOf(x: nat, p: nat, d: nat, q: nat, r: nat)
    requires IsHalf(p, d) && x == q * d + r && r < d
    ensures r / 2 == (x / 2) % p && r % 2 == x % 2
  {
    var m := q * p;
    assert q * d == 2 * m;
    ModUnique(x / 2, p, q, r / 2);
  }

  lemma MulAtLeast(a: nat, d: nat)
    requires a >= 1
    ensures a * d >= d
  {
  }

  lemma MulDistributes(a: int, b: int, d: int)
    ensures (a - b) * d == a * d - b * d
  {}

  /** Quotient and remainder are unique. */
  lemma ModUnique(x: nat, d: nat, q: nat, r: nat)
    requires d > 0 && r < d && x == q * d + r
    ensures x / d == q && x % d == r
  {
    var q', r' := x / d, x % d;
    assert x == q' * d + r' && 0 <= r' < d;
    if q < q' {
      MulDistributes(q', q, d);
      MulAtLeast(q' - q, d);
    } else if q > q' {
      MulDistributes(q, q', d);
      MulAtLeast(q - q', d);
    }
  }

  lemma {:induction false} ShiftedBit(x: nat, s: nat, i: nat)
    ensures Bit(x * Pow2(s), i) == (i >= s && Bit(x, i - s))
    decreases s
  {
    if s > 0 {
      assert x * Pow2(s) == 2 * (x * Pow2(s - 1));
      if i > 0 {
        ShiftedBit(x, s - 1, i - 1);
      }
    }
  }

  lemma ShlBit(x: nat, s: nat, w: nat, i: nat)
    ensures Bit(Shl(x, s, w), i) == (i < w && i >= s && Bit(x, i - s))
  {
    ModBit(x * Pow2(s), w, i);
    ShiftedBit(x, s, i);
  }

  lemma {:induction false} NotBit(x: nat, w: nat, i: nat)
    requires x < Pow2(w)
    ensures Bit(Not(x, w), i) == (i < w && !Bit(x, i))
    decreases w
  {
    if w == 0 {
      ZeroBit(i);
    } else {
      assert Not(x, w) / 2 == Not(x / 2, w - 1);
      if i > 0 {
        NotBit(x / 2, w - 1, i - 1);
      }
    }
  }

  /** Words of one width with the same bits are the same word. */
  lemma {:induction false} SameBits(a: nat, b: nat, w: nat)
    requires a < Pow2(w) && b < Pow2(w)
    requires forall i :: 0 <= i < w ==> Bit(a, i) == Bit(b, i)
    ensures a == b
    decreases w
  {
    if w > 0 {
      assert Bit(a, 0) == Bit(b, 0);
      forall i | 0 <= i < w - 1
        ensures Bit(a / 2, i) == Bit(b / 2, i)
      {
        assert Bit(a, i + 1) == Bit(b, i + 1);
      }
      SameBits(a / 2, b / 2, w - 1);
    }
  }

  lemma {:induction false} OrBound(a: nat, b: nat, w: nat)
    requires a < Pow2(w) && b < Pow2(w)
    ensures Or(a, b) < Pow2(w)
    decreases w
  {
    if w > 0 && a != 0 && b != 0 {
      OrBound(a / 2, b / 2, w - 1);
    }
  }

  lemma {:induction false} AndBound(a: nat, b: nat)
    ensures And(a, b) <= a && And(a, b) <= b
    decreases a
  {
    if a != 0 && b != 0 {
      AndBound(a / 2, b / 2);
    }
  }

  lemma {:induction false} XorCancel(a: nat, b: nat, c: nat, w: nat)
    requires a < Pow2(w) && b < Pow2(w) && c < Pow2(w)
    requires Xor(a, c) == Xor(b, c)
    ensures a == b
  {
    forall i | 0 <= i < w
      ensures Bit(a, i) == Bit(b, i)
    {
      XorBit(a, c, i);
      XorBit(b, c, i);
    }
    SameBits(a, b, w);
  }

  lemma {:induction false} XorCommutes(a: nat, b: nat)
    ensures Xor(a, b) == Xor(b, a)
    decreases a
  {
    if a != 0 && b != 0 {
      XorCommutes(a / 2, b / 2);
    }
  }

  /** Or-ing a value in above the bits already present adds it. */
  lemma {:induction false} OrDisjoint(a: nat, b: nat, s: nat)
    requires a < Pow2(s)
    ensures Or(a, b * Pow2(s)) == a + b * Pow2(s)
    decreases s
  {
    if s > 0 && a != 0 && b != 0 {
      assert b * Pow2(s) == 2 * (b * Pow2(s - 1));
      assert b * Pow2(s - 1) >= 1;
      OrDisjoint(a / 2, b, s - 1);
    }
  }

  /** `x & (1 << i)` is nonzero exactly when bit `i` is set. */
  lemma {:induction false} TestBit(x: nat, i: nat)
    ensures And(x, Pow2(i)) != 0 <==> Bit(x, i)
  {
    AndBit(x, Pow2(i), i);
    Pow2Bit(i, i);
    if And(x, Pow2(i)) == 0 {
      ZeroBit(i);
    } else if !Bit(x, i) {
      AndBound(x, Pow2(i));
      Pow2Monotone(i, i + 1);
      forall k | 0 <= k < i + 1
        ensures Bit(And(x, Pow2(i)), k) == Bit(0, k)
      {
        AndBit(x, Pow2(i), k);
        Pow2Bit(i, k);
        ZeroBit(k);
      }
      SameBits(And(x, Pow2(i)), 0, i + 1);
    }
  }
}
