/** The 64-entry replay window of a DTLS read epoch. */
module ReplayWindow {
  import opened Bits

  const WINDOW: nat := 64

  /** The bitmap word and the highest number it covers. */
  datatype Window = Window(bits: nat, max: nat)

  const EMPTY_WINDOW := Window(0, 0)

  predicate ShouldDiscard(w: Window, n: nat) {
    if n > w.max then false
    else w.max - n >= WINDOW || And(w.bits, Pow2(w.max - n)) != 0
  }

  /** The window moved up, if needed, to reach `n`. */
  function Slide(w: Window, n: nat): Window {
    if n > w.max then
      Window(if n - w.max >= WINDOW then 0 else Shl(w.bits, n - w.max, WINDOW), n)
    else w
  }

  function Record(w: Window, n: nat): Window {
    var slid := Slide(w, n);
    if slid.max - n < WINDOW then slid.(bits := Or(slid.bits, Pow2(slid.max - n))) else slid
  }

  /** The window stands for the set `seen` of recorded numbers: `max` is the
      largest, and bit `i` tells whether the number `i` below it was recorded. */
  ghost predicate Represents(w: Window, seen: set<nat>) {
    && w.bits < Pow2(WINDOW)
    && (forall n :: n in seen ==> n <= w.max)
    && (w.max in seen || w == EMPTY_WINDOW)
    && (forall i: nat :: i < WINDOW && i <= w.max ==> (Bit(w.bits, i) <==> w.max - i in seen))
  }

  lemma EmptyWindow()
    ensures Represents(EMPTY_WINDOW, {})
  {
  }

  /** A number is refused exactly when it was recorded or lies more than the
      window below the largest one recorded. */
  lemma DiscardsExactly(w: Window, seen: set<nat>, n: nat)
    requires Represents(w, seen)
    ensures ShouldDiscard(w, n) <==> n in seen || n + WINDOW <= w.max
  {
    hide Pow2, Bit, And;
    if n <= w.max && w.max - n < WINDOW {
      TestBit(w.bits, w.max - n);
      assert w.max - (w.max - n) == n;
    }
  }

  /** Recording a number adds it to the set, sliding the window if needed. */
  lemma RecordAdds(w: Window, seen: set<nat>, n: nat)
    requires Represents(w, seen)
    ensures Represents(Record(w, n), seen + {n})
  {
    hide Pow2, Bit, Or, Slide;
    var slid := Slide(w, n);
    var seen' := seen + {n};
    SlideBits(w, seen, n);
    var r := Record(w, n);
    var d := slid.max - n;
    if d < WINDOW {
      Pow2Less(d, WINDOW);
      OrBound(slid.bits, Pow2(d), WINDOW);
      forall i: nat | i < WINDOW && i <= r.max
        ensures Bit(r.bits, i) <==> r.max - i in seen'
      {
        OrBit(slid.bits, Pow2(d), i);
        Pow2Bit(d, i);
      }
    } else {
      forall i: nat | i < WINDOW && i <= r.max
        ensures Bit(r.bits, i) <==> r.max - i in seen'
      {
        assert r.max - i != n;
      }
    }
  }

  lemma SlideBits(w: Window, seen: set<nat>, n: nat)
    requires Represents(w, seen)
    ensures var slid := Slide(w, n);
            && slid.bits < Pow2(WINDOW)
            && slid.max >= n && slid.max >= w.max
            && (slid.max == w.max || slid.max == n)
            && forall i: nat :: i < WINDOW && i <= slid.max ==>
                 (Bit(slid.bits, i) <==> slid.max - i in seen)
  {
    hide Pow2, Bit, Shl;
    var slid := Slide(w, n);
    if n > w.max {
      var s := n - w.max;
      ShlBound(w.bits, s, WINDOW);
      forall i: nat | i < WINDOW && i <= slid.max
        ensures Bit(slid.bits, i) <==> slid.max - i in seen
      {
        if s >= WINDOW {
          ZeroBit(i);
          assert n - i > w.max;
        } else {
          ShlBit(w.bits, s, WINDOW, i);
          if i >= s {
            assert n - i == w.max - (i - s);
          } else {
            assert n - i > w.max;
          }
        }
      }
    }
  }

  /** The bitmap as the connection holds it, updated in place. */
  class Bitmap {
    var bits: nat
    var maxSeqNum: nat

    ghost function View(): Window
      reads this
    {
      Window(bits, maxSeqNum)
    }

    constructor ()
      ensures View() == EMPTY_WINDOW
    {
      bits, maxSeqNum := 0, 0;
    }

    method Clear()
      modifies this
      ensures View() == EMPTY_WINDOW
    {
      bits, maxSeqNum := 0, 0;
    }

    method Discards(seqNum: nat) returns (discard: bool)
      ensures discard == ShouldDiscard(View(), seqNum)
    {
      if seqNum > maxSeqNum {
        return false;
      }
      var idx := maxSeqNum - seqNum;
      discard := idx >= WINDOW || And(bits, Pow2(idx)) != 0;
    }

    method Mark(seqNum: nat)
      modifies this
      ensures View() == Record(old(View()), seqNum)
    {
      if seqNum > maxSeqNum {
        var shift := seqNum - maxSeqNum;
        bits := if shift >= WINDOW then 0 else Shl(bits, shift, WINDOW);
        maxSeqNum := seqNum;
      }
      var idx := maxSeqNum - seqNum;
      if idx < WINDOW {
        bits := Or(bits, Pow2(idx));
      }
    }
  }
}
