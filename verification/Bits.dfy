/** Bits of runtime integers, and the shift-and-mask that extracts a sub-register. */
module Bits {

  function Pow2(n: nat): nat
  {
    if n == 0 then 1 else 2 * Pow2(n - 1)
  }

  /** Bit `i` of a two's complement integer. */
  predicate Bit(v: int, i: nat)
    decreases i
  {
    if i == 0 then v % 2 == 1 else Bit(v / 2, i - 1)
  }

  /** `v >> n` on unbounded integers: each step drops the lowest bit. */
  function Shift(v: int, n: nat): int
    decreases n
  {
    if n == 0 then v else Shift(v / 2, n - 1)
  }

  /** `v & ((1 << n) - 1)` on unbounded integers. */
  function Mask(v: int, n: nat): (r: nat)
    ensures r < Pow2(n)
    decreases n
  {
    if n == 0 then 0 else v % 2 + 2 * Mask(v / 2, n - 1)
  }

  /** `width` bytes of `v` starting at bit `offset`. */
  function Extract(v: int, offset: nat, width: nat): nat
  {
    Mask(Shift(v, offset), 8 * width)
  }

  /** Masking leaves the low bits and clears the others. */
  lemma {:induction false} BitOfMask(v: int, n: nat, i: nat)
    ensures Bit(Mask(v, n), i) <==> i < n && Bit(v, i)
    decreases n
  {
    if n == 0 {
      ZeroHasNoBits(i);
    } else {
      assert Mask(v, n) / 2 == Mask(v / 2, n - 1);
      if i > 0 {
        BitOfMask(v / 2, n - 1, i - 1);
      }
    }
  }

  lemma {:induction false} ZeroHasNoBits(i: nat)
    ensures !Bit(0, i)
  {
    if i > 0 {
      ZeroHasNoBits(i - 1);
    }
  }

  lemma {:induction false} BitOfShift(v: int, n: nat, i: nat)
    ensures Bit(Shift(v, n), i) == Bit(v, n + i)
    decreases n
  {
    if n > 0 {
      BitOfShift(v / 2, n - 1, i);
    }
  }

  lemma {:induction false} MaskByBits(v: int, w: int, n: nat)
    requires forall i: nat :: i < n ==> Bit(v, i) == Bit(w, i)
    ensures Mask(v, n) == Mask(w, n)
    decreases n
  {
    if n > 0 {
      assert Bit(v, 0) == Bit(w, 0);
      forall i: nat | i < n - 1
        ensures Bit(v / 2, i) == Bit(w / 2, i)
      {
        assert Bit(v, i + 1) == Bit(w, i + 1);
      }
      MaskByBits(v / 2, w / 2, n - 1);
    }
  }

  /** `n` has the `8 * width` bits of `v` from bit `offset` on, and no others. */
  ghost predicate IsWindow(n: nat, v: int, offset: nat, width: nat)
  {
    n < Pow2(8 * width) && forall i: nat :: i < 8 * width ==> (Bit(n, i) <==> Bit(v, offset + i))
  }

  /** The extracted number is the window: its bits are those of the sub-register. */
  lemma ExtractIsWindow(v: int, offset: nat, width: nat)
    ensures IsWindow(Extract(v, offset, width), v, offset, width)
    ensures forall i: nat :: Bit(Extract(v, offset, width), i) <==> i < 8 * width && Bit(v, offset + i)
  {
    forall i: nat ensures Bit(Extract(v, offset, width), i) <==> i < 8 * width && Bit(v, offset + i) {
      BitOfMask(Shift(v, offset), 8 * width, i);
      BitOfShift(v, offset, i);
    }
  }

  lemma MaskIsWindow(v: int, width: nat)
    ensures IsWindow(Mask(v, 8 * width), v, 0, width)
  {
    forall i: nat ensures Bit(Mask(v, 8 * width), i) <==> i < 8 * width && Bit(v, i) {
      BitOfMask(v, 8 * width, i);
    }
  }

  /** A number below `2^n` in front of a shifted one keeps its bits, and the other's follow. */
  lemma {:induction false} BitOfJoin(low: nat, high: nat, n: nat, i: nat)
    requires low < Pow2(n)
    ensures Bit(low + Pow2(n) * high, i) <==> if i < n then Bit(low, i) else Bit(high, i - n)
    decreases n
  {
    if n > 0 {
      var p := Pow2(n - 1);
      assert Pow2(n) * high == 2 * (p * high);
      assert (low + Pow2(n) * high) / 2 == low / 2 + p * high;
      if i > 0 {
        BitOfJoin(low / 2, high, n - 1, i - 1);
      }
    }
  }

  /** Eight more bits. */
  lemma Pow2Byte(n: nat)
    ensures Pow2(n + 8) == 256 * Pow2(n)
  {
    assert Pow2(n + 2) == 4 * Pow2(n);
    assert Pow2(n + 4) == 4 * Pow2(n + 2);
    assert Pow2(n + 6) == 4 * Pow2(n + 4);
  }

  /** The extracted number depends on the bits of its window and on nothing else. */
  lemma ExtractDependsOnWindow(v: int, w: int, offset: nat, width: nat)
    requires forall i: nat :: offset <= i < offset + 8 * width ==> Bit(v, i) == Bit(w, i)
    ensures Extract(v, offset, width) == Extract(w, offset, width)
  {
    forall i: nat | i < 8 * width
      ensures Bit(Shift(v, offset), i) == Bit(Shift(w, offset), i)
    {
      BitOfShift(v, offset, i);
      BitOfShift(w, offset, i);
    }
    MaskByBits(Shift(v, offset), Shift(w, offset), 8 * width);
  }
}
