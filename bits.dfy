/** Bit arithmetic on rod masks: a rod is a natural number whose bit d is set when
    disk d (0 is the smallest) lies on that rod. */
module Bits {

  function Pow2(n: nat): (r: nat)
    ensures r >= 1
  {
    if n == 0 then 1 else 2 * Pow2(n - 1)
  }

  function Pow(b: nat, e: nat): nat
  {
    if e == 0 then 1 else b * Pow(b, e - 1)
  }

  /** Bit d of n, that is `(n >> d) & 1`. */
  function Bit(n: nat, d: nat): (b: nat)
    ensures b <= 1
  {
    if d == 0 then n % 2 else Bit(n / 2, d - 1)
  }

  lemma {:induction false} BitOfZero(d: nat)
    ensures Bit(0, d) == 0
  {
    if d > 0 {
      BitOfZero(d - 1);
    }
  }

  /** A mask below 2^D has no disk at or above D. */
  lemma {:induction false} BitAbove(n: nat, D: nat, d: nat)
    requires n < Pow2(D) && d >= D
    ensures Bit(n, d) == 0
  {
    if D == 0 {
      assert n == 0;
      BitOfZero(d);
    } else {
      BitAbove(n / 2, D - 1, d - 1);
    }
  }

  /** Conversely, a mask with no disk at or above D is below 2^D. */
  lemma {:induction false} BelowFromBits(n: nat, D: nat)
    requires forall d: nat :: d >= D ==> Bit(n, d) == 0
    ensures n < Pow2(D)
    decreases n
  {
    if n > 0 {
      assert D == 0 ==> n % 2 == Bit(n, 0) == 0;
      var D' := if D == 0 then 0 else D - 1;
      forall d: nat | d >= D'
        ensures Bit(n / 2, d) == 0
      {
        assert Bit(n, d + 1) == 0;
      }
      BelowFromBits(n / 2, D');
    }
  }

  /** Two masks below 2^D with the same disks are equal. */
  lemma {:induction false} BitExtensionality(x: nat, y: nat, D: nat)
    requires x < Pow2(D) && y < Pow2(D)
    requires forall d :: 0 <= d < D ==> Bit(x, d) == Bit(y, d)
    ensures x == y
  {
    if D > 0 {
      assert Bit(x, 0) == Bit(y, 0);
      forall d | 0 <= d < D - 1
        ensures Bit(x / 2, d) == Bit(y / 2, d)
      {
        assert Bit(x, d + 1) == Bit(y, d + 1);
      }
      BitExtensionality(x / 2, y / 2, D - 1);
    }
  }

  /** Adding 2^l to a mask without disk l puts disk l on it and changes nothing else. */
  lemma {:induction false} AddBit(n: nat, l: nat, d: nat)
    requires Bit(n, l) == 0
    ensures Bit(n + Pow2(l), d) == if d == l then 1 else Bit(n, d)
  {
    if l == 0 {
      assert (n + 1) / 2 == n / 2;
    } else {
      var p := Pow2(l - 1);
      assert (n + 2 * p) / 2 == n / 2 + p;
      assert (n + 2 * p) % 2 == n % 2;
      if d > 0 {
        AddBit(n / 2, l - 1, d - 1);
      }
    }
  }

  /** A mask holding disk l is at least 2^l, and subtracting 2^l removes exactly disk l. */
  lemma {:induction false} SubBit(n: nat, l: nat, d: nat)
    requires Bit(n, l) == 1
    ensures n >= Pow2(l)
    ensures Bit(n - Pow2(l), d) == if d == l then 0 else Bit(n, d)
  {
    if l == 0 {
      assert (n - 1) / 2 == n / 2;
    } else {
      var p := Pow2(l - 1);
      SubBit(n / 2, l - 1, if d == 0 then 0 else d - 1);
      assert n >= 2 * p;
      assert (n - 2 * p) / 2 == n / 2 - p;
      assert (n - 2 * p) % 2 == n % 2;
    }
  }

  /** Adding 2^l (or nothing) to a mask below 2^l sets bit l (or leaves it clear) and keeps
      every other bit. */
  lemma SetTopBit(v: nat, w: nat, l: nat, on: bool, d: nat)
    requires v < Pow2(l) && w == v + if on then Pow2(l) else 0
    ensures Bit(w, d) == if d == l then (if on then 1 else 0) else Bit(v, d)
  {
    BitAbove(v, l, l);
    if d > l {
      BitAbove(v, l, d);
    }
    if on {
      AddBit(v, l, d);
    }
  }

  /** 2^D - 1 holds exactly the disks 0 .. D-1. */
  lemma {:induction false} AllOnes(D: nat, d: nat)
    ensures Bit(Pow2(D) - 1, d) == if d < D then 1 else 0
  {
    if D == 0 {
      BitOfZero(d);
    } else {
      var p := Pow2(D - 1);
      assert (2 * p - 1) / 2 == p - 1;
      if d > 0 {
        AllOnes(D - 1, d - 1);
      }
    }
  }

  /** The result of `ffs`: the index of the lowest set bit, or Python's float('inf') for 0. */
  datatype Lsb = At(index: nat) | Infinite

  /** Python's `<` between two `ffs` results (an int is below inf, inf is not below inf). */
  predicate Lower(a: Lsb, b: Lsb)
  {
    a.At? && (b.Infinite? || a.index < b.index)
  }

  /** `ffs`: the top (smallest) disk on a rod. */
  function Ffs(n: nat): (r: Lsb)
    ensures n == 0 <==> r == Infinite
    ensures r.At? ==> Bit(n, r.index) == 1 && forall d :: 0 <= d < r.index ==> Bit(n, d) == 0
  {
    if n == 0 then Infinite
    else if n % 2 == 1 then At(0)
    else At(Ffs(n / 2).index + 1)
  }

  /** The lowest set bit is the only index with bit 1 and only zeros below it. */
  lemma FfsUnique(n: nat, l: nat)
    requires Bit(n, l) == 1
    requires forall d :: 0 <= d < l ==> Bit(n, d) == 0
    ensures Ffs(n) == At(l)
  {
    if n == 0 {
      BitOfZero(l);
    }
  }

  /** `x & -x == x` for a positive x: x has exactly one set bit. */
  predicate IsPow2(x: nat)
  {
    x >= 1 && (x == 1 || (x % 2 == 0 && IsPow2(x / 2)))
  }

  lemma {:induction false} Pow2IsPow2(n: nat)
    ensures IsPow2(Pow2(n))
  {
    if n > 0 {
      Pow2IsPow2(n - 1);
    }
  }
}
