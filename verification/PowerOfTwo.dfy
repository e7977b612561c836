/** Powers of two by bit smearing, on 64-bit words. */
module PowerOfTwo {
  import opened Bits
  import opened Options

  /** Bit `i` of a number. */
  function Bit(n: nat, i: nat): bool {
    if i == 0 then n % 2 == 1 else Bit(n / 2, i - 1)
  }

  lemma {:induction false} BitOfZero(i: nat)
    ensures !Bit(0, i)
  {
    if i > 0 { BitOfZero(i - 1); }
  }

  lemma {:induction false} BitOfOr(a: nat, b: nat, i: nat)
    ensures Bit(BitOr(a, b), i) <==> Bit(a, i) || Bit(b, i)
  {
    hide BitOr;
    BitOrDigits(a, b);
    if i > 0 { BitOfOr(a / 2, b / 2, i - 1); }
  }

  lemma {:induction false} BitOrDigits(a: nat, b: nat)
    ensures BitOr(a, b) % 2 == (if a % 2 == 1 || b % 2 == 1 then 1 else 0) && BitOr(a, b) / 2 == BitOr(a / 2, b / 2)
  {
  }

  function ShiftRight(n: nat, k: nat): nat {
    if k == 0 then n else ShiftRight(n / 2, k - 1)
  }

  lemma {:induction false} BitOfShift(n: nat, k: nat, i: nat)
    ensures Bit(ShiftRight(n, k), i) <==> Bit(n, i + k)
  {
    if k > 0 { BitOfShift(n / 2, k - 1, i); }
  }

  ghost predicate HasBit(n: nat, lo: nat, hi: nat) {
    exists j: nat :: lo <= j < hi && Bit(n, j)
  }

  lemma HasBitSplit(n: nat, lo: nat, mid: nat, hi: nat)
    requires lo <= mid <= hi
    ensures HasBit(n, lo, hi) <==> HasBit(n, lo, mid) || HasBit(n, mid, hi)
  {
  }

  /** `m` has exactly the bits that lie at most `w - 1` places below a bit of `n`. */
  ghost predicate Smeared(n: nat, m: nat, w: nat) {
    forall i: nat :: Bit(m, i) <==> HasBit(n, i, i + w)
  }

  lemma {:induction false} SmearStep(n: nat, m: nat, w: nat)
    requires Smeared(n, m, w)
    ensures Smeared(n, BitOr(m, ShiftRight(m, w)), 2 * w)
  {
    hide ShiftRight, BitOr, Bit, HasBit;
    var m' := BitOr(m, ShiftRight(m, w));
    var w' := 2 * w;
    forall i: nat ensures Bit(m', i) <==> HasBit(n, i, i + w') {
      BitOfOr(m, ShiftRight(m, w), i);
      BitOfShift(m, w, i);
      HasBitSplit(n, i, i + w, i + w + w);
      assert i + w' == i + w + w;
      assert Bit(m, i + w) <==> HasBit(n, i + w, i + w + w);
    }
  }

  lemma {:induction false} BitsBelow(n: nat, t: nat, i: nat)
    requires Pow2(t) <= n < Pow2(t + 1) && i >= t
    ensures Bit(n, i) <==> i == t
  {
    if t == 0 {
      assert n == 1;
      if i > 0 { BitOfZero(i - 1); }
    } else {
      BitsBelow(n / 2, t - 1, i - 1);
    }
  }

  lemma {:induction false} AllOnes(m: nat, t: nat)
    requires forall i: nat :: Bit(m, i) <==> i < t
    ensures m == Pow2(t) - 1
    decreases m, t
  {
    assert Bit(m, 0) <==> 0 < t;
    if t == 0 {
      if m != 0 {
        forall i: nat ensures Bit(m / 2, i) <==> i < 0 { assert Bit(m, i + 1) <==> i + 1 < 0; }
        AllOnes(m / 2, 0);
      }
    } else {
      forall i: nat ensures Bit(m / 2, i) <==> i < t - 1 { assert Bit(m, i + 1) <==> i + 1 < t; }
      AllOnes(m / 2, t - 1);
    }
  }

  /** A number smeared over its whole width is all ones up to its highest bit. */
  lemma {:induction false} SmearedIsAllOnes(n: nat, m: nat, w: nat)
    requires n > 0 && Smeared(n, m, w) && Ilog2(n) < w
    ensures m == 2 * Pow2(Ilog2(n)) - 1
  {
    var t := Ilog2(n);
    BitsBelow(n, t, t);
    forall i: nat ensures Bit(m, i) <==> i < t + 1 {
      if i <= t {
        assert Bit(n, t) && i <= t < i + w;
        assert HasBit(n, i, i + w);
      } else {
        forall j: nat | i <= j ensures !Bit(n, j) { BitsBelow(n, t, j); }
      }
    }
    AllOnes(m, t + 1);
  }

  lemma {:induction false} LogBound(n: nat, k: nat)
    requires 0 < n < Pow2(k)
    ensures Ilog2(n) < k
  {
    if Ilog2(n) >= k { Pow2Monotone(k, Ilog2(n)); }
  }

  /** The power of two just above `n`. */
  function NextPow2(n: nat): (r: nat)
    ensures n < r <= 2 * n + 1 && IsPow2(r)
  {
    if n == 0 then (assert Pow2(0) == 1; 1) else (assert Pow2(Ilog2(n) + 1) == 2 * Pow2(Ilog2(n)); 2 * Pow2(Ilog2(n)))
  }

  /** The smallest power of two above `n`, except at the top of the allowed range, where the sum saturates. */
  method GetStrictlyBiggerPowerOfTwo(size: nat) returns (n: nat)
    requires size <= 0x8000_0000_0000_0000
    ensures size < 0x8000_0000_0000_0000 ==> n == NextPow2(size)
    ensures size == 0x8000_0000_0000_0000 ==> n == 0xFFFF_FFFF_FFFF_FFFF && !IsPow2(n)
  {
    hide Smeared, BitOr, ShiftRight;
    Words();
    n := size;
    NotSmearedYet(n);
    ghost var width := 1;
    for k := 0 to 6
      invariant width == Pow2(k) && Smeared(size, n, width)
    {
      SmearStep(size, n, width);
      n := BitOr(n, ShiftRight(n, Pow2(k)));
      width := 2 * width;
    }
    assert width == 64 by { assert Pow2(6) == 64; }
    if size == 0 {
      ZeroSmeared(n);
    } else {
      Pow2Monotone(63, 64);
      LogBound(size, 64);
      SmearedIsAllOnes(size, n, 64);
      if size < 0x8000_0000_0000_0000 {
        LogBound(size, 63);
        Pow2Monotone(Ilog2(size) + 1, 63);
      } else {
        Pow2Monotone(Ilog2(size), 63);
        if Ilog2(size) < 63 { Pow2Monotone(Ilog2(size) + 1, 63); }
        OddIsNoPow2(0xFFFF_FFFF_FFFF_FFFF);
      }
    }
    // the addition saturates
    n := if n == 0xFFFF_FFFF_FFFF_FFFF then n else n + 1;
  }

  lemma NotSmearedYet(n: nat)
    ensures Smeared(n, n, 1)
  {
    forall i: nat ensures Bit(n, i) <==> HasBit(n, i, i + 1) {
      if Bit(n, i) { assert i <= i < i + 1; }
    }
  }

  lemma ZeroSmeared(m: nat)
    requires Smeared(0, m, 64)
    ensures m == 0
  {
    forall i: nat ensures !Bit(m, i) {
      forall j: nat ensures !Bit(0, j) { BitOfZero(j); }
    }
    AllOnes(m, 0);
  }

  lemma Words()
    ensures Pow2(63) == 0x8000_0000_0000_0000 && Pow2(64) == 0x1_0000_0000_0000_0000
  {
    Pow2Of32();
    assert Pow2(31) == 0x8000_0000;
    Pow2Add(32, 31);
  }

  lemma OddIsNoPow2(n: nat)
    requires n > 1 && n % 2 == 1
    ensures !IsPow2(n)
  {
  }

  lemma Odd63()
    ensures !IsPow2(0x7FFF_FFFF_FFFF_FFFF)
  {
    OddIsNoPow2(0x7FFF_FFFF_FFFF_FFFF);
  }

  /** The largest power of two that is at most `n`, except for 0, where there is none, and at the top of the allowed
      range, where the sum below saturates. */
  method GetSmallerOrEqualPowerOfTwo(n: nat) returns (r: nat)
    requires n <= 0x8000_0000_0000_0000
    ensures 0 < n < 0x8000_0000_0000_0000 ==> r == Pow2(Ilog2(n)) && r <= n < 2 * r
    ensures n == 0 ==> r == 0
    ensures n == 0x8000_0000_0000_0000 ==> r == 0x7FFF_FFFF_FFFF_FFFF && !IsPow2(r)
  {
    Odd63();
    var bigger := GetStrictlyBiggerPowerOfTwo(n);
    r := bigger / 2;
  }

  /** The loop form computes the same number; no number means that a doubling leaves the 64-bit range. */
  method GetStrictlyBiggerPowerOfTwoLoop(size: nat) returns (r: Option<nat>)
    requires size < 0x1_0000_0000_0000_0000
    ensures r == if size < 0x8000_0000_0000_0000 then Some(NextPow2(size)) else None
  {
    Words();
    var n := 1;
    ghost var k := 0;
    while n <= size
      invariant n == Pow2(k) && n < 0x1_0000_0000_0000_0000 && (k > 0 ==> Pow2(k - 1) <= size)
      decreases 2 * size - n
    {
      if n * 2 >= 0x1_0000_0000_0000_0000 { return None; }
      n := n * 2;
      k := k + 1;
    }
    if size > 0 { LogUnique(size, k - 1); }
    NoWordAbove(k, n);
    return Some(n);
  }

  lemma {:induction false} NoWordAbove(k: nat, n: nat)
    requires n == Pow2(k) < Pow2(64)
    ensures n <= Pow2(63)
  {
    if k < 64 { Pow2Monotone(k, 63); } else { Pow2Monotone(64, k); }
  }

  lemma LogUnique(n: nat, k: nat)
    requires Pow2(k) <= n < Pow2(k + 1)
    ensures Ilog2(n) == k
  {
    if Ilog2(n) < k { Pow2Monotone(Ilog2(n) + 1, k); }
    if k < Ilog2(n) { Pow2Monotone(k + 1, Ilog2(n)); }
  }
}
