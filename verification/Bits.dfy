/** Powers of two and binary digits of natural numbers. */
module Bits {

  function Min(a: nat, b: nat): nat {
    if a <= b then a else b
  }

  function Pow2(n: nat): (r: nat)
    ensures r >= 1
  {
    if n == 0 then 1 else 2 * Pow2(n - 1)
  }

  /** The largest l with 2^l <= n. */
  function Ilog2(n: nat): (l: nat)
    requires n > 0
    ensures Pow2(l) <= n < Pow2(l + 1)
  {
    if n == 1 then 0
    else 1 + Ilog2(n / 2)
  }

  function TrailingZeros(n: nat): nat
    requires n > 0
  {
    if n % 2 == 1 then 0 else 1 + TrailingZeros(n / 2)
  }

  lemma {:induction false} TrailingZerosOfPow2(k: nat)
    ensures TrailingZeros(Pow2(k)) == k
  {
    if k > 0 { TrailingZerosOfPow2(k - 1); }
  }

  ghost predicate IsPow2(n: nat) {
    exists k: nat :: Pow2(k) == n
  }

  lemma {:induction false} Pow2Monotone(a: nat, b: nat)
    requires a <= b
    ensures Pow2(a) <= Pow2(b)
    ensures a < b ==> Pow2(a) < Pow2(b)
    decreases b - a
  {
    if a < b { Pow2Monotone(a, b - 1); }
  }

  lemma {:induction false} Pow2Add(a: nat, b: nat)
    ensures Pow2(a + b) == Pow2(a) * Pow2(b)
  {
    hide Pow2;
    Pow2Doubles(b);
    Pow2Doubles(a + b);
    if b != 0 {
      Pow2Add(a, b - 1);
      TwiceMultiple(Pow2(a), Pow2(b - 1));
      assert a + b - 1 == a + (b - 1);
    }
  }

  lemma Pow2Doubles(k: nat)
    ensures Pow2(0) == 1 && Pow2(k) > 0 && (k > 0 ==> Pow2(k) == 2 * Pow2(k - 1))
  {
  }

  /** The low bit and the remaining bits of a remainder by a power of two. */
  lemma {:induction false} ModPow2Split(x: nat, i: nat)
    requires i > 0
    ensures x % Pow2(i) == x % 2 + 2 * ((x / 2) % Pow2(i - 1))
  {
    hide Pow2;
    Pow2Doubles(i);
    HalfDivision(x, Pow2(i - 1));
  }

  /** Division of a number by 2p, and of its half by p. */
  lemma HalfDivision(x: nat, p: nat)
    requires p > 0
    ensures x / (2 * p) == (x / 2) / p && x % (2 * p) == x % 2 + 2 * ((x / 2) % p)
  {
    var q, r := (x / 2) / p, (x / 2) % p;
    assert x / 2 == p * q + r;
    EvenMultiple(p, q);
    DivModUnique(x, 2 * p, q, 2 * r + x % 2);
  }

  lemma MulMonotone(d: nat, a: nat, b: nat)
    ensures a <= b ==> d * a <= d * b
  {
  }

  lemma DivModUnique(x: nat, d: nat, q: nat, r: nat)
    requires d > 0 && r < d && x == d * q + r
    ensures x / d == q && x % d == r
  {
    var q', r' := x / d, x % d;
    MulMonotone(d, q + 1, q');
    MulMonotone(d, q' + 1, q);
    assert d * (q + 1) == d * q + d && d * (q' + 1) == d * q' + d;
  }

  lemma Pow2Of8()
    ensures Pow2(8) == 256
  {
    assert Pow2(4) == 16;
  }

  lemma Pow2Of32()
    ensures Pow2(32) == 0x1_0000_0000
  {
    Pow2Of8();
    hide Pow2;
    Pow2Add(8, 8);
    Pow2Add(16, 16);
  }

  lemma EvenMultiple(m: nat, q: nat)
    ensures m * (2 * q) == (2 * m) * q && m * (2 * q + 1) == (2 * m) * q + m
  {
    assert m * (2 * q) == (2 * m) * q;
  }

  /** A remainder by 2m is the remainder by m, plus m when the quotient by m is odd. */
  lemma ModDouble(p: nat, m: nat)
    requires m > 0
    ensures p % (2 * m) == p % m + (if (p / m) % 2 == 1 then m else 0)
  {
    var q := p / m;
    assert p == m * q + p % m;
    ModDoubleOf(p, m, q / 2, q % 2, p % m);
  }

  lemma ModDoubleOf(p: nat, m: nat, h: nat, b: nat, r: nat)
    requires r < m && b < 2 && p == m * (2 * h + b) + r
    ensures p % (2 * m) == r + (if b == 1 then m else 0)
  {
    EvenMultiple(m, h);
    DivModUnique(p, 2 * m, h, r + (if b == 1 then m else 0));
  }

  lemma QuotientShift(p: nat, m: nat)
    requires m > 0
    ensures (p + m) / m == p / m + 1 && (p + m) % m == p % m
    ensures p >= m ==> (p - m) / m == p / m - 1 && (p - m) % m == p % m
  {
    var q, r := p / m, p % m;
    assert p == m * q + r;
    assert p + m == m * (q + 1) + r;
    DivModUnique(p + m, m, q + 1, r);
    if p >= m {
      MulMonotone(m, q + 1, 1);
      assert p - m == m * (q - 1) + r;
      DivModUnique(p - m, m, q - 1, r);
    }
  }

  /** Adding m to an even multiple of m, and what is over, stays below an even bound. */
  lemma EvenRoom(p: nat, m: nat, top: nat)
    requires m > 0 && p < m * (2 * top)
    ensures (p / m) % 2 == 0 ==> p + m < m * (2 * top)
    ensures (p / m) % 2 == 1 ==> m <= p
  {
    var q, r := p / m, p % m;
    assert p == m * q + r;
    MulMonotone(m, 2 * top, q);
    assert q < 2 * top;
    if q % 2 == 0 {
      MulMonotone(m, q + 2, 2 * top);
      assert m * (q + 2) == m * q + 2 * m;
    } else {
      MulMonotone(m, 1, q);
    }
  }

  /** How many low bits two numbers share, looking at `bits` of them: the trailing zeros of their exclusive or. */
  function SharedLowBits(a: nat, b: nat, bits: nat): (n: nat)
    ensures n <= bits
  {
    if bits == 0 || a % 2 != b % 2 then 0 else 1 + SharedLowBits(a / 2, b / 2, bits - 1)
  }

  lemma {:induction false} SharedLowBitsIsCongruence(a: nat, b: nat, bits: nat, i: nat)
    requires i <= bits
    ensures SharedLowBits(a, b, bits) >= i <==> a % Pow2(i) == b % Pow2(i)
  {
    if i > 0 {
      ModPow2Split(a, i);
      ModPow2Split(b, i);
      SharedLowBitsIsCongruence(a / 2, b / 2, bits - 1, i - 1);
    }
  }

  // ---------------------------------------------------------------- bitwise operators

  function BitOr(a: nat, b: nat): nat
    decreases a + b
  {
    if a == 0 && b == 0 then 0 else (if a % 2 == 1 || b % 2 == 1 then 1 else 0) + 2 * BitOr(a / 2, b / 2)
  }

  function BitAnd(a: nat, b: nat): nat
    decreases a + b
  {
    if a == 0 && b == 0 then 0 else (if a % 2 == 1 && b % 2 == 1 then 1 else 0) + 2 * BitAnd(a / 2, b / 2)
  }

  lemma BitOrStep(x: nat, p: nat)
    requires p > 0
    ensures BitOr(x, 2 * p - 1) == 2 * BitOr(x / 2, p - 1) + 1
  {
    assert (2 * p - 1) / 2 == p - 1 && (2 * p - 1) % 2 == 1;
  }

  /** A number with its digits below m set to ones, for a power of two m. */
  function LowOnes(x: nat, m: nat): int
    requires m > 0
  {
    (x / m) * m + m - 1
  }

  lemma LowOnesStep(x: nat, p: nat)
    requires p > 0
    ensures LowOnes(x, 1) == x && LowOnes(x, 2 * p) == 2 * LowOnes(x / 2, p) + 1
  {
    HalfDivision(x, p);
    EvenMultiple(p, (x / 2) / p);
  }

  /** Setting the low k bits keeps the quotient by 2^k. */
  lemma {:induction false} BitOrLowOnes(x: nat, k: nat)
    ensures BitOr(x, Pow2(k) - 1) == LowOnes(x, Pow2(k))
    decreases k
  {
    hide BitOr, Pow2, LowOnes;
    Pow2Doubles(k);
    if k == 0 {
      BitOrZero(x);
      LowOnesStep(x, 1);
    } else {
      var p := Pow2(k - 1);
      BitOrLowOnes(x / 2, k - 1);
      BitOrStep(x, p);
      LowOnesStep(x, p);
    }
  }

  lemma {:induction false} BitOrZero(x: nat)
    ensures BitOr(x, 0) == x
  {
    if x > 0 { BitOrZero(x / 2); }
  }

  lemma {:induction false} BitAndZero(x: nat)
    ensures BitAnd(x, 0) == 0
  {
    if x > 0 { BitAndZero(x / 2); }
  }

  /** Keeping the low k bits is the remainder by 2^k. */
  lemma {:induction false} BitAndLowOnes(x: nat, k: nat)
    ensures BitAnd(x, Pow2(k) - 1) == x % Pow2(k)
    decreases k
  {
    hide BitAnd, Pow2;
    BitAndZero(x);
    Pow2Doubles(k);
    if k > 0 {
      BitAndLowOnes(x / 2, k - 1);
      HalfDivision(x, Pow2(k - 1));
      BitAndStep(x, Pow2(k - 1));
    }
  }

  lemma {:induction false} BitAndOne(x: nat)
    ensures BitAnd(x, 1) == x % 2
  {
    BitAndZero(x / 2);
  }

  lemma {:induction false} BitAndCommutes(a: nat, b: nat)
    ensures BitAnd(a, b) == BitAnd(b, a)
    decreases a + b
  {
    if a + b > 0 { BitAndCommutes(a / 2, b / 2); }
  }

  /** A single digit. */
  lemma {:induction false} BitAndPow2(x: nat, k: nat)
    ensures BitAnd(x, Pow2(k)) == if (x / Pow2(k)) % 2 == 1 then Pow2(k) else 0
    decreases k
  {
    hide BitAnd, Pow2;
    Pow2Doubles(k);
    if k == 0 {
      BitAndOne(x);
    } else {
      BitAndPow2(x / 2, k - 1);
      HalfDivision(x, Pow2(k - 1));
      BitAndEven(x, Pow2(k - 1));
    }
  }

  lemma {:induction false} BitAndEven(x: nat, p: nat)
    ensures BitAnd(x, 2 * p) == 2 * BitAnd(x / 2, p)
  {
    assert (2 * p) / 2 == p && (2 * p) % 2 == 0;
  }

  lemma BitAndStep(x: nat, p: nat)
    requires p > 0
    ensures BitAnd(x, 2 * p - 1) == x % 2 + 2 * BitAnd(x / 2, p - 1)
  {
    assert (2 * p - 1) / 2 == p - 1 && (2 * p - 1) % 2 == 1;
  }

  /** A number below 2^k fits under the zeros of a multiple of 2^k. */
  lemma {:induction false} BitOrOfMultiple(x: nat, y: nat, k: nat)
    requires y < Pow2(k)
    ensures BitOr(x * Pow2(k), y) == x * Pow2(k) + y
    decreases k
  {
    hide BitOr, Pow2;
    Pow2Doubles(k);
    if k == 0 {
      BitOrZero(x);
    } else {
      var p := Pow2(k - 1);
      TwiceMultiple(x, p);
      BitOrOfMultiple(x, y / 2, k - 1);
      BitOrOfEven(x * p, y);
    }
  }

  lemma TwiceMultiple(q: nat, p: nat)
    ensures q * (2 * p) == 2 * (q * p)
  {
  }

  lemma {:induction false} BitOrOfEven(p: nat, y: nat)
    ensures BitOr(2 * p, y) == 2 * BitOr(p, y / 2) + y % 2
  {
    assert (2 * p) / 2 == p && (2 * p) % 2 == 0;
  }

  /** Two numbers agree after setting the low k bits exactly when their quotients by 2^k agree. */
  lemma SameAfterLowOnes(x: nat, y: nat, k: nat)
    ensures BitOr(x, Pow2(k) - 1) == BitOr(y, Pow2(k) - 1) <==> x / Pow2(k) == y / Pow2(k)
  {
    hide BitOr, Pow2, LowOnes;
    BitOrLowOnes(x, k);
    BitOrLowOnes(y, k);
    Pow2Doubles(k);
    LowOnesSame(x, y, Pow2(k));
  }

  lemma LowOnesSame(x: nat, y: nat, m: nat)
    requires m > 0
    ensures LowOnes(x, m) == LowOnes(y, m) <==> x / m == y / m
  {
    SameMultiple(m, x / m, y / m);
  }

  lemma SameMultiple(p: nat, a: nat, b: nat)
    requires p > 0
    ensures a * p == b * p <==> a == b
  {
    MulMonotone(p, a + 1, b);
    MulMonotone(p, b + 1, a);
  }
}
