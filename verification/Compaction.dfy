/** Oblivious compaction and its inverse, distribution. */
module Compaction {
  import opened Bits
  import opened Sequences

  // ---------------------------------------------------------------- prefix sums

  /** A prefix sum of zeros and ones, with any start. */
  ghost predicate Steps(p: seq<nat>) {
    |p| > 0 && forall i :: 0 <= i < |p| - 1 ==> p[i] <= p[i + 1] <= p[i] + 1
  }

  /** Element `i` is one of those that the prefix sum counts. */
  predicate Marked(p: seq<nat>, i: nat)
    requires i + 1 < |p|
  {
    p[i] < p[i + 1]
  }

  lemma {:induction false} StepsMonotone(p: seq<nat>, i: nat, j: nat)
    requires Steps(p) && i <= j < |p|
    ensures p[i] <= p[j] <= p[i] + (j - i)
    decreases j
  {
    if i < j { StepsMonotone(p, i, j - 1); }
  }

  lemma StepsSlice(p: seq<nat>, lo: nat, hi: nat)
    requires Steps(p) && lo < hi <= |p|
    ensures Steps(p[lo..hi])
  {
  }

  /** How many marked elements come before element `i`. */
  function Rank(p: seq<nat>, i: nat): nat
    requires Steps(p) && i < |p|
  {
    StepsMonotone(p, 0, i);
    p[i] - p[0]
  }

  lemma RankBounds(p: seq<nat>, i: nat)
    requires Steps(p) && i + 1 < |p| && Marked(p, i)
    ensures Rank(p, i) < Rank(p, |p| - 1) <= |p| - 1 && Rank(p, i) <= i
  {
    StepsMonotone(p, i + 1, |p| - 1);
    StepsMonotone(p, 0, |p| - 1);
    StepsMonotone(p, 0, i);
  }

  /** Ranks in the first `h` elements, and in the rest. */
  lemma RankSplit(p: seq<nat>, h: nat, i: nat)
    requires Steps(p) && 0 < h < |p| - 1 && i + 1 < |p| && Marked(p, i)
    ensures Steps(p[..h + 1]) && Steps(p[h..]) && p[0] <= p[h] <= p[0] + h && p[h] <= p[|p| - 1]
    ensures i < h ==> Marked(p[..h + 1], i) && Rank(p, i) == Rank(p[..h + 1], i) < p[h] - p[0]
    ensures i >= h ==> Marked(p[h..], i - h) && Rank(p, i) == p[h] - p[0] + Rank(p[h..], i - h)
    ensures i >= h ==> Rank(p[h..], i - h) < |p| - 1 - h
  {
    hide Marked, Steps;
    StepsSlice(p, 0, h + 1);
    StepsSlice(p, h, |p|);
    StepsMonotone(p, 0, h);
    StepsMonotone(p, h, |p| - 1);
    assert p[..h + 1] == p[0..h + 1] && p[h..] == p[h..|p|];
    if i < h {
      MarkedIn(p, 0, h + 1, i);
      RankBounds(p[..h + 1], i);
    } else {
      MarkedIn(p, h, |p|, i);
      StepsMonotone(p, h, i);
      RankBounds(p[h..], i - h);
    }
  }

  lemma MarkedIn(p: seq<nat>, lo: nat, hi: nat, i: nat)
    requires lo <= i && i + 1 < hi <= |p| && Marked(p, i)
    ensures Marked(p[lo..hi], i - lo)
  {
  }

  // ---------------------------------------------------------------- conditional swaps at a distance

  /** Elements x and x + d exchanged for the x below `count` that satisfy `cond`. */
  function SwapAt<T>(s: seq<T>, count: nat, d: nat, cond: nat -> bool): (r: seq<T>)
    requires count <= d && d + count <= |s|
    ensures |r| == |s|
  {
    seq(|s|, x requires 0 <= x < |s| =>
      if x < count && cond(x) then s[x + d]
      else if d <= x < d + count && cond(x - d) then s[x - d]
      else s[x])
  }

  lemma SwapTwice<T>(s: seq<T>, count: nat, d: nat, cond: nat -> bool)
    requires count <= d && d + count <= |s|
    ensures SwapAt(SwapAt(s, count, d, cond), count, d, cond) == s
  {
  }

  lemma SwapOneMore<T>(s: seq<T>, count: nat, d: nat, cond: nat -> bool)
    requires count < d && d + count < |s|
    ensures var r := SwapAt(s, count, d, cond);
            SwapAt(s, count + 1, d, cond) == if cond(count) then r[count := r[count + d]][count + d := r[count]] else r
  {
  }

  lemma {:induction false} SwapPermutes<T>(s: seq<T>, count: nat, d: nat, cond: nat -> bool)
    requires count <= d && d + count <= |s|
    ensures multiset(SwapAt(s, count, d, cond)) == multiset(s)
  {
    SwapNone(s, d, cond);
    hide SwapAt;
    if count > 0 {
      SwapPermutes(s, count - 1, d, cond);
      SwapOneMore(s, count - 1, d, cond);
      ExchangePermutes(SwapAt(s, count - 1, d, cond), count - 1, count - 1 + d);
    }
  }

  lemma SwapNone<T>(s: seq<T>, d: nat, cond: nat -> bool)
    requires d <= |s|
    ensures SwapAt(s, 0, d, cond) == s
  {
  }

  // ---------------------------------------------------------------- compaction to an offset

  /** Whether the two elements of the smallest case change places: !m & m2 on 64-bit words, compared with z. */
  function SwapPair(m: nat, m2: nat, z: nat): bool
    requires m < 0x1_0000_0000_0000_0000
  {
    BitAnd(0xFFFF_FFFF_FFFF_FFFF - m, m2) != z
  }

  lemma SwapPairIs(m: nat, m2: nat, z: nat)
    requires m <= 1 && m2 <= 1
    ensures SwapPair(m, m2, z) <==> z != (if m == 0 then m2 else 0)
  {
    var w := 0xFFFF_FFFF_FFFF_FFFF - m;
    assert w % 2 == 1 - m;
    if m2 == 0 { BitAndZero(w); } else { BitAndOne(w); }
  }

  function Wrap(x: nat, n: nat): (r: nat)
    requires n > 0
    ensures r < n
  {
    x % n
  }

  /** The condition of a swap pass: `flip`, turned round from slot `from` on. */
  function SwapCond(flip: bool, from: nat): nat -> bool {
    i => flip != (i >= from)
  }

  /** Which pairs the last pass exchanges, for `m` marked elements in the first half. */
  function OffsetCond(h: nat, m: nat, z: nat): nat -> bool
    requires h > 0
  {
    SwapCond((Wrap(z, h) + m >= h) != (z >= h), Wrap(z + m, h))
  }

  function CompactOffset<T>(s: seq<T>, p: seq<nat>, z: nat, ghost k: nat): (r: seq<T>)
    requires k > 0 && |s| == Pow2(k) && |p| == |s| + 1 && Steps(p)
    ensures |r| == |s|
    decreases |s|
  {
    var h := |s| / 2;
    StepsMonotone(p, 0, h);
    var m := p[h] - p[0];
    if |s| == 2 then
      if SwapPair(m, p[2] - p[1], z) then [s[1], s[0]] else s
    else
      HalfPower(k, h);
      StepsSlice(p, 0, h + 1);
      StepsSlice(p, h, |p|);
      SwapAt(CompactOffset(s[..h], p[..h + 1], Wrap(z, h), k - 1) +
             CompactOffset(s[h..], p[h..], Wrap(z + m, h), k - 1),
             h, h, OffsetCond(h, m, z))
  }

  function DistributeOffset<T>(s: seq<T>, p: seq<nat>, z: nat, ghost k: nat): (r: seq<T>)
    requires k > 0 && |s| == Pow2(k) && |p| == |s| + 1 && Steps(p)
    ensures |r| == |s|
    decreases |s|
  {
    var h := |s| / 2;
    StepsMonotone(p, 0, h);
    var m := p[h] - p[0];
    if |s| == 2 then
      if SwapPair(m, p[2] - p[1], z) then [s[1], s[0]] else s
    else
      HalfPower(k, h);
      StepsSlice(p, 0, h + 1);
      StepsSlice(p, h, |p|);
      var t := SwapAt(s, h, h, OffsetCond(h, m, z));
      DistributeOffset(t[..h], p[..h + 1], Wrap(z, h), k - 1) + DistributeOffset(t[h..], p[h..], Wrap(z + m, h), k - 1)
  }

  lemma HalfPower(k: nat, h: nat)
    requires k > 0 && Pow2(k) != 2 && h == Pow2(k) / 2
    ensures k > 1 && h == Pow2(k - 1) && h > 0 && Pow2(k) == 2 * h
  {
    assert Pow2(1) == 2 * Pow2(0);
  }

  // ---------------------------------------------------------------- cyclic arithmetic

  lemma SmallMod(x: nat, d: nat)
    requires d > 0
    ensures x < d ==> Wrap(x, d) == x
    ensures d <= x < 2 * d ==> Wrap(x, d) == x - d
    ensures 2 * d <= x < 3 * d ==> Wrap(x, d) == x - 2 * d
  {
    if x < d { DivModUnique(x, d, 0, x); }
    else if x < 2 * d { DivModUnique(x, d, 1, x - d); }
    else if x < 3 * d { DivModUnique(x, d, 2, x - 2 * d); }
  }

  /** Where an element of the first half goes: its place modulo 2h, given its place modulo h. */
  lemma CyclicLeft(h: nat, z: nat, m: nat, j: nat, i: nat)
    requires h > 0 && z < 2 * h && j < m <= h && i == Wrap(Wrap(z, h) + j, h)
    ensures Wrap(z + j, 2 * h) == if OffsetCond(h, m, z)(i) then i + h else i
  {
    hide Wrap;
    SmallMod(z, h);
    SmallMod(Wrap(z, h) + j, h);
    SmallMod(z + m, h);
    SmallMod(z + j, 2 * h);
  }

  /** Where an element of the second half goes. */
  lemma CyclicRight(h: nat, z: nat, m: nat, j: nat, i: nat)
    requires h > 0 && z < 2 * h && m <= h && j < h && i == Wrap(Wrap(z + m, h) + j, h)
    ensures Wrap(z + (m + j), 2 * h) == if OffsetCond(h, m, z)(i) then i else i + h
  {
    hide Wrap;
    SmallMod(z, h);
    SmallMod(z + m, h);
    SmallMod(Wrap(z + m, h) + j, h);
    SmallMod(z + (m + j), 2 * h);
  }

  // ---------------------------------------------------------------- where the marked elements go

  /** The two recursive results, and the last pass over them. */
  lemma OffsetParts<T>(s: seq<T>, p: seq<nat>, z: nat, k: nat)
    requires k > 0 && |s| == Pow2(k) && |s| != 2 && |p| == |s| + 1 && Steps(p)
    ensures var h := |s| / 2;
            && k > 1 && h == Pow2(k - 1) && |s| == 2 * h && Steps(p[..h + 1]) && Steps(p[h..])
            && p[0] <= p[h] <= p[0] + h
            && CompactOffset(s, p, z, k) ==
               SwapAt(CompactOffset(s[..h], p[..h + 1], Wrap(z, h), k - 1) +
                      CompactOffset(s[h..], p[h..], Wrap(z + (p[h] - p[0]), h), k - 1),
                      h, h, OffsetCond(h, p[h] - p[0], z))
  {
    HalfPower(k, |s| / 2);
    StepsMonotone(p, 0, |s| / 2);
    StepsSlice(p, 0, |s| / 2 + 1);
    StepsSlice(p, |s| / 2, |p|);
  }

  /** The marked elements are placed cyclically from `z` on, in their order. */
  lemma {:induction false} CompactOffsetPlaces<T>(s: seq<T>, p: seq<nat>, z: nat, k: nat, i: nat)
    requires k > 0 && |s| == Pow2(k) && |p| == |s| + 1 && Steps(p) && z < |s|
    requires i < |s| && Marked(p, i)
    ensures CompactOffset(s, p, z, k)[Wrap(z + Rank(p, i), |s|)] == s[i]
    decreases |s|
  {
    hide CompactOffset, OffsetCond, Marked, Rank, Pow2, Wrap, Steps, SwapAt;
    if |s| == 2 {
      PairPlaces(s, p, z, k, i);
    } else {
      var h := |s| / 2;
      OffsetParts(s, p, z, k);
      RankSplit(p, h, i);
      var m := p[h] - p[0];
      var a, b := CompactOffset(s[..h], p[..h + 1], Wrap(z, h), k - 1),
                  CompactOffset(s[h..], p[h..], Wrap(z + m, h), k - 1);
      if i < h {
        CompactOffsetPlaces(s[..h], p[..h + 1], Wrap(z, h), k - 1, i);
        var j := Rank(p[..h + 1], i);
        CyclicLeft(h, z, m, j, Wrap(Wrap(z, h) + j, h));
        SwapHalvesAt(a, b, h, OffsetCond(h, m, z), Wrap(Wrap(z, h) + j, h));
      } else {
        CompactOffsetPlaces(s[h..], p[h..], Wrap(z + m, h), k - 1, i - h);
        var j := Rank(p[h..], i - h);
        CyclicRight(h, z, m, j, Wrap(Wrap(z + m, h) + j, h));
        SwapHalvesAt(a, b, h, OffsetCond(h, m, z), Wrap(Wrap(z + m, h) + j, h));
      }
    }
  }

  lemma SwapHalvesAt<T>(a: seq<T>, b: seq<T>, h: nat, cond: nat -> bool, i: nat)
    requires |a| == |b| == h && i < h
    ensures SwapAt(a + b, h, h, cond)[if cond(i) then i + h else i] == a[i]
    ensures SwapAt(a + b, h, h, cond)[if cond(i) then i else i + h] == b[i]
  {
  }

  lemma {:induction false} PairPlaces<T>(s: seq<T>, p: seq<nat>, z: nat, k: nat, i: nat)
    requires k > 0 && |s| == 2 == Pow2(k) && |p| == 3 && Steps(p) && z < 2 && i < 2 && Marked(p, i)
    ensures CompactOffset(s, p, z, k)[Wrap(z + Rank(p, i), 2)] == s[i]
  {
    SwapPairIs(p[1] - p[0], p[2] - p[1], z);
    SmallMod(z + Rank(p, i), 2);
  }

  lemma {:induction false} CompactOffsetPermutes<T>(s: seq<T>, p: seq<nat>, z: nat, k: nat)
    requires k > 0 && |s| == Pow2(k) && |p| == |s| + 1 && Steps(p)
    ensures multiset(CompactOffset(s, p, z, k)) == multiset(s)
    decreases |s|
  {
    hide CompactOffset, OffsetCond, Pow2, SwapAt, Wrap;
    PairIs(s, p, z, k);
    if |s| != 2 {
      var h := |s| / 2;
      OffsetParts(s, p, z, k);
      var m: nat := p[h] - p[0];
      var a, b := CompactOffset(s[..h], p[..h + 1], Wrap(z, h), k - 1),
                  CompactOffset(s[h..], p[h..], Wrap(z + m, h), k - 1);
      CompactOffsetPermutes(s[..h], p[..h + 1], Wrap(z, h), k - 1);
      CompactOffsetPermutes(s[h..], p[h..], Wrap(z + m, h), k - 1);
      SwapPermutes(a + b, h, h, OffsetCond(h, m, z));
      assert s == s[..h] + s[h..];
    }
  }

  /** The smallest case, in both directions. */
  lemma {:induction false} PairIs<T>(s: seq<T>, p: seq<nat>, z: nat, k: nat)
    requires k > 0 && |s| == Pow2(k) && |p| == |s| + 1 && Steps(p)
    ensures |s| >= 2
    ensures |s| == 2 ==> multiset(CompactOffset(s, p, z, k)) == multiset(s)
    ensures |s| == 2 ==> DistributeOffset(CompactOffset(s, p, z, k), p, z, k) == s
    ensures |s| == 2 ==> CompactOffset(DistributeOffset(s, p, z, k), p, z, k) == s
  {
    if |s| == 2 { assert s == [s[0], s[1]]; }
  }

  lemma DistributeParts<T>(s: seq<T>, p: seq<nat>, z: nat, k: nat)
    requires k > 0 && |s| == Pow2(k) && |s| != 2 && |p| == |s| + 1 && Steps(p)
    ensures var h := |s| / 2;
            && k > 1 && h == Pow2(k - 1) && |s| == 2 * h && Steps(p[..h + 1]) && Steps(p[h..])
            && p[0] <= p[h] <= p[0] + h
            && var t := SwapAt(s, h, h, OffsetCond(h, p[h] - p[0], z));
               DistributeOffset(s, p, z, k) ==
               DistributeOffset(t[..h], p[..h + 1], Wrap(z, h), k - 1) +
                 DistributeOffset(t[h..], p[h..], Wrap(z + (p[h] - p[0]), h), k - 1)
  {
    HalfPower(k, |s| / 2);
    StepsMonotone(p, 0, |s| / 2);
    StepsSlice(p, 0, |s| / 2 + 1);
    StepsSlice(p, |s| / 2, |p|);
  }

  /** Distribution to an offset undoes compaction to it. */
  lemma {:induction false} DistributeUndoesCompactOffset<T>(s: seq<T>, p: seq<nat>, z: nat, k: nat)
    requires k > 0 && |s| == Pow2(k) && |p| == |s| + 1 && Steps(p)
    ensures DistributeOffset(CompactOffset(s, p, z, k), p, z, k) == s
    decreases |s|
  {
    hide CompactOffset, DistributeOffset, OffsetCond, SwapAt, Pow2, Wrap;
    PairIs(s, p, z, k);
    if |s| != 2 {
      var h := |s| / 2;
      OffsetParts(s, p, z, k);
      var m: nat := p[h] - p[0];
      DistributeParts(CompactOffset(s, p, z, k), p, z, k);
      var a, b := CompactOffset(s[..h], p[..h + 1], Wrap(z, h), k - 1),
                  CompactOffset(s[h..], p[h..], Wrap(z + m, h), k - 1);
      SwapTwice(a + b, h, h, OffsetCond(h, m, z));
      assert (a + b)[..h] == a && (a + b)[h..] == b;
      DistributeUndoesCompactOffset(s[..h], p[..h + 1], Wrap(z, h), k - 1);
      DistributeUndoesCompactOffset(s[h..], p[h..], Wrap(z + m, h), k - 1);
      assert s == s[..h] + s[h..];
    }
  }

  /** Compaction to an offset undoes distribution from it. */
  lemma {:induction false} CompactUndoesDistributeOffset<T>(s: seq<T>, p: seq<nat>, z: nat, k: nat)
    requires k > 0 && |s| == Pow2(k) && |p| == |s| + 1 && Steps(p)
    ensures CompactOffset(DistributeOffset(s, p, z, k), p, z, k) == s
    decreases |s|
  {
    hide CompactOffset, DistributeOffset, OffsetCond, SwapAt, Pow2, Wrap;
    PairIs(s, p, z, k);
    if |s| != 2 {
      var h := |s| / 2;
      DistributeParts(s, p, z, k);
      var m: nat := p[h] - p[0];
      var r := DistributeOffset(s, p, z, k);
      OffsetParts(r, p, z, k);
      var t := SwapAt(s, h, h, OffsetCond(h, m, z));
      var a, b := DistributeOffset(t[..h], p[..h + 1], Wrap(z, h), k - 1),
                  DistributeOffset(t[h..], p[h..], Wrap(z + m, h), k - 1);
      assert r[..h] == a && r[h..] == b;
      CompactUndoesDistributeOffset(t[..h], p[..h + 1], Wrap(z, h), k - 1);
      CompactUndoesDistributeOffset(t[h..], p[h..], Wrap(z + m, h), k - 1);
      assert t == t[..h] + t[h..];
      SwapTwice(s, h, h, OffsetCond(h, m, z));
    }
  }

  // ---------------------------------------------------------------- any length

  function AtLeast(m: nat): nat -> bool {
    SwapCond(false, m)
  }

  /** The largest power of two in `n`, which is taken from the end. */
  ghost function Whole(n: nat): (r: nat)
    requires n > 0
  {
    Pow2(Ilog2(n))
  }

  lemma {:induction false} WholeIs(n: nat)
    requires n > 1
    ensures Ilog2(n) > 0 && 2 <= Whole(n) <= n < 2 * Whole(n) && Whole(n) == Pow2(Ilog2(n))
  {
    var k := Ilog2(n);
    assert Pow2(k + 1) == 2 * Pow2(k);
    assert Pow2(0) == 1;
    if k > 0 { assert Pow2(k) == 2 * Pow2(k - 1); }
  }

  /** The offset at which the last part is compacted, when `m` elements before it are marked. */
  function LastOffset(n1: nat, n2: nat, m: nat): (z: nat)
    requires n2 < n1
    ensures z < n1
  {
    Wrap(n1 - n2 + m, n1)
  }

  /** A length that is not a power of two, cut into a first part of n2 and a last part of n1 = 2^k elements. */
  ghost predicate IsCut(p: seq<nat>, n1: nat, n2: nat, m: nat, k: nat) {
    && |p| == n1 + n2 + 1 && Steps(p) && 0 < n2 < n1 && 2 <= n1 && k > 0 && n1 == Pow2(k) == Whole(n1 + n2)
    && k == Ilog2(n1 + n2)
    && p[n2] == p[0] + m && m <= n2 && Steps(p[..n2 + 1]) && Steps(p[n2..])
  }

  lemma {:induction false} CutsHere(p: seq<nat>, n: nat)
    requires n > 1 && |p| == n + 1 && Steps(p) && Whole(n) < n
    ensures p[0] <= p[n - Whole(n)] && IsCut(p, Whole(n), n - Whole(n), p[n - Whole(n)] - p[0], Ilog2(n))
  {
    WholeIs(n);
    var n2 := n - Whole(n);
    StepsMonotone(p, 0, n2);
    StepsSlice(p, 0, n2 + 1);
    StepsSlice(p, n2, |p|);
  }

  lemma CutHere(p: seq<nat>, n: nat) returns (n1: nat, n2: nat, m: nat, k: nat)
    requires n > 1 && |p| == n + 1 && Steps(p)
    ensures n1 == Whole(n) && n2 == n - n1 && k == Ilog2(n) && k > 0 && n1 == Pow2(k)
    ensures n2 > 0 ==> IsCut(p, n1, n2, m, k)
  {
    WholeIs(n);
    n1, k := Whole(n), Ilog2(n);
    n2, m := n - n1, 0;
    if n2 > 0 {
      CutsHere(p, n);
      m := p[n2] - p[0];
    }
  }

  /** The parts of a compaction put together. */
  ghost function CompactCut<T>(a: seq<T>, b: seq<T>, n1: nat, n2: nat, m: nat): (r: seq<T>)
    requires |a| == n2 < n1 == |b|
    ensures |r| == n1 + n2
  {
    SwapAt(a + b, n2, n1, AtLeast(m))
  }

  /** Compaction for any length. */
  ghost function Compact<T>(s: seq<T>, p: seq<nat>): (r: seq<T>)
    requires |p| == |s| + 1 && Steps(p)
    ensures |r| == |s|
    decreases |s|, 1
  {
    if |s| <= 1 then s
    else
      WholeIs(|s|);
      var n1 := Whole(|s|);
      if n1 == |s| then CompactOffset(s, p, 0, Ilog2(|s|))
      else
        CutsHere(p, |s|);
        CompactAtCut(s, p, n1, |s| - n1, p[|s| - n1] - p[0], Ilog2(|s|))
  }

  ghost function CompactAtCut<T>(s: seq<T>, p: seq<nat>, n1: nat, n2: nat, m: nat, k: nat): (r: seq<T>)
    requires |s| == n1 + n2 && IsCut(p, n1, n2, m, k)
    ensures |r| == |s|
    decreases |s|, 0
  {
    CompactCut(Compact(s[..n2], p[..n2 + 1]), CompactOffset(s[n2..], p[n2..], LastOffset(n1, n2, m), k), n1, n2, m)
  }

  ghost function Distribute<T>(s: seq<T>, p: seq<nat>): (r: seq<T>)
    requires |p| == |s| + 1 && Steps(p)
    ensures |r| == |s|
    decreases |s|, 1
  {
    if |s| <= 1 then s
    else
      WholeIs(|s|);
      var n1 := Whole(|s|);
      if n1 == |s| then DistributeOffset(s, p, 0, Ilog2(|s|))
      else
        CutsHere(p, |s|);
        DistributeAtCut(s, p, n1, |s| - n1, p[|s| - n1] - p[0], Ilog2(|s|))
  }

  ghost function DistributeAtCut<T>(s: seq<T>, p: seq<nat>, n1: nat, n2: nat, m: nat, k: nat): (r: seq<T>)
    requires |s| == n1 + n2 && IsCut(p, n1, n2, m, k)
    ensures |r| == |s|
    decreases |s|, 0
  {
    var t := SwapAt(s, n2, n1, AtLeast(m));
    Distribute(t[..n2], p[..n2 + 1]) + DistributeOffset(t[n2..], p[n2..], LastOffset(n1, n2, m), k)
  }

  lemma {:induction false} CompactWhole<T>(s: seq<T>, p: seq<nat>, k: nat)
    requires |s| > 1 && |p| == |s| + 1 && Steps(p) && Whole(|s|) == |s| && k == Ilog2(|s|)
    ensures k > 0 && |s| == Pow2(k)
    ensures Compact(s, p) == CompactOffset(s, p, 0, k) && Distribute(s, p) == DistributeOffset(s, p, 0, k)
  {
    WholeIs(|s|);
  }

  lemma {:induction false} CompactIsCut<T>(s: seq<T>, p: seq<nat>, n1: nat, n2: nat, m: nat, k: nat)
    requires |s| == n1 + n2 && IsCut(p, n1, n2, m, k)
    ensures Compact(s, p) ==
            CompactCut(Compact(s[..n2], p[..n2 + 1]), CompactOffset(s[n2..], p[n2..], LastOffset(n1, n2, m), k), n1, n2,
                       m)
  {
    hide SwapAt, CompactOffset, Steps, Pow2, Ilog2, CompactCut, Whole, LastOffset, Compact;
    CompactTakesCut(s, p, n1, n2, m, k);
  }

  lemma {:induction false} CompactTakesCut<T>(s: seq<T>, p: seq<nat>, n1: nat, n2: nat, m: nat, k: nat)
    requires |s| == n1 + n2 && IsCut(p, n1, n2, m, k)
    ensures Compact(s, p) == CompactAtCut(s, p, n1, n2, m, k)
  {
    hide Steps, Pow2, Ilog2, Whole, CompactAtCut, CompactOffset;
    assert |s| - n1 == n2 && p[n2] - p[0] == m;
  }

  lemma {:induction false} DistributeIsCut<T>(s: seq<T>, p: seq<nat>, n1: nat, n2: nat, m: nat, k: nat)
    requires |s| == n1 + n2 && IsCut(p, n1, n2, m, k)
    ensures var t := SwapAt(s, n2, n1, AtLeast(m));
            Distribute(s, p) ==
              Distribute(t[..n2], p[..n2 + 1]) + DistributeOffset(t[n2..], p[n2..], LastOffset(n1, n2, m), k)
  {
    hide SwapAt, DistributeOffset, Steps, Pow2, Ilog2, Whole, LastOffset, AtLeast, Wrap, Distribute;
    DistributeTakesCut(s, p, n1, n2, m, k);
  }

  lemma {:induction false} DistributeTakesCut<T>(s: seq<T>, p: seq<nat>, n1: nat, n2: nat, m: nat, k: nat)
    requires |s| == n1 + n2 && IsCut(p, n1, n2, m, k)
    ensures Distribute(s, p) == DistributeAtCut(s, p, n1, n2, m, k)
  {
    hide Steps, Pow2, Ilog2, Whole, DistributeAtCut, DistributeOffset;
    assert |s| - n1 == n2 && p[n2] - p[0] == m;
  }

  /** Where an element of the last n1 goes: slot `m + j` in the end. */
  lemma LastPartPlace(n1: nat, n2: nat, m: nat, j: nat, x: nat)
    requires m <= n2 < n1 && j < n1 && x == Wrap(LastOffset(n1, n2, m) + j, n1)
    ensures m + j < n2 ==> x == n1 - n2 + m + j
    ensures m + j >= n2 ==> x == m + j - n2
  {
    hide Wrap;
    SmallMod(n1 - n2 + m, n1);
    SmallMod(Wrap(n1 - n2 + m, n1) + j, n1);
  }

  /** What the last pass does to both parts. */
  lemma CutAt<T>(a: seq<T>, b: seq<T>, n1: nat, n2: nat, m: nat, x: nat)
    requires |a| == n2 < n1 == |b| && m <= n2
    ensures x < m ==> CompactCut(a, b, n1, n2, m)[x] == a[x]
    ensures m <= x < n2 ==> CompactCut(a, b, n1, n2, m)[x] == b[n1 - n2 + x]
    ensures n2 <= x < n1 + m ==> CompactCut(a, b, n1, n2, m)[x] == b[x - n2]
  {
  }

  /** Stable compaction: each marked element ends up at its rank. */
  lemma {:induction false} CompactPlaces<T>(s: seq<T>, p: seq<nat>, i: nat)
    requires |p| == |s| + 1 && Steps(p) && i < |s| && Marked(p, i)
    ensures Rank(p, i) < |s| && Compact(s, p)[Rank(p, i)] == s[i]
    decreases |s|, 1
  {
    RankBounds(p, i);
    if |s| > 1 {
      var n1, n2, m, k := CutHere(p, |s|);
      if n2 == 0 {
        CompactWhole(s, p, k);
        CompactOffsetPlaces(s, p, 0, k, i);
        SmallMod(Rank(p, i), n1);
      } else {
        CompactPlacesCut(s, p, i, n1, n2, m, k);
      }
    }
  }

  lemma {:induction false} CompactPlacesCut<T>(s: seq<T>, p: seq<nat>, i: nat, n1: nat, n2: nat, m: nat, k: nat)
    requires |s| == n1 + n2 && IsCut(p, n1, n2, m, k) && i < |s| && Marked(p, i) && Rank(p, i) < |s|
    ensures Compact(s, p)[Rank(p, i)] == s[i]
    decreases |s|, 0
  {
    hide Compact, CompactOffset, Marked, Rank, Pow2, Ilog2, LastOffset, CompactCut, Steps, Whole, Wrap;
    RankSplit(p, n2, i);
    CompactIsCut(s, p, n1, n2, m, k);
    if i < n2 {
      CompactPlaces(s[..n2], p[..n2 + 1], i);
      CutAt(Compact(s[..n2], p[..n2 + 1]), CompactOffset(s[n2..], p[n2..], LastOffset(n1, n2, m), k), n1, n2, m,
            Rank(p, i));
    } else {
      LastPartPlaces(Compact(s[..n2], p[..n2 + 1]), s[n2..], p[n2..], i - n2, n1, n2, m, k);
    }
  }

  lemma {:induction false} LastPartPlaces<T>(a: seq<T>, s: seq<T>, p: seq<nat>, i: nat, n1: nat, n2: nat, m: nat,
                                             k: nat)
    requires |s| == n1 == Pow2(k) && k > 0 && |p| == n1 + 1 && Steps(p) && |a| == n2 < n1 && m <= n2 && i < n1
    requires Marked(p, i)
    ensures Rank(p, i) < n1
    ensures CompactCut(a, CompactOffset(s, p, LastOffset(n1, n2, m), k), n1, n2, m)[m + Rank(p, i)] == s[i]
  {
    hide CompactOffset, Marked, Rank, Pow2, LastOffset, CompactCut, Steps, Wrap;
    RankBounds(p, i);
    CompactOffsetPlaces(s, p, LastOffset(n1, n2, m), k, i);
    LastPartAt(a, CompactOffset(s, p, LastOffset(n1, n2, m), k), n1, n2, m, Rank(p, i));
  }

  lemma LastPartAt<T>(a: seq<T>, b: seq<T>, n1: nat, n2: nat, m: nat, j: nat)
    requires |a| == n2 < n1 == |b| && m <= n2 && j < n1
    ensures CompactCut(a, b, n1, n2, m)[m + j] == b[Wrap(LastOffset(n1, n2, m) + j, n1)]
  {
    hide CompactCut, Wrap, LastOffset;
    LastPartPlace(n1, n2, m, j, Wrap(LastOffset(n1, n2, m) + j, n1));
    CutAt(a, b, n1, n2, m, m + j);
  }

  lemma {:induction false} CompactPermutes<T>(s: seq<T>, p: seq<nat>)
    requires |p| == |s| + 1 && Steps(p)
    ensures multiset(Compact(s, p)) == multiset(s)
    decreases |s|, 1
  {
    if |s| > 1 {
      var n1, n2, m, k := CutHere(p, |s|);
      if n2 == 0 {
        CompactWhole(s, p, k);
        CompactOffsetPermutes(s, p, 0, k);
      } else {
        CompactCutPermutes(s, p, n1, n2, m, k);
      }
    }
  }

  lemma {:induction false} CompactCutPermutes<T>(s: seq<T>, p: seq<nat>, n1: nat, n2: nat, m: nat, k: nat)
    requires |s| == n1 + n2 && IsCut(p, n1, n2, m, k)
    ensures multiset(Compact(s, p)) == multiset(s)
    decreases |s|, 0
  {
    hide Compact, CompactOffset, Pow2, Ilog2, LastOffset, Steps, SwapAt;
    CompactIsCut(s, p, n1, n2, m, k);
    var z := LastOffset(n1, n2, m);
    CompactPermutes(s[..n2], p[..n2 + 1]);
    CompactOffsetPermutes(s[n2..], p[n2..], z, k);
    SwapPermutes(Compact(s[..n2], p[..n2 + 1]) + CompactOffset(s[n2..], p[n2..], z, k), n2, n1, AtLeast(m));
    assert s == s[..n2] + s[n2..];
  }

  /** Distribution undoes compaction with the same prefix sum. */
  lemma {:induction false} DistributeUndoesCompact<T>(s: seq<T>, p: seq<nat>)
    requires |p| == |s| + 1 && Steps(p)
    ensures Distribute(Compact(s, p), p) == s
    decreases |s|, 1
  {
    if |s| > 1 {
      var n1, n2, m, k := CutHere(p, |s|);
      if n2 == 0 {
        CompactWhole(s, p, k);
        CompactWhole(Compact(s, p), p, k);
        DistributeUndoesCompactOffset(s, p, 0, k);
      } else {
        DistributeUndoesCut(s, p, n1, n2, m, k);
      }
    }
  }

  lemma {:induction false} DistributeUndoesCut<T>(s: seq<T>, p: seq<nat>, n1: nat, n2: nat, m: nat, k: nat)
    requires |s| == n1 + n2 && IsCut(p, n1, n2, m, k)
    ensures Distribute(Compact(s, p), p) == s
    decreases |s|, 0
  {
    hide Compact, CompactOffset, Distribute, DistributeOffset, Pow2, Ilog2, SwapAt, AtLeast, LastOffset, Steps;
    CompactIsCut(s, p, n1, n2, m, k);
    DistributeIsCut(Compact(s, p), p, n1, n2, m, k);
    var z := LastOffset(n1, n2, m);
    var a, b := Compact(s[..n2], p[..n2 + 1]), CompactOffset(s[n2..], p[n2..], z, k);
    SwapTwice(a + b, n2, n1, AtLeast(m));
    assert (a + b)[..n2] == a && (a + b)[n2..] == b;
    DistributeUndoesCompact(s[..n2], p[..n2 + 1]);
    DistributeUndoesCompactOffset(s[n2..], p[n2..], z, k);
    assert s == s[..n2] + s[n2..];
  }

  /** Compaction undoes distribution with the same prefix sum. */
  lemma {:induction false} CompactUndoesDistribute<T>(s: seq<T>, p: seq<nat>)
    requires |p| == |s| + 1 && Steps(p)
    ensures Compact(Distribute(s, p), p) == s
    decreases |s|, 1
  {
    if |s| > 1 {
      var n1, n2, m, k := CutHere(p, |s|);
      if n2 == 0 {
        CompactWhole(s, p, k);
        CompactWhole(Distribute(s, p), p, k);
        CompactUndoesDistributeOffset(s, p, 0, k);
      } else {
        CompactUndoesCut(s, p, n1, n2, m, k);
      }
    }
  }

  lemma {:induction false} CompactUndoesCut<T>(s: seq<T>, p: seq<nat>, n1: nat, n2: nat, m: nat, k: nat)
    requires |s| == n1 + n2 && IsCut(p, n1, n2, m, k)
    ensures Compact(Distribute(s, p), p) == s
    decreases |s|, 0
  {
    hide Compact, CompactOffset, Distribute, DistributeOffset, Pow2, Ilog2, SwapAt, AtLeast, LastOffset, Steps;
    DistributeIsCut(s, p, n1, n2, m, k);
    CompactIsCut(Distribute(s, p), p, n1, n2, m, k);
    var z, t := LastOffset(n1, n2, m), SwapAt(s, n2, n1, AtLeast(m));
    var a, b := Distribute(t[..n2], p[..n2 + 1]), DistributeOffset(t[n2..], p[n2..], z, k);
    assert (a + b)[..n2] == a && (a + b)[n2..] == b;
    CompactUndoesDistribute(t[..n2], p[..n2 + 1]);
    CompactUndoesDistributeOffset(t[n2..], p[n2..], z, k);
    assert t == t[..n2] + t[n2..];
    SwapTwice(s, n2, n1, AtLeast(m));
  }

  /** Distribution sends the j-th leading element to the j-th marked place. */
  lemma {:induction false} DistributePlaces<T>(s: seq<T>, p: seq<nat>, i: nat)
    requires |p| == |s| + 1 && Steps(p) && i < |s| && Marked(p, i)
    ensures Rank(p, i) < |s| && Distribute(s, p)[i] == s[Rank(p, i)]
  {
    hide Compact, Distribute;
    CompactUndoesDistribute(s, p);
    CompactPlaces(Distribute(s, p), p, i);
  }

  lemma {:induction false} DistributePermutes<T>(s: seq<T>, p: seq<nat>)
    requires |p| == |s| + 1 && Steps(p)
    ensures multiset(Distribute(s, p)) == multiset(s)
  {
    hide Compact, Distribute;
    CompactUndoesDistribute(s, p);
    CompactPermutes(Distribute(s, p), p);
  }
}
