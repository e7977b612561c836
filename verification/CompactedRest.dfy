/** Where compaction puts the elements that are not marked: behind the marked ones, by pairs taken from the end of the
    sequence, each pair in its order. */
module CompactedRest {
  import opened Bits
  import opened Compaction

  /** How many of the elements [lo, hi) are not marked. */
  function Unmarked(p: seq<nat>, lo: nat, hi: nat): nat
    requires Steps(p) && lo <= hi < |p|
  {
    StepsMonotone(p, lo, hi);
    hi - lo - (p[hi] - p[lo])
  }

  /** Where the pair of element `i` ends, when `n` elements are cut into pairs from the end. */
  function PairEnd(n: nat, i: nat): (e: nat)
    requires i < n
    ensures i < e <= n
  {
    if (n - i) % 2 == 1 then i + 1 else i + 2
  }

  /** How many elements that are not marked come before element `i` when the pairs are taken from the end. */
  function BackRank(p: seq<nat>, i: nat): nat
    requires Steps(p) && i + 1 < |p|
  {
    var e := PairEnd(|p| - 1, i);
    Unmarked(p, e, |p| - 1) + if e == i + 1 && i > 0 && !Marked(p, i - 1) then 1 else 0
  }

  /** Where element `i` ends up. */
  function Place(p: seq<nat>, i: nat): nat
    requires Steps(p) && i + 1 < |p|
  {
    if Marked(p, i) then Rank(p, i) else Rank(p, |p| - 1) + BackRank(p, i)
  }

  lemma UnmarkedSplit(p: seq<nat>, lo: nat, mid: nat, hi: nat)
    requires Steps(p) && lo <= mid <= hi < |p|
    ensures Unmarked(p, lo, hi) == Unmarked(p, lo, mid) + Unmarked(p, mid, hi)
  {
  }

  lemma UnmarkedSlice(p: seq<nat>, from: nat, to: nat, lo: nat, hi: nat)
    requires Steps(p) && from <= lo <= hi < to <= |p| && Steps(p[from..to])
    ensures Unmarked(p[from..to], lo - from, hi - from) == Unmarked(p, lo, hi)
  {
  }

  lemma PlaceBounds(p: seq<nat>, i: nat)
    requires Steps(p) && i + 1 < |p| && !Marked(p, i)
    ensures Rank(p, |p| - 1) + BackRank(p, i) < |p| - 1
  {
    var n, e := |p| - 1, PairEnd(|p| - 1, i);
    UnmarkedSplit(p, 0, e, n);
    if e == i + 1 {
      UnmarkedSplit(p, 0, i, e);
      if i > 0 { UnmarkedSplit(p, 0, i - 1, i); }
    } else {
      UnmarkedSplit(p, 0, i, e);
      UnmarkedSplit(p, i, i + 1, e);
    }
  }

  /** Pairs before a cut, and after it, that does not go through a pair. */
  lemma PairsAtCut(n: nat, h: nat, i: nat)
    requires i < n && h < n && (n - h) % 2 == 0
    ensures i < h ==> PairEnd(h, i) == PairEnd(n, i) <= h
    ensures i >= h ==> PairEnd(n - h, i - h) + h == PairEnd(n, i) && (PairEnd(n, i) == i + 1 ==> i > h)
  {
    if i < h { assert (n - i) % 2 == (h - i) % 2; }
  }

  lemma CutSteps(p: seq<nat>, h: nat)
    requires Steps(p) && 0 < h < |p| - 1
    ensures Steps(p[..h + 1]) && Steps(p[h..]) && p[0] <= p[h] <= p[0] + h && p[h] <= p[|p| - 1]
    ensures p[..h + 1] == p[0..h + 1] && p[h..] == p[h..|p|]
  {
    StepsSlice(p, 0, h + 1);
    StepsSlice(p, h, |p|);
    StepsMonotone(p, 0, h);
    StepsMonotone(p, h, |p| - 1);
    assert p[..h + 1] == p[0..h + 1] && p[h..] == p[h..|p|];
  }

  /** A cut that does not go through a pair. */
  lemma BackSplit(p: seq<nat>, h: nat, i: nat)
    requires Steps(p) && 0 < h < |p| - 1 && (|p| - 1 - h) % 2 == 0 && i + 1 < |p| && !Marked(p, i)
    ensures Steps(p[..h + 1]) && Steps(p[h..]) && p[0] <= p[h] <= p[0] + h && p[h] <= p[|p| - 1]
    ensures i < h ==> !Marked(p[..h + 1], i) && BackRank(p, i) == BackRank(p[..h + 1], i) + Unmarked(p, h, |p| - 1)
    ensures i >= h ==> !Marked(p[h..], i - h) && BackRank(p, i) == BackRank(p[h..], i - h)
  {
    hide Steps, PairEnd, Unmarked;
    var n, e := |p| - 1, PairEnd(|p| - 1, i);
    CutSteps(p, h);
    PairsAtCut(n, h, i);
    if i < h {
      UnmarkedSplit(p, e, h, n);
      UnmarkedSlice(p, 0, h + 1, e, h);
    } else {
      UnmarkedSlice(p, h, |p|, e, n);
    }
  }

  /** Where an element of the first half goes that is not marked. */
  lemma CyclicRest(h: nat, z: nat, m: nat, t: nat, x: nat)
    requires h > 0 && z < 2 * h && m <= t < h && x == Wrap(Wrap(z, h) + t, h)
    ensures Wrap(z + t + h, 2 * h) == if OffsetCond(h, m, z)(x) then x + h else x
  {
    hide Wrap;
    SmallMod(z, h);
    SmallMod(Wrap(z, h) + t, h);
    SmallMod(z + m, h);
    SmallMod(z + t + h, 2 * h);
  }

  lemma PairPlace(p: seq<nat>, i: nat)
    requires |p| == 3 && Steps(p) && i < 2 && !Marked(p, i)
    ensures Rank(p, 2) + BackRank(p, i) == if i == 0 then p[2] - p[1] else 1
  {
    assert PairEnd(2, i) == 2;
  }

  lemma {:induction false} PairRest<T>(s: seq<T>, p: seq<nat>, z: nat, k: nat, i: nat)
    requires k > 0 && |s| == 2 == Pow2(k) && |p| == 3 && Steps(p) && z < 2 && i < 2 && !Marked(p, i)
    ensures CompactOffset(s, p, z, k)[Wrap(z + (Rank(p, 2) + BackRank(p, i)), 2)] == s[i]
  {
    hide BackRank, Rank, Wrap, SwapPair;
    PairPlace(p, i);
    SwapPairIs(p[1] - p[0], p[2] - p[1], z);
    SmallMod(z + (Rank(p, 2) + BackRank(p, i)), 2);
  }

  /** In a power of two of elements, the unmarked ones follow the marked ones cyclically. */
  lemma {:induction false} CompactOffsetRest<T>(s: seq<T>, p: seq<nat>, z: nat, k: nat, i: nat)
    requires k > 0 && |s| == Pow2(k) && |p| == |s| + 1 && Steps(p) && z < |s|
    requires i < |s| && !Marked(p, i)
    ensures CompactOffset(s, p, z, k)[Wrap(z + (Rank(p, |s|) + BackRank(p, i)), |s|)] == s[i]
    decreases |s|
  {
    hide CompactOffset, OffsetCond, Marked, BackRank, Pow2, Wrap, Steps, SwapAt;
    if |s| == 2 {
      PairRest(s, p, z, k, i);
    } else {
      var h := |s| / 2;
      OffsetParts(s, p, z, k);
      EvenPower(k - 1);
      BackSplit(p, h, i);
      var m, z' := p[h] - p[0], Wrap(z, h);
      var z2 := Wrap(z + m, h);
      var a, b := CompactOffset(s[..h], p[..h + 1], z', k - 1), CompactOffset(s[h..], p[h..], z2, k - 1);
      if i < h {
        CompactOffsetRest(s[..h], p[..h + 1], z', k - 1, i);
        PlaceBounds(p[..h + 1], i);
        var t := m + BackRank(p[..h + 1], i);
        CyclicRest(h, z, m, t, Wrap(z' + t, h));
        SwapHalvesAt(a, b, h, OffsetCond(h, m, z), Wrap(z' + t, h));
      } else {
        CompactOffsetRest(s[h..], p[h..], z2, k - 1, i - h);
        PlaceBounds(p[h..], i - h);
        var t := Rank(p[h..], h) + BackRank(p[h..], i - h);
        CyclicRight(h, z, m, t, Wrap(z2 + t, h));
        SwapHalvesAt(a, b, h, OffsetCond(h, m, z), Wrap(z2 + t, h));
      }
    }
  }

  lemma {:induction false} EvenPower(k: nat)
    requires k > 0
    ensures Pow2(k) % 2 == 0
  {
  }

  lemma CutAtEnd<T>(a: seq<T>, b: seq<T>, n1: nat, n2: nat, m: nat, x: nat)
    requires |a| == n2 < n1 == |b| && m <= x < n2
    ensures CompactCut(a, b, n1, n2, m)[n1 + x] == a[x]
  {
  }

  lemma {:induction false} CompactRestWhole<T>(s: seq<T>, p: seq<nat>, i: nat, k: nat)
    requires |s| > 1 && |p| == |s| + 1 && Steps(p) && Whole(|s|) == |s| && k == Ilog2(|s|)
    requires i < |s| && !Marked(p, i) && Rank(p, |s|) + BackRank(p, i) < |s|
    ensures Compact(s, p)[Rank(p, |s|) + BackRank(p, i)] == s[i]
  {
    hide Compact, CompactOffset, BackRank, Rank, Marked, Steps, Wrap, Pow2, Ilog2, Whole;
    CompactWhole(s, p, k);
    CompactOffsetRest(s, p, 0, k, i);
    SmallMod(Rank(p, |s|) + BackRank(p, i), |s|);
  }

  /** In any number of elements, the unmarked ones follow the marked ones, by pairs from the end. */
  lemma {:induction false} CompactRest<T>(s: seq<T>, p: seq<nat>, i: nat)
    requires |p| == |s| + 1 && Steps(p) && i < |s| && !Marked(p, i)
    ensures Rank(p, |s|) + BackRank(p, i) < |s| && Compact(s, p)[Rank(p, |s|) + BackRank(p, i)] == s[i]
    decreases |s|, 1
  {
    PlaceBounds(p, i);
    if |s| > 1 {
      var n1, n2, m, k := CutHere(p, |s|);
      if n2 == 0 { CompactRestWhole(s, p, i, k); } else { CompactRestCut(s, p, i, n1, n2, m, k); }
    }
  }

  lemma {:induction false} CompactRestCut<T>(s: seq<T>, p: seq<nat>, i: nat, n1: nat, n2: nat, m: nat, k: nat)
    requires |s| == n1 + n2 && IsCut(p, n1, n2, m, k) && i < |s| && !Marked(p, i)
    requires Rank(p, |s|) + BackRank(p, i) < |s|
    ensures Compact(s, p)[Rank(p, |s|) + BackRank(p, i)] == s[i]
    decreases |s|, 0
  {
    hide Compact, CompactOffset, Marked, BackRank, Pow2, Ilog2, LastOffset, CompactCut, Steps, Whole, Wrap;
    EvenPower(k);
    BackSplit(p, n2, i);
    CompactIsCut(s, p, n1, n2, m, k);
    var z := LastOffset(n1, n2, m);
    var a, b := Compact(s[..n2], p[..n2 + 1]), CompactOffset(s[n2..], p[n2..], z, k);
    if i < n2 {
      CompactRest(s[..n2], p[..n2 + 1], i);
      CutAtEnd(a, b, n1, n2, m, m + BackRank(p[..n2 + 1], i));
    } else {
      CompactOffsetRest(s[n2..], p[n2..], z, k, i - n2);
      PlaceBounds(p[n2..], i - n2);
      LastPartAt(a, b, n1, n2, m, Rank(p[n2..], n1) + BackRank(p[n2..], i - n2));
    }
  }

  /** Compaction sends every element to its place. */
  lemma {:induction false} CompactSends<T>(s: seq<T>, p: seq<nat>, i: nat)
    requires |p| == |s| + 1 && Steps(p) && i < |s|
    ensures Place(p, i) < |s| && Compact(s, p)[Place(p, i)] == s[i]
  {
    hide Compact, Rank, BackRank, Marked;
    if Marked(p, i) { CompactPlaces(s, p, i); } else { CompactRest(s, p, i); }
  }

  /** Distribution takes every element from its place. */
  lemma {:induction false} DistributeTakes<T>(s: seq<T>, p: seq<nat>, i: nat)
    requires |p| == |s| + 1 && Steps(p) && i < |s|
    ensures Place(p, i) < |s| && Distribute(s, p)[i] == s[Place(p, i)]
  {
    hide Compact, Distribute, Place;
    CompactUndoesDistribute(s, p);
    CompactSends(Distribute(s, p), p, i);
  }
}
