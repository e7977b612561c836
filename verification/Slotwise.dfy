/** Compaction and distribution move slots without looking at what they hold. */
module Slotwise {
  import opened Bits
  import opened Sequences
  import opened Networks
  import opened Compaction

  lemma SwapAtMap<T, U>(s: seq<T>, count: nat, d: nat, cond: nat -> bool, f: T -> U)
    requires count <= d && d + count <= |s|
    ensures Map(SwapAt(s, count, d, cond), f) == SwapAt(Map(s, f), count, d, cond)
  {
  }

  lemma MapParts<T, U>(a: seq<T>, b: seq<T>, s: seq<T>, h: nat, f: T -> U)
    requires h <= |s|
    ensures Map(a + b, f) == Map(a, f) + Map(b, f)
    ensures Map(s, f)[..h] == Map(s[..h], f) && Map(s, f)[h..] == Map(s[h..], f)
  {
  }

  lemma {:induction false} PairMap<T, U>(s: seq<T>, p: seq<nat>, z: nat, k: nat, f: T -> U)
    requires k > 0 && |s| == Pow2(k) == 2 && |p| == |s| + 1 && Steps(p)
    ensures Map(CompactOffset(s, p, z, k), f) == CompactOffset(Map(s, f), p, z, k)
  {
    hide SwapPair;
  }

  /** Compaction to an offset commutes with any function on the elements. */
  lemma {:induction false} CompactOffsetMap<T, U>(s: seq<T>, p: seq<nat>, z: nat, k: nat, f: T -> U)
    requires k > 0 && |s| == Pow2(k) && |p| == |s| + 1 && Steps(p)
    ensures Map(CompactOffset(s, p, z, k), f) == CompactOffset(Map(s, f), p, z, k)
    decreases |s|
  {
    hide CompactOffset, OffsetCond, SwapAt, Wrap, Map, Steps;
    if |s| == 2 {
      PairMap(s, p, z, k, f);
    } else {
      var h := |s| / 2;
      OffsetParts(s, p, z, k);
      OffsetParts(Map(s, f), p, z, k);
      var m: nat := p[h] - p[0];
      var a := CompactOffset(s[..h], p[..h + 1], Wrap(z, h), k - 1);
      var b := CompactOffset(s[h..], p[h..], Wrap(z + m, h), k - 1);
      SwapAtMap(a + b, h, h, OffsetCond(h, m, z), f);
      MapParts(a, b, s, h, f);
      CompactOffsetMap(s[..h], p[..h + 1], Wrap(z, h), k - 1, f);
      CompactOffsetMap(s[h..], p[h..], Wrap(z + m, h), k - 1, f);
    }
  }

  /** Compaction commutes with any function on the elements. */
  lemma {:induction false} CompactMap<T, U>(s: seq<T>, p: seq<nat>, f: T -> U)
    requires |p| == |s| + 1 && Steps(p)
    ensures Map(Compact(s, p), f) == Compact(Map(s, f), p)
    decreases |s|, 1
  {
    hide CompactOffset, Steps;
    if |s| > 1 {
      var n1, n2, m, k := CutHere(p, |s|);
      if n2 == 0 {
        CompactWhole(s, p, k);
        CompactWhole(Map(s, f), p, k);
        CompactOffsetMap(s, p, 0, k, f);
      } else {
        CompactMapCut(s, p, n1, n2, m, k, f);
      }
    }
  }

  lemma {:induction false} CompactMapCut<T, U>(s: seq<T>, p: seq<nat>, n1: nat, n2: nat, m: nat, k: nat, f: T -> U)
    requires |s| == n1 + n2 && IsCut(p, n1, n2, m, k)
    ensures Map(Compact(s, p), f) == Compact(Map(s, f), p)
    decreases |s|, 0
  {
    hide Compact, CompactOffset, Pow2, Ilog2, SwapAt, AtLeast, LastOffset, Steps, Map;
    CompactIsCut(s, p, n1, n2, m, k);
    CompactIsCut(Map(s, f), p, n1, n2, m, k);
    var z := LastOffset(n1, n2, m);
    var a, b := Compact(s[..n2], p[..n2 + 1]), CompactOffset(s[n2..], p[n2..], z, k);
    SwapAtMap(a + b, n2, n1, AtLeast(m), f);
    MapParts(a, b, s, n2, f);
    CompactMap(s[..n2], p[..n2 + 1], f);
    CompactOffsetMap(s[n2..], p[n2..], z, k, f);
  }

  /** So does distribution, which undoes compaction. */
  lemma {:induction false} DistributeMap<T, U>(s: seq<T>, p: seq<nat>, f: T -> U)
    requires |p| == |s| + 1 && Steps(p)
    ensures Map(Distribute(s, p), f) == Distribute(Map(s, f), p)
  {
    hide Compact, Distribute, Steps, Map;
    CompactMap(Distribute(s, p), p, f);
    CompactUndoesDistribute(s, p);
    DistributeUndoesCompact(Map(Distribute(s, p), f), p);
  }

  // ---------------------------------------------------------------- the way back

  /** Compaction by one prefix sum, and distribution of the first `n` slots by another. */
  ghost function WayBack<T>(t: seq<T>, p1: seq<nat>, p2: seq<nat>): (r: seq<T>)
    requires |p2| == |t| + 1 && Steps(p2) && 0 < |p1| <= |p2| && Steps(p1)
    ensures |r| == |p1| - 1
  {
    Distribute(Compact(t, p2)[..|p1| - 1], p1)
  }

  lemma {:induction false} WayBackMap<T, U>(t: seq<T>, p1: seq<nat>, p2: seq<nat>, f: T -> U)
    requires |p2| == |t| + 1 && Steps(p2) && 0 < |p1| <= |p2| && Steps(p1)
    ensures Map(WayBack(t, p1, p2), f) == WayBack(Map(t, f), p1, p2)
  {
    hide Compact, Distribute, Steps, Map;
    var c := Compact(t, p2);
    CompactMap(t, p2, f);
    MapParts([], [], c, |p1| - 1, f);
    DistributeMap(c[..|p1| - 1], p1, f);
  }

  /** What comes back to a slot lay in the slots. */
  lemma {:induction false} WayBackFrom<T>(t: seq<T>, p1: seq<nat>, p2: seq<nat>, i: nat) returns (q: nat)
    requires |p2| == |t| + 1 && Steps(p2) && 0 < |p1| <= |p2| && Steps(p1) && i + 1 < |p1|
    ensures q < |t| && WayBack(t, p1, p2)[i] == t[q]
  {
    hide Compact, Distribute, Steps;
    var c := Compact(t, p2);
    var d := c[..|p1| - 1];
    DistributePermutes(d, p1);
    CompactPermutes(t, p2);
    assert WayBack(t, p1, p2)[i] in multiset(d);
    assert WayBack(t, p1, p2)[i] in d;
    assert WayBack(t, p1, p2)[i] in multiset(c);
    assert WayBack(t, p1, p2)[i] in t;
    q :| q < |t| && WayBack(t, p1, p2)[i] == t[q];
  }

  ghost function Both<A, B>(a: seq<A>, b: seq<B>): (z: seq<(A, B)>)
    requires |a| == |b|
    ensures |z| == |a|
    ensures Map(z, (x: (A, B)) => x.0) == a && Map(z, (x: (A, B)) => x.1) == b
  {
    seq(|a|, i requires 0 <= i < |a| => (a[i], b[i]))
  }

  /** Two sequences that go the same way back stay side by side. */
  lemma {:induction false} SideBySide<A, B>(a: seq<A>, b: seq<B>, p1: seq<nat>, p2: seq<nat>, i: nat) returns (q: nat)
    requires |a| == |b| && |p2| == |a| + 1 && Steps(p2) && 0 < |p1| <= |p2| && Steps(p1) && i + 1 < |p1|
    ensures q < |a| && WayBack(a, p1, p2)[i] == a[q] && WayBack(b, p1, p2)[i] == b[q]
  {
    hide WayBack, Steps, Both;
    var z := Both(a, b);
    q := WayBackFrom(z, p1, p2, i);
    WayBackMap(z, p1, p2, (x: (A, B)) => x.0);
    WayBackMap(z, p1, p2, (x: (A, B)) => x.1);
  }

  /** No slot comes back twice. */
  lemma {:induction false} WayBackOnce<T>(t: seq<T>, p1: seq<nat>, p2: seq<nat>, i: nat, k: nat)
    requires |p2| == |t| + 1 && Steps(p2) && 0 < |p1| <= |p2| && Steps(p1) && i < k && k + 1 < |p1|
    requires forall x :: multiset(t)[x] <= 1
    ensures WayBack(t, p1, p2)[i] != WayBack(t, p1, p2)[k]
  {
    hide Compact, Distribute, Steps;
    var c, r := Compact(t, p2), WayBack(t, p1, p2);
    var d := c[..|p1| - 1];
    CompactPermutes(t, p2);
    DistributePermutes(d, p1);
    assert c == d + c[|p1| - 1..];
    assert multiset(r)[r[i]] <= multiset(t)[r[i]];
    if r[i] == r[k] { TwoPlaces(r, i, k); }
  }
}
