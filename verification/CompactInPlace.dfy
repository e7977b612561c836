/** The compaction and distribution procedures on arrays. */
module CompactInPlace {
  import opened Bits
  import opened Sequences
  import opened PowerOfTwo
  import opened Compaction

  // ---------------------------------------------------------------- what is kept

  /** The elements that are not dummies, in order. */
  ghost function Kept<T>(s: seq<T>, isDummy: T -> bool): (r: seq<T>)
    ensures |r| <= |s|
  {
    if s == [] then []
    else Kept(s[..|s| - 1], isDummy) + (if isDummy(s[|s| - 1]) then [] else [s[|s| - 1]])
  }

  /** The dummies, in order. */
  ghost function Dropped<T>(s: seq<T>, isDummy: T -> bool): (r: seq<T>) {
    if s == [] then []
    else Dropped(s[..|s| - 1], isDummy) + (if isDummy(s[|s| - 1]) then [s[|s| - 1]] else [])
  }

  lemma {:induction false} KeptAndDropped<T>(s: seq<T>, isDummy: T -> bool)
    ensures multiset(Kept(s, isDummy)) + multiset(Dropped(s, isDummy)) == multiset(s)
    ensures forall i :: 0 <= i < |Dropped(s, isDummy)| ==> isDummy(Dropped(s, isDummy)[i])
  {
    hide Kept, Dropped;
    NothingKept<T>(isDummy);
    if s != [] {
      var s', x := s[..|s| - 1], s[|s| - 1];
      KeptAndDropped(s', isDummy);
      assert s == s' + [x];
      LastKept(s', x, isDummy);
      MultisetStep(Kept(s', isDummy), Dropped(s', isDummy), s', x);
    }
  }

  lemma NothingKept<T>(isDummy: T -> bool)
    ensures Kept([], isDummy) == [] && Dropped([], isDummy) == []
  {
  }

  lemma {:induction false} LastKept<T>(s: seq<T>, x: T, isDummy: T -> bool)
    ensures Kept(s + [x], isDummy) == Kept(s, isDummy) + (if isDummy(x) then [] else [x])
    ensures Dropped(s + [x], isDummy) == Dropped(s, isDummy) + (if isDummy(x) then [x] else [])
  {
    assert (s + [x])[..|s|] == s;
  }

  lemma MultisetStep<T>(a: seq<T>, b: seq<T>, s: seq<T>, x: T)
    requires multiset(a) + multiset(b) == multiset(s)
    ensures multiset(a + [x]) + multiset(b + []) == multiset(s + [x]) == multiset(a + []) + multiset(b + [x])
  {
    assert b + [] == b && a + [] == a;
  }

  /** The prefix sum counts the elements that are not dummies. */
  ghost predicate Counts<T>(p: seq<nat>, s: seq<T>, isDummy: T -> bool) {
    |p| == |s| + 1 && Steps(p) && forall i: nat :: i < |s| ==> (Marked(p, i) <==> !isDummy(s[i]))
  }

  /** If every kept element is found at its rank, then the kept elements come first, in order. */
  lemma {:induction false} KeptComeFirst<T>(p: seq<nat>, s: seq<T>, r: seq<T>, isDummy: T -> bool, n: nat)
    requires Counts(p, s, isDummy) && n <= |s| == |r|
    requires forall i: nat :: i < |s| && !isDummy(s[i]) ==> Rank(p, i) < |r| && r[Rank(p, i)] == s[i]
    ensures Rank(p, n) <= n && r[..Rank(p, n)] == Kept(s[..n], isDummy)
  {
    if n > 0 {
      KeptComeFirst(p, s, r, isDummy, n - 1);
      KeptStep(p, s, isDummy, n);
    }
  }

  lemma KeptStep<T>(p: seq<nat>, s: seq<T>, isDummy: T -> bool, n: nat)
    requires Counts(p, s, isDummy) && 0 < n <= |s|
    ensures Rank(p, n) == Rank(p, n - 1) + (if isDummy(s[n - 1]) then 0 else 1)
    ensures Kept(s[..n], isDummy) == Kept(s[..n - 1], isDummy) + (if isDummy(s[n - 1]) then [] else [s[n - 1]])
  {
    assert s[..n][..n - 1] == s[..n - 1];
    assert Marked(p, n - 1) <==> !isDummy(s[n - 1]);
    StepsMonotone(p, 0, n - 1);
  }

  /** `r` holds the elements of `s`, those that are not dummies first and in order, then the dummies. */
  ghost predicate StablyCompacted<T>(s: seq<T>, r: seq<T>, isDummy: T -> bool, count: nat) {
    && count == |Kept(s, isDummy)| <= |r| == |s|
    && r[..count] == Kept(s, isDummy)
    && multiset(r[count..]) == multiset(Dropped(s, isDummy))
    && forall i :: count <= i < |r| ==> isDummy(r[i])
  }

  lemma {:induction false} DummiesComeLast<T>(s: seq<T>, r: seq<T>, isDummy: T -> bool, count: nat)
    requires multiset(r) == multiset(s) && |r| == |s| && count <= |r| && r[..count] == Kept(s, isDummy)
    ensures StablyCompacted(s, r, isDummy, count)
  {
    hide Kept, Dropped;
    KeptAndDropped(s, isDummy);
    assert r == r[..count] + r[count..];
    Cancel(multiset(Kept(s, isDummy)), multiset(r[count..]), multiset(Dropped(s, isDummy)));
    AllIn(r[count..], Dropped(s, isDummy), isDummy);
    forall i | count <= i < |r| ensures isDummy(r[i]) {
      assert r[i] == r[count..][i - count];
    }
  }

  lemma AllIn<T>(a: seq<T>, b: seq<T>, f: T -> bool)
    requires multiset(a) == multiset(b) && forall i :: 0 <= i < |b| ==> f(b[i])
    ensures forall i :: 0 <= i < |a| ==> f(a[i])
  {
    forall i | 0 <= i < |a| ensures f(a[i]) {
      assert a[i] in multiset(b);
      assert a[i] in b;
    }
  }

  /** Compaction by the prefix sum of the elements that are not dummies. */
  lemma {:induction false} CompactIsStable<T>(p: seq<nat>, s: seq<T>, isDummy: T -> bool)
    requires Counts(p, s, isDummy)
    ensures StablyCompacted(s, Compact(s, p), isDummy, Rank(p, |s|))
  {
    hide Compact, StablyCompacted, Kept, Rank, Steps, Marked;
    forall i: nat | i < |s| && !isDummy(s[i]) ensures Rank(p, i) < |s| && Compact(s, p)[Rank(p, i)] == s[i] {
      assert Marked(p, i);
      CompactPlaces(s, p, i);
    }
    KeptComeFirst(p, s, Compact(s, p), isDummy, |s|);
    assert s[..|s|] == s;
    CompactPermutes(s, p);
    DummiesComeLast(s, Compact(s, p), isDummy, Rank(p, |s|));
  }

  // ---------------------------------------------------------------- the procedures

  /** The prefix sum of the elements that are not dummies. */
  method ComputePrefixSum<T>(arr: array<T>, isDummy: T -> bool) returns (sarr: array<nat>)
    ensures fresh(sarr) && sarr.Length == arr.Length + 1 && sarr[0] == 0 && Counts(sarr[..], arr[..], isDummy)
  {
    var size := arr.Length;
    sarr := new nat[size + 1](_ => 0);
    for i := 0 to size
      invariant sarr[0] == 0
      invariant forall j :: 0 <= j < i ==> sarr[j + 1] == sarr[j] + (if isDummy(arr[j]) then 0 else 1)
    {
      var adder := 1;
      if isDummy(arr[i]) { adder := 0; }
      sarr[i + 1] := sarr[i] + adder;
    }
  }

  /** `s` with the slice that starts at `lo` replaced by `t`. */
  ghost function Splice<T>(s: seq<T>, lo: nat, t: seq<T>): (r: seq<T>)
    requires lo + |t| <= |s|
    ensures |r| == |s|
  {
    s[..lo] + t + s[lo + |t|..]
  }

  /** Replacing two adjacent slices, and then both together. */
  lemma SpliceParts<T>(s: seq<T>, lo: nat, a: seq<T>, b: seq<T>, c: seq<T>)
    requires lo + |a| + |b| <= |s| && |c| == |a| + |b|
    ensures var s1 := Splice(s, lo, a);
            var s2 := Splice(s1, lo + |a|, b);
            && s1[lo + |a|..lo + |a| + |b|] == s[lo + |a|..lo + |a| + |b|]
            && s2[lo..lo + |a| + |b|] == a + b
            && Splice(s2, lo, c) == Splice(s, lo, c)
  {
    var s1 := Splice(s, lo, a);
    assert s1[lo + |a|..lo + |a| + |b|] == s[lo + |a|..lo + |a| + |b|];
    assert Splice(s1, lo + |a|, b)[lo..lo + |a| + |b|] == a + b;
    assert Splice(Splice(s1, lo + |a|, b), lo, c) == Splice(s, lo, c);
  }

  /** Replacing a slice, and then its two parts. */
  lemma SpliceWhole<T>(s: seq<T>, lo: nat, c: seq<T>, h: nat, a: seq<T>, b: seq<T>)
    requires lo + |c| <= |s| && h <= |c| && |a| == h && |b| == |c| - h
    ensures var s1 := Splice(s, lo, c);
            var s2 := Splice(s1, lo, a);
            && s1[lo..lo + h] == c[..h]
            && s2[lo + h..lo + |c|] == c[h..]
            && Splice(s2, lo + h, b) == Splice(s, lo, a + b)
  {
    hide Splice;
    var s1 := Splice(s, lo, c);
    var s2 := Splice(s1, lo, a);
    forall i: nat | i < h ensures s1[lo..lo + h][i] == c[..h][i] { SpliceAt(s, lo, c, lo + i); }
    assert s1[lo..lo + h] == c[..h];
    forall i: nat | i < |c| - h ensures s2[lo + h..lo + |c|][i] == c[h..][i] {
      SpliceAt(s, lo, c, lo + h + i);
      SpliceAt(s1, lo, a, lo + h + i);
    }
    assert s2[lo + h..lo + |c|] == c[h..];
    forall i: nat | i < |s| ensures Splice(s2, lo + h, b)[i] == Splice(s, lo, a + b)[i] {
      SpliceAt(s, lo, c, i);
      SpliceAt(s1, lo, a, i);
      SpliceAt(s2, lo + h, b, i);
      SpliceAt(s, lo, a + b, i);
    }
    assert Splice(s2, lo + h, b) == Splice(s, lo, a + b);
  }

  lemma SpliceAt<T>(s: seq<T>, lo: nat, t: seq<T>, i: nat)
    requires lo + |t| <= |s| && i < |s|
    ensures Splice(s, lo, t)[i] == if lo <= i < lo + |t| then t[i - lo] else s[i]
  {
  }

  lemma SliceParts<T>(s: seq<T>, lo: nat, n: nat, h: nat)
    requires h <= n && lo + n <= |s|
    ensures s[lo..lo + n][..h] == s[lo..lo + h] && s[lo..lo + n][h..] == s[lo + h..lo + n]
    ensures Splice(s, lo, s[lo..lo + n]) == s
  {
  }

  /** Exchanges elements x and x + d of the slice that starts at `lo`, for each x below `count` that meets the
      condition. */
  method SwapPass<T>(arr: array<T>, lo: nat, n: nat, count: nat, d: nat, flip: bool, from: nat)
    requires count <= d && d + count <= n && lo + n <= arr.Length
    modifies arr
    ensures arr[..] == Splice(old(arr[..]), lo, SwapAt(old(arr[..])[lo..lo + n], count, d, SwapCond(flip, from)))
  {
    hide SwapAt, Splice;
    ghost var s := arr[..];
    ghost var t := s[lo..lo + n];
    SwapNone(t, d, SwapCond(flip, from));
    SliceParts(s, lo, n, 0);
    for i := 0 to count
      invariant arr[..] == Splice(s, lo, SwapAt(t, i, d, SwapCond(flip, from)))
    {
      var left, right := lo + i, lo + i + d;
      var cond := flip != (i >= from);
      SwapOneMore(t, i, d, SwapCond(flip, from));
      SpliceSwap(s, lo, SwapAt(t, i, d, SwapCond(flip, from)), i, i + d);
      if cond { arr[left], arr[right] := arr[right], arr[left]; }
    }
  }

  lemma SpliceSwap<T>(s: seq<T>, lo: nat, t: seq<T>, i: nat, j: nat)
    requires lo + |t| <= |s| && i < |t| && j < |t|
    ensures var a := Splice(s, lo, t);
            a[lo + i := a[lo + j]][lo + j := a[lo + i]] == Splice(s, lo, t[i := t[j]][j := t[i]])
  {
  }

  /** Compacts the slice arr[lo..lo + n], n a power of two, cyclically from `z` on. */
  method CompactPayloadOffset<T>(arr: array<T>, lo: nat, n: nat, payload: seq<nat>, z: nat, ghost k: nat)
    requires k > 0 && n == Pow2(k) && lo + n <= arr.Length && |payload| == n + 1 && Steps(payload)
    modifies arr
    ensures arr[..] == Splice(old(arr[..]), lo, CompactOffset(old(arr[..])[lo..lo + n], payload, z, k))
    decreases n, 1
  {
    hide Steps, Pow2, CompactOffset, Splice, SwapPair;
    ghost var s := arr[..];
    ghost var t := s[lo..lo + n];
    var half := n / 2;
    StepsMonotone(payload, 0, half);
    var m := payload[half] - payload[0];
    if n == 2 {
      CompactPair(t, payload, z, k);
      SpliceSwap(s, lo, t, 0, 1);
      SliceParts(s, lo, n, 0);
      if SwapPair(m, payload[2] - payload[1], z) {
        arr[lo], arr[lo + 1] := arr[lo + 1], arr[lo];
      }
      return;
    }
    CompactHalves(arr, lo, n, payload, z, k);
  }

  /** The two recursive calls, and the swap pass over both halves. */
  method CompactHalves<T>(arr: array<T>, lo: nat, n: nat, payload: seq<nat>, z: nat, ghost k: nat)
    requires k > 0 && n == Pow2(k) && n != 2 && lo + n <= arr.Length && |payload| == n + 1 && Steps(payload)
    modifies arr
    ensures arr[..] == Splice(old(arr[..]), lo, CompactOffset(old(arr[..])[lo..lo + n], payload, z, k))
    decreases n, 0
  {
    hide Steps, OffsetCond, SwapAt, Pow2, CompactOffset, Splice, Wrap;
    ghost var s := arr[..];
    ghost var t := s[lo..lo + n];
    var half := n / 2;
    OffsetParts(t, payload, z, k);
    var m := payload[half] - payload[0];
    SliceParts(s, lo, n, half);
    var zleft, zright := Wrap(z, half), Wrap(z + m, half);
    CompactPayloadOffset(arr, lo, half, payload[..half + 1], zleft, k - 1);
    ghost var a, b := CompactOffset(t[..half], payload[..half + 1], zleft, k - 1),
                      CompactOffset(t[half..], payload[half..], zright, k - 1);
    SpliceParts(s, lo, a, b, CompactOffset(t, payload, z, k));
    assert arr[..] == Splice(s, lo, a);
    CompactPayloadOffset(arr, lo + half, half, payload[half..], zright, k - 1);
    assert arr[..] == Splice(Splice(s, lo, a), lo + half, b);
    var flip := (zleft + m >= half) != (z >= half);
    OffsetCondIs(half, m, z, flip, zright);
    SwapPass(arr, lo, n, half, half, flip, zright);
  }

  lemma OffsetCondIs(h: nat, m: nat, z: nat, flip: bool, from: nat)
    requires h > 0 && from == Wrap(z + m, h) && flip == ((Wrap(z, h) + m >= h) != (z >= h))
    ensures OffsetCond(h, m, z) == SwapCond(flip, from)
  {
  }

  lemma {:induction false} CompactPair<T>(s: seq<T>, p: seq<nat>, z: nat, k: nat)
    requires k > 0 && |s| == Pow2(k) == 2 && |p| == 3 && Steps(p)
    ensures p[0] <= p[1] <= p[2] && p[1] - p[0] <= 1
    ensures var swapped := s[0 := s[1]][1 := s[0]];
            && CompactOffset(s, p, z, k) == (if SwapPair(p[1] - p[0], p[2] - p[1], z) then swapped else s)
            && DistributeOffset(s, p, z, k) == (if SwapPair(p[1] - p[0], p[2] - p[1], z) then swapped else s)
  {
    StepsMonotone(p, 0, 1);
    StepsMonotone(p, 1, 2);
    assert [s[1], s[0]] == s[0 := s[1]][1 := s[0]];
  }

  /** Undoes CompactPayloadOffset. */
  method DistributePayloadOffset<T>(arr: array<T>, lo: nat, n: nat, payload: seq<nat>, z: nat, ghost k: nat)
    requires k > 0 && n == Pow2(k) && lo + n <= arr.Length && |payload| == n + 1 && Steps(payload)
    modifies arr
    ensures arr[..] == Splice(old(arr[..]), lo, DistributeOffset(old(arr[..])[lo..lo + n], payload, z, k))
    decreases n, 1
  {
    hide Steps, Pow2, DistributeOffset, Splice, SwapPair;
    ghost var s := arr[..];
    ghost var t := s[lo..lo + n];
    var half := n / 2;
    StepsMonotone(payload, 0, half);
    var m := payload[half] - payload[0];
    if n == 2 {
      CompactPair(t, payload, z, k);
      SpliceSwap(s, lo, t, 0, 1);
      SliceParts(s, lo, n, 0);
      if SwapPair(m, payload[2] - payload[1], z) {
        arr[lo], arr[lo + 1] := arr[lo + 1], arr[lo];
      }
      return;
    }
    DistributeHalves(arr, lo, n, payload, z, k);
  }

  /** The swap pass over both halves, and the two recursive calls. */
  method DistributeHalves<T>(arr: array<T>, lo: nat, n: nat, payload: seq<nat>, z: nat, ghost k: nat)
    requires k > 0 && n == Pow2(k) && n != 2 && lo + n <= arr.Length && |payload| == n + 1 && Steps(payload)
    modifies arr
    ensures arr[..] == Splice(old(arr[..]), lo, DistributeOffset(old(arr[..])[lo..lo + n], payload, z, k))
    decreases n, 0
  {
    hide Steps, OffsetCond, SwapAt, Pow2, DistributeOffset, Splice, Wrap;
    ghost var s := arr[..];
    ghost var t := s[lo..lo + n];
    var half := n / 2;
    DistributeParts(t, payload, z, k);
    var m := payload[half] - payload[0];
    var zleft, zright := Wrap(z, half), Wrap(z + m, half);
    var flip := (zleft + m >= half) != (z >= half);
    OffsetCondIs(half, m, z, flip, zright);
    SwapPass(arr, lo, n, half, half, flip, zright);
    ghost var c := SwapAt(t, half, half, SwapCond(flip, zright));
    ghost var a, b := DistributeOffset(c[..half], payload[..half + 1], zleft, k - 1),
                      DistributeOffset(c[half..], payload[half..], zright, k - 1);
    SpliceWhole(s, lo, c, half, a, b);
    DistributePayloadOffset(arr, lo, half, payload[..half + 1], zleft, k - 1);
    assert arr[..] == Splice(Splice(s, lo, c), lo, a);
    DistributePayloadOffset(arr, lo + half, half, payload[half..], zright, k - 1);
  }

  /** Compacts the first `n` elements by a prefix sum, for any length. */
  method CompactPayload<T>(arr: array<T>, n: nat, payload: seq<nat>)
    requires n <= arr.Length && |payload| == n + 1 && Steps(payload) && n < 0x8000_0000_0000_0000
    modifies arr
    ensures arr[..] == Splice(old(arr[..]), 0, Compact(old(arr[..])[..n], payload))
    decreases n, 1
  {
    hide Steps, Pow2, Ilog2, Whole, Compact, CompactOffset, Distribute, DistributeOffset, Splice;
    ghost var s := arr[..];
    ghost var t := s[..n];
    SliceParts(s, 0, n, 0);
    if n <= 1 {
      CompactNone(t, payload);
      return;
    }
    var n1 := GetSmallerOrEqualPowerOfTwo(n);
    var n2 := n - n1;
    ghost var _, _, m, k := CutHere(payload, n);
    WholeIs(n);
    if n2 == 0 {
      CompactWhole(t, payload, k);
      CompactPayloadOffset(arr, 0, n, payload, 0, k);
      return;
    }
    CompactAround(arr, n1, n2, payload, m, k);
  }

  /** The two calls for a length that is not a power of two, and the swap pass between them. */
  method CompactAround<T>(arr: array<T>, n1: nat, n2: nat, payload: seq<nat>, ghost m': nat, ghost k: nat)
    requires IsCut(payload, n1, n2, m', k) && n1 + n2 <= arr.Length && n1 + n2 < 0x8000_0000_0000_0000
    modifies arr
    ensures arr[..] == Splice(old(arr[..]), 0, Compact(old(arr[..])[..n1 + n2], payload))
    decreases n1 + n2, 0
  {
    hide Steps, SwapAt, Pow2, Ilog2, Whole, Compact, CompactOffset, CompactCut, Splice, LastOffset;
    ghost var s := arr[..];
    ghost var t := s[..n1 + n2];
    var m := payload[n2] - payload[0];
    CompactIsCut(t, payload, n1, n2, m, k);
    SliceParts(s, 0, n1 + n2, n2);
    ghost var a, b := Compact(t[..n2], payload[..n2 + 1]),
                      CompactOffset(t[n2..], payload[n2..], LastOffset(n1, n2, m), k);
    SpliceParts(s, 0, a, b, Compact(t, payload));
    CompactPayload(arr, n2, payload[..n2 + 1]);
    assert arr[..] == Splice(s, 0, a);
    CompactPayloadOffset(arr, n2, n1, payload[n2..], LastOffset(n1, n2, m), k);
    assert arr[..] == Splice(Splice(s, 0, a), n2, b);
    CompactCutIs(a, b, n1, n2, m);
    SwapPass(arr, 0, n1 + n2, n2, n1, false, m);
  }

  lemma {:induction false} CompactNone<T>(s: seq<T>, p: seq<nat>)
    requires |s| <= 1 && |p| == |s| + 1 && Steps(p)
    ensures Compact(s, p) == s && Distribute(s, p) == s
  {
  }

  lemma CompactCutIs<T>(a: seq<T>, b: seq<T>, n1: nat, n2: nat, m: nat)
    requires |a| == n2 < n1 == |b|
    ensures CompactCut(a, b, n1, n2, m) == SwapAt(a + b, n2, n1, SwapCond(false, m))
  {
  }

  /** Distributes the first `n` elements by a prefix sum, for any length. */
  method DistributePayload<T>(arr: array<T>, n: nat, payload: seq<nat>)
    requires n <= arr.Length && |payload| == n + 1 && Steps(payload) && n < 0x8000_0000_0000_0000
    modifies arr
    ensures arr[..] == Splice(old(arr[..]), 0, Distribute(old(arr[..])[..n], payload))
    decreases n, 1
  {
    hide Steps, Pow2, Ilog2, Whole, Compact, CompactOffset, Distribute, DistributeOffset, Splice;
    ghost var s := arr[..];
    ghost var t := s[..n];
    SliceParts(s, 0, n, 0);
    if n <= 1 {
      CompactNone(t, payload);
      return;
    }
    var n1 := GetSmallerOrEqualPowerOfTwo(n);
    var n2 := n - n1;
    ghost var _, _, m, k := CutHere(payload, n);
    WholeIs(n);
    if n2 == 0 {
      CompactWhole(t, payload, k);
      DistributePayloadOffset(arr, 0, n, payload, 0, k);
      return;
    }
    DistributeAround(arr, n1, n2, payload, m, k);
  }

  /** The swap pass for a length that is not a power of two, and the two calls. */
  method DistributeAround<T>(arr: array<T>, n1: nat, n2: nat, payload: seq<nat>, ghost m': nat, ghost k: nat)
    requires IsCut(payload, n1, n2, m', k) && n1 + n2 <= arr.Length && n1 + n2 < 0x8000_0000_0000_0000
    modifies arr
    ensures arr[..] == Splice(old(arr[..]), 0, Distribute(old(arr[..])[..n1 + n2], payload))
    decreases n1 + n2, 0
  {
    hide Steps, SwapAt, Pow2, Ilog2, Whole, Distribute, DistributeOffset, Splice, LastOffset;
    ghost var s := arr[..];
    ghost var t := s[..n1 + n2];
    var m := payload[n2] - payload[0];
    DistributeIsCut(t, payload, n1, n2, m, k);
    ghost var c := SwapAt(t, n2, n1, SwapCond(false, m));
    SwapPass(arr, 0, n1 + n2, n2, n1, false, m);
    ghost var a, b := Distribute(c[..n2], payload[..n2 + 1]),
                      DistributeOffset(c[n2..], payload[n2..], LastOffset(n1, n2, m), k);
    SpliceWhole(s, 0, c, n2, a, b);
    DistributePayload(arr, n2, payload[..n2 + 1]);
    assert arr[..] == Splice(Splice(s, 0, c), 0, a);
    DistributePayloadOffset(arr, n2, n1, payload[n2..], LastOffset(n1, n2, m), k);
  }

  /** Moves the elements that are not dummies to the front, in order, and returns how many there are. */
  method CompactArray<T>(arr: array<T>, isDummy: T -> bool) returns (ret: nat)
    requires arr.Length < 0x8000_0000_0000_0000
    modifies arr
    ensures StablyCompacted(old(arr[..]), arr[..], isDummy, ret)
  {
    hide Steps, Compact, StablyCompacted;
    ghost var s := arr[..];
    var payload := ComputePrefixSum(arr, isDummy);
    var p := payload[..];
    CompactIsStable(p, s, isDummy);
    CompactPayload(arr, arr.Length, p);
    ret := payload[payload.Length - 1];
    assert s[..arr.Length] == s && Splice(s, 0, Compact(s, p)) == Compact(s, p);
    assert ret == Rank(p, |s|);
  }
}
