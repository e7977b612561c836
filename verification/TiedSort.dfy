/** What the bitonic networks do to elements that all compare as equal: ascending comparators leave them where they are,
    descending ones exchange them. */
module TiedSort {
  import opened Bits
  import opened Networks
  import opened Bitonic

  /** All elements have property `q`, and whatever has it is in order both ways. */
  ghost predicate Tied<T(!new)>(s: seq<T>, le: (T, T) -> bool, q: T -> bool) {
    && (forall i :: 0 <= i < |s| ==> q(s[i]))
    && (forall x, y :: q(x) && q(y) ==> le(x, y))
  }

  lemma {:induction false} TiedKept<T(!new)>(net: Network, s: seq<T>, le: (T, T) -> bool, q: T -> bool)
    requires Tied(s, le, q) && Within(net, 0, |s|)
    ensures Tied(Apply(net, s, le), le, q)
  {
    hide Apply, Within;
    ApplyInside(net, 0, |s|, s, le, q);
  }

  // ---------------------------------------------------------------- ascending networks

  ghost predicate AllUp(net: Network) {
    forall i :: 0 <= i < |net| ==> net[i].up
  }

  lemma AllUpConcat(a: Network, b: Network)
    requires AllUp(a) && AllUp(b)
    ensures AllUp(a + b)
  {
  }

  lemma {:induction false} LayerUp(active: nat -> bool, d: nat, lo: nat, hi: nat)
    ensures AllUp(Layer(active, d, lo, hi, true))
    decreases hi
  {
    if lo < hi { LayerUp(active, d, lo, hi - 1); }
  }

  lemma {:induction false} StagesUp(start: nat, k: nat, n: nat)
    requires n <= k
    ensures AllUp(StagesNet(start, k, n, true))
  {
    if n > 0 {
      hide Pow2, Layer;
      StagesUp(start, k, n - 1);
      LayerUp(LowerHalves(start, Pow2(k - n)), Pow2(k - n), start, start + Pow2(k));
    }
  }

  lemma {:induction false} MergeUp(start: nat, size: nat)
    requires size > 1
    ensures AllUp(MergeNet(start, size, true))
    decreases size
  {
    hide Pow2, Layer, StagesNet, Ilog2, MergeNet, AllUp;
    MergeParts(start, size, true);
    var k := Ilog2(size - 1);
    var s := Pow2(k);
    var first := Layer(Everywhere(), s, start, start + size - s, true);
    var second := if s > 1 then StagesNet(start, k, k, true) else [];
    var third := if size - s > 1 then MergeNet(start + s, size - s, true) else [];
    LayerUp(Everywhere(), s, start, start + size - s);
    StagesUp(start, k, k);
    NothingUp();
    if size - s > 1 { MergeUp(start + s, size - s); }
    AllUpConcat(first, second);
    AllUpConcat(first + second, third);
  }

  lemma NothingUp()
    ensures AllUp([])
  {
  }

  /** Ascending comparators exchange strict inversions only. */
  lemma {:induction false} UpKeeps<T(!new)>(net: Network, s: seq<T>, le: (T, T) -> bool, q: T -> bool)
    requires Tied(s, le, q) && AllUp(net)
    ensures Apply(net, s, le) == s
  {
    if net != [] { UpKeeps(net[..|net| - 1], s, le, q); }
  }

  // ---------------------------------------------------------------- descending networks

  /** A layer that begins at 0 leaves alone what none of its comparators touches. */
  lemma {:induction false} LayerUntouched<T>(s: seq<T>, le: (T, T) -> bool, active: nat -> bool, d: nat, hi: nat,
                                             up: bool, x: nat)
    requires d > 0 && hi <= x < |s| && (x < d || hi <= x - d)
    ensures Apply(Layer(active, d, 0, hi, up), s, le)[x] == s[x]
  {
    hide Apply, Layer;
    if hi == 0 {
      EmptyLayer(active, d, up);
      ApplyNone(s, le);
    } else {
      var net := Layer(active, d, 0, hi - 1, up);
      LayerUntouched(s, le, active, d, hi - 1, up, x);
      LayerStep(active, d, 0, hi, up);
      if active(hi - 1) { ApplyOne(net, Comparator(hi - 1, hi - 1 + d, up), s, le); }
    }
  }

  lemma {:induction false} EmptyLayer(active: nat -> bool, d: nat, up: bool)
    ensures Layer(active, d, 0, 0, up) == []
  {
  }

  /** A descending layer at distance `d` fetches slot 2d - 1 to slot d - 1. */
  lemma {:induction false} LayerFetches<T(!new)>(s: seq<T>, le: (T, T) -> bool, q: T -> bool, active: nat -> bool,
                                                 d: nat, hi: nat)
    requires Tied(s, le, q) && 0 < d <= hi && active(d - 1) && 2 * d - 1 < |s|
    ensures Apply(Layer(active, d, 0, hi, false), s, le)[d - 1] == s[2 * d - 1]
  {
    hide Apply, Layer;
    var net := Layer(active, d, 0, hi - 1, false);
    LayerStep(active, d, 0, hi, false);
    if active(hi - 1) { ApplyOne(net, Comparator(hi - 1, hi - 1 + d, false), s, le); }
    if hi == d {
      LayerUntouched(s, le, active, d, hi - 1, false, d - 1);
      LayerUntouched(s, le, active, d, hi - 1, false, 2 * d - 1);
    } else {
      LayerFetches(s, le, q, active, d, hi - 1);
    }
  }

  /** Descending stages over 2^k elements fetch the last of them. */
  lemma {:induction false} StagesFetch<T(!new)>(s: seq<T>, le: (T, T) -> bool, q: T -> bool, k: nat, n: nat)
    requires Tied(s, le, q) && n <= k && Pow2(k) <= |s|
    ensures Pow2(k - n) <= |s|
    ensures Apply(StagesNet(0, k, n, false), s, le)[Pow2(k - n) - 1] == s[Pow2(k) - 1]
  {
    hide Tied, Pow2, Layer, Apply, StagesNet, LowerHalves, Within;
    Pow2Monotone(k - n, k);
    if n == 0 {
      NoStagesNet(k);
      ApplyNone(s, le);
    } else {
      StagesFetch(s, le, q, k, n - 1);
      StagesNetStep(0, k, n, false);
      var net := StagesNet(0, k, n - 1, false);
      StagesWithin(0, k, n - 1, false);
      WithinWider(net, 0, 0 + Pow2(k), 0, |s|);
      TiedKept(net, s, le, q);
      Pow2Doubles(k - n + 1);
      Pow2Monotone(k - n + 1, k);
      StageFetches(s, le, q, net, Pow2(k - n), 0 + Pow2(k));
    }
  }

  lemma {:induction false} NoStagesNet(k: nat)
    ensures StagesNet(0, k, 0, false) == []
  {
  }

  lemma {:induction false} StageFetches<T(!new)>(s: seq<T>, le: (T, T) -> bool, q: T -> bool, net: Network, d: nat,
                                                 w: nat)
    requires Tied(Apply(net, s, le), le, q) && 0 < 2 * d <= w <= |s|
    ensures Apply(net + Layer(LowerHalves(0, d), d, 0, w, false), s, le)[d - 1] == Apply(net, s, le)[2 * d - 1]
  {
    hide Tied, Layer, Apply, LowerHalves;
    ApplyConcat(net, Layer(LowerHalves(0, d), d, 0, w, false), s, le);
    HalfOf(0, d, 0, d - 1, d - 1);
    LayerFetches(Apply(net, s, le), le, q, LowerHalves(0, d), d, w);
  }

  /** A descending merge fetches an element of the upper half to the front. */
  lemma {:induction false} MergeFetches<T(!new)>(s: seq<T>, le: (T, T) -> bool, q: T -> bool, m: nat) returns (t: nat)
    requires Tied(s, le, q) && 1 < m <= |s|
    ensures m / 2 <= t < m && Apply(MergeNet(0, m, false), s, le)[0] == s[t]
  {
    hide Pow2, Layer, StagesNet, Ilog2, MergeNet, Apply, Within, Tied;
    MergeParts(0, m, false);
    var k := Ilog2(m - 1);
    var w := Pow2(k);
    var first := Layer(Everywhere(), w, 0, 0 + m - w, false);
    var second := if w > 1 then StagesNet(0, k, k, false) else [];
    var third := if m - w > 1 then MergeNet(0 + w, m - w, false) else [];
    var b1 := Apply(first, s, le);
    var b2 := Apply(second, b1, le);
    ApplyConcat(first, second, s, le);
    ApplyConcat(first + second, third, s, le);
    if m == 2 * w {
      t := m - 1;
      LayerFetches(s, le, q, Everywhere(), w, m - w);
    } else {
      t := w - 1;
      LayerUntouched(s, le, Everywhere(), w, m - w, false, w - 1);
    }
    FirstLayerTied(s, le, q, w, m);
    MergeFront(b1, le, q, w, k, m);
  }

  lemma {:induction false} FirstLayerTied<T(!new)>(s: seq<T>, le: (T, T) -> bool, q: T -> bool, w: nat, m: nat)
    requires Tied(s, le, q) && 0 < w < m <= |s|
    ensures Tied(Apply(Layer(Everywhere(), w, 0, 0 + m - w, false), s, le), le, q)
  {
    hide Layer, Apply, Within, Tied;
    LayerWithin(Everywhere(), w, 0, m - w, false, |s|);
    TiedKept(Layer(Everywhere(), w, 0, m - w, false), s, le, q);
  }

  /** The rest of a descending merge fetches element `w` - 1. */
  lemma {:induction false} MergeFront<T(!new)>(b: seq<T>, le: (T, T) -> bool, q: T -> bool, w: nat, k: nat, m: nat)
    requires Tied(b, le, q) && w == Pow2(k) < m <= |b|
    ensures var r := Apply(if w > 1 then StagesNet(0, k, k, false) else [], b, le);
            Apply(if m - w > 1 then MergeNet(0 + w, m - w, false) else [], r, le)[0] == b[w - 1]
  {
    hide Pow2, StagesNet, MergeNet, Apply, Within, Tied;
    var r := Apply(if w > 1 then StagesNet(0, k, k, false) else [], b, le);
    ApplyNone(b, le);
    ApplyNone(r, le);
    StagesFetch(b, le, q, k, k);
    assert Pow2(k - k) == 1 by { LeastPower(); }
    if m - w > 1 {
      MergeWithin(w, m - w, false);
      ApplyOutside(MergeNet(w, m - w, false), w, m, r, le, 0);
    }
  }

  lemma LeastPower()
    ensures Pow2(0) == 1
  {
  }

  // ---------------------------------------------------------------- the sort

  /** With four equal elements or more, the sort brings one from the second quarter to the front. */
  lemma {:induction false} TiedFront<T(!new)>(s: seq<T>, le: (T, T) -> bool, q: T -> bool)
    requires Tied(s, le, q) && |s| >= 4
    ensures var h := |s| / 2;
            Apply(SortNet(0, |s|, true), s, le)[0] in s[h / 2..h]
  {
    hide SortNet, MergeNet, HalvesNet, Apply, Within, Tied, AllUp;
    var n := |s|;
    var h := n / 2;
    SortParts(0, n, true);
    HalvesAre(0, n, true, h);
    var right, left, merge := SortNet(h, n - h, true), SortNet(0, h, false), MergeNet(0, n, true);
    ApplyConcat(right + left, merge, s, le);
    ApplyConcat(right, left, s, le);
    var b := Apply(right, s, le);
    SortWithin(h, n - h, true);
    SortWithin(0, h, false);
    WithinWider(right, h, n, 0, n);
    WithinWider(left, 0, h, 0, n);
    TiedKept(right, s, le, q);
    TiedKept(left, b, le, q);
    MergeUp(0, n);
    UpKeeps(merge, Apply(left, b, le), le, q);
    forall x: nat | x < h ensures b[x] == s[x] { ApplyOutside(right, h, n, s, le, x); }
    assert b[h / 2..h] == s[h / 2..h];
    DescendingFront(b, le, q, h);
  }

  /** The descending sort of the first `h` elements brings one of their upper half to the front. */
  lemma {:induction false} DescendingFront<T(!new)>(s: seq<T>, le: (T, T) -> bool, q: T -> bool, h: nat)
    requires Tied(s, le, q) && 1 < h <= |s|
    ensures Apply(SortNet(0, h, false), s, le)[0] in s[h / 2..h]
  {
    hide SortNet, MergeNet, HalvesNet, Apply, Within, Tied;
    var m := h / 2;
    SortParts(0, h, false);
    var halves, merge := HalvesNet(0, h, false), MergeNet(0, h, false);
    ApplyConcat(halves, merge, s, le);
    HalvesTied(s, le, q, h, m);
    var t := MergeFetches(Apply(halves, s, le), le, q, h);
  }

  /** Sorting the halves first keeps the elements of the upper half there. */
  lemma {:induction false} HalvesTied<T(!new)>(s: seq<T>, le: (T, T) -> bool, q: T -> bool, h: nat, m: nat)
    requires Tied(s, le, q) && 1 < h <= |s| && m == h / 2
    ensures Tied(Apply(HalvesNet(0, h, false), s, le), le, q)
    ensures forall x :: m <= x < h ==> Apply(HalvesNet(0, h, false), s, le)[x] in s[m..h]
  {
    hide SortNet, HalvesNet, Apply, Within, Tied;
    HalvesAre(0, h, false, m);
    var upper := (x: T) => x in s[m..h];
    forall x: nat | m <= x < h ensures upper(s[x]) { assert s[x] == s[m..h][x - m]; }
    ApplyNone(s, le);
    if h - m > 1 {
      var right := SortNet(m, h - m, false);
      SortWithin(m, h - m, false);
      WithinWider(right, m, h, 0, |s|);
      ApplyInside(right, m, h, s, le, upper);
      TiedKept(right, s, le, q);
      if m > 1 {
        var left, b := SortNet(0, m, true), Apply(right, s, le);
        SortWithin(0, m, true);
        WithinWider(left, 0, m, 0, |s|);
        TiedKept(left, b, le, q);
        ApplyConcat(right, left, s, le);
        forall x: nat | m <= x < h ensures Apply(left, b, le)[x] == b[x] { ApplyOutside(left, 0, m, b, le, x); }
      }
    }
  }

  // ---------------------------------------------------------------- short batches

  lemma ShortNets()
    ensures SortNet(0, 2, true) == [Comparator(0, 1, true)]
    ensures SortNet(0, 3, true) == [Comparator(1, 2, true), Comparator(0, 2, true), Comparator(0, 1, true)]
  {
    PairNet(0);
    PairNet(1);
    MergeThree();
    HalvesAre(0, 3, true, 1);
    SortParts(0, 3, true);
  }

  lemma {:induction false} PairNet(start: nat)
    ensures SortNet(start, 2, true) == [Comparator(start, start + 1, true)]
  {
    SortParts(start, 2, true);
    HalvesAre(start, 2, true, 1);
    MergeParts(start, 2, true);
    assert Ilog2(1) == 0 && Pow2(0) == 1;
    OneActive(Everywhere(), 1, start);
  }

  lemma MergeThree()
    ensures MergeNet(0, 3, true) == [Comparator(0, 2, true), Comparator(0, 1, true)]
  {
    hide Layer, StagesNet;
    MergeParts(0, 3, true);
    assert Ilog2(2) == 1 && Pow2(1) == 2 && Pow2(0) == 1;
    OneActive(Everywhere(), 2, 0);
    OneStage();
  }

  lemma {:induction false} OneStage()
    ensures StagesNet(0, 1, 1, true) == [Comparator(0, 1, true)]
  {
    hide Layer;
    assert Pow2(1) == 2 && Pow2(0) == 1 && StagesNet(0, 1, 0, true) == [];
    OneActive(LowerHalves(0, 1), 1, 0);
    LayerStep(LowerHalves(0, 1), 1, 0, 2, true);
  }

  lemma {:induction false} OneActive(active: nat -> bool, d: nat, x: nat)
    requires active(x)
    ensures Layer(active, d, x, x + 1, true) == [Comparator(x, x + d, true)]
  {
    assert Layer(active, d, x, x, true) == [];
  }

  /** Three elements, the first above two equal ones: the sort reverses them. */
  lemma {:induction false} ThreeReversed<T>(s: seq<T>, le: (T, T) -> bool)
    requires |s| == 3 && le(s[1], s[2]) && le(s[2], s[1]) && !le(s[0], s[2])
    ensures Apply(SortNet(0, 3, true), s, le) == [s[2], s[1], s[0]]
  {
    hide Apply, Exchange, SortNet;
    ShortNets();
    var a, b, c := Comparator(1, 2, true), Comparator(0, 2, true), Comparator(0, 1, true);
    ApplyNone(s, le);
    ApplyOne([], a, s, le);
    ApplyOne([] + [a], b, s, le);
    ApplyOne([] + [a] + [b], c, s, le);
    ThreeExchanges(s, le);
    assert [] + [a] + [b] + [c] == [a, b, c];
  }

  lemma ThreeExchanges<T>(s: seq<T>, le: (T, T) -> bool)
    requires |s| == 3 && le(s[1], s[2]) && le(s[2], s[1]) && !le(s[0], s[2])
    ensures Exchange(s, Comparator(1, 2, true), le) == s
    ensures Exchange(s, Comparator(0, 2, true), le) == [s[2], s[1], s[0]]
    ensures Exchange([s[2], s[1], s[0]], Comparator(0, 1, true), le) == [s[2], s[1], s[0]]
  {
  }

  lemma {:induction false} PairKept<T>(s: seq<T>, le: (T, T) -> bool)
    requires |s| == 2 && le(s[0], s[1])
    ensures Apply(SortNet(0, 2, true), s, le) == s
  {
    hide Apply;
    ShortNets();
    ApplyNone(s, le);
    ApplyOne([], Comparator(0, 1, true), s, le);
    assert [] + [Comparator(0, 1, true)] == [Comparator(0, 1, true)];
  }
}
