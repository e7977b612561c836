/** Bitonic sorting for arrays of any length. */
module Bitonic {
  import opened Bits
  import opened Networks

  // ---------------------------------------------------------------- bit sequences

  /** Ones, then zeros, then ones: no one with zeros on both sides. */
  ghost predicate QuasiConvex(s: seq<bool>) {
    forall i, j, k :: 0 <= i < j < k < |s| && s[j] ==> s[i] || s[k]
  }

  /** Zeros, then ones, then zeros. */
  ghost predicate QuasiConcave(s: seq<bool>) {
    forall i, j, k :: 0 <= i < j < k < |s| && s[i] && s[k] ==> s[j]
  }

  ghost predicate BitonicBits(s: seq<bool>) {
    QuasiConvex(s) || QuasiConcave(s)
  }

  function And(p: seq<bool>, q: seq<bool>): (r: seq<bool>)
    requires |p| == |q|
    ensures |r| == |p| && forall i :: 0 <= i < |p| ==> r[i] == (p[i] && q[i])
  {
    seq(|p|, i requires 0 <= i < |p| => p[i] && q[i])
  }

  function Or(p: seq<bool>, q: seq<bool>): (r: seq<bool>)
    requires |p| == |q|
    ensures |r| == |p| && forall i :: 0 <= i < |p| ==> r[i] == (p[i] || q[i])
  {
    seq(|p|, i requires 0 <= i < |p| => p[i] || q[i])
  }

  /** Every bit of `p` is at most every bit of `q`. */
  ghost predicate AllBelow(p: seq<bool>, q: seq<bool>) {
    forall i, j :: 0 <= i < |p| && 0 <= j < |q| && p[i] ==> q[j]
  }

  lemma ConvexAt(s: seq<bool>, i: nat, j: nat, k: nat)
    requires QuasiConvex(s) && i <= j <= k < |s|
    ensures s[j] ==> s[i] || s[k]
  {
  }

  lemma ConcaveAt(s: seq<bool>, i: nat, j: nat, k: nat)
    requires QuasiConcave(s) && i <= j <= k < |s|
    ensures s[i] && s[k] ==> s[j]
  {
  }

  /** Comparing the halves of a one-zero-one sequence leaves one half constant, the other still bitonic. */
  lemma HalfCleanConvex(p: seq<bool>, q: seq<bool>)
    requires |p| == |q| && QuasiConvex(p + q)
    ensures QuasiConvex(Or(p, q)) && BitonicBits(And(p, q)) && AllBelow(And(p, q), Or(p, q))
  {
    if z :| 0 <= z < |p| && !p[z] && !q[z] {
      ZeroAbove(p, q, z);
    } else {
      NoZeroAbove(p, q);
    }
  }

  lemma ZeroAbove(p: seq<bool>, q: seq<bool>, z: nat)
    requires |p| == |q| && QuasiConvex(p + q) && z < |p| && !p[z] && !q[z]
    ensures forall i :: 0 <= i < |p| ==> !And(p, q)[i]
    ensures QuasiConvex(Or(p, q)) && QuasiConvex(And(p, q))
  {
    var s, n := p + q, |p|;
    forall i | 0 <= i < n ensures !And(p, q)[i] {
      if i >= z { ConvexAt(s, z, i, n + z); } else { ConvexAt(s, z, n + i, n + z); }
    }
    forall i, j, k | 0 <= i < j < k < n && Or(p, q)[j] ensures Or(p, q)[i] || Or(p, q)[k] {
      ConvexAt(s, i, j, k);
      ConvexAt(s, n + i, n + j, n + k);
    }
  }

  lemma NoZeroAbove(p: seq<bool>, q: seq<bool>)
    requires |p| == |q| && QuasiConvex(p + q) && forall i :: 0 <= i < |p| ==> p[i] || q[i]
    ensures QuasiConvex(Or(p, q)) && BitonicBits(And(p, q))
  {
    var s, low, n := p + q, And(p, q), |p|;
    if u, v :| 0 <= u < n && 0 <= v < n && !p[u] && !q[v] {
      forall i, j, k | 0 <= i < j < k < n && low[i] && low[k] ensures low[j] {
        ConvexAt(s, j, k, n + v);
        ConvexAt(s, u, n + i, n + j);
      }
    } else {
      forall i, j, k | 0 <= i < j < k < n && low[j] ensures low[i] || low[k] {
        ConvexAt(s, i, j, k);
        ConvexAt(s, n + i, n + j, n + k);
      }
    }
  }

  /** Comparing the halves of any bitonic sequence. */
  lemma HalfClean(p: seq<bool>, q: seq<bool>)
    requires |p| == |q| && BitonicBits(p + q)
    ensures BitonicBits(And(p, q)) && BitonicBits(Or(p, q)) && AllBelow(And(p, q), Or(p, q))
  {
    if QuasiConvex(p + q) {
      HalfCleanConvex(p, q);
    } else {
      assert Not(p) + Not(q) == Not(p + q);
      NotSwaps(p + q);
      HalfCleanConvex(Not(p), Not(q));
      assert And(Not(p), Not(q)) == Not(Or(p, q)) && Or(Not(p), Not(q)) == Not(And(p, q));
      NotSwaps(And(p, q));
      NotSwaps(Or(p, q));
      BelowSwaps(p, q);
    }
  }

  lemma BelowSwaps(p: seq<bool>, q: seq<bool>)
    requires |p| == |q| && AllBelow(And(Not(p), Not(q)), Or(Not(p), Not(q)))
    ensures AllBelow(And(p, q), Or(p, q))
  {
    forall i, j | 0 <= i < |p| && 0 <= j < |q| && And(p, q)[i] ensures Or(p, q)[j] {
      assert !Or(Not(p), Not(q))[i];
      assert !And(Not(p), Not(q))[j];
    }
  }

  lemma NotSwaps(s: seq<bool>)
    ensures QuasiConvex(Not(s)) <==> QuasiConcave(s)
    ensures QuasiConcave(Not(s)) <==> QuasiConvex(s)
  {
    var t := Not(s);
    if QuasiConvex(t) {
      forall i, j, k | 0 <= i < j < k < |s| && s[i] && s[k] ensures s[j] { ConvexAt(t, i, j, k); }
    }
    if QuasiConcave(t) {
      forall i, j, k | 0 <= i < j < k < |s| && s[j] ensures s[i] || s[k] { ConcaveAt(t, i, j, k); }
    }
    if QuasiConcave(s) {
      forall i, j, k | 0 <= i < j < k < |s| && t[j] ensures t[i] || t[k] { ConcaveAt(s, i, j, k); }
    }
    if QuasiConvex(s) {
      forall i, j, k | 0 <= i < j < k < |s| && t[i] && t[k] ensures t[j] { ConvexAt(s, i, j, k); }
    }
  }

  // ---------------------------------------------------------------- the networks

  /** The lower halves of the blocks of width 2s that start at `start`. */
  ghost function LowerHalves(start: nat, s: nat): nat -> bool
    requires s > 0
  {
    x => x >= start && ((x - start) / s) % 2 == 0
  }

  ghost function Everywhere(): nat -> bool {
    x => true
  }

  /** The first `n` stages of a merge of 2^k elements; stage n compares at distance 2^(k-n). */
  ghost function StagesNet(start: nat, k: nat, n: nat, up: bool): Network
    requires n <= k
  {
    if n == 0 then []
    else
      StagesNet(start, k, n - 1, up) +
      Layer(LowerHalves(start, Pow2(k - n)), Pow2(k - n), start, start + Pow2(k), up)
  }

  /** The merge of `size` elements: one layer at the largest power of two below `size`, then both parts. */
  ghost function MergeNet(start: nat, size: nat, up: bool): Network
    requires size > 1
    decreases size
  {
    var k := Ilog2(size - 1);
    Layer(Everywhere(), Pow2(k), start, start + size - Pow2(k), up)
    + (if Pow2(k) > 1 then StagesNet(start, k, k, up) else [])
    + (if size - Pow2(k) > 1 then MergeNet(start + Pow2(k), size - Pow2(k), up) else [])
  }

  ghost function SortNet(start: nat, size: nat, up: bool): Network
    requires size > 1
    decreases size
  {
    var half := size / 2;
    (if size - half > 1
     then SortNet(start + half, size - half, up) + (if half > 1 then SortNet(start, half, !up) else [])
     else [])
    + MergeNet(start, size, up)
  }

  // ---------------------------------------------------------------- one stage

  /** Slots of the block number `c` of width `w`. */
  ghost function Block(b: seq<bool>, start: nat, w: nat, c: nat): (r: seq<bool>)
    requires start + c * w + w <= |b|
    ensures |r| == w
  {
    b[start + c * w..start + c * w + w]
  }

  /** Blocks of width `w` over 2^k slots: each is bitonic, and earlier blocks are at most later ones. */
  ghost predicate Staged(b: seq<bool>, start: nat, w: nat, blocks: nat)
    requires start + blocks * w <= |b|
  {
    && (forall c: nat :: c < blocks ==> BlockIsBitonic(b, start, w, c))
    && (forall c: nat, d: nat :: c < d < blocks ==> BlocksInOrder(b, start, w, c, d))
  }

  ghost predicate BlockIsBitonic(b: seq<bool>, start: nat, w: nat, c: nat) {
    start + c * w + w <= |b| && BitonicBits(Block(b, start, w, c))
  }

  ghost predicate BlocksInOrder(b: seq<bool>, start: nat, w: nat, c: nat, d: nat) {
    && start + c * w + w <= |b| && start + d * w + w <= |b|
    && AllBelow(Block(b, start, w, c), Block(b, start, w, d))
  }

  lemma BlockFits(w: nat, c: nat, blocks: nat)
    requires c < blocks
    ensures c * w + w <= blocks * w
  {
    MulMonotone(w, c + 1, blocks);
  }

  lemma StageFits(start: nat, s: nat, blocks: nat, n: nat)
    requires s > 0 && start + blocks * (2 * s) <= n
    ensures LayerFits(LowerHalves(start, s), s, start, start + blocks * (2 * s), n)
  {
    forall x: nat | start <= x < start + blocks * (2 * s) && LowerHalves(start, s)(x)
      ensures x + s < start + blocks * (2 * s) && !LowerHalves(start, s)(x + s)
    {
      StageSlotFits(x - start, s, blocks);
      assert x + s - start == (x - start) + s;
    }
  }

  lemma StageSlotFits(y: nat, s: nat, blocks: nat)
    requires s > 0 && y < blocks * (2 * s) && (y / s) % 2 == 0
    ensures y + s < blocks * (2 * s) && ((y + s) / s) % 2 == 1
  {
    assert blocks * (2 * s) == s * (2 * blocks);
    EvenRoom(y, s, blocks);
    QuotientShift(y, s);
  }

  /** Slot `i` of an even block lies in a lower half, slot `i` of an odd block in an upper one. */
  lemma HalfOf(start: nat, s: nat, c: nat, i: nat, x: nat)
    requires i < s && x == start + c * s + i
    ensures LowerHalves(start, s)(x) <==> c % 2 == 0
  {
    DivModUnique(x - start, s, c, i);
  }

  lemma TwoHalves(s: nat, c: nat, blocks: nat)
    requires c < blocks
    ensures c * (2 * s) == (2 * c) * s && (2 * c + 1) * s == (2 * c) * s + s && (2 * c) * s + 2 * s <= blocks * (2 * s)
    ensures blocks * (2 * s) == (2 * blocks) * s
  {
    BlockFits(2 * s, c, blocks);
  }

  /** The effect of a stage on slot `i` of the half blocks 2c, which begins at `lo`, and 2c + 1. */
  lemma {:induction false} StageSlot(b: seq<bool>, r: seq<bool>, start: nat, s: nat, hi: nat, c: nat, lo: nat, i: nat)
    requires i < s && lo == start + (2 * c) * s && lo + 2 * s <= hi <= |b| && (2 * c + 1) * s == (2 * c) * s + s
    requires LayerFits(LowerHalves(start, s), s, start, hi, |b|)
    requires r == Apply(Layer(LowerHalves(start, s), s, start, hi, true), b, BoolLe)
    ensures r[lo + i] == (b[lo + i] && b[lo + s + i]) && r[lo + s + i] == (b[lo + i] || b[lo + s + i])
  {
    hide LowerHalves, LayerFits, Layer, Apply;
    var x, y := lo + i, lo + s + i;
    HalfOf(start, s, 2 * c, i, x);
    HalfOf(start, s, 2 * c + 1, i, y);
    LayerEffect(b, LowerHalves(start, s), s, start, hi, x);
    LayerEffect(b, LowerHalves(start, s), s, start, hi, y);
    assert y - s == x;
  }

  /** The effect of a stage on one pair of half blocks. */
  lemma StageBlock(b: seq<bool>, r: seq<bool>, start: nat, s: nat, blocks: nat, c: nat)
    requires s > 0 && start + blocks * (2 * s) <= |b| && c < blocks
    requires r == Apply(Layer(LowerHalves(start, s), s, start, start + blocks * (2 * s), true), b, BoolLe)
    ensures c * (2 * s) + 2 * s <= blocks * (2 * s)
    ensures (2 * c) * s + 2 * s <= blocks * (2 * s) && (2 * c + 1) * s == (2 * c) * s + s
    ensures var p, q := Block(b, start, s, 2 * c), Block(b, start, s, 2 * c + 1);
            && Block(r, start, s, 2 * c) == And(p, q) && Block(r, start, s, 2 * c + 1) == Or(p, q)
            && p + q == Block(b, start, 2 * s, c)
  {
    hide Layer, Apply, LowerHalves, LayerFits, Block, And, Or;
    TwoHalves(s, c, blocks);
    StageFits(start, s, blocks, |b|);
    var lo, hi := start + (2 * c) * s, start + blocks * (2 * s);
    StageHalves(b, r, start, s, hi, c, lo);
    BlocksAre(b, start, s, c, lo);
    BlocksAre(r, start, s, c, lo);
  }

  lemma {:induction false} StageHalves(b: seq<bool>, r: seq<bool>, start: nat, s: nat, hi: nat, c: nat, lo: nat)
    requires s > 0 && lo == start + (2 * c) * s && lo + 2 * s <= hi <= |b| && (2 * c + 1) * s == (2 * c) * s + s
    requires LayerFits(LowerHalves(start, s), s, start, hi, |b|)
    requires r == Apply(Layer(LowerHalves(start, s), s, start, hi, true), b, BoolLe)
    ensures var p, q := b[lo..lo + s], b[lo + s..lo + 2 * s];
            r[lo..lo + s] == And(p, q) && r[lo + s..lo + 2 * s] == Or(p, q)
  {
    hide Layer, Apply, LowerHalves, LayerFits;
    var p, q := b[lo..lo + s], b[lo + s..lo + 2 * s];
    forall i: nat | i < s ensures r[lo..lo + s][i] == And(p, q)[i] && r[lo + s..lo + 2 * s][i] == Or(p, q)[i] {
      StageSlot(b, r, start, s, hi, c, lo, i);
    }
    assert r[lo..lo + s] == And(p, q);
    assert r[lo + s..lo + 2 * s] == Or(p, q);
  }

  lemma BlocksAre(b: seq<bool>, start: nat, s: nat, c: nat, lo: nat)
    requires lo == start + (2 * c) * s && lo + 2 * s <= |b|
    ensures (2 * c + 1) * s == (2 * c) * s + s && c * (2 * s) == (2 * c) * s
    ensures Block(b, start, s, 2 * c) == b[lo..lo + s]
    ensures Block(b, start, s, 2 * c + 1) == b[lo + s..lo + 2 * s]
    ensures Block(b, start, 2 * s, c) == b[lo..lo + s] + b[lo + s..lo + 2 * s]
  {
    assert (2 * c + 1) * s == (2 * c) * s + s && c * (2 * s) == (2 * c) * s;
  }

  lemma BelowAfterCleaning(p: seq<bool>, q: seq<bool>, p': seq<bool>, q': seq<bool>)
    requires |p| == |q| && |p'| == |q'| && AllBelow(p + q, p' + q')
    ensures AllBelow(And(p, q), And(p', q')) && AllBelow(And(p, q), Or(p', q'))
    ensures AllBelow(Or(p, q), And(p', q')) && AllBelow(Or(p, q), Or(p', q'))
  {
    var s, s' := p + q, p' + q';
    forall i, j | 0 <= i < |p| && 0 <= j < |p'| && (p[i] || q[i]) ensures p'[j] && q'[j] {
      assert s[i] == p[i] && s[|p| + i] == q[i] && s'[j] == p'[j] && s'[|p'| + j] == q'[j];
    }
  }

  /** A stage splits every block into two bitonic blocks in order. */
  lemma {:induction false} StageStep(b: seq<bool>, r: seq<bool>, start: nat, s: nat, blocks: nat)
    requires s > 0 && start + blocks * (2 * s) <= |b| && Staged(b, start, 2 * s, blocks)
    requires r == Apply(Layer(LowerHalves(start, s), s, start, start + blocks * (2 * s), true), b, BoolLe)
    ensures (2 * blocks) * s == blocks * (2 * s) && Staged(r, start, s, 2 * blocks)
  {
    hide Block, Layer, Apply, LowerHalves, BlockIsBitonic, BlocksInOrder;
    assert (2 * blocks) * s == blocks * (2 * s);
    forall c: nat | c < 2 * blocks ensures BlockIsBitonic(r, start, s, c) {
      StageBitonic(b, r, start, s, blocks, c);
    }
    forall c: nat, d: nat | c < d < 2 * blocks ensures BlocksInOrder(r, start, s, c, d) {
      StageBelow(b, r, start, s, blocks, c, d);
    }
  }

  lemma {:induction false} StageBitonic(b: seq<bool>, r: seq<bool>, start: nat, s: nat, blocks: nat, c: nat)
    requires s > 0 && start + blocks * (2 * s) <= |b| && Staged(b, start, 2 * s, blocks)
    requires r == Apply(Layer(LowerHalves(start, s), s, start, start + blocks * (2 * s), true), b, BoolLe)
    requires c < 2 * blocks
    ensures BlockIsBitonic(r, start, s, c)
  {
    hide Block, Layer, Apply, LowerHalves;
    var e := c / 2;
    assert c == 2 * e || c == 2 * e + 1;
    BlockFits(s, c, 2 * blocks);
    assert BlockIsBitonic(b, start, 2 * s, e);
    BlockFits(2 * s, e, blocks);
    StageBlock(b, r, start, s, blocks, e);
    HalfClean(Block(b, start, s, 2 * e), Block(b, start, s, 2 * e + 1));
  }

  lemma {:induction false} StageBelow(b: seq<bool>, r: seq<bool>, start: nat, s: nat, blocks: nat, c: nat, d: nat)
    requires s > 0 && start + blocks * (2 * s) <= |b| && Staged(b, start, 2 * s, blocks)
    requires r == Apply(Layer(LowerHalves(start, s), s, start, start + blocks * (2 * s), true), b, BoolLe)
    requires c < d < 2 * blocks
    ensures BlocksInOrder(r, start, s, c, d)
  {
    hide Block, Layer, Apply, LowerHalves;
    var e, f := c / 2, d / 2;
    BlockFits(s, c, 2 * blocks);
    BlockFits(s, d, 2 * blocks);
    assert BlockIsBitonic(b, start, 2 * s, e) && (e < f ==> BlocksInOrder(b, start, 2 * s, e, f));
    assert (c == 2 * e || c == 2 * e + 1) && (d == 2 * f || d == 2 * f + 1);
    BlockFits(2 * s, e, blocks);
    BlockFits(2 * s, f, blocks);
    StageBlock(b, r, start, s, blocks, e);
    StageBlock(b, r, start, s, blocks, f);
    if e == f {
      HalfClean(Block(b, start, s, 2 * e), Block(b, start, s, 2 * e + 1));
    } else {
      BelowAfterCleaning(Block(b, start, s, 2 * e), Block(b, start, s, 2 * e + 1),
                         Block(b, start, s, 2 * f), Block(b, start, s, 2 * f + 1));
    }
  }

  lemma WithinWider(a: Network, lo: nat, hi: nat, lo': nat, hi': nat)
    requires Within(a, lo, hi) && lo' <= lo && hi <= hi'
    ensures Within(a, lo', hi')
  {
  }

  /** Stage `n` works on blocks of 2^(k-n+1), and there are 2^(n-1) of them. */
  lemma StageSizes(k: nat, n: nat)
    requires 0 < n <= k
    ensures Pow2(n - 1) * (2 * Pow2(k - n)) == Pow2(k) && Pow2(n) == 2 * Pow2(n - 1)
    ensures Pow2(k - (n - 1)) == 2 * Pow2(k - n)
  {
    Pow2Add(n - 1, k - (n - 1));
  }

  lemma {:induction false} StagesWithin(start: nat, k: nat, n: nat, up: bool)
    requires n <= k
    ensures Within(StagesNet(start, k, n, up), start, start + Pow2(k))
  {
    if n > 0 {
      hide Pow2, Layer, LowerHalves;
      StageSizes(k, n);
      StagesWithin(start, k, n - 1, up);
      var s, hi := Pow2(k - n), start + Pow2(k);
      StageFits(start, s, Pow2(n - 1), hi);
      LayerWithin(LowerHalves(start, s), s, start, hi, up, hi);
      WithinConcat(StagesNet(start, k, n - 1, up), Layer(LowerHalves(start, s), s, start, hi, up), start, hi);
    }
  }

  lemma OneBlock(b: seq<bool>, start: nat, w: nat)
    requires start + w <= |b| && BitonicBits(b[start..start + w])
    ensures Staged(b, start, w, 1)
  {
    assert Block(b, start, w, 0) == b[start..start + w];
    assert BlockIsBitonic(b, start, w, 0);
  }

  lemma UnitBlocksSorted(r: seq<bool>, start: nat, m: nat)
    requires start + m <= |r| && Staged(r, start, 1, m)
    ensures Sorted(r[start..start + m], BoolLe)
  {
    var t := r[start..start + m];
    forall i: nat, j: nat | i < j < m ensures BoolLe(t[i], t[j]) {
      BlockFits(1, i, m);
      BlockFits(1, j, m);
      assert BlocksInOrder(r, start, 1, i, j);
      assert Block(r, start, 1, i)[0] == t[i] && Block(r, start, 1, j)[0] == t[j];
    }
  }

  /** What `n` stages leave of 2^k elements: 2^n blocks. */
  ghost predicate StagedBy(r: seq<bool>, start: nat, k: nat, n: nat) {
    && n <= k && start + Pow2(k) <= |r| && Pow2(n) * Pow2(k - n) == Pow2(k)
    && Staged(r, start, Pow2(k - n), Pow2(n))
  }

  lemma {:induction false} StagesStaged(b: seq<bool>, start: nat, k: nat, n: nat)
    requires n <= k && start + Pow2(k) <= |b| && BitonicBits(b[start..start + Pow2(k)])
    ensures StagedBy(Apply(StagesNet(start, k, n, true), b, BoolLe), start, k, n)
  {
    hide StagedBy, Pow2, Layer, LowerHalves, Apply, StagesNet;
    if n == 0 {
      NoStages(b, start, k);
    } else {
      StagesStaged(b, start, k, n - 1);
      StagesNetStep(start, k, n, true);
      NextStage(b, StagesNet(start, k, n - 1, true), start, k, n);
    }
  }

  lemma {:induction false} NoStages(b: seq<bool>, start: nat, k: nat)
    requires start + Pow2(k) <= |b| && BitonicBits(b[start..start + Pow2(k)])
    ensures StagedBy(Apply(StagesNet(start, k, 0, true), b, BoolLe), start, k, 0)
  {
    assert Apply(StagesNet(start, k, 0, true), b, BoolLe) == b && Pow2(0) == 1;
    hide Staged, Pow2, Apply, StagesNet;
    OneBlock(b, start, Pow2(k));
  }

  lemma {:induction false} NextStage(b: seq<bool>, net: Network, start: nat, k: nat, n: nat)
    requires 0 < n <= k && StagedBy(Apply(net, b, BoolLe), start, k, n - 1)
    ensures var layer := Layer(LowerHalves(start, Pow2(k - n)), Pow2(k - n), start, start + Pow2(k), true);
            StagedBy(Apply(net + layer, b, BoolLe), start, k, n)
  {
    hide Staged, Pow2, Layer, LowerHalves, Apply;
    StageSizes(k, n);
    StageAdds(b, net, start, Pow2(k - n), Pow2(n - 1), start + Pow2(k));
  }

  lemma {:induction false} StagesNetStep(start: nat, k: nat, n: nat, up: bool)
    requires 0 < n <= k
    ensures StagesNet(start, k, n, up) == StagesNet(start, k, n - 1, up) +
              Layer(LowerHalves(start, Pow2(k - n)), Pow2(k - n), start, start + Pow2(k), up)
  {
    hide Pow2, Layer, LowerHalves;
  }

  /** One more stage after the ones of `net`. */
  lemma {:induction false} StageAdds(b: seq<bool>, net: Network, start: nat, s: nat, blocks: nat, top: nat)
    requires s > 0 && top == start + blocks * (2 * s) <= |b| && Staged(Apply(net, b, BoolLe), start, 2 * s, blocks)
    ensures (2 * blocks) * s == top - start
    ensures Staged(Apply(net + Layer(LowerHalves(start, s), s, start, top, true), b, BoolLe), start, s, 2 * blocks)
  {
    hide Layer, LowerHalves, Apply, Staged;
    var layer := Layer(LowerHalves(start, s), s, start, top, true);
    ApplyConcat(net, layer, b, BoolLe);
    StageStep(Apply(net, b, BoolLe), Apply(layer, Apply(net, b, BoolLe), BoolLe), start, s, blocks);
  }

  /** A merge of 2^k elements sorts any bitonic range. */
  lemma {:induction false} StagesSort(b: seq<bool>, start: nat, k: nat)
    requires start + Pow2(k) <= |b| && BitonicBits(b[start..start + Pow2(k)])
    ensures Sorted(Apply(StagesNet(start, k, k, true), b, BoolLe)[start..start + Pow2(k)], BoolLe)
  {
    assert k - k == 0 && Pow2(0) == 1;
    hide Pow2, StagesNet, Apply, Sorted, Staged;
    StagesStaged(b, start, k, k);
    UnitBlocksSorted(Apply(StagesNet(start, k, k, true), b, BoolLe), start, Pow2(k));
  }

  // ---------------------------------------------------------------- the merge of any length

  /** The three parts of a merge. */
  lemma MergeParts(start: nat, size: nat, up: bool)
    requires size > 1
    ensures var k := Ilog2(size - 1);
            var s := Pow2(k);
            && 0 < s < size <= 2 * s
            && MergeNet(start, size, up) ==
               Layer(Everywhere(), s, start, start + size - s, up)
               + (if s > 1 then StagesNet(start, k, k, up) else [])
               + (if size - s > 1 then MergeNet(start + s, size - s, up) else [])
  {
    hide StagesNet, Layer, Pow2, Ilog2;
    Pow2Doubles(Ilog2(size - 1) + 1);
  }

  lemma {:induction false} MergeWithin(start: nat, size: nat, up: bool)
    requires size > 1
    ensures Within(MergeNet(start, size, up), start, start + size)
    decreases size
  {
    hide Pow2, Layer, StagesNet, Ilog2, Within, MergeNet;
    MergeParts(start, size, up);
    var k := Ilog2(size - 1);
    var s, hi := Pow2(k), start + size;
    var first := Layer(Everywhere(), s, start, hi - s, up);
    LayerWithin(Everywhere(), s, start, hi - s, up, hi);
    EmptyWithin(start, hi);
    var second := if s > 1 then StagesNet(start, k, k, up) else [];
    StagesWithin(start, k, k, up);
    WithinWider(StagesNet(start, k, k, up), start, start + s, start, hi);
    WithinConcat(first, second, start, hi);
    var third := if size - s > 1 then MergeNet(start + s, size - s, up) else [];
    if size - s > 1 {
      MergeWithin(start + s, size - s, up);
      WithinWider(third, start + s, hi, start, hi);
    }
    WithinConcat(first + second, third, start, hi);
  }

  /** The first layer of a merge makes the first part bitonic, keeps the second one convex, and puts them in order. */
  lemma FirstLayer(b: seq<bool>, r: seq<bool>, start: nat, size: nat, s: nat)
    requires 0 < s < size <= 2 * s && start + size <= |b| && QuasiConvex(b[start..start + size])
    requires r == Apply(Layer(Everywhere(), s, start, start + size - s, true), b, BoolLe)
    ensures BitonicBits(r[start..start + s]) && QuasiConvex(r[start + s..start + size])
    ensures AllBelow(r[start..start + s], r[start + s..start + size])
  {
    var n := size - s;
    var p := b[start..start + s];
    var q := b[start + s..start + size] + seq(s - n, _ => true);
    PaddedConvex(b[start..start + size], s - n);
    assert p + q == b[start..start + size] + seq(s - n, _ => true);
    HalfCleanConvex(p, q);
    FirstLayerSlots(b, r, start, size, s, p, q);
  }

  lemma FirstLayerSlots(b: seq<bool>, r: seq<bool>, start: nat, size: nat, s: nat, p: seq<bool>, q: seq<bool>)
    requires 0 < s < size <= 2 * s && start + size <= |b|
    requires r == Apply(Layer(Everywhere(), s, start, start + size - s, true), b, BoolLe)
    requires p == b[start..start + s] && q == b[start + s..start + size] + seq(s - (size - s), _ => true)
    ensures r[start..start + s] == And(p, q) && r[start + s..start + size] == Or(p, q)[..size - s]
  {
    hide Layer, Apply;
    var n := size - s;
    forall i | 0 <= i < s ensures r[start..start + s][i] == And(p, q)[i] {
      LayerEffect(b, Everywhere(), s, start, start + n, start + i);
    }
    forall i | 0 <= i < n ensures r[start + s..start + size][i] == Or(p, q)[i] {
      LayerEffect(b, Everywhere(), s, start, start + n, start + s + i);
    }
  }

  lemma PaddedConvex(t: seq<bool>, n: nat)
    requires QuasiConvex(t)
    ensures QuasiConvex(t + seq(n, _ => true))
  {
    var u := t + seq(n, _ => true);
    forall i, j, k | 0 <= i < j < k < |u| && u[j] ensures u[i] || u[k] {
      if k < |t| { ConvexAt(t, i, j, k); }
    }
  }

  lemma JoinSorted(p: seq<bool>, q: seq<bool>)
    requires Sorted(p, BoolLe) && Sorted(q, BoolLe) && AllBelow(p, q)
    ensures Sorted(p + q, BoolLe)
  {
  }

  /** Rearranging both sides keeps one side below the other. */
  lemma {:induction false} BelowKept(net: Network, lo: nat, hi: nat, b: seq<bool>, start: nat, mid: nat, end: nat)
    requires start <= mid <= end <= |b| && Within(net, lo, hi)
    requires ((lo == start && hi == mid < end) || (start < lo == mid && hi == end))
    requires AllBelow(b[start..mid], b[mid..end])
    ensures AllBelow(Apply(net, b, BoolLe)[start..mid], Apply(net, b, BoolLe)[mid..end])
  {
    hide Apply, Within, AllBelow;
    var r := Apply(net, b, BoolLe);
    BelowCases(b, start, mid, end);
    BelowCases(r, start, mid, end);
    forall x: nat | x < |b| && !(lo <= x < hi) ensures r[x] == b[x] {
      ApplyOutside(net, lo, hi, b, BoolLe, x);
    }
    if forall x :: start <= x < mid ==> IsZero(b[x]) {
      if hi == mid { ApplyInside(net, lo, hi, b, BoolLe, IsZero); }
    } else {
      if hi == end { ApplyInside(net, lo, hi, b, BoolLe, IsOne); }
    }
  }

  predicate IsZero(v: bool) { !v }

  predicate IsOne(v: bool) { v }

  /** One run of bits is below the next exactly when the first is all zeros or the second all ones. */
  lemma BelowCases(b: seq<bool>, start: nat, mid: nat, end: nat)
    requires start <= mid <= end <= |b|
    ensures AllBelow(b[start..mid], b[mid..end]) <==>
            (forall x :: start <= x < mid ==> IsZero(b[x])) || (forall y :: mid <= y < end ==> IsOne(b[y]))
  {
    var p, q := b[start..mid], b[mid..end];
    if AllBelow(p, q) {
      if x :| start <= x < mid && !IsZero(b[x]) {
        forall y | mid <= y < end ensures IsOne(b[y]) {
          assert p[x - start] && q[y - mid] == b[y];
        }
      }
    }
  }

  lemma SingleSorted(b: seq<bool>, lo: nat, hi: nat)
    requires lo <= hi <= |b| && hi - lo <= 1
    ensures Sorted(b[lo..hi], BoolLe)
  {
  }

  lemma {:induction false} SliceUntouched(net: Network, lo: nat, hi: nat, b: seq<bool>, from: nat, to: nat)
    requires Within(net, lo, hi) && hi <= |b| && from <= to <= |b| && (to <= lo || hi <= from)
    ensures Apply(net, b, BoolLe)[from..to] == b[from..to]
  {
    hide Apply, Within;
    forall x: nat | from <= x < to ensures Apply(net, b, BoolLe)[x] == b[x] {
      ApplyOutside(net, lo, hi, b, BoolLe, x);
    }
  }

  /** A merge sorts any range that goes down and then up. */
  lemma {:induction false} MergeSorts(b: seq<bool>, start: nat, size: nat)
    requires size > 1 && start + size <= |b| && QuasiConvex(b[start..start + size])
    ensures Sorted(Apply(MergeNet(start, size, true), b, BoolLe)[start..start + size], BoolLe)
    decreases size
  {
    hide Pow2, Layer, StagesNet, Ilog2, Within, MergeNet, Apply, Sorted, QuasiConvex, QuasiConcave, AllBelow;
    MergeParts(start, size, true);
    var k := Ilog2(size - 1);
    var s, hi := Pow2(k), start + size;
    var mid := start + s;
    var first := Layer(Everywhere(), s, start, hi - s, true);
    var second := if s > 1 then StagesNet(start, k, k, true) else [];
    var third := if size - s > 1 then MergeNet(mid, size - s, true) else [];
    var b1 := Apply(first, b, BoolLe);
    var b2 := Apply(second, b1, BoolLe);
    var b3 := Apply(third, b2, BoolLe);
    ApplyConcat(first, second, b, BoolLe);
    ApplyConcat(first + second, third, b, BoolLe);
    FirstLayer(b, b1, start, size, s);
    MergeLower(b1, b2, start, mid, hi, k, s);
    if size - s > 1 {
      MergeSorts(b2, mid, size - s);
      MergeWithin(mid, size - s, true);
      SliceUntouched(third, mid, hi, b2, start, mid);
      BelowKept(third, mid, hi, b2, start, mid, hi);
    } else {
      ApplyNothing(b2);
      SingleSorted(b3, mid, hi);
    }
    JoinSorted(b3[start..mid], b3[mid..hi]);
    assert b3[start..mid] + b3[mid..hi] == b3[start..hi];
  }

  lemma {:induction false} ApplyNothing(b: seq<bool>)
    ensures Apply([], b, BoolLe) == b
  {
  }

  /** The power-of-two part of a merge sorts the first `s` elements and leaves the order of the two parts. */
  lemma {:induction false} MergeLower(b: seq<bool>, r: seq<bool>, start: nat, mid: nat, hi: nat, k: nat, s: nat)
    requires s == Pow2(k) && mid == start + s < hi <= |b| && BitonicBits(b[start..mid])
    requires AllBelow(b[start..mid], b[mid..hi])
    requires r == Apply(if s > 1 then StagesNet(start, k, k, true) else [], b, BoolLe)
    ensures Sorted(r[start..mid], BoolLe) && r[mid..hi] == b[mid..hi] && AllBelow(r[start..mid], r[mid..hi])
  {
    hide Pow2, StagesNet, Within, Apply, Sorted, AllBelow, QuasiConvex, QuasiConcave;
    if s > 1 {
      StagesSort(b, start, k);
      StagesWithin(start, k, k, true);
      SliceUntouched(StagesNet(start, k, k, true), start, mid, b, mid, hi);
      BelowKept(StagesNet(start, k, k, true), start, mid, b, start, mid, hi);
    } else {
      ApplyNothing(b);
      SingleSorted(b, start, mid);
    }
  }

  // ---------------------------------------------------------------- the sort

  lemma {:induction false} StagesFlip(start: nat, k: nat, n: nat, up: bool)
    requires n <= k
    ensures StagesNet(start, k, n, !up) == Flip(StagesNet(start, k, n, up))
  {
    if n > 0 {
      hide Pow2, Layer;
      StagesFlip(start, k, n - 1, up);
      var s := Pow2(k - n);
      LayerFlip(LowerHalves(start, s), s, start, start + Pow2(k), up);
      FlipConcat(StagesNet(start, k, n - 1, up), Layer(LowerHalves(start, s), s, start, start + Pow2(k), up));
    }
  }

  lemma {:induction false} MergeFlip(start: nat, size: nat, up: bool)
    requires size > 1
    ensures MergeNet(start, size, !up) == Flip(MergeNet(start, size, up))
    decreases size
  {
    hide Pow2, Layer, StagesNet, Ilog2, MergeNet;
    MergeParts(start, size, up);
    MergeParts(start, size, !up);
    var k := Ilog2(size - 1);
    var s := Pow2(k);
    var first := Layer(Everywhere(), s, start, start + size - s, up);
    var second := if s > 1 then StagesNet(start, k, k, up) else [];
    var third := if size - s > 1 then MergeNet(start + s, size - s, up) else [];
    LayerFlip(Everywhere(), s, start, start + size - s, up);
    StagesFlip(start, k, k, up);
    if size - s > 1 { MergeFlip(start + s, size - s, up); }
    FlipConcat(first, second);
    FlipConcat(first + second, third);
    assert Flip([]) == [];
  }

  /** Everything before the final merge of a sort. */
  ghost function HalvesNet(start: nat, size: nat, up: bool): Network
    requires size > 1
  {
    var half := size / 2;
    if size - half > 1
    then SortNet(start + half, size - half, up) + (if half > 1 then SortNet(start, half, !up) else [])
    else []
  }

  lemma {:induction false} SortParts(start: nat, size: nat, up: bool)
    requires size > 1
    ensures SortNet(start, size, up) == HalvesNet(start, size, up) + MergeNet(start, size, up)
  {
  }

  lemma {:induction false} SortFlip(start: nat, size: nat, up: bool)
    requires size > 1
    ensures SortNet(start, size, !up) == Flip(SortNet(start, size, up))
    decreases size, 1
  {
    hide MergeNet, SortNet, HalvesNet, Flip;
    SortParts(start, size, up);
    SortParts(start, size, !up);
    HalvesFlip(start, size, up);
    MergeFlip(start, size, up);
    FlipConcat(HalvesNet(start, size, up), MergeNet(start, size, up));
  }

  lemma {:induction false} HalvesFlip(start: nat, size: nat, up: bool)
    requires size > 1
    ensures HalvesNet(start, size, !up) == Flip(HalvesNet(start, size, up))
    decreases size, 0
  {
    hide SortNet, Flip, HalvesNet;
    var half := size / 2;
    HalvesAre(start, size, up, half);
    HalvesAre(start, size, !up, half);
    FlipConcat([], []);
    if size - half > 1 {
      SortFlip(start + half, size - half, up);
      if half > 1 {
        SortFlip(start, half, !up);
        FlipConcat(SortNet(start + half, size - half, up), SortNet(start, half, !up));
      }
    }
  }

  lemma {:induction false} HalvesAre(start: nat, size: nat, up: bool, half: nat)
    requires size > 1 && half == size / 2
    ensures size - half <= 1 ==> HalvesNet(start, size, up) == []
    ensures size - half > 1 && half <= 1 ==> HalvesNet(start, size, up) == SortNet(start + half, size - half, up)
    ensures half > 1 ==>
      HalvesNet(start, size, up) == SortNet(start + half, size - half, up) + SortNet(start, half, !up)
  {
    hide SortNet;
    if size - half > 1 && half <= 1 {
      assert SortNet(start + half, size - half, up) + [] == SortNet(start + half, size - half, up);
    }
  }

  lemma {:induction false} SortWithin(start: nat, size: nat, up: bool)
    requires size > 1
    ensures Within(SortNet(start, size, up), start, start + size)
    decreases size
  {
    hide MergeNet, SortNet, Within;
    SortParts(start, size, up);
    var half, hi := size / 2, start + size;
    EmptyWithin(start, hi);
    var right := if size - half > 1 then SortNet(start + half, size - half, up) else [];
    var left := if half > 1 then SortNet(start, half, !up) else [];
    assert HalvesNet(start, size, up) == right + left;
    if size - half > 1 {
      SortWithin(start + half, size - half, up);
      WithinWider(right, start + half, hi, start, hi);
    }
    if half > 1 {
      SortWithin(start, half, !up);
      WithinWider(left, start, start + half, start, hi);
    }
    WithinConcat(right, left, start, hi);
    MergeWithin(start, size, up);
    WithinConcat(right + left, MergeNet(start, size, up), start, hi);
  }

  lemma DownThenUp(p: seq<bool>, q: seq<bool>)
    requires Sorted(Not(p), BoolLe) && Sorted(q, BoolLe)
    ensures QuasiConvex(p + q)
  {
    var s := p + q;
    forall i, j, k | 0 <= i < j < k < |s| && s[j] ensures s[i] || s[k] {
      if j < |p| {
        assert BoolLe(Not(p)[i], Not(p)[j]);
      } else {
        assert BoolLe(q[j - |p|], q[k - |p|]);
      }
    }
  }

  /** The descending sort of a range, by turning every bit round. */
  lemma {:induction false} SortsDown(b: seq<bool>, start: nat, size: nat)
    requires size > 1 && start + size <= |b|
    requires Sorted(Apply(SortNet(start, size, true), Not(b), BoolLe)[start..start + size], BoolLe)
    ensures Sorted(Not(Apply(SortNet(start, size, false), b, BoolLe)[start..start + size]), BoolLe)
  {
    hide SortNet, Apply, Sorted, Within;
    SortFlip(start, size, true);
    SortWithin(start, size, true);
    WithinWider(SortNet(start, size, true), start, start + size, 0, |b|);
    FlipIsNot(SortNet(start, size, true), b);
    var r := Apply(SortNet(start, size, true), Not(b), BoolLe);
    assert Not(Not(r)[start..start + size]) == r[start..start + size];
  }

  /** Sorting the halves in opposite directions leaves a range that goes down and then up. */
  lemma {:induction false} HalvesConvex(b: seq<bool>, start: nat, size: nat)
    requires size > 1 && start + size <= |b|
    ensures QuasiConvex(Apply(HalvesNet(start, size, true), b, BoolLe)[start..start + size])
    decreases size, 0
  {
    hide SortNet, Within, Apply, Sorted, QuasiConvex, HalvesNet;
    var half, hi := size / 2, start + size;
    var mid := start + half;
    var right := if size - half > 1 then SortNet(mid, size - half, true) else [];
    var left := if half > 1 then SortNet(start, half, false) else [];
    HalvesAre(start, size, true, half);
    assert half <= 1 ==> right + left == right;
    assert HalvesNet(start, size, true) == right + left;
    ApplyConcat(right, left, b, BoolLe);
    var b1 := Apply(right, b, BoolLe);
    var b2 := Apply(left, b1, BoolLe);
    assert Sorted(b1[mid..hi], BoolLe) by {
      if size - half > 1 { SortSorts(b, mid, size - half); } else { SingleSorted(b1, mid, hi); }
    }
    LeftHalfDown(b1, b2, start, half, mid, hi);
    DownThenUp(b2[start..mid], b2[mid..hi]);
    assert b2[start..mid] + b2[mid..hi] == b2[start..hi];
  }

  lemma {:induction false} LeftHalfDown(b: seq<bool>, r: seq<bool>, start: nat, half: nat, mid: nat, hi: nat)
    requires 0 < half && mid == start + half < hi <= |b|
    requires r == Apply(if half > 1 then SortNet(start, half, false) else [], b, BoolLe)
    ensures Sorted(Not(r[start..mid]), BoolLe) && r[mid..hi] == b[mid..hi]
    decreases half, 2
  {
    hide SortNet, Within, Apply, Sorted;
    if half > 1 {
      SortSorts(Not(b), start, half);
      SortsDown(b, start, half);
      SortWithin(start, half, false);
      SliceUntouched(SortNet(start, half, false), start, mid, b, mid, hi);
    } else {
      ApplyNothing(b);
      SingleSorted(Not(r), start, mid);
      assert Not(r[start..mid]) == Not(r)[start..mid];
    }
  }

  /** The sort of a range of bits. */
  lemma {:induction false} SortSorts(b: seq<bool>, start: nat, size: nat)
    requires size > 1 && start + size <= |b|
    ensures Sorted(Apply(SortNet(start, size, true), b, BoolLe)[start..start + size], BoolLe)
    decreases size, 1
  {
    hide MergeNet, SortNet, HalvesNet, Apply, Sorted, QuasiConvex;
    SortParts(start, size, true);
    ApplyConcat(HalvesNet(start, size, true), MergeNet(start, size, true), b, BoolLe);
    HalvesConvex(b, start, size);
    MergeSorts(Apply(HalvesNet(start, size, true), b, BoolLe), start, size);
  }

  /** Bitonic sort yields a sorted permutation, for every length and every order. */
  lemma {:induction false} BitonicSorts<T(!new)>(s: seq<T>, le: (T, T) -> bool)
    requires TotalPreorder(le) && |s| > 1
    ensures var r := Apply(SortNet(0, |s|, true), s, le);
            Sorted(r, le) && multiset(r) == multiset(s)
  {
    hide SortNet, Apply, Sorted, Within, TotalPreorder;
    var n := |s|;
    SortWithin(0, n, true);
    forall b: seq<bool> | |b| == n ensures Sorted(Apply(SortNet(0, n, true), b, BoolLe), BoolLe) {
      SortSorts(b, 0, n);
      var r := Apply(SortNet(0, n, true), b, BoolLe);
      assert r[0..n] == r;
    }
    ZeroOnePrinciple(SortNet(0, n, true), s, le);
  }
}
