/** What one pass of eviction along a root-to-leaf path does, said without the passes that compute it. */
module EvictionSpec {
  import opened Bits
  import opened Blocks

  /** Slots of the stash proper; the path under eviction is loaded behind them. */
  const S: nat := 20

  function CommonSuffixLength(a: Position, b: Position): nat {
    SharedLowBits(a, b, 32)
  }

  /** How deep on `path` a slot's block may live; an empty slot holds nothing and counts as -1. */
  function Depth<V>(b: Block<V>, path: Position): int {
    if b.IsEmpty() then -1 else CommonSuffixLength(b.pos, path)
  }

  /** Level 0 is the stash together with the root bucket; level i is the i-th bucket of the path. */
  function LevelStart(l: nat): nat {
    if l == 0 then 0 else S + l * Z
  }

  function LevelOf(idx: nat): nat {
    if idx < S then 0 else (idx - S) / Z
  }

  predicate InLevel(idx: int, l: nat) {
    LevelStart(l) <= idx < LevelStart(l + 1)
  }

  /** The greatest depth over the slots [lo, hi), or -1 when they hold no block. */
  function MaxDepth<V>(s: seq<Block<V>>, path: Position, lo: nat, hi: nat): (d: int)
    requires lo <= hi <= |s|
    ensures d >= -1
    decreases hi - lo
  {
    if lo == hi then -1
    else
      var rest := MaxDepth(s, path, lo, hi - 1);
      var last := Depth(s[hi - 1], path);
      if last > rest then last else rest
  }

  lemma {:induction false} MaxDepthIsMax<V>(s: seq<Block<V>>, path: Position, lo: nat, hi: nat)
    requires lo <= hi <= |s|
    ensures forall k :: lo <= k < hi ==> Depth(s[k], path) <= MaxDepth(s, path, lo, hi)
    ensures MaxDepth(s, path, lo, hi) == -1
            || exists k :: lo <= k < hi && Depth(s[k], path) == MaxDepth(s, path, lo, hi)
    decreases hi - lo
  {
    if lo < hi { MaxDepthIsMax(s, path, lo, hi - 1); }
  }

  lemma {:induction false} MaxDepthSplit<V>(s: seq<Block<V>>, path: Position, lo: nat, mid: nat, hi: nat)
    requires lo <= mid <= hi <= |s|
    ensures MaxDepth(s, path, lo, hi) ==
            var a := MaxDepth(s, path, lo, mid);
            var b := MaxDepth(s, path, mid, hi);
            if b > a then b else a
    decreases hi
  {
    if mid < hi { MaxDepthSplit(s, path, lo, mid, hi - 1); }
  }

  ghost predicate SomeEmpty<V>(s: seq<Block<V>>, lo: nat, hi: nat)
    requires lo <= hi <= |s|
  {
    exists k :: lo <= k < hi && s[k].IsEmpty()
  }

  /** The real blocks at level `l` or deeper. */
  ghost function Below<V>(s: seq<Block<V>>, l: nat): multiset<Block<V>>
    requires LevelStart(l) <= |s|
  {
    RealBlocks(s[LevelStart(l)..])
  }

  /** Every block of the path shares enough low bits with it to lie where it lies. */
  ghost predicate Legal<V>(s: seq<Block<V>>, path: Position) {
    forall k :: 0 <= k < |s| && !s[k].IsEmpty() ==> Depth(s[k], path) >= LevelOf(k)
  }

  ghost predicate Interchangeable<V>(a: Block<V>, b: Block<V>) {
    a == b || (a.IsEmpty() && b.IsEmpty())
  }

  lemma {:induction false} RealBlocksInterchangeable<V>(a: seq<Block<V>>, b: seq<Block<V>>)
    requires |a| == |b| && forall k :: 0 <= k < |a| ==> Interchangeable(a[k], b[k])
    ensures RealBlocks(a) == RealBlocks(b)
  {
    if a != [] {
      assert Interchangeable(a[0], b[0]);
      RealBlocksInterchangeable(a[1..], b[1..]);
    }
  }

  // ---------------------------------------------------------------- which blocks move, and where

  /** The first of the slots before `hi` whose block can sink deepest. */
  ghost function FirstDeepest<V>(s: seq<Block<V>>, path: Position, hi: nat): (r: nat)
    requires 0 < hi <= |s|
    ensures r < hi
  {
    if hi == 1 then 0
    else
      var r := FirstDeepest(s, path, hi - 1);
      if Depth(s[hi - 1], path) > Depth(s[r], path) then hi - 1 else r
  }

  lemma {:induction false} FirstDeepestIs<V>(s: seq<Block<V>>, path: Position, hi: nat)
    requires 0 < hi <= |s|
    ensures var r := FirstDeepest(s, path, hi);
            && Depth(s[r], path) == MaxDepth(s, path, 0, hi)
            && (forall j :: 0 <= j < hi ==> Depth(s[j], path) <= Depth(s[r], path))
            && (forall j :: 0 <= j < r ==> Depth(s[j], path) < Depth(s[r], path))
  {
    if hi == 1 {
      assert MaxDepth(s, path, 0, 0) == -1;
    } else {
      FirstDeepestIs(s, path, hi - 1);
    }
  }

  /** Nothing else is the first of the deepest. */
  lemma {:induction false} FirstDeepestIsOnly<V>(s: seq<Block<V>>, path: Position, hi: nat, r: nat)
    requires 0 < hi <= |s| && r < hi
    requires forall j :: 0 <= j < hi ==> Depth(s[j], path) <= Depth(s[r], path)
    requires forall j :: 0 <= j < r ==> Depth(s[j], path) < Depth(s[r], path)
    ensures r == FirstDeepest(s, path, hi)
  {
    FirstDeepestIs(s, path, hi);
  }

  /** The slot whose block is the one to cross the upper boundary of level `l`. */
  ghost function Mover<V>(s: seq<Block<V>>, path: Position, l: nat): (r: nat)
    requires 1 <= l && LevelStart(l) <= |s|
    ensures r < LevelStart(l)
  {
    FirstDeepest(s, path, LevelStart(l))
  }

  /** Some block above level `l` may live there. */
  ghost predicate Reached<V>(s: seq<Block<V>>, path: Position, l: nat)
    requires LevelStart(l) <= |s|
  {
    exists k :: 0 <= k < LevelStart(l) && Depth(s[k], path) >= l
  }

  /** A block crosses the upper boundary of level `l`: some level from there on has a free slot, and every level on the
      way to it can be reached from above. */
  ghost predicate Crosses<V>(s: seq<Block<V>>, h: nat, path: Position, l: nat)
    requires |s| == S + h * Z
  {
    exists d: nat :: l <= d < h && FreeAfter(s, h, path, l, d)
  }

  ghost predicate FreeAfter<V>(s: seq<Block<V>>, h: nat, path: Position, l: nat, d: nat)
    requires d < h && |s| == S + h * Z
  {
    SomeEmpty(s, LevelStart(d), LevelStart(d + 1)) && forall j: nat :: l <= j <= d ==> Reached(s, path, j)
  }

  /** A block leaves level `l` downwards. */
  ghost predicate GivesUp<V>(s: seq<Block<V>>, h: nat, path: Position, l: nat)
    requires l < h && |s| == S + h * Z
  {
    l + 1 < h && Crosses(s, h, path, l + 1) && Mover(s, path, l + 1) >= LevelStart(l)
  }

  /** A block comes to rest on level `l`. */
  ghost predicate Takes<V>(s: seq<Block<V>>, h: nat, path: Position, l: nat)
    requires l < h && |s| == S + h * Z
  {
    && 1 <= l && Crosses(s, h, path, l)
    && (l + 1 < h && Crosses(s, h, path, l + 1) ==> Mover(s, path, l + 1) >= LevelStart(l))
  }

  ghost predicate IsFirstFree<V>(s: seq<Block<V>>, lo: nat, k: nat)
    requires lo <= k < |s|
  {
    s[k].IsEmpty() && forall j :: lo <= j < k ==> !s[j].IsEmpty()
  }

  /** What slot `k` holds after an eviction, up to what is left in empty slots: the slot that a block leaves takes the
      block that comes to its level, and otherwise the first free slot does. */
  ghost function AfterEviction<V>(s: seq<Block<V>>, h: nat, path: Position, k: nat): Block<V>
    requires 1 <= h && k < |s| == S + h * Z
  {
    var l := LevelOf(k);
    if GivesUp(s, h, path, l) then
      if k != Mover(s, path, l + 1) then s[k]
      else if Takes(s, h, path, l) then s[Mover(s, path, l)]
      else s[k].Emptied()
    else if Takes(s, h, path, l) && IsFirstFree(s, LevelStart(l), k) then s[Mover(s, path, l)]
    else s[k]
  }

  /** Level `l` has a free slot and some block above it may live there. */
  ghost predicate Fillable<V>(s: seq<Block<V>>, path: Position, l: nat)
    requires 1 <= l && LevelStart(l + 1) <= |s|
  {
    SomeEmpty(s, LevelStart(l), LevelStart(l + 1)) && MaxDepth(s, path, 0, LevelStart(l)) >= l
  }

  lemma FillableIs<V>(s: seq<Block<V>>, path: Position, l: nat)
    requires 1 <= l && LevelStart(l + 1) <= |s|
    ensures Fillable(s, path, l) <==>
            && (exists e :: LevelStart(l) <= e < LevelStart(l + 1) && s[e].IsEmpty())
            && (exists k :: 0 <= k < LevelStart(l) && !s[k].IsEmpty() && Depth(s[k], path) >= l)
  {
    MaxDepthIsMax(s, path, 0, LevelStart(l));
  }

  /** The deepest fillable level before `n`, or 0 when there is none. */
  ghost function DeepestFillable<V>(s: seq<Block<V>>, path: Position, n: nat): (d: nat)
    requires LevelStart(n) <= |s|
    ensures d == 0 || (d < n && Fillable(s, path, d))
    ensures forall l :: 1 <= l < n && Fillable(s, path, l) ==> l <= d
  {
    if n <= 1 then 0 else if Fillable(s, path, n - 1) then n - 1 else DeepestFillable(s, path, n - 1)
  }

  /** The block that crosses into level `l`, if one does. */
  ghost function Entering<V>(s: seq<Block<V>>, h: nat, path: Position, l: nat): multiset<Block<V>>
    requires 1 <= l < h && |s| == S + h * Z
  {
    if Crosses(s, h, path, l) then multiset{s[Mover(s, path, l)]} else multiset{}
  }

  /** Every fillable level is crossed into. */
  lemma FillableIsCrossed<V>(s: seq<Block<V>>, h: nat, path: Position, l: nat)
    requires 1 <= l < h && |s| == S + h * Z && Fillable(s, path, l)
    ensures Crosses(s, h, path, l)
  {
    FillableIs(s, path, l);
    assert FreeAfter(s, h, path, l, l);
  }

  /** What one eviction pass guarantees about the slots of the stash and the path. */
  ghost predicate Evicted<V>(s: seq<Block<V>>, s': seq<Block<V>>, h: nat, path: Position)
    requires 1 <= h && |s| == |s'| == S + h * Z
  {
    // no block is lost or duplicated
    && RealBlocks(s') == RealBlocks(s)
    // no block moves towards the root, and no level boundary is passed by more than one block
    && (forall l :: 0 <= l < h ==> Below(s, l) <= Below(s', l) && |Below(s', l)| <= |Below(s, l)| + 1)
    // the deepest fillable level receives exactly one block and nothing moves beneath it
    && FillsDeepest(s, s', h, DeepestFillable(s, path, h))
    // exactly one block crosses into every level that blocks cross into, the first of those that can sink deepest
    && (forall l :: 1 <= l < h ==> Below(s', l) == Below(s, l) + Entering(s, h, path, l))
    // every slot holds what it should, up to what is left in empty slots
    && (forall k :: 0 <= k < |s| ==> Interchangeable(s'[k], AfterEviction(s, h, path, k)))
    // every block still shares enough bits with the path for the level it lies in
    && (Legal(s, path) ==> Legal(s', path))
  }

  /** An eviction determines every slot, up to what is left in empty slots. */
  lemma EvictionsAgree<V>(s: seq<Block<V>>, a: seq<Block<V>>, b: seq<Block<V>>, h: nat, path: Position)
    requires 1 <= h && |s| == |a| == |b| == S + h * Z && Evicted(s, a, h, path) && Evicted(s, b, h, path)
    ensures forall k :: 0 <= k < |s| ==> Interchangeable(a[k], b[k])
  {
    hide AfterEviction, Below, RealBlocks, Legal, FillsDeepest, DeepestFillable, Entering;
    forall k | 0 <= k < |s| ensures Interchangeable(a[k], b[k]) {
      assert Interchangeable(a[k], AfterEviction(s, h, path, k)) && Interchangeable(b[k], AfterEviction(s, h, path, k));
    }
  }

  ghost predicate FillsDeepest<V>(s: seq<Block<V>>, s': seq<Block<V>>, h: nat, d: nat)
    requires 1 <= h && |s| == |s'| == S + h * Z && d < h
  {
    && (d > 0 ==> |Below(s', d)| == |Below(s, d)| + 1)
    && (forall l :: d < l < h ==> Below(s', l) == Below(s, l))
  }
}
