/** One pass of eviction along a root-to-leaf path (Alg. 2, 3 and 4 of the Circuit ORAM paper). */
module Eviction {
  import opened Bits
  import opened Blocks
  import opened EvictionSpec

  /** `idx` is the first of the slots [lo, hi) whose block can sink deepest. */
  ghost predicate IsDeepestOf<V>(s: seq<Block<V>>, path: Position, lo: nat, hi: nat, idx: int)
    requires lo <= hi <= |s|
  {
    && lo <= idx < hi
    && !s[idx].IsEmpty()
    && Depth(s[idx], path) == MaxDepth(s, path, lo, hi)
    && forall k :: lo <= k < idx ==> Depth(s[k], path) < Depth(s[idx], path)
  }

  /** What PrepareDeepest finds out about the levels of a path. */
  ghost predicate DeepestInfo<V>(s: seq<Block<V>>, h: nat, path: Position,
                                 deepest: seq<int>, deepestIdx: seq<int>, hasEmpty: seq<bool>)
    requires |s| == S + h * Z && h >= 1
  {
    && |deepest| == |deepestIdx| == |hasEmpty| == 64 && h <= 64
    && (forall i :: 1 <= i < h ==> hasEmpty[i] == SomeEmpty(s, LevelStart(i), LevelStart(i + 1)))
    && DeepestUpTo(s, path, h, deepest, deepestIdx)
  }

  /** Level `src` is above level `i`, and `idx` is the slot of level `src` that holds the first of the blocks above
      level `i` that can sink deepest. */
  ghost predicate Supplies<V>(s: seq<Block<V>>, path: Position, i: nat, src: int, idx: int)
    requires i >= 1 && LevelStart(i) <= |s|
  {
    0 <= src < i && InLevel(idx, src) && idx == Mover(s, path, i)
  }

  /** `src` names the level above `i` that holds the first of the blocks that, among all blocks above `i`, can sink
      deepest, when that block can reach level `i`; it is -1 when no block above `i` can reach `i`. */
  ghost predicate DeepestAt<V>(s: seq<Block<V>>, path: Position, i: nat, src: int, deepestIdx: seq<int>)
    requires i >= 1 && LevelStart(i) <= |s| && |deepestIdx| == 64 && i < 64
  {
    if MaxDepth(s, path, 0, LevelStart(i)) < i then src == -1
    else 0 <= src < i && Supplies(s, path, i, src, deepestIdx[src])
  }

  /** Scans the slots [lo, hi) of one level: the depth its blocks can reach, the slot of the first block that reaches
      it (0 when there is none), and whether some slot is free. */
  method ScanLevel<V>(s: seq<Block<V>>, path: Position, lo: nat, hi: nat)
    returns (goal: int, goalIdx: nat, hasEmpty: bool)
    requires lo <= hi <= |s|
    ensures goal == MaxDepth(s, path, lo, hi)
    ensures goal == -1 ==> goalIdx == 0
    ensures goal != -1 ==> IsDeepestOf(s, path, lo, hi, goalIdx)
    ensures hasEmpty == SomeEmpty(s, lo, hi)
  {
    goal, goalIdx, hasEmpty := -1, 0, false;
    for idx := lo to hi
      invariant goal == MaxDepth(s, path, lo, idx)
      invariant goal == -1 ==> goalIdx == 0
      invariant goal != -1 ==> IsDeepestOf(s, path, lo, idx, goalIdx)
      invariant hasEmpty == SomeEmpty(s, lo, idx)
    {
      var level := CommonSuffixLength(s[idx].pos, path);
      var isEmpty := s[idx].IsEmpty();
      if isEmpty { hasEmpty := true; }
      if !isEmpty && level > goal {
        MaxDepthIsMax(s, path, lo, idx);
        goal := level;
        goalIdx := idx;
      }
    }
  }

  /** The running source of PrepareDeepest: `goal` is the depth reachable from the slots before level `i`, and `src`
      the level holding a block that reaches it. */
  ghost predicate RunningSource<V>(s: seq<Block<V>>, path: Position, i: nat, goal: int, src: int, deepestIdx: seq<int>)
    requires i >= 1 && LevelStart(i) <= |s| && |deepestIdx| == 64 && i <= 64
  {
    && goal == MaxDepth(s, path, 0, LevelStart(i))
    && (goal != -1 ==> 0 <= src < i && Supplies(s, path, i, src, deepestIdx[src]))
  }

  ghost predicate DeepestUpTo<V>(s: seq<Block<V>>, path: Position, n: nat, deepest: seq<int>, deepestIdx: seq<int>)
    requires n <= 64 && |deepest| == |deepestIdx| == 64 && (n >= 1 ==> LevelStart(n - 1) <= |s|)
  {
    forall j :: 1 <= j < n ==> DeepestAt(s, path, j, deepest[j], deepestIdx)
  }

  /** Recording the deepest slot of level `i` disturbs nothing said about the levels before it. */
  lemma DeepestUpToStep<V>(s: seq<Block<V>>, path: Position, i: nat, deepest: seq<int>, deepestIdx: seq<int>,
                           goal: int, src: int, idx: int)
    requires 1 <= i < 64 && LevelStart(i) <= |s| && |deepest| == |deepestIdx| == 64
    requires DeepestUpTo(s, path, i, deepest, deepestIdx)
    requires RunningSource(s, path, i, goal, src, deepestIdx)
    ensures DeepestUpTo(s, path, i + 1, deepest[i := if goal >= i then src else -1], deepestIdx[i := idx])
  {
    var deepest' := deepest[i := if goal >= i then src else -1];
    forall j | 1 <= j <= i ensures DeepestAt(s, path, j, deepest'[j], deepestIdx[i := idx]) {
      assert j < i ==> DeepestAt(s, path, j, deepest[j], deepestIdx);
    }
  }

  lemma {:induction false} RunningSourceStep<V>(s: seq<Block<V>>, path: Position, i: nat, goal: int, src: int,
                                                deepestIdx: seq<int>,
                                                bucketGoal: int, idx: int)
    requires 1 <= i < 64 && LevelStart(i + 1) <= |s| && |deepestIdx| == 64
    requires RunningSource(s, path, i, goal, src, deepestIdx)
    requires bucketGoal == MaxDepth(s, path, LevelStart(i), LevelStart(i + 1))
    requires bucketGoal != -1 ==> IsDeepestOf(s, path, LevelStart(i), LevelStart(i + 1), idx)
    ensures var deeper := bucketGoal > goal;
            RunningSource(s, path, i + 1, if deeper then bucketGoal else goal, if deeper then i else src,
                          deepestIdx[i := idx])
  {
    var mid, hi := LevelStart(i), LevelStart(i + 1);
    MaxDepthSplit(s, path, 0, mid, hi);
    MaxDepthIsMax(s, path, 0, mid);
    MaxDepthIsMax(s, path, mid, hi);
    FirstDeepestIs(s, path, mid);
    if bucketGoal > goal {
      FirstDeepestIsOnly(s, path, hi, idx);
    } else if goal != -1 {
      FirstDeepestIsOnly(s, path, hi, deepestIdx[src]);
    }
  }

  lemma {:induction false} SourceAtTop<V>(s: seq<Block<V>>, path: Position, goal: int, idx: nat, deepestIdx: seq<int>)
    requires LevelStart(1) <= |s| && |deepestIdx| == 64 && deepestIdx[0] == idx
    requires goal == MaxDepth(s, path, 0, LevelStart(1))
    requires goal != -1 ==> IsDeepestOf(s, path, 0, LevelStart(1), idx)
    ensures RunningSource(s, path, 1, goal, if goal != -1 then 0 else -1, deepestIdx)
  {
    MaxDepthIsMax(s, path, 0, LevelStart(1));
    if goal != -1 { FirstDeepestIsOnly(s, path, LevelStart(1), idx); }
  }

  /** The state of PrepareDeepest before it scans level `i`. */
  ghost predicate PreparedUpTo<V>(s: seq<Block<V>>, path: Position, i: nat, deepest: seq<int>, deepestIdx: seq<int>,
                                  hasEmpty: seq<bool>, goal: int, src: int)
  {
    && 1 <= i <= 64 && LevelStart(i) <= |s|
    && |deepest| == |deepestIdx| == |hasEmpty| == 64
    && RunningSource(s, path, i, goal, src, deepestIdx)
    && DeepestUpTo(s, path, i, deepest, deepestIdx)
    && (forall j :: i <= j < 64 ==> deepest[j] == -1)
    && (forall j :: 1 <= j < i ==> hasEmpty[j] == SomeEmpty(s, LevelStart(j), LevelStart(j + 1)))
  }

  lemma {:induction false} PreparedStep<V>(s: seq<Block<V>>, path: Position, i: nat, deepest: seq<int>,
                                           deepestIdx: seq<int>,
                        hasEmpty: seq<bool>, goal: int, src: int, bucketGoal: int, idx: int, bucketEmpty: bool)
    requires PreparedUpTo(s, path, i, deepest, deepestIdx, hasEmpty, goal, src)
    requires i < 64 && LevelStart(i + 1) <= |s|
    requires bucketGoal == MaxDepth(s, path, LevelStart(i), LevelStart(i + 1))
    requires bucketGoal != -1 ==> IsDeepestOf(s, path, LevelStart(i), LevelStart(i + 1), idx)
    requires bucketEmpty == SomeEmpty(s, LevelStart(i), LevelStart(i + 1))
    ensures var deeper := bucketGoal > goal;
            PreparedUpTo(s, path, i + 1, if goal >= i then deepest[i := src] else deepest, deepestIdx[i := idx],
                         hasEmpty[i := bucketEmpty], if deeper then bucketGoal else goal, if deeper then i else src)
  {
    DeepestUpToStep(s, path, i, deepest, deepestIdx, goal, src, idx);
    RunningSourceStep(s, path, i, goal, src, deepestIdx, bucketGoal, idx);
    assert goal < i ==> deepest[i := -1] == deepest;
  }

  lemma {:induction false} PreparedAtTop<V>(s: seq<Block<V>>, path: Position, deepest: seq<int>, deepestIdx: seq<int>,
                         hasEmpty: seq<bool>, goal: int, idx: nat)
    requires LevelStart(1) <= |s| && |deepest| == |deepestIdx| == |hasEmpty| == 64
    requires deepestIdx[0] == idx && forall j :: 0 <= j < 64 ==> deepest[j] == -1
    requires goal == MaxDepth(s, path, 0, LevelStart(1))
    requires goal != -1 ==> IsDeepestOf(s, path, 0, LevelStart(1), idx)
    ensures PreparedUpTo(s, path, 1, deepest, deepestIdx, hasEmpty, goal, if goal != -1 then 0 else -1)
  {
    hide RunningSource, MaxDepth, IsDeepestOf;
    SourceAtTop(s, path, goal, idx, deepestIdx);
  }

  lemma PreparedIsInfo<V>(s: seq<Block<V>>, path: Position, h: nat, deepest: seq<int>, deepestIdx: seq<int>,
                          hasEmpty: seq<bool>, goal: int, src: int)
    requires |s| == S + h * Z && h >= 1
    requires PreparedUpTo(s, path, h, deepest, deepestIdx, hasEmpty, goal, src)
    ensures DeepestInfo(s, h, path, deepest, deepestIdx, hasEmpty)
  {
    hide RunningSource, SomeEmpty;
  }

  method PrepareDeepest<V>(s: seq<Block<V>>, h: nat, path: Position)
    returns (deepest: seq<int>, deepestIdx: seq<int>, hasEmpty: seq<bool>)
    requires 2 <= h <= 64 && |s| == S + h * Z
    ensures DeepestInfo(s, h, path, deepest, deepestIdx, hasEmpty)
  {
    hide MaxDepth, SomeEmpty, IsDeepestOf, PreparedUpTo, DeepestInfo;
    deepest := seq(64, _ => -1);
    deepestIdx := seq(64, _ => 0);
    hasEmpty := seq(64, _ => false);
    var src := -1;
    var goal, goalIdx, _ := ScanLevel(s, path, 0, S + Z);
    deepestIdx := deepestIdx[0 := goalIdx];
    if goal != -1 { src := 0; }
    PreparedAtTop(s, path, deepest, deepestIdx, hasEmpty, goal, goalIdx);

    for i := 1 to h
      invariant |deepest| == |deepestIdx| == |hasEmpty| == 64
      invariant PreparedUpTo(s, path, i, deepest, deepestIdx, hasEmpty, goal, src)
    {
      var bucketGoal, bucketIdx, bucketEmpty := ScanLevel(s, path, LevelStart(i), LevelStart(i + 1));
      PreparedStep(s, path, i, deepest, deepestIdx, hasEmpty, goal, src, bucketGoal, bucketIdx, bucketEmpty);
      if goal >= i { deepest := deepest[i := src]; }
      deepestIdx := deepestIdx[i := bucketIdx];
      hasEmpty := hasEmpty[i := bucketEmpty];
      if bucketGoal > goal {
        src := i;
        goal := bucketGoal;
      }
    }
    PreparedIsInfo(s, path, h, deepest, deepestIdx, hasEmpty, goal, src);
  }

  /** Every arrow of the plan goes from a level to a deeper one that its source was computed for, and the level it
      ends in has a free slot or gives up a block of its own. */
  ghost predicate ArrowsLand(h: nat, lo: nat, deepest: seq<int>, hasEmpty: seq<bool>, target: seq<int>)
    requires h <= 64 && |deepest| == |hasEmpty| == |target| == 64
  {
    forall i :: lo <= i < h && target[i] != -1 ==>
      i < target[i] < h && deepest[target[i]] == i && (hasEmpty[target[i]] || target[target[i]] != -1)
  }

  /** No level strictly inside an arrow starts an arrow of its own, so at most one block is ever carried. */
  ghost predicate ArrowsDisjoint(h: nat, lo: nat, target: seq<int>)
    requires h <= 64 && |target| == 64
  {
    forall i, k :: lo <= i < k < h && k < target[i] ==> target[k] == -1
  }

  /** A level that could take a block lies under or at the end of some arrow. */
  ghost predicate Served(j: nat, lo: nat, target: seq<int>)
    requires |target| == 64 && j < 64
  {
    exists i :: lo <= i < j && target[i] >= j
  }

  ghost predicate CanTake(j: nat, deepest: seq<int>, hasEmpty: seq<bool>, target: seq<int>)
    requires |deepest| == |hasEmpty| == |target| == 64 && j < 64
  {
    deepest[j] != -1 && (hasEmpty[j] || target[j] != -1)
  }

  ghost predicate AllServed(h: nat, first: nat, lo: nat, deepest: seq<int>, hasEmpty: seq<bool>, target: seq<int>)
    requires h <= 64 && |deepest| == |hasEmpty| == |target| == 64
  {
    forall j :: first <= j < h && CanTake(j, deepest, hasEmpty, target) ==> Served(j, lo, target)
  }

  ghost predicate Plan(h: nat, deepest: seq<int>, hasEmpty: seq<bool>, target: seq<int>) {
    && 2 <= h <= 64 && |deepest| == |hasEmpty| == |target| == 64
    && (forall i :: 0 <= i < h ==> -1 <= target[i])
    && ArrowsLand(h, 0, deepest, hasEmpty, target)
    && ArrowsDisjoint(h, 0, target)
    && AllServed(h, 1, 0, deepest, hasEmpty, target)
  }

  /** The state of PrepareTarget when the levels from `lo` on are planned and an arrow from `src` to `dst` is open
      (both -1 when none is). */
  ghost predicate PlannedFrom(h: nat, lo: nat, deepest: seq<int>, hasEmpty: seq<bool>, target: seq<int>, src: int,
                              dst: int) {
    && 1 <= lo <= h <= 64 && |deepest| == |hasEmpty| == |target| == 64
    && (forall i :: 0 <= i < lo ==> target[i] == -1)
    && (forall i :: lo <= i < h ==> -1 <= target[i])
    && ArrowsLand(h, lo, deepest, hasEmpty, target)
    && ArrowsDisjoint(h, lo, target)
    && (dst == -1 <==> src == -1)
    && (dst != -1 ==>
          && 0 <= src < lo <= dst < h && deepest[dst] == src && (hasEmpty[dst] || target[dst] != -1)
          && forall k :: lo <= k < dst ==> target[k] == -1)
    && (forall j :: lo <= j < h && CanTake(j, deepest, hasEmpty, target) ==> j <= dst || Served(j, lo, target))
  }

  /** Closing the open arrow at its source keeps the plan well-formed. */
  lemma CloseArrow(h: nat, i: nat, deepest: seq<int>, hasEmpty: seq<bool>, target: seq<int>, src: int, dst: int)
    requires PlannedFrom(h, i + 1, deepest, hasEmpty, target, src, dst) && i == src
    ensures ArrowsLand(h, i, deepest, hasEmpty, target[i := dst])
    ensures ArrowsDisjoint(h, i, target[i := dst])
    ensures AllServed(h, i + 1, i, deepest, hasEmpty, target[i := dst])
  {
    var target' := target[i := dst];
    forall j | i < j < h && CanTake(j, deepest, hasEmpty, target') ensures Served(j, i, target') {
      assert CanTake(j, deepest, hasEmpty, target);
      if j <= dst {
        assert target'[i] >= j;
      } else {
        var k :| i + 1 <= k < j && target[k] >= j;
        assert target'[k] >= j;
      }
    }
  }

  /** A level that is not the source of the open arrow leaves the plan as it is. */
  lemma KeepArrow(h: nat, i: nat, deepest: seq<int>, hasEmpty: seq<bool>, target: seq<int>, src: int, dst: int)
    requires 1 <= i && PlannedFrom(h, i + 1, deepest, hasEmpty, target, src, dst) && i != src
    ensures ArrowsLand(h, i, deepest, hasEmpty, target)
    ensures ArrowsDisjoint(h, i, target)
    ensures forall j :: i < j < h && CanTake(j, deepest, hasEmpty, target) ==> j <= dst || Served(j, i, target)
  {
    forall j | i < j < h && CanTake(j, deepest, hasEmpty, target) && j > dst ensures Served(j, i, target) {
      var k :| i + 1 <= k < j && target[k] >= j;
      assert target[k] >= j;
    }
  }

  /** One round of PrepareTarget. */
  lemma PlanStep(h: nat, i: nat, deepest: seq<int>, hasEmpty: seq<bool>, target: seq<int>, src: int, dst: int)
    requires 1 <= i && PlannedFrom(h, i + 1, deepest, hasEmpty, target, src, dst)
    requires deepest[i] == -1 || 0 <= deepest[i] < i
    ensures var isSrc := i == src;
            var target' := if isSrc then target[i := dst] else target;
            var dst' := if isSrc then -1 else dst;
            var change := ((dst' == -1 && hasEmpty[i]) || target'[i] != -1) && deepest[i] != -1;
            PlannedFrom(h, i, deepest, hasEmpty, target',
                        if change then deepest[i] else if isSrc then -1 else src, if change then i else dst')
  {
    if i == src {
      CloseArrow(h, i, deepest, hasEmpty, target, src, dst);
      assert ArrowsLand(h, i, deepest, hasEmpty, target[i := dst]);
    } else {
      KeepArrow(h, i, deepest, hasEmpty, target, src, dst);
    }
  }

  lemma PlanStarts(h: nat, deepest: seq<int>, hasEmpty: seq<bool>)
    requires 2 <= h <= 64 && |deepest| == |hasEmpty| == 64
    ensures PlannedFrom(h, h, deepest, hasEmpty, seq(64, _ => -1), -1, -1)
  {
  }

  /** The plan is complete once the arrow from level 0, if any, is closed. */
  lemma PlanEnds(h: nat, deepest: seq<int>, hasEmpty: seq<bool>, target: seq<int>, src: int, dst: int)
    requires 2 <= h && PlannedFrom(h, 1, deepest, hasEmpty, target, src, dst)
    ensures Plan(h, deepest, hasEmpty, if src == 0 then target[0 := dst] else target)
  {
    if src == 0 {
      CloseArrow(h, 0, deepest, hasEmpty, target, src, dst);
    } else {
      forall j | 1 <= j < h && CanTake(j, deepest, hasEmpty, target) ensures Served(j, 0, target) {
        var k :| 1 <= k < j && target[k] >= j;
      }
    }
  }

  method PrepareTarget(h: nat, deepest: seq<int>, hasEmpty: seq<bool>) returns (target: seq<int>)
    requires 2 <= h <= 64 && |deepest| == |hasEmpty| == 64
    requires forall i :: 1 <= i < h ==> deepest[i] == -1 || 0 <= deepest[i] < i
    ensures Plan(h, deepest, hasEmpty, target)
  {
    hide PlannedFrom, Plan;
    target := seq(64, _ => -1);
    var src, dst := -1, -1;
    PlanStarts(h, deepest, hasEmpty);
    for i := h downto 1
      invariant |target| == 64 && PlannedFrom(h, i, deepest, hasEmpty, target, src, dst)
    {
      PlanStep(h, i, deepest, hasEmpty, target, src, dst);
      if i == src {
        target := target[i := dst];
        src := -1;
        dst := -1;
      }
      if ((dst == -1 && hasEmpty[i]) || target[i] != -1) && deepest[i] != -1 {
        src := deepest[i];
        dst := i;
      }
    }
    PlanEnds(h, deepest, hasEmpty, target, src, dst);
    if src == 0 { target := target[0 := dst]; }
  }

  /** The level before `n` whose arrow passes into level `l`, or -1. */
  ghost function Crossing(target: seq<int>, l: nat, n: nat): (src: int)
    requires n <= |target|
    ensures src == -1 || (0 <= src < n && target[src] >= l)
    ensures forall k :: src < k < n ==> target[k] < l
  {
    if n == 0 then -1 else if target[n - 1] >= l then n - 1 else Crossing(target, l, n - 1)
  }

  /** The block carried into level `l` from above by the arrows that start before level `n`. */
  ghost function Carried<V>(s: seq<Block<V>>, deepestIdx: seq<int>, target: seq<int>, l: nat,
                            n: nat): multiset<Block<V>>
    requires n <= |target| == |deepestIdx|
  {
    var src := Crossing(target, l, Min(l, n));
    if src != -1 && 0 <= deepestIdx[src] < |s| then multiset{s[deepestIdx[src]]} else multiset{}
  }

  /** Exchanging slot `idx` for another block changes the multiset below every level the slot lies under. */
  lemma BelowUpdate<V>(s: seq<Block<V>>, idx: nat, b: Block<V>, l: nat)
    requires idx < |s| && LevelStart(l) <= |s|
    ensures if LevelStart(l) <= idx then Below(s[idx := b], l) + Real(s[idx]) == Below(s, l) + Real(b)
            else Below(s[idx := b], l) == Below(s, l)
  {
    var from := LevelStart(l);
    if from <= idx {
      assert s[idx := b][from..] == s[from..][idx - from := b];
      RealBlocksUpdate(s[from..], idx - from, b);
    } else {
      assert s[idx := b][from..] == s[from..];
    }
  }

  /** A plan the third pass can carry out on the blocks of `s`. */
  ghost predicate Executable<V>(s: seq<Block<V>>, h: nat, path: Position, deepestIdx: seq<int>, target: seq<int>) {
    && 2 <= h <= 64 && |s| == S + h * Z && |deepestIdx| == |target| == 64
    && (forall i :: 0 <= i < h ==> -1 <= target[i])
    && (forall i :: 0 <= i < h && target[i] != -1 ==> Arrow(s, h, path, i, target[i], deepestIdx, target))
    && ArrowsDisjoint(h, 0, target)
  }

  ghost predicate Arrow<V>(s: seq<Block<V>>, h: nat, path: Position, i: nat, t: int, deepestIdx: seq<int>,
                           target: seq<int>)
    requires h <= 64 && |s| == S + h * Z && |deepestIdx| == |target| == 64 && i < h
  {
    && i < t < h
    && InLevel(deepestIdx[i], i)
    && Depth(s[deepestIdx[i]], path) >= t
    && (target[t] != -1 || SomeEmpty(s, LevelStart(t), LevelStart(t + 1)))
  }

  lemma PlansAreExecutable<V>(s: seq<Block<V>>, h: nat, path: Position, deepest: seq<int>, deepestIdx: seq<int>,
                              hasEmpty: seq<bool>, target: seq<int>)
    requires 2 <= h <= 64 && |s| == S + h * Z
    requires DeepestInfo(s, h, path, deepest, deepestIdx, hasEmpty) && Plan(h, deepest, hasEmpty, target)
    ensures Executable(s, h, path, deepestIdx, target)
  {
    forall i | 0 <= i < h && target[i] != -1 ensures Arrow(s, h, path, i, target[i], deepestIdx, target) {
      var t := target[i];
      assert DeepestAt(s, path, t, deepest[t], deepestIdx);
      FirstDeepestIs(s, path, LevelStart(t));
    }
  }

  /** The state of the third pass before it reaches level `i`: `hold` is on its way to level `dst`. */
  ghost predicate Carrying<V>(s: seq<Block<V>>, now: seq<Block<V>>, h: nat, path: Position, deepestIdx: seq<int>,
                              target: seq<int>, i: nat, hold: Block<V>, dst: int)
  {
    && Executable(s, h, path, deepestIdx, target)
    && 1 <= i <= h && |now| == |s|
    && (forall k :: LevelStart(i) <= k < |now| ==> now[k] == s[k])
    && OnTheWay(s, h, path, target, i, hold, dst)
    && AllBalanced(s, now, h, deepestIdx, target, i, hold, dst)
  }

  ghost predicate OnTheWay<V>(s: seq<Block<V>>, h: nat, path: Position, target: seq<int>, i: nat, hold: Block<V>,
                              dst: int)
    requires h <= 64 && |s| == S + h * Z && |target| == 64
  {
    && (dst == -1 <==> hold.IsEmpty())
    && (dst != -1 ==>
          && i <= dst < h && Depth(hold, path) >= dst
          && (target[dst] != -1 || SomeEmpty(s, LevelStart(dst), LevelStart(dst + 1)))
          && forall k :: i <= k < dst ==> target[k] == -1)
  }

  ghost predicate AllBalanced<V>(s: seq<Block<V>>, now: seq<Block<V>>, h: nat, deepestIdx: seq<int>,
                                 target: seq<int>, i: nat, hold: Block<V>, dst: int)
    requires h <= 64 && |s| == S + h * Z == |now| && i <= |target| == |deepestIdx|
  {
    forall l :: 0 <= l < h ==> Balanced(s, now, deepestIdx, target, i, hold, dst, l)
  }

  /** Blocks below level `l`, counting one that is on its way there. */
  ghost predicate Balanced<V>(s: seq<Block<V>>, now: seq<Block<V>>, deepestIdx: seq<int>, target: seq<int>,
                              i: nat, hold: Block<V>, dst: int, l: nat)
    requires LevelStart(l) <= |s| == |now| && i <= |target| == |deepestIdx|
  {
    Below(now, l) + (if l <= dst then Real(hold) else multiset{}) == Below(s, l) + Carried(s, deepestIdx, target, l, i)
  }

  lemma CarriedStep<V>(s: seq<Block<V>>, h: nat, deepestIdx: seq<int>, target: seq<int>, i: nat, l: nat)
    requires i < h <= 64 && l < h && |deepestIdx| == |target| == 64 && ArrowsDisjoint(h, 0, target)
    requires target[i] == -1 || (i < target[i] && 0 <= deepestIdx[i] < |s|)
    ensures i < l <= target[i] ==> Carried(s, deepestIdx, target, l, i + 1) == multiset{s[deepestIdx[i]]}
                                   && Carried(s, deepestIdx, target, l, i) == multiset{}
    ensures !(i < l <= target[i]) ==> Carried(s, deepestIdx, target, l, i + 1) == Carried(s, deepestIdx, target, l, i)
  {
    if i < l {
      assert Min(l, i + 1) == i + 1 && Min(l, i) == i;
      var src := Crossing(target, l, i);
      assert src != -1 ==> i < target[src];
    } else {
      assert Min(l, i + 1) == l && Min(l, i) == l;
    }
  }

  lemma BalancedTake<V>(s: seq<Block<V>>, now: seq<Block<V>>, h: nat, deepestIdx: seq<int>,
                        target: seq<int>, i: nat, hold: Block<V>, dst: int, l: nat)
    requires i < h <= 64 && l < h && |deepestIdx| == |target| == 64 && ArrowsDisjoint(h, 0, target)
    requires LevelStart(l) <= |s| == |now| && i < target[i]
    requires InLevel(deepestIdx[i], i) && deepestIdx[i] < |s| && now[deepestIdx[i]] == s[deepestIdx[i]]
    requires !s[deepestIdx[i]].IsEmpty()
    requires dst == (if hold.IsEmpty() then -1 else i)
    requires Balanced(s, now, deepestIdx, target, i, hold, dst, l)
    ensures Balanced(s, now[deepestIdx[i] := hold], deepestIdx, target, i + 1, s[deepestIdx[i]], target[i], l)
  {
    BelowUpdate(now, deepestIdx[i], hold, l);
    CarriedStep(s, h, deepestIdx, target, i, l);
    if l <= i {
      assert Below(now, l) + Real(hold) == Below(s, l) + Carried(s, deepestIdx, target, l, i);
    } else {
      assert Below(now, l) == Below(s, l) + Carried(s, deepestIdx, target, l, i);
    }
  }

  lemma AllBalancedTake<V>(s: seq<Block<V>>, now: seq<Block<V>>, h: nat, deepestIdx: seq<int>,
                           target: seq<int>, i: nat, hold: Block<V>, dst: int)
    requires i < h <= 64 && |deepestIdx| == |target| == 64 && ArrowsDisjoint(h, 0, target)
    requires |s| == S + h * Z == |now| && i < target[i]
    requires InLevel(deepestIdx[i], i) && now[deepestIdx[i]] == s[deepestIdx[i]] && !s[deepestIdx[i]].IsEmpty()
    requires dst == (if hold.IsEmpty() then -1 else i)
    requires AllBalanced(s, now, h, deepestIdx, target, i, hold, dst)
    ensures AllBalanced(s, now[deepestIdx[i] := hold], h, deepestIdx, target, i + 1, s[deepestIdx[i]], target[i])
  {
    hide Balanced, ArrowsDisjoint;
    var now', b, n := now[deepestIdx[i] := hold], s[deepestIdx[i]], i + 1;
    forall l | 0 <= l < h ensures Balanced(s, now', deepestIdx, target, n, b, target[i], l) {
      assert Balanced(s, now, deepestIdx, target, i, hold, dst, l);
      BalancedTake(s, now, h, deepestIdx, target, i, hold, dst, l);
    }
  }

  /** Level `i` gives up its deepest block and takes what was carried, if anything. */
  lemma TakeStep<V>(s: seq<Block<V>>, now: seq<Block<V>>, h: nat, path: Position, deepestIdx: seq<int>,
                    target: seq<int>, i: nat, hold: Block<V>, dst: int)
    requires Carrying(s, now, h, path, deepestIdx, target, i, hold, dst) && i < h && target[i] != -1
    ensures InLevel(deepestIdx[i], i)
    ensures Carrying(s, now[deepestIdx[i] := hold], h, path, deepestIdx, target, i + 1, s[deepestIdx[i]], target[i])
  {
    assert Arrow(s, h, path, i, target[i], deepestIdx, target);
    assert dst == -1 || dst == i;
    AllBalancedTake(s, now, h, deepestIdx, target, i, hold, dst);
    assert OnTheWay(s, h, path, target, i + 1, s[deepestIdx[i]], target[i]);
  }

  lemma BelowInterchangeable<V>(a: seq<Block<V>>, b: seq<Block<V>>, l: nat)
    requires LevelStart(l) <= |a| == |b| && forall k :: 0 <= k < |a| ==> Interchangeable(a[k], b[k])
    ensures Below(a, l) == Below(b, l)
  {
    RealBlocksInterchangeable(a[LevelStart(l)..], b[LevelStart(l)..]);
  }

  lemma BalancedPlace<V>(s: seq<Block<V>>, now: seq<Block<V>>, now': seq<Block<V>>, h: nat, deepestIdx: seq<int>,
                         target: seq<int>, i: nat, hold: Block<V>, hold': Block<V>, idx: int, l: nat)
    requires i < h <= 64 && l < h && |deepestIdx| == |target| == 64 && ArrowsDisjoint(h, 0, target)
    requires LevelStart(l) <= |s| == |now| == |now'| && target[i] == -1
    requires InLevel(idx, i) && idx < |s| && now[idx].IsEmpty() && hold'.IsEmpty()
    requires forall k :: 0 <= k < |now| ==> Interchangeable(now'[k], now[idx := hold][k])
    requires Balanced(s, now, deepestIdx, target, i, hold, i, l)
    ensures Balanced(s, now', deepestIdx, target, i + 1, hold', -1, l)
  {
    BelowUpdate(now, idx, hold, l);
    BelowInterchangeable(now', now[idx := hold], l);
    CarriedStep(s, h, deepestIdx, target, i, l);
  }

  /** What is carried to level `i` is put down in its first free slot. */
  lemma PlaceStep<V>(s: seq<Block<V>>, now: seq<Block<V>>, now': seq<Block<V>>, h: nat, path: Position,
                     deepestIdx: seq<int>, target: seq<int>, i: nat, hold: Block<V>, hold': Block<V>, idx: int)
    requires Carrying(s, now, h, path, deepestIdx, target, i, hold, i) && i < h && target[i] == -1
    requires InLevel(idx, i) && now[idx].IsEmpty() && hold'.IsEmpty()
    requires |now'| == |now| && forall k :: 0 <= k < |now| ==> Interchangeable(now'[k], now[idx := hold][k])
    requires forall k :: LevelStart(i + 1) <= k < |now| ==> now'[k] == now[k]
    ensures Carrying(s, now', h, path, deepestIdx, target, i + 1, hold', -1)
  {
    var n := i + 1;
    forall l | 0 <= l < h ensures Balanced(s, now', deepestIdx, target, n, hold', -1, l) {
      assert Balanced(s, now, deepestIdx, target, i, hold, i, l);
      BalancedPlace(s, now, now', h, deepestIdx, target, i, hold, hold', idx, l);
    }
  }

  lemma SkipStep<V>(s: seq<Block<V>>, now: seq<Block<V>>, h: nat, path: Position, deepestIdx: seq<int>,
                    target: seq<int>, i: nat, hold: Block<V>, dst: int)
    requires Carrying(s, now, h, path, deepestIdx, target, i, hold, dst) && i < h && target[i] == -1 && dst != i
    ensures Carrying(s, now, h, path, deepestIdx, target, i + 1, hold, dst)
  {
    var n := i + 1;
    forall l | 0 <= l < h ensures Balanced(s, now, deepestIdx, target, n, hold, dst, l) {
      assert Balanced(s, now, deepestIdx, target, i, hold, dst, l);
      CarriedStep(s, h, deepestIdx, target, i, l);
    }
  }

  /** What slot `k` holds once the plan is carried out, up to what is left in empty slots. */
  ghost function PlannedSlot<V>(s: seq<Block<V>>, deepestIdx: seq<int>, target: seq<int>, k: nat): Block<V>
    requires k < |s| && |deepestIdx| == |target| == 64 && LevelOf(k) < 64
  {
    var l := LevelOf(k);
    var src := Crossing(target, l, l);
    var arrives := src != -1 && target[src] == l && 0 <= deepestIdx[src] < |s|;
    if target[l] != -1 then
      if k != deepestIdx[l] then s[k] else if arrives then s[deepestIdx[src]] else s[k].Emptied()
    else if arrives && IsFirstFree(s, LevelStart(l), k) then s[deepestIdx[src]]
    else s[k]
  }

  /** What is in hand before level `i`: the block of the arrow that passes into it, if one does. */
  ghost predicate InHand<V>(s: seq<Block<V>>, deepestIdx: seq<int>, target: seq<int>, i: nat, hold: Block<V>,
                            dst: int)
    requires |deepestIdx| == |target| == 64 && i <= 64
  {
    var src := Crossing(target, i, i);
    if src == -1 then dst == -1 && hold.IsEmpty()
    else dst == target[src] && 0 <= deepestIdx[src] < |s| && hold == s[deepestIdx[src]]
  }

  /** The slots before level `i` hold what they are to hold in the end. */
  ghost predicate Settled<V>(s: seq<Block<V>>, now: seq<Block<V>>, deepestIdx: seq<int>, target: seq<int>, i: nat)
    requires LevelStart(i) <= |s| == |now| && |deepestIdx| == |target| == 64 && i <= 64
  {
    forall k :: 0 <= k < LevelStart(i) ==> Interchangeable(now[k], PlannedSlot(s, deepestIdx, target, k))
  }

  /** The third pass slot by slot, before it reaches level `i`. */
  ghost predicate Settling<V>(s: seq<Block<V>>, now: seq<Block<V>>, h: nat, deepestIdx: seq<int>, target: seq<int>,
                              i: nat, hold: Block<V>, dst: int)
  {
    && 1 <= i <= h <= 64 && |now| == |s| == S + h * Z && |deepestIdx| == |target| == 64
    && ArrowsDisjoint(h, 0, target)
    && (forall k :: LevelStart(i) <= k < |now| ==> now[k] == s[k])
    && InHand(s, deepestIdx, target, i, hold, dst)
    && Settled(s, now, deepestIdx, target, i)
  }

  /** What is in hand after a level that starts no arrow: nothing when it was put down there, and else the same. */
  lemma HandAfter<V>(s: seq<Block<V>>, h: nat, deepestIdx: seq<int>, target: seq<int>, i: nat, hold: Block<V>,
                     dst: int, hold': Block<V>)
    requires i < h <= 64 && |deepestIdx| == |target| == 64 && ArrowsDisjoint(h, 0, target) && target[i] == -1
    requires InHand(s, deepestIdx, target, i, hold, dst)
    requires if dst == i then hold'.IsEmpty() else hold' == hold
    ensures InHand(s, deepestIdx, target, i + 1, hold', if dst == i then -1 else dst)
  {
    var src, n := Crossing(target, i, i), i + 1;
    var next := Crossing(target, n, n);
    assert next == Crossing(target, n, i);
    if next != -1 {
      assert src >= next;
      assert src == next;
    }
  }

  lemma LevelOfIs(k: nat, l: nat)
    requires InLevel(k, l)
    ensures LevelOf(k) == l
  {
  }

  /** Slots of level `i` that change as planned settle the level. */
  lemma SettleLevel<V>(s: seq<Block<V>>, now: seq<Block<V>>, now': seq<Block<V>>, h: nat, deepestIdx: seq<int>,
                       target: seq<int>, i: nat)
    requires i < h <= 64 && |now| == |now'| == |s| == S + h * Z && |deepestIdx| == |target| == 64
    requires Settled(s, now, deepestIdx, target, i)
    requires forall k :: 0 <= k < LevelStart(i) ==> Interchangeable(now'[k], now[k])
    requires forall k :: LevelStart(i) <= k < LevelStart(i + 1) && LevelOf(k) == i ==>
               Interchangeable(now'[k], PlannedSlot(s, deepestIdx, target, k))
    ensures Settled(s, now', deepestIdx, target, i + 1)
  {
    hide PlannedSlot;
    var n := i + 1;
    forall k | 0 <= k < LevelStart(n) ensures Interchangeable(now'[k], PlannedSlot(s, deepestIdx, target, k)) {
      if k >= LevelStart(i) { LevelOfIs(k, i); }
    }
  }

  lemma SettleTake<V>(s: seq<Block<V>>, now: seq<Block<V>>, h: nat, deepestIdx: seq<int>, target: seq<int>, i: nat,
                      hold: Block<V>, dst: int)
    requires i < h && Settling(s, now, h, deepestIdx, target, i, hold, dst) && i < target[i]
    requires InLevel(deepestIdx[i], i)
    ensures Settling(s, now[deepestIdx[i] := hold], h, deepestIdx, target, i + 1, s[deepestIdx[i]], target[i])
  {
    SettleLevel(s, now, now[deepestIdx[i] := hold], h, deepestIdx, target, i);
  }

  lemma SettlePlace<V>(s: seq<Block<V>>, now: seq<Block<V>>, now': seq<Block<V>>, h: nat, deepestIdx: seq<int>,
                       target: seq<int>, i: nat, hold: Block<V>, hold': Block<V>, e: int)
    requires i < h && Settling(s, now, h, deepestIdx, target, i, hold, i) && target[i] == -1 && hold'.IsEmpty()
    requires InLevel(e, i) && IsFirstFree(now, LevelStart(i), e)
    requires |now'| == |now| && forall k :: 0 <= k < |now| ==> Interchangeable(now'[k], now[e := hold][k])
    requires forall k :: LevelStart(i + 1) <= k < |now| ==> now'[k] == now[k]
    ensures Settling(s, now', h, deepestIdx, target, i + 1, hold', -1)
  {
    HandAfter(s, h, deepestIdx, target, i, hold, i, hold');
    SettleLevel(s, now, now', h, deepestIdx, target, i);
  }

  lemma SettleSkip<V>(s: seq<Block<V>>, now: seq<Block<V>>, h: nat, deepestIdx: seq<int>, target: seq<int>, i: nat,
                      hold: Block<V>, dst: int)
    requires i < h && Settling(s, now, h, deepestIdx, target, i, hold, dst) && target[i] == -1 && dst != i
    ensures Settling(s, now, h, deepestIdx, target, i + 1, hold, dst)
  {
    HandAfter(s, h, deepestIdx, target, i, hold, dst, hold);
    SettleLevel(s, now, now, h, deepestIdx, target, i);
  }

  lemma SettleTop<V>(s: seq<Block<V>>, s': seq<Block<V>>, h: nat, deepestIdx: seq<int>, target: seq<int>,
                     hold: Block<V>)
    requires 1 <= h <= 64 && |s| == S + h * Z && |deepestIdx| == |target| == 64 && ArrowsDisjoint(h, 0, target)
    requires target[0] == -1 || (0 < target[0] && InLevel(deepestIdx[0], 0))
    requires if target[0] != -1 then hold == s[deepestIdx[0]] && s' == s[deepestIdx[0] := s[deepestIdx[0]].Emptied()]
             else hold.IsEmpty() && s' == s
    ensures Settling(s, s', h, deepestIdx, target, 1, hold, target[0])
  {
    assert Crossing(target, 1, 0) == -1;
    assert Settled(s, s, deepestIdx, target, 0);
    SettleLevel(s, s, s', h, deepestIdx, target, 0);
  }

  lemma SettleLast<V>(s: seq<Block<V>>, now: seq<Block<V>>, s': seq<Block<V>>, h: nat, deepestIdx: seq<int>,
                      target: seq<int>, hold: Block<V>, dst: int, e: nat)
    requires h >= 2 && Settling(s, now, h, deepestIdx, target, h - 1, hold, dst) && target[h - 1] == -1
    requires if dst == h - 1 then InLevel(e, h - 1) && IsFirstFree(now, LevelStart(h - 1), e) && s' == now[e := hold]
             else s' == now
    ensures |s'| == |s| && Settled(s, s', deepestIdx, target, h)
  {
    hide Settled, InHand, PlannedSlot, ArrowsDisjoint, IsFirstFree;
    if dst == h - 1 {
      SettlePlace(s, now, s', h, deepestIdx, target, h - 1, hold, hold.Emptied(), e);
    } else {
      SettleSkip(s, now, h, deepestIdx, target, h - 1, hold, dst);
    }
  }

  /** Sweeps the slots [lo, hi) of a level that gives up the block at `d` when `hasTarget`, and takes `hold` into
      its first free slot when `placeDummy`; `e` is that slot. */
  method SweepLevel<V>(s: seq<Block<V>>, lo: nat, hi: nat, d: int, hasTarget: bool, placeDummy: bool, hold: Block<V>)
    returns (s': seq<Block<V>>, hold': Block<V>, ghost e: nat)
    requires lo <= hi <= |s| && !(hasTarget && placeDummy)
    requires hasTarget ==> lo <= d < hi
    requires placeDummy ==> SomeEmpty(s, lo, hi) && !hold.IsEmpty()
    ensures !hasTarget && !placeDummy ==> s' == s && hold' == hold
    ensures hasTarget ==> s' == s[d := hold] && hold' == s[d]
    ensures |s'| == |s| && forall k :: 0 <= k < |s| && !(lo <= k < hi) ==> s'[k] == s[k]
    ensures placeDummy ==> lo <= e < hi && IsFirstFree(s, lo, e) && hold'.IsEmpty()
    ensures placeDummy ==> forall k :: 0 <= k < |s| ==> Interchangeable(s'[k], s[e := hold][k])
  {
    s', hold', e := s, hold, lo;
    ghost var placed := false;
    for idx := lo to hi
      invariant |s'| == |s| && forall k :: 0 <= k < |s| && !(lo <= k < idx) ==> s'[k] == s[k]
      invariant !hasTarget && !placeDummy ==> s' == s && hold' == hold
      invariant hasTarget ==> if d < idx then s' == s[d := hold] && hold' == s[d] else s' == s && hold' == hold
      invariant placeDummy && !placed ==> s' == s && hold' == hold && !SomeEmpty(s, lo, idx)
      invariant placeDummy && placed ==> lo <= e < idx && IsFirstFree(s, lo, e) && hold'.IsEmpty()
      invariant placeDummy && placed ==> forall k :: 0 <= k < |s| ==> Interchangeable(s'[k], s[e := hold][k])
    {
      if (idx == d && hasTarget) || (s'[idx].IsEmpty() && placeDummy) {
        if placeDummy && !placed { placed, e := true, idx; }
        s', hold' := s'[idx := hold'], s'[idx];
      }
    }
  }

  /** Writes `hold` into the first free slot of [lo, hi) when `placeDummy`. */
  method FillFirstFree<V>(s: seq<Block<V>>, lo: nat, hi: nat, placeDummy: bool, hold: Block<V>)
    returns (s': seq<Block<V>>, ghost e: nat)
    requires lo <= hi <= |s|
    requires placeDummy ==> SomeEmpty(s, lo, hi)
    ensures if placeDummy then lo <= e < hi && IsFirstFree(s, lo, e) && s' == s[e := hold] else s' == s
  {
    s', e := s, lo;
    var written := false;
    for idx := lo to hi
      invariant !written ==> s' == s && (placeDummy ==> !SomeEmpty(s, lo, idx))
      invariant written ==> placeDummy && lo <= e < idx && IsFirstFree(s, lo, e) && s' == s[e := hold]
    {
      if s'[idx].IsEmpty() && placeDummy && !written {
        written, e := true, idx;
        s' := s'[idx := hold];
      }
    }
  }

  /** What a plan does to the path: below each level, exactly the block carried across its boundary is gained. */
  ghost predicate Moved<V>(s: seq<Block<V>>, s': seq<Block<V>>, h: nat, deepestIdx: seq<int>, target: seq<int>)
    requires h <= 64 && |s| == |s'| == S + h * Z && |deepestIdx| == |target| == 64
  {
    forall l :: 0 <= l < h ==> Below(s', l) == Below(s, l) + Carried(s, deepestIdx, target, l, l)
  }

  /** Level 0 gives up its deepest block when the plan has an arrow starting there. */
  method TakeFromTop<V>(s: seq<Block<V>>, d: int, hasTarget: bool, empty: Block<V>)
    returns (s': seq<Block<V>>, hold: Block<V>)
    requires |s| >= S + Z && (hasTarget ==> InLevel(d, 0))
    ensures if hasTarget then hold == s[d] && s' == s[d := s[d].Emptied()] else hold == empty && s' == s
  {
    s', hold := s, empty;
    for idx := 0 to S + Z
      invariant if hasTarget && d < idx then hold == s[d] && s' == s[d := s[d].Emptied()] else hold == empty && s' == s
    {
      if idx == d && hasTarget {
        hold := s'[idx];
        s' := s'[idx := s'[idx].Emptied()];
      }
    }
  }

  lemma NothingCarriedYet<V>(s: seq<Block<V>>, h: nat, deepestIdx: seq<int>, target: seq<int>, empty: Block<V>)
    requires h <= 64 && |s| == S + h * Z && |deepestIdx| == |target| == 64 && empty.IsEmpty()
    ensures AllBalanced(s, s, h, deepestIdx, target, 0, empty, -1)
  {
  }

  lemma NothingTakenFromTop<V>(s: seq<Block<V>>, h: nat, deepestIdx: seq<int>, target: seq<int>, hold: Block<V>)
    requires 1 <= h <= 64 && |s| == S + h * Z && |deepestIdx| == |target| == 64 && hold.IsEmpty()
    requires target[0] == -1 && ArrowsDisjoint(h, 0, target)
    ensures AllBalanced(s, s, h, deepestIdx, target, 1, hold, -1)
  {
    var n := 1;
    forall l | 0 <= l < h ensures Balanced(s, s, deepestIdx, target, n, hold, -1, l) {
      CarriedStep(s, h, deepestIdx, target, 0, l);
    }
  }

  lemma FirstStep<V>(s: seq<Block<V>>, s': seq<Block<V>>, h: nat, path: Position, deepestIdx: seq<int>,
                     target: seq<int>, hold: Block<V>)
    requires Executable(s, h, path, deepestIdx, target)
    requires target[0] != -1 ==> InLevel(deepestIdx[0], 0)
    requires if target[0] != -1 then hold == s[deepestIdx[0]] && s' == s[deepestIdx[0] := s[deepestIdx[0]].Emptied()]
             else hold.IsEmpty() && s' == s
    ensures Carrying(s, s', h, path, deepestIdx, target, 1, hold, target[0])
  {
    hide AllBalanced, OnTheWay, ArrowsDisjoint, Arrow, SomeEmpty;
    FirstStepShape(s, s', h, path, deepestIdx, target, hold);
    FirstStepBalanced(s, s', h, path, deepestIdx, target, hold);
  }

  lemma FirstStepBalanced<V>(s: seq<Block<V>>, s': seq<Block<V>>, h: nat, path: Position, deepestIdx: seq<int>,
                             target: seq<int>, hold: Block<V>)
    requires Executable(s, h, path, deepestIdx, target)
    requires target[0] != -1 ==> InLevel(deepestIdx[0], 0)
    requires if target[0] != -1 then hold == s[deepestIdx[0]] && s' == s[deepestIdx[0] := s[deepestIdx[0]].Emptied()]
             else hold.IsEmpty() && s' == s
    ensures |s'| == |s| && AllBalanced(s, s', h, deepestIdx, target, 1, hold, target[0])
  {
    hide AllBalanced, ArrowsDisjoint;
    if target[0] != -1 {
      assert Arrow(s, h, path, 0, target[0], deepestIdx, target);
      NothingCarriedYet(s, h, deepestIdx, target, hold.Emptied());
      AllBalancedTake(s, s, h, deepestIdx, target, 0, hold.Emptied(), -1);
    } else {
      NothingTakenFromTop(s, h, deepestIdx, target, hold);
    }
  }

  lemma FirstStepShape<V>(s: seq<Block<V>>, s': seq<Block<V>>, h: nat, path: Position, deepestIdx: seq<int>,
                          target: seq<int>, hold: Block<V>)
    requires Executable(s, h, path, deepestIdx, target)
    requires target[0] != -1 ==> InLevel(deepestIdx[0], 0)
    requires if target[0] != -1 then hold == s[deepestIdx[0]] && s' == s[deepestIdx[0] := s[deepestIdx[0]].Emptied()]
             else hold.IsEmpty() && s' == s
    ensures OnTheWay(s, h, path, target, 1, hold, target[0])
    ensures |s'| == |s| && forall k :: LevelStart(1) <= k < |s'| ==> s'[k] == s[k]
  {
    assert target[0] != -1 ==> Arrow(s, h, path, 0, target[0], deepestIdx, target);
  }

  lemma AllDelivered<V>(s: seq<Block<V>>, s': seq<Block<V>>, h: nat, deepestIdx: seq<int>, target: seq<int>,
                        hold: Block<V>)
    requires h <= 64 && |s| == |s'| == S + h * Z && |deepestIdx| == |target| == 64
    requires AllBalanced(s, s', h, deepestIdx, target, h, hold, -1)
    ensures Moved(s, s', h, deepestIdx, target)
  {
    hide Below, Crossing;
    forall l | 0 <= l < h ensures Below(s', l) == Below(s, l) + Carried(s, deepestIdx, target, l, l) {
      assert Balanced(s, s', deepestIdx, target, h, hold, -1, l);
      assert Min(l, h) == l == Min(l, l);
    }
  }

  lemma LastStep<V>(s: seq<Block<V>>, now: seq<Block<V>>, s': seq<Block<V>>, h: nat, path: Position,
                    deepestIdx: seq<int>, target: seq<int>, i: nat, hold: Block<V>, dst: int, e: nat)
    requires i + 1 == h && Carrying(s, now, h, path, deepestIdx, target, i, hold, dst) && target[i] == -1
    requires if dst == i then InLevel(e, i) && now[e].IsEmpty() && s' == now[e := hold] else s' == now
    ensures Moved(s, s', h, deepestIdx, target)
  {
    if dst == i {
      assert forall k :: 0 <= k < |now| ==> Interchangeable(s'[k], now[e := hold][k]);
      PlaceStep(s, now, s', h, path, deepestIdx, target, i, hold, hold.Emptied(), e);
      AllDelivered(s, s', h, deepestIdx, target, hold.Emptied());
    } else {
      SkipStep(s, now, h, path, deepestIdx, target, i, hold, dst);
      AllDelivered(s, s', h, deepestIdx, target, hold);
    }
  }

  /** The sizes that a plan has, and the block that leaves level 0. */
  lemma PlanShape<V>(s: seq<Block<V>>, h: nat, path: Position, deepestIdx: seq<int>, target: seq<int>)
    requires Executable(s, h, path, deepestIdx, target)
    ensures 2 <= h <= 64 && |s| == S + h * Z && |deepestIdx| == |target| == 64
    ensures target[0] != -1 ==> 0 < target[0] && InLevel(deepestIdx[0], 0)
    ensures ArrowsDisjoint(h, 0, target)
  {
    assert target[0] != -1 ==> Arrow(s, h, path, 0, target[0], deepestIdx, target);
  }

  lemma CarryingSize<V>(s: seq<Block<V>>, now: seq<Block<V>>, h: nat, path: Position, deepestIdx: seq<int>,
                        target: seq<int>, i: nat, hold: Block<V>, dst: int)
    requires Carrying(s, now, h, path, deepestIdx, target, i, hold, dst)
    ensures |now| == |s|
  {
    hide Executable, OnTheWay, AllBalanced;
  }

  /** The last level of a path never gives up a block. */
  lemma LastLevelIsNoSource<V>(s: seq<Block<V>>, h: nat, path: Position, deepestIdx: seq<int>, target: seq<int>)
    requires Executable(s, h, path, deepestIdx, target)
    ensures target[h - 1] == -1
  {
    assert target[h - 1] != -1 ==> Arrow(s, h, path, h - 1, target[h - 1], deepestIdx, target);
  }

  lemma DestinationIsFree<V>(s: seq<Block<V>>, now: seq<Block<V>>, h: nat, path: Position, deepestIdx: seq<int>,
                             target: seq<int>, i: nat, hold: Block<V>, dst: int)
    requires Carrying(s, now, h, path, deepestIdx, target, i, hold, dst) && i < h && target[i] == -1
    ensures dst == i ==> SomeEmpty(now, LevelStart(i), LevelStart(i + 1))
  {
    hide AllBalanced;
    if dst == i {
      var k :| LevelStart(i) <= k < LevelStart(i + 1) && s[k].IsEmpty();
      assert now[k] == s[k];
    }
  }

  method PassLevel<V>(ghost s: seq<Block<V>>, now: seq<Block<V>>, ghost h: nat, ghost path: Position,
                      deepestIdx: seq<int>, target: seq<int>, i: nat, hold: Block<V>, dst: int)
    returns (now': seq<Block<V>>, hold': Block<V>, dst': int)
    requires Carrying(s, now, h, path, deepestIdx, target, i, hold, dst) && i < h
    requires Settling(s, now, h, deepestIdx, target, i, hold, dst)
    ensures Carrying(s, now', h, path, deepestIdx, target, i + 1, hold', dst')
    ensures Settling(s, now', h, deepestIdx, target, i + 1, hold', dst')
  {
    hide Settling;
    var hasTarget := target[i] != -1;
    var placeDummy := i == dst && !hasTarget;
    ghost var e: nat;
    assert hasTarget ==> Arrow(s, h, path, i, target[i], deepestIdx, target);
    now', hold', e := SweepLevel(now, LevelStart(i), LevelStart(i + 1), deepestIdx[i], hasTarget, placeDummy, hold);
    if hasTarget {
      TakeStep(s, now, h, path, deepestIdx, target, i, hold, dst);
      SettleTake(s, now, h, deepestIdx, target, i, hold, dst);
    } else if placeDummy {
      PlaceStep(s, now, now', h, path, deepestIdx, target, i, hold, hold', e);
      SettlePlace(s, now, now', h, deepestIdx, target, i, hold, hold', e);
    } else {
      SkipStep(s, now, h, path, deepestIdx, target, i, hold, dst);
      SettleSkip(s, now, h, deepestIdx, target, i, hold, dst);
    }
    dst' := if hasTarget || placeDummy then target[i] else dst;
  }

  method MoveBlocks<V>(s: seq<Block<V>>, h: nat, ghost path: Position, deepestIdx: seq<int>, target: seq<int>,
                       empty: Block<V>)
    returns (s': seq<Block<V>>)
    requires Executable(s, h, path, deepestIdx, target) && empty.IsEmpty()
    ensures |s'| == |s| && Moved(s, s', h, deepestIdx, target) && Settled(s, s', deepestIdx, target, h)
  {
    hide Carrying, Settling, Settled, Executable, Moved, SomeEmpty, ArrowsDisjoint;
    PlanShape(s, h, path, deepestIdx, target);
    var hold;
    s', hold := TakeFromTop(s, deepestIdx[0], target[0] != -1, empty);
    var dst := target[0];
    FirstStep(s, s', h, path, deepestIdx, target, hold);
    SettleTop(s, s', h, deepestIdx, target, hold);

    for i := 1 to h - 1
      invariant Carrying(s, s', h, path, deepestIdx, target, i, hold, dst)
      invariant Settling(s, s', h, deepestIdx, target, i, hold, dst)
    {
      s', hold, dst := PassLevel(s, s', h, path, deepestIdx, target, i, hold, dst);
    }
    var last := h - 1;
    LastLevelIsNoSource(s, h, path, deepestIdx, target);
    ghost var e: nat;
    ghost var before := s';
    CarryingSize(s, s', h, path, deepestIdx, target, last, hold, dst);
    DestinationIsFree(s, s', h, path, deepestIdx, target, last, hold, dst);
    s', e := FillFirstFree(s', LevelStart(last), LevelStart(last + 1), dst == last, hold);
    LastStep(s, before, s', h, path, deepestIdx, target, last, hold, dst, e);
    SettleLast(s, before, s', h, deepestIdx, target, hold, dst, e);
  }

  // ---------------------------------------------------------------- the plan moves the blocks it should

  /** From a level that an arrow passes into, the arrows lead to a free slot, through levels that are reached. */
  lemma {:induction false} ArrowsReach<V>(s: seq<Block<V>>, h: nat, path: Position, deepestIdx: seq<int>,
                                          target: seq<int>, src: nat) returns (d: nat)
    requires Executable(s, h, path, deepestIdx, target) && src < h && target[src] != -1
    ensures target[src] <= d < h && FreeAfter(s, h, path, src + 1, d)
    decreases h - src
  {
    var t := target[src];
    assert Arrow(s, h, path, src, t, deepestIdx, target);
    forall j: nat | src < j <= t ensures Reached(s, path, j) {
      assert Depth(s[deepestIdx[src]], path) >= j;
    }
    d := t;
    if target[t] != -1 { d := ArrowsReach(s, h, path, deepestIdx, target, t); }
  }

  lemma {:induction false} CrossingIsCrossed<V>(s: seq<Block<V>>, h: nat, path: Position, deepestIdx: seq<int>,
                                                target: seq<int>, l: nat)
    requires Executable(s, h, path, deepestIdx, target) && l < h && Crossing(target, l, l) != -1
    ensures Crosses(s, h, path, l)
  {
    var d := ArrowsReach(s, h, path, deepestIdx, target, Crossing(target, l, l));
    assert FreeAfter(s, h, path, l, d);
  }

  /** Every level on the way to a free slot is passed into when all of them are reached. */
  lemma {:induction false} ReachedIsServed<V>(s: seq<Block<V>>, h: nat, path: Position, deepest: seq<int>,
                                              deepestIdx: seq<int>, hasEmpty: seq<bool>, target: seq<int>, l: nat,
                                              d: nat)
    requires 2 <= h <= 64 && |s| == S + h * Z && 1 <= l <= d < h && FreeAfter(s, h, path, l, d)
    requires DeepestInfo(s, h, path, deepest, deepestIdx, hasEmpty) && Plan(h, deepest, hasEmpty, target)
    ensures Served(l, 0, target)
    decreases d - l
  {
    hide ArrowsLand, ArrowsDisjoint, SomeEmpty;
    assert Reached(s, path, l);
    assert DeepestAt(s, path, l, deepest[l], deepestIdx);
    MaxDepthIsMax(s, path, 0, LevelStart(l));
    if l < d {
      ReachedIsServed(s, h, path, deepest, deepestIdx, hasEmpty, target, l + 1, d);
      var i :| 0 <= i < l + 1 && target[i] >= l + 1;
      assert i < l ==> Served(l, 0, target);
    }
    assert Served(l, 0, target) || CanTake(l, deepest, hasEmpty, target);
  }

  /** An arrow passes into exactly the levels that are to be crossed into, and it carries the block that is to cross. */
  lemma {:induction false} CrossingIffCrosses<V>(s: seq<Block<V>>, h: nat, path: Position, deepest: seq<int>,
                                                 deepestIdx: seq<int>, hasEmpty: seq<bool>, target: seq<int>, l: nat)
    requires |deepestIdx| == |target| == 64
    requires 2 <= h <= 64 && |s| == S + h * Z && 1 <= l < h
    requires DeepestInfo(s, h, path, deepest, deepestIdx, hasEmpty) && Plan(h, deepest, hasEmpty, target)
    ensures Crossing(target, l, l) != -1 <==> Crosses(s, h, path, l)
    ensures Crossing(target, l, l) != -1 ==> deepestIdx[Crossing(target, l, l)] == Mover(s, path, l)
  {
    hide DeepestInfo, Plan, FreeAfter, Mover;
    if Crosses(s, h, path, l) {
      var d: nat :| l <= d < h && FreeAfter(s, h, path, l, d);
      ReachedIsServed(s, h, path, deepest, deepestIdx, hasEmpty, target, l, d);
    }
    if Crossing(target, l, l) != -1 {
      PlansAreExecutable(s, h, path, deepest, deepestIdx, hasEmpty, target);
      CrossingIsCrossed(s, h, path, deepestIdx, target, l);
      CarriesMover(s, h, path, deepest, deepestIdx, hasEmpty, target, l);
    }
  }

  lemma {:induction false} CarriesMover<V>(s: seq<Block<V>>, h: nat, path: Position, deepest: seq<int>,
                                           deepestIdx: seq<int>, hasEmpty: seq<bool>, target: seq<int>, l: nat)
    requires |deepestIdx| == |target| == 64
    requires 2 <= h <= 64 && |s| == S + h * Z && 1 <= l < h
    requires DeepestInfo(s, h, path, deepest, deepestIdx, hasEmpty) && Plan(h, deepest, hasEmpty, target)
    requires Crossing(target, l, l) != -1
    ensures deepestIdx[Crossing(target, l, l)] == Mover(s, path, l)
  {
    var src := Crossing(target, l, l);
    var t := target[src];
    assert DeepestAt(s, path, t, deepest[t], deepestIdx);
    FirstDeepestIs(s, path, LevelStart(t));
    FirstDeepestIsOnly(s, path, LevelStart(l), deepestIdx[src]);
  }

  /** Which arrow passes into the next level: one from this level when there is one, and otherwise the one that passes
      into this level and does not end there. */
  lemma {:induction false} CrossingNext(h: nat, target: seq<int>, l: nat)
    requires l < h <= 64 && |target| == 64 && ArrowsDisjoint(h, 0, target) && (target[l] == -1 || l < target[l])
    ensures var src, next := Crossing(target, l, l), Crossing(target, l + 1, l + 1);
            && (next == l <==> target[l] != -1)
            && (src != -1 && target[src] == l <==> src != -1 && (next == -1 || next == l))
  {
    var src, n := Crossing(target, l, l), l + 1;
    var next := Crossing(target, n, n);
    if target[l] == -1 { assert next == Crossing(target, n, l); }
    if src != -1 && target[l] != -1 { assert target[src] <= l; }
  }

  /** An arrow passes into a level from the one it starts at. */
  lemma CrossingStarts<V>(s: seq<Block<V>>, h: nat, path: Position, deepestIdx: seq<int>, target: seq<int>, l: nat)
    requires Executable(s, h, path, deepestIdx, target) && l < h
    ensures target[l] == -1 || l < target[l] < h
    ensures var next := Crossing(target, l + 1, l + 1);
            next != -1 ==> l + 1 < h && (deepestIdx[next] >= LevelStart(l) <==> next == l)
  {
    var n := l + 1;
    var next := Crossing(target, n, n);
    assert target[l] != -1 ==> Arrow(s, h, path, l, target[l], deepestIdx, target);
    if next != -1 { assert Arrow(s, h, path, next, target[next], deepestIdx, target); }
  }

  /** The levels that start an arrow, and those where one ends, are the ones that are to give up or take a block. */
  lemma {:induction false} LevelsAsPlanned<V>(s: seq<Block<V>>, h: nat, path: Position, deepest: seq<int>,
                                              deepestIdx: seq<int>, hasEmpty: seq<bool>, target: seq<int>, l: nat)
    requires |deepestIdx| == |target| == 64
    requires 2 <= h <= 64 && |s| == S + h * Z && l < h
    requires DeepestInfo(s, h, path, deepest, deepestIdx, hasEmpty) && Plan(h, deepest, hasEmpty, target)
    ensures GivesUp(s, h, path, l) <==> target[l] != -1
    ensures target[l] != -1 ==> l + 1 < h && deepestIdx[l] == Mover(s, path, l + 1)
    ensures var src := Crossing(target, l, l);
            Takes(s, h, path, l) <==> src != -1 && target[src] == l
  {
    hide DeepestInfo, Plan, Crosses, Mover, Executable, Crossing, ArrowsDisjoint;
    PlansAreExecutable(s, h, path, deepest, deepestIdx, hasEmpty, target);
    PlanShape(s, h, path, deepestIdx, target);
    CrossingStarts(s, h, path, deepestIdx, target, l);
    CrossingNext(h, target, l);
    var n := l + 1;
    if l > 0 { CrossingIffCrosses(s, h, path, deepest, deepestIdx, hasEmpty, target, l); }
    if n < h { CrossingIffCrosses(s, h, path, deepest, deepestIdx, hasEmpty, target, n); }
  }

  lemma {:induction false} PlannedIsAfter<V>(s: seq<Block<V>>, h: nat, path: Position, deepest: seq<int>,
                                             deepestIdx: seq<int>, hasEmpty: seq<bool>, target: seq<int>, k: nat)
    requires |deepestIdx| == |target| == 64
    requires 2 <= h <= 64 && k < |s| == S + h * Z
    requires DeepestInfo(s, h, path, deepest, deepestIdx, hasEmpty) && Plan(h, deepest, hasEmpty, target)
    ensures LevelOf(k) < 64 && PlannedSlot(s, deepestIdx, target, k) == AfterEviction(s, h, path, k)
  {
    hide DeepestInfo, Plan, GivesUp, Takes, Mover, IsFirstFree, Crosses;
    var l := LevelOf(k);
    LevelsAsPlanned(s, h, path, deepest, deepestIdx, hasEmpty, target, l);
    if l > 0 { CrossingIffCrosses(s, h, path, deepest, deepestIdx, hasEmpty, target, l); }
  }

  /** The chain of arrows starting above a level ends in a fillable level at least as deep. */
  lemma {:induction false} ChainEndsFillable<V>(s: seq<Block<V>>, h: nat, path: Position, deepest: seq<int>,
                                                deepestIdx: seq<int>,
                                                hasEmpty: seq<bool>, target: seq<int>, i: nat)
    requires 2 <= h <= 64 && |s| == S + h * Z
    requires DeepestInfo(s, h, path, deepest, deepestIdx, hasEmpty) && Plan(h, deepest, hasEmpty, target)
    requires i < h && target[i] != -1
    ensures target[i] <= DeepestFillable(s, path, h)
    decreases h - i
  {
    var t := target[i];
    if target[t] != -1 {
      ChainEndsFillable(s, h, path, deepest, deepestIdx, hasEmpty, target, t);
    } else {
      assert DeepestAt(s, path, t, deepest[t], deepestIdx);
      assert Fillable(s, path, t);
    }
  }

  lemma BelowMember<V>(s: seq<Block<V>>, l: nat, b: Block<V>) returns (k: nat)
    requires LevelStart(l) <= |s| && b in Below(s, l)
    ensures LevelStart(l) <= k < |s| && s[k] == b && !b.IsEmpty()
  {
    RealBlocksMember(s[LevelStart(l)..], b);
    k :| LevelStart(l) <= k < |s| && s[k] == b;
  }

  lemma MovedStaysLegal<V>(s: seq<Block<V>>, s': seq<Block<V>>, h: nat, path: Position, deepestIdx: seq<int>,
                           target: seq<int>)
    requires Executable(s, h, path, deepestIdx, target) && |s'| == |s|
    requires Moved(s, s', h, deepestIdx, target) && Legal(s, path)
    ensures Legal(s', path)
  {
    forall k | 0 <= k < |s'| && !s'[k].IsEmpty() ensures Depth(s'[k], path) >= LevelOf(k) {
      var l, b := LevelOf(k), s'[k];
      assert b == s'[LevelStart(l)..][k - LevelStart(l)];
      RealBlocksMember(s'[LevelStart(l)..], b);
      if b in Below(s, l) {
        var j := BelowMember(s, l, b);
      } else {
        var src := Crossing(target, l, l);
        assert Arrow(s, h, path, src, target[src], deepestIdx, target);
      }
    }
  }

  lemma {:induction false} FillableGains<V>(s: seq<Block<V>>, s': seq<Block<V>>, h: nat, path: Position,
                                            deepest: seq<int>,
                                            deepestIdx: seq<int>, hasEmpty: seq<bool>, target: seq<int>, d: nat)
    requires 2 <= h <= 64 && |s| == S + h * Z == |s'|
    requires DeepestInfo(s, h, path, deepest, deepestIdx, hasEmpty) && Plan(h, deepest, hasEmpty, target)
    requires Executable(s, h, path, deepestIdx, target) && Moved(s, s', h, deepestIdx, target)
    requires d == DeepestFillable(s, path, h) > 0
    ensures |Below(s', d)| == |Below(s, d)| + 1
  {
    hide Below, DeepestFillable, ArrowsLand, ArrowsDisjoint;
    assert Fillable(s, path, d);
    assert DeepestAt(s, path, d, deepest[d], deepestIdx);
    assert CanTake(d, deepest, hasEmpty, target);
    assert Served(d, 0, target);
    var src := Crossing(target, d, d);
    assert Arrow(s, h, path, src, target[src], deepestIdx, target);
    assert Carried(s, deepestIdx, target, d, d) == multiset{s[deepestIdx[src]]};
  }

  lemma {:induction false} DeeperStays<V>(s: seq<Block<V>>, s': seq<Block<V>>, h: nat, path: Position,
                                          deepest: seq<int>,
                                          deepestIdx: seq<int>, hasEmpty: seq<bool>, target: seq<int>, l: nat)
    requires 2 <= h <= 64 && |s| == S + h * Z == |s'|
    requires DeepestInfo(s, h, path, deepest, deepestIdx, hasEmpty) && Plan(h, deepest, hasEmpty, target)
    requires Executable(s, h, path, deepestIdx, target) && Moved(s, s', h, deepestIdx, target)
    requires DeepestFillable(s, path, h) < l < h
    ensures Below(s', l) == Below(s, l)
  {
    hide Below, DeepestFillable, ArrowsLand, ArrowsDisjoint, DeepestInfo;
    var src := Crossing(target, l, l);
    if src != -1 {
      ChainEndsFillable(s, h, path, deepest, deepestIdx, hasEmpty, target, src);
    }
  }

  lemma {:induction false} MovedFillsDeepest<V>(s: seq<Block<V>>, s': seq<Block<V>>, h: nat, path: Position,
                                                deepest: seq<int>,
                                                deepestIdx: seq<int>, hasEmpty: seq<bool>, target: seq<int>)
    requires 2 <= h <= 64 && |s| == S + h * Z == |s'|
    requires DeepestInfo(s, h, path, deepest, deepestIdx, hasEmpty) && Plan(h, deepest, hasEmpty, target)
    requires Executable(s, h, path, deepestIdx, target) && Moved(s, s', h, deepestIdx, target)
    ensures FillsDeepest(s, s', h, DeepestFillable(s, path, h))
  {
    hide Below, DeepestFillable, DeepestInfo, Plan, Executable, Moved;
    var d := DeepestFillable(s, path, h);
    if d > 0 { FillableGains(s, s', h, path, deepest, deepestIdx, hasEmpty, target, d); }
    forall l: nat | d < l < h ensures Below(s', l) == Below(s, l) {
      DeeperStays(s, s', h, path, deepest, deepestIdx, hasEmpty, target, l);
    }
  }

  lemma {:induction false} MovedKeepsBlocks<V>(s: seq<Block<V>>, s': seq<Block<V>>, h: nat, deepestIdx: seq<int>,
                                               target: seq<int>)
    requires 1 <= h <= 64 && |s| == S + h * Z == |s'| && |deepestIdx| == |target| == 64
    requires Moved(s, s', h, deepestIdx, target)
    ensures RealBlocks(s') == RealBlocks(s)
    ensures forall l :: 0 <= l < h ==> Below(s, l) <= Below(s', l) && |Below(s', l)| <= |Below(s, l)| + 1
  {
    assert s[0..] == s && s'[0..] == s';
    assert Below(s', 0) == Below(s, 0) + Carried(s, deepestIdx, target, 0, 0);
    forall l | 0 <= l < h ensures Below(s, l) <= Below(s', l) && |Below(s', l)| <= |Below(s, l)| + 1 {
      assert Below(s', l) == Below(s, l) + Carried(s, deepestIdx, target, l, l);
    }
  }

  lemma MovedIsEntering<V>(s: seq<Block<V>>, s': seq<Block<V>>, h: nat, path: Position, deepest: seq<int>,
                           deepestIdx: seq<int>, hasEmpty: seq<bool>, target: seq<int>)
    requires |deepestIdx| == |target| == 64
    requires 2 <= h <= 64 && |s| == S + h * Z == |s'|
    requires DeepestInfo(s, h, path, deepest, deepestIdx, hasEmpty) && Plan(h, deepest, hasEmpty, target)
    requires Moved(s, s', h, deepestIdx, target)
    ensures forall l :: 1 <= l < h ==> Below(s', l) == Below(s, l) + Entering(s, h, path, l)
  {
    hide DeepestInfo, Plan, Below, Crosses, Mover;
    forall l | 1 <= l < h ensures Below(s', l) == Below(s, l) + Entering(s, h, path, l) {
      CrossingIffCrosses(s, h, path, deepest, deepestIdx, hasEmpty, target, l);
      assert Below(s', l) == Below(s, l) + Carried(s, deepestIdx, target, l, l);
    }
  }

  lemma SettledIsAfter<V>(s: seq<Block<V>>, s': seq<Block<V>>, h: nat, path: Position, deepest: seq<int>,
                          deepestIdx: seq<int>, hasEmpty: seq<bool>, target: seq<int>)
    requires |deepestIdx| == |target| == 64
    requires 2 <= h <= 64 && |s| == S + h * Z == |s'|
    requires DeepestInfo(s, h, path, deepest, deepestIdx, hasEmpty) && Plan(h, deepest, hasEmpty, target)
    requires Settled(s, s', deepestIdx, target, h)
    ensures forall k :: 0 <= k < |s| ==> Interchangeable(s'[k], AfterEviction(s, h, path, k))
  {
    hide DeepestInfo, Plan, AfterEviction, PlannedSlot, Interchangeable;
    forall k | 0 <= k < |s| ensures Interchangeable(s'[k], AfterEviction(s, h, path, k)) {
      PlannedIsAfter(s, h, path, deepest, deepestIdx, hasEmpty, target, k);
    }
  }

  /** Carrying out a plan made by the first two passes is a correct eviction. */
  lemma PlansEvict<V>(s: seq<Block<V>>, s': seq<Block<V>>, h: nat, path: Position, deepest: seq<int>,
                      deepestIdx: seq<int>, hasEmpty: seq<bool>, target: seq<int>)
    requires 2 <= h <= 64 && |s| == S + h * Z == |s'|
    requires DeepestInfo(s, h, path, deepest, deepestIdx, hasEmpty) && Plan(h, deepest, hasEmpty, target)
    requires Executable(s, h, path, deepestIdx, target) && Moved(s, s', h, deepestIdx, target)
    requires Settled(s, s', deepestIdx, target, h)
    ensures Evicted(s, s', h, path)
  {
    hide DeepestInfo, Plan, Executable, Moved, Settled, Below, Entering, AfterEviction, Legal, FillsDeepest,
         DeepestFillable;
    PlanShape(s, h, path, deepestIdx, target);
    MovedKeepsBlocks(s, s', h, deepestIdx, target);
    MovedFillsDeepest(s, s', h, path, deepest, deepestIdx, hasEmpty, target);
    MovedIsEntering(s, s', h, path, deepest, deepestIdx, hasEmpty, target);
    SettledIsAfter(s, s', h, path, deepest, deepestIdx, hasEmpty, target);
    if Legal(s, path) {
      MovedStaysLegal(s, s', h, path, deepestIdx, target);
    }
  }

  /** Alg. 4: EvictOnceFast. */
  method EvictOnceFast<V>(s: seq<Block<V>>, h: nat, path: Position, empty: Block<V>) returns (s': seq<Block<V>>)
    requires 2 <= h <= 64 && |s| == S + h * Z && empty.IsEmpty()
    ensures |s'| == |s| && Evicted(s, s', h, path)
  {
    var deepest, deepestIdx, hasEmpty := PrepareDeepest(s, h, path);
    forall i | 1 <= i < h ensures deepest[i] == -1 || 0 <= deepest[i] < i {
      assert DeepestAt(s, path, i, deepest[i], deepestIdx);
    }
    var target := PrepareTarget(h, deepest, hasEmpty);
    PlansAreExecutable(s, h, path, deepest, deepestIdx, hasEmpty, target);
    s' := MoveBlocks(s, h, path, deepestIdx, target, empty);
    PlansEvict(s, s', h, path, deepest, deepestIdx, hasEmpty, target);
  }
}
