/** Batches of keys are routed to the partitions in equal shares, and the answers are routed back. */
module BatchPipeline {
  import opened Bits
  import opened Sequences
  import opened Networks
  import opened Options
  import opened CompactedRest
  import opened Compaction
  import opened CompactInPlace
  import opened BatchRouting
  import opened BatchSteps
  import opened Slotwise

  /** Number of partitions. */
  const P: nat := 15
  const SUBTASK_SIZE: nat := 32

  /** What a worker answers: the values for a stretch of its share. */
  datatype Reply<V> = Blocks(pid: nat, offset: nat, values: seq<Option<V>>)

  // ---------------------------------------------------------------- routing

  /** A batch on its way: `keyinfo` holds the items of the batch first, then padding. */
  ghost predicate IsBatch<K(!new), V>(items: seq<Item<K, V>>, n: nat, part: K -> nat) {
    && n <= |items|
    && (forall i :: 0 <= i < n ==> items[i].partition == part(items[i].key) < P)
    && (forall i :: n <= i < |items| ==> items[i].partition == P)
  }

  lemma RearrangedIsArranged<K(!new), V>(items: seq<Item<K, V>>, s: seq<Item<K, V>>, im: seq<nat>,
                                         le: (K, K) -> bool, part: K -> nat)
    requires Rearranged(items, s, im) && Sorted(s, ItemLe(le))
    requires forall i :: 0 <= i < |items| ==> items[i].partition == part(items[i].key) < P
    ensures Arranged(s, le, part) && forall r :: 0 <= r < |s| ==> s[r].partition < P
  {
    forall r | 0 <= r < |s| ensures s[r].partition == part(s[r].key) < P { assert s[r] == items[im[r]]; }
  }

  /** What compaction leaves: the first items in front, and no real item behind them if repeated ones are marked. */
  lemma {:induction false} CompactedBatch<K(!new), V(!new)>(s: seq<Item<K, V>>, p: seq<nat>, mark: bool)
    requires CountsNew(p, s) && forall r :: 0 <= r < |s| ==> s[r].partition < P
    ensures var u := MarkedItems(s, |s|, P, mark);
            && Firsts(s, |s|) <= Compact(u, p)
            && (mark ==> forall r :: |Firsts(s, |s|)| <= r < |s| ==> Compact(u, p)[r].partition == P)
  {
    hide Compact, Firsts, StablyCompacted;
    var u := MarkedItems(s, |s|, P, mark);
    FirstsComeFirst(p, s, u, |s|);
    if mark {
      var isDummy := (x: Item<K, V>) => x.partition == P;
      forall i: nat | i < |u| ensures Marked(p, i) <==> !isDummy(u[i]) {
        assert Marked(p, i) <==> IsNew(s, i);
      }
      CompactIsStable(p, u, isDummy);
      DummiesBehind(u, Compact(u, p), isDummy, Rank(p, |u|));
    }
  }

  lemma DummiesBehind<T>(u: seq<T>, r: seq<T>, isDummy: T -> bool, count: nat)
    requires StablyCompacted(u, r, isDummy, count)
    ensures forall i :: count <= i < |r| ==> isDummy(r[i])
  {
  }

  lemma {:induction false} FirstsBelow<K, V>(s: seq<Item<K, V>>, n: nat)
    requires n <= |s| && forall r :: 0 <= r < |s| ==> s[r].partition < P
    ensures forall r :: 0 <= r < |Firsts(s, n)| ==> Firsts(s, n)[r].partition < P
  {
    hide Firsts;
    forall r | 0 <= r < |Firsts(s, n)| ensures Firsts(s, n)[r].partition < P { var i := FirstsFrom(s, n, r); }
  }

  ghost predicate AllWithin(load: seq<nat>, b: nat) {
    forall j :: 0 <= j < |load| ==> load[j] <= b
  }

  lemma {:induction false} LoadsChecked<K(!new), V>(s: seq<Item<K, V>>, load: seq<nat>, b: nat, ok: bool)
    requires |load| == P && (forall j: nat :: j < P ==> load[j] == Load(s, |s|, j)) && (ok <==> AllWithin(load, b))
    ensures ok <==> forall j: nat :: j < P ==> Load(s, |s|, j) <= b
  {
    hide Load;
    if ok {
      forall j: nat | j < P ensures Load(s, |s|, j) <= b { assert load[j] == Load(s, |s|, j); }
    } else {
      var j: nat :| j < |load| && load[j] > b;
      assert load[j] == Load(s, |s|, j);
    }
  }

  /** All loads are within the share. */
  method CheckLoads(load: array<nat>, b: nat) returns (ok: bool)
    ensures ok <==> AllWithin(load[..], b)
  {
    ok := true;
    for j := 0 to load.Length
      invariant ok <==> forall k :: 0 <= k < j ==> load[k] <= b
    {
      ok := ok && load[j] <= b;
    }
  }

  /** How a batch is routed: the two prefix sums, the loads and where they begin, and the width of a share. */
  datatype Plan = Plan(p1: seq<nat>, p2: seq<nat>, load: seq<nat>, start: seq<nat>, b: nat)

  /** What a routed batch looks like; `s` is the sorted batch. */
  ghost predicate BatchRouted<K(!new), V>(s: seq<Item<K, V>>, routed: seq<Item<K, V>>, plan: Plan) {
    && |plan.load| == P && Shares(plan.p2, plan.load, plan.start, P, plan.b)
    && CountsNew(plan.p1, s) && |s| <= |routed| == P * plan.b
    && Sums(plan.load, plan.start, P) && plan.start[P] == |Firsts(s, |s|)|
    && (forall j: nat :: j < P ==> plan.load[j] == Load(s, |s|, j) && plan.load[j] <= plan.b)
    && Routed(Firsts(s, |s|), routed, plan.load, plan.start, plan.b)
  }

  /** The prefix sums fit the batch. */
  lemma PlanFits<K(!new), V>(s: seq<Item<K, V>>, routed: seq<Item<K, V>>, plan: Plan)
    requires BatchRouted(s, routed, plan)
    ensures plan.b > 0 && |plan.p1| == |s| + 1 && Steps(plan.p1) && |plan.p2| == |routed| + 1 && Steps(plan.p2)
    ensures |s| <= |routed| == P * plan.b
  {
    hide Firsts, Load, Routed, Sums;
    SharesAreSteps(plan.p2, plan.load, plan.start, P, plan.b);
  }

  /** The way back takes the routed items to where they came from. */
  ghost predicate ComesBack<K(!new), V>(s: seq<Item<K, V>>, routed: seq<Item<K, V>>, plan: Plan) {
    BatchRouted(s, routed, plan) && (PlanFits(s, routed, plan); WayBack(routed, plan.p1, plan.p2) == s)
  }

  /** Past its load, a share holds items of no partition. */
  ghost predicate Padded<K, V>(routed: seq<Item<K, V>>, load: seq<nat>, b: nat) {
    |load| == P && forall j: nat, i: nat :: j < P && load[j] <= i < b ==> PaddingSlot(routed, b, j, i)
  }

  ghost predicate PaddingSlot<K, V>(routed: seq<Item<K, V>>, b: nat, j: nat, i: nat) {
    j * b + i < |routed| && routed[j * b + i].partition == P
  }

  lemma {:induction false} RoutingWorks<K(!new), V(!new)>(s: seq<Item<K, V>>, e: seq<Item<K, V>>, plan: Plan,
                                                          mark: bool)
    requires CountsNew(plan.p1, s) && (forall r :: 0 <= r < |s| ==> s[r].partition < P)
    requires |plan.load| == P && forall j: nat :: j < P ==> plan.load[j] == Load(s, |s|, j) && plan.load[j] <= plan.b
    requires Shares(plan.p2, plan.load, plan.start, P, plan.b) && |e| == P * plan.b && |s| <= |e|
    requires e[..|s|] == Compact(MarkedItems(s, |s|, P, mark), plan.p1)
    requires forall r :: |s| <= r < |e| ==> e[r].partition == P
    ensures Steps(plan.p2) && |plan.p2| == |e| + 1
    ensures mark ==> BatchRouted(s, Distribute(e, plan.p2), plan) && Padded(Distribute(e, plan.p2), plan.load, plan.b)
    ensures !mark ==> ComesBack(s, Distribute(e, plan.p2), plan)
  {
    hide Compact, Distribute, Firsts, Shares, MarkedItems, Load, Routed, CountsNew, Steps, Sums, Padded;
    var p2, load, start, b := plan.p2, plan.load, plan.start, plan.b;
    SharesAreSteps(p2, load, start, P, b);
    SharesLength(p2, load, start, P, b);
    SharesSums(p2, load, start, b);
    CompactedBatch(s, plan.p1, mark);
    TotalStart(s, load, start, P);
    FirstsBelow(s, |s|);
    var d := Firsts(s, |s|);
    assert d <= e;
    DistributeRoutes(e, d, p2, load, start, b);
    if mark {
      OthersArePadding(s, e, d);
      PaddingFollows(e, d, p2, load, start, b);
    } else {
      NothingMarked(s);
      CountsNewSteps(plan.p1, s);
      CompactUndoesDistribute(e, p2);
      DistributeUndoesCompact(s, plan.p1);
    }
  }

  lemma NothingMarked<K, V>(s: seq<Item<K, V>>)
    ensures MarkedItems(s, |s|, P, false) == s
  {
  }

  lemma OthersArePadding<K, V>(s: seq<Item<K, V>>, e: seq<Item<K, V>>, d: seq<Item<K, V>>)
    requires |d| <= |s| <= |e| && (forall r :: |d| <= r < |s| ==> e[..|s|][r].partition == P)
    requires forall r :: |s| <= r < |e| ==> e[r].partition == P
    ensures forall r :: |d| <= r < |e| ==> e[r].partition == P
  {
    forall r | |d| <= r < |e| ensures e[r].partition == P {
      if r < |s| { assert e[r] == e[..|s|][r]; }
    }
  }

  lemma {:induction false} PaddingFollows<K(!new), V(!new)>(e: seq<Item<K, V>>, d: seq<Item<K, V>>, p2: seq<nat>,
                                                            load: seq<nat>, start: seq<nat>, b: nat)
    requires |load| == P && Shares(p2, load, start, P, b) && Steps(p2) && |e| == P * b && |p2| == |e| + 1
    requires |start| == P + 1 && d <= e && |d| == start[P] && load[P - 1] <= b
    requires forall r :: 0 <= r < |d| ==> d[r].partition < P
    requires forall r :: |d| <= r < |e| ==> e[r].partition == P
    ensures Padded(Distribute(e, p2), load, b)
  {
    hide Distribute, Shares, Steps;
    forall j: nat, i: nat | j < P && load[j] <= i < b ensures PaddingSlot(Distribute(e, p2), b, j, i) {
      RestIsPadding(e, d, p2, load, start, b, j, i);
    }
  }

  /** Sorts the batch, finds repeated keys and loads, and routes the first items to their shares; with `mark`, the
      repeated items lose their partition. `ok` is false when a load exceeds the share. */
  method Route<K(==, !new), V(!new)>(keyinfo: array<Item<K, V>>, n: nat, b: nat, mark: bool, le: (K, K) -> bool,
                                     ghost part: K -> nat)
    returns (indexMap: array<nat>, prefix1: array<nat>, prefix2: array<nat>, total: nat, ok: bool,
             ghost s: seq<Item<K, V>>, ghost plan: Plan)
    requires TotalOrder(le) && 0 < n <= keyinfo.Length == P * b && P * b < 0x8000_0000_0000_0000
    requires IsBatch(keyinfo[..], n, part)
    modifies keyinfo
    ensures fresh(indexMap) && fresh(prefix1) && fresh(prefix2) && indexMap.Length == n
    ensures Rearranged(old(keyinfo[..n]), s, indexMap[..]) && Arranged(s, le, part) && |s| == n
    ensures NetworkOrder(old(keyinfo[..n]), s, indexMap[..], le)
    ensures ok <==> forall j: nat :: j < P ==> Load(s, n, j) <= b
    ensures ok ==> prefix1[..] == plan.p1 && prefix2[..] == plan.p2 && plan.b == b && total == |Firsts(s, n)|
    ensures ok && mark ==> BatchRouted(s, keyinfo[..], plan) && Padded(keyinfo[..], plan.load, b)
    ensures ok && !mark ==> ComesBack(s, keyinfo[..], plan)
  {
    hide Firsts, Shares, MarkedItems, Load, CountsNew, Rearranged, Arranged, BatchRouted, ComesBack;
    hide TotalOrder, Sorted, Padded, NetworkOrder;
    ghost var items := keyinfo[..];
    indexMap := SortByPartition(keyinfo, n, le);
    s := keyinfo[..n];
    RearrangedIsArranged(items[..n], s, indexMap[..], le, part);
    var loads;
    prefix1, loads := FindRepeats(keyinfo, n, P, mark);
    ok := CheckLoads(loads, b);
    prefix2, total, plan := prefix1, 0, Plan([], [], loads[..], [], b);
    LoadsChecked(s, loads[..], b, ok);
    if !ok { return; }
    prefix2, total, plan := ShareOut(keyinfo, n, b, mark, prefix1[..], loads, s);
  }

  /** The second half of the routing, once repeats and loads are known. */
  method ShareOut<K(==, !new), V(!new)>(keyinfo: array<Item<K, V>>, n: nat, b: nat, mark: bool, p1: seq<nat>,
                                        loads: array<nat>, ghost s: seq<Item<K, V>>)
    returns (prefix2: array<nat>, total: nat, ghost plan: Plan)
    requires 0 < n == |s| <= keyinfo.Length == P * b && P * b < 0x8000_0000_0000_0000
    requires keyinfo[..n] == MarkedItems(s, n, P, mark)
    requires forall r :: n <= r < keyinfo.Length ==> keyinfo[r].partition == P
    requires CountsNew(p1, s) && (forall r :: 0 <= r < |s| ==> s[r].partition < P) && loads.Length == P
    requires forall j: nat :: j < P ==> loads[j] == Load(s, n, j) && loads[j] <= b
    modifies keyinfo
    ensures fresh(prefix2) && plan.p1 == p1 && plan.p2 == prefix2[..] && plan.b == b && total == |Firsts(s, n)|
    ensures mark ==> BatchRouted(s, keyinfo[..], plan) && Padded(keyinfo[..], plan.load, b)
    ensures !mark ==> ComesBack(s, keyinfo[..], plan)
  {
    hide Compact, Distribute, Firsts, Shares, MarkedItems, Load, CountsNew, Steps, BatchRouted, Padded, Splice,
         ComesBack;
    CountsNewSteps(p1, s);
    ghost var marked, load := keyinfo[..], loads[..];
    CompactPayload(keyinfo, n, p1);
    ghost var e := keyinfo[..];
    SpliceFront(marked, n, Compact(marked[..n], p1));
    var starts := RunningSum(loads);
    prefix2 := SharePrefix(loads, starts, b);
    var p2 := prefix2[..];
    plan := Plan(p1, p2, load, starts[..], b);
    RoutingWorks(s, e, plan, mark);
    DistributePayload(keyinfo, P * b, p2);
    SpliceAll(e, Distribute(e, p2));
    assert e[..P * b] == e;
    total := starts[P];
    TotalIs(s, keyinfo[..], plan, mark);
  }

  lemma {:induction false} TotalIs<K(!new), V>(s: seq<Item<K, V>>, routed: seq<Item<K, V>>, plan: Plan, mark: bool)
    requires if mark then BatchRouted(s, routed, plan) else ComesBack(s, routed, plan)
    ensures BatchRouted(s, routed, plan) && |plan.start| == P + 1 && plan.start[P] == |Firsts(s, |s|)|
  {
    hide Firsts, WayBack, Load, Routed, CountsNew, Shares;
  }

  lemma CountsNewSteps<K, V>(p: seq<nat>, s: seq<Item<K, V>>)
    requires CountsNew(p, s)
    ensures |p| == |s| + 1 && Steps(p)
  {
  }

  lemma SpliceFront<T>(s: seq<T>, n: nat, t: seq<T>)
    requires |t| == n <= |s|
    ensures Splice(s, 0, t)[..n] == t && forall r :: n <= r < |s| ==> Splice(s, 0, t)[r] == s[r]
  {
  }

  lemma SpliceAll<T>(s: seq<T>, t: seq<T>)
    requires |t| == |s|
    ensures Splice(s, 0, t) == t
  {
  }

  // ---------------------------------------------------------------- answers in any order

  /** Where the stretch of a reply begins. */
  function Base<V>(r: Reply<V>, b: nat): nat {
    r.pid * b + r.offset
  }

  ghost predicate Covers<V>(r: Reply<V>, b: nat, q: nat) {
    Base(r, b) <= q < Base(r, b) + |r.values|
  }

  /** A reply answers the questions of its stretch. */
  ghost predicate RightReply<V>(r: Reply<V>, wanted: seq<Option<V>>, b: nat) {
    && |r.values| <= SUBTASK_SIZE && Base(r, b) + |r.values| <= |wanted|
    && forall t: nat :: t < |r.values| ==> r.values[t] == wanted[Base(r, b) + t]
  }

  /** Some reply answers slot `q`. */
  ghost predicate Covered<V(!new)>(bag: multiset<Reply<V>>, b: nat, q: nat) {
    exists r :: r in bag && Covers(r, b, q)
  }

  /** Every answer has arrived or is on its way. */
  ghost predicate Pending<V(!new)>(bag: multiset<Reply<V>>, res: seq<Option<V>>, wanted: seq<Option<V>>, b: nat) {
    && |res| == |wanted|
    && (forall r :: r in bag ==> RightReply(r, wanted, b))
    && forall q: nat :: q < |res| ==> res[q] == wanted[q] || Covered(bag, b, q)
  }

  ghost function Received<V>(res: seq<Option<V>>, r: Reply<V>, b: nat): (res': seq<Option<V>>)
    ensures |res'| == |res|
  {
    seq(|res|, q requires 0 <= q < |res| => if Covers(r, b, q) then r.values[q - Base(r, b)] else res[q])
  }

  lemma DeliveryStep<V(!new)>(bag: multiset<Reply<V>>, res: seq<Option<V>>, wanted: seq<Option<V>>, b: nat, r: Reply<V>)
    requires Pending(bag, res, wanted, b) && r in bag
    ensures Pending(bag - multiset{r}, Received(res, r, b), wanted, b)
  {
    var res', bag' := Received(res, r, b), bag - multiset{r};
    hide Base;
    forall q: nat | q < |res'| ensures res'[q] == wanted[q] || Covered(bag', b, q) {
      if Covers(r, b, q) {
        assert wanted[Base(r, b) + (q - Base(r, b))] == r.values[q - Base(r, b)];
      } else if res[q] != wanted[q] {
        var r' :| r' in bag && Covers(r', b, q);
        assert r' in bag';
      }
    }
  }

  /** Writes the values of a reply into their stretch. */
  method Deliver<V>(res: array<Option<V>>, r: Reply<V>, b: nat)
    requires |r.values| <= SUBTASK_SIZE && Base(r, b) + |r.values| <= res.Length
    modifies res
    ensures res[..] == Received(old(res[..]), r, b)
  {
    hide Base;
    var base := Base(r, b);
    for t := 0 to |r.values|
      invariant forall q :: 0 <= q < res.Length ==>
        res[q] == if base <= q < base + t then r.values[q - base] else old(res[q])
    {
      res[base + t] := r.values[t];
    }
  }

  /** Receives all replies, in any order. */
  method CollectReplies<V(==, !new)>(replies: multiset<Reply<V>>, sentCount: nat, res: array<Option<V>>, b: nat,
                                     ghost wanted: seq<Option<V>>)
    requires |replies| == sentCount && Pending(replies, res[..], wanted, b)
    modifies res
    ensures res[..] == wanted
  {
    hide Pending, Received, Base, RightReply;
    var bag := replies;
    for received := 0 to sentCount
      invariant |bag| == sentCount - received && Pending(bag, res[..], wanted, b)
    {
      var r :| r in bag;
      PendingIsRight(bag, res[..], wanted, b, r);
      DeliveryStep(bag, res[..], wanted, b, r);
      Deliver(res, r, b);
      bag := bag - multiset{r};
    }
    NonePending(bag, res[..], wanted, b);
  }

  lemma PendingIsRight<V(!new)>(bag: multiset<Reply<V>>, res: seq<Option<V>>, wanted: seq<Option<V>>, b: nat,
                                r: Reply<V>)
    requires Pending(bag, res, wanted, b) && r in bag
    ensures |r.values| <= SUBTASK_SIZE && Base(r, b) + |r.values| <= |res|
  {
    assert RightReply(r, wanted, b);
  }

  lemma NonePending<V(!new)>(bag: multiset<Reply<V>>, res: seq<Option<V>>, wanted: seq<Option<V>>, b: nat)
    requires Pending(bag, res, wanted, b) && |bag| == 0
    ensures res == wanted
  {
  }

  // ---------------------------------------------------------------- the way back

  /** The first items stand at the ranks of the new ones. */
  lemma {:induction false} FirstsAt<K, V>(s: seq<Item<K, V>>, n: nat, i: nat)
    requires i < n <= |s| && IsNew(s, i)
    ensures |Firsts(s, i)| < |Firsts(s, n)| && Firsts(s, n)[|Firsts(s, i)|] == s[i]
    decreases n
  {
    if i < n - 1 { FirstsAt(s, n - 1, i); }
  }

  lemma {:induction false} RankIsFirsts<K, V>(p: seq<nat>, s: seq<Item<K, V>>, n: nat)
    requires CountsNew(p, s) && n <= |s|
    ensures Rank(p, n) == |Firsts(s, n)|
  {
    if n > 0 {
      RankIsFirsts(p, s, n - 1);
      assert Marked(p, n - 1) <==> IsNew(s, n - 1);
    }
  }

  /** Where first item `r` was sent: a slot of the share of its partition, which compaction brings back to slot `r`. */
  lemma {:induction false} SentTo<K(!new), V, R>(s: seq<Item<K, V>>, routed: seq<Item<K, V>>, plan: Plan,
                                                 le: (K, K) -> bool, part: K -> nat, w: seq<R>, r: nat) returns (q: nat)
    requires TotalOrder(le) && Arranged(s, le, part) && BatchRouted(s, routed, plan)
    requires |w| == |routed| && |plan.p2| == |routed| + 1 && Steps(plan.p2)
    requires r < |Firsts(s, |s|)| && Firsts(s, |s|)[r].partition < P
    ensures q < |routed| && plan.b > 0 && q / plan.b == Firsts(s, |s|)[r].partition && routed[q] == Firsts(s, |s|)[r]
    ensures var j := Firsts(s, |s|)[r].partition;
            plan.start[j] <= r && q == j * plan.b + (r - plan.start[j])
    ensures r < |w| && Compact(w, plan.p2)[r] == w[q]
  {
    hide Compact, Firsts, Shares, Load, Arranged, TotalOrder, Steps, Marked, Rank, CountsNew;
    var j, b := Firsts(s, |s|)[r].partition, plan.b;
    Segments(s, le, part, plan.load, plan.start, P, j, r);
    var i := r - plan.start[j];
    ShareSlots(plan.p2, plan.load, plan.start, P, b, j, i);
    q := j * b + i;
    CompactPlaces(w, plan.p2, q);
    DivModUnique(q, b, j, i);
    assert RoutedSlot(Firsts(s, |s|), routed, plan.start, b, j, i);
  }

  /** What comes back to a new item was made in the share of its partition. */
  lemma {:induction false} NewComesBack<K(!new), V, R>(s: seq<Item<K, V>>, routed: seq<Item<K, V>>, plan: Plan,
                                                       le: (K, K) -> bool, part: K -> nat, w: seq<R>, i: nat)
    returns (q: nat)
    requires TotalOrder(le) && Arranged(s, le, part) && BatchRouted(s, routed, plan)
    requires |w| == |routed| && i < |s| && IsNew(s, i) && s[i].partition < P
    requires 0 < |plan.p1| <= |plan.p2| == |w| + 1 && Steps(plan.p1) && Steps(plan.p2) && |plan.p1| == |s| + 1
    ensures q < |routed| && plan.b > 0 && q / plan.b == s[i].partition && routed[q] == s[i]
    ensures plan.start[s[i].partition] <= |Firsts(s, i)|
    ensures q == s[i].partition * plan.b + (|Firsts(s, i)| - plan.start[s[i].partition])
    ensures WayBack(w, plan.p1, plan.p2)[i] == w[q]
  {
    hide Compact, Distribute, Firsts, Arranged, TotalOrder, Steps, Rank, Load, Shares, Routed, Sums;
    var r := |Firsts(s, i)|;
    FirstsAt(s, |s|, i);
    RankIsFirsts(plan.p1, s, i);
    q := SentTo(s, routed, plan, le, part, w, r);
    assert Marked(plan.p1, i) <==> IsNew(s, i);
    DistributePlaces(Compact(w, plan.p2)[..|s|], plan.p1, i);
  }

  /** What a share knows about a key. */
  ghost predicate Known<K(!new), R(!new)>(know: seq<iset<(K, R)>>, j: nat, k: K, r: R) {
    j < |know| && (k, r) in know[j]
  }

  /** Every slot holds what its share knows about its key. */
  ghost predicate AllKnown<K(!new), V, R(!new)>(know: seq<iset<(K, R)>>, routed: seq<Item<K, V>>, w: seq<R>, b: nat) {
    |w| == |routed| && b > 0 && forall q: nat :: q < |w| ==> Known(know, q / b, routed[q].key, w[q])
  }

  /** What comes back to item `i` is known about its key to some share, and to that of its partition if it is new. */
  ghost predicate RightBack<K(!new), V, R(!new)>(know: seq<iset<(K, R)>>, s: seq<Item<K, V>>, back: seq<R>, i: nat)
    requires i < |s| == |back|
  {
    && (exists j: nat :: Known(know, j, s[i].key, back[i]))
    && (IsNew(s, i) ==> Known(know, s[i].partition, s[i].key, back[i]))
  }

  lemma {:induction false} AnswersComeBack<K(!new), V(!new), R(!new)>(
      s: seq<Item<K, V>>, routed: seq<Item<K, V>>, plan: Plan, le: (K, K) -> bool, part: K -> nat,
      know: seq<iset<(K, R)>>, w: seq<R>, i: nat)
    requires TotalOrder(le) && Arranged(s, le, part) && ComesBack(s, routed, plan)
    requires 0 < |plan.p1| <= |plan.p2| == |w| + 1 && Steps(plan.p1) && Steps(plan.p2) && |plan.p1| == |s| + 1
    requires AllKnown(know, routed, w, plan.b) && i < |s| && s[i].partition < P
    ensures RightBack(know, s, WayBack(w, plan.p1, plan.p2), i)
  {
    hide WayBack, BatchRouted, Arranged, TotalOrder, Steps, Known;
    var q := SideBySide(routed, w, plan.p1, plan.p2, i);
    assert Known(know, q / plan.b, routed[q].key, w[q]);
    if IsNew(s, i) {
      var q' := NewComesBack(s, routed, plan, le, part, w, i);
      assert Known(know, q' / plan.b, routed[q'].key, w[q']);
    }
  }

  /** The answer came from another share than that of the item's partition. */
  ghost predicate FromElsewhere<K(!new), V, R(!new)>(know: seq<iset<(K, R)>>, s: seq<Item<K, V>>, back: seq<R>, i: nat)
    requires i < |s| == |back|
  {
    exists j: nat :: j != s[i].partition && Known(know, j, s[i].key, back[i])
  }

  /** What comes back to item `i` was in the slot that has the same place in the second compaction as the item has in
      the first. */
  lemma WayBackAt<R>(w: seq<R>, p1: seq<nat>, p2: seq<nat>, i: nat, q: nat)
    requires 0 < |p1| <= |p2| == |w| + 1 && Steps(p1) && Steps(p2) && i + 1 < |p1| && q < |w|
    requires Place(p2, q) == Place(p1, i)
    ensures WayBack(w, p1, p2)[i] == w[q]
  {
    hide Compact, Distribute, Place, Steps;
    DistributeTakes(Compact(w, p2)[..|p1| - 1], p1, i);
    CompactSends(w, p2, q);
  }

  /** There is such a slot. */
  lemma ReturnSlot(p1: seq<nat>, p2: seq<nat>, i: nat) returns (q: nat)
    requires 0 < |p1| <= |p2| && Steps(p1) && Steps(p2) && i + 1 < |p1|
    ensures q + 1 < |p2| && Place(p2, q) == Place(p1, i)
  {
    hide Compact, Distribute, Place, Steps;
    var n, x := |p2| - 1, Place(p1, i);
    var c := Compact(Ids(n), p2);
    DistributeTakes(c[..|p1| - 1], p1, i);
    CompactPermutes(Ids(n), p2);
    q := c[x];
    assert q in multiset(c);
    assert q in Ids(n);
    CompactSends(Ids(n), p2, q);
    var y := Place(p2, q);
    if x < y { IdsOnce(c, n, x, y); } else if y < x { IdsOnce(c, n, y, x); }
  }

  /** Slot `q` has as many padding slots behind it, by pairs, as item `i` has repeated items behind it. */
  ghost predicate ReturnsFrom(p1: seq<nat>, p2: seq<nat>, i: nat, q: nat) {
    && Steps(p1) && Steps(p2) && i + 1 < |p1| && q + 1 < |p2|
    && !Marked(p2, q) && BackRank(p2, q) == BackRank(p1, i)
  }

  /** For a repeated item the slot is the padding slot with as many padding slots behind it as the item has repeated
      items
      behind it. */
  lemma {:induction false} SlotOfRepeated<K(!new), V>(s: seq<Item<K, V>>, routed: seq<Item<K, V>>, plan: Plan, i: nat,
                                                      q: nat)
    requires BatchRouted(s, routed, plan) && i < |s| && !IsNew(s, i) && q < |routed|
    requires |plan.p1| == |s| + 1 && Steps(plan.p1) && |plan.p2| == |routed| + 1 && Steps(plan.p2)
    ensures Place(plan.p2, q) == Place(plan.p1, i) <==> ReturnsFrom(plan.p1, plan.p2, i, q)
  {
    hide Load, Routed, Firsts, Rank, BackRank, Shares, Sums, Marked;
    RankIsFirsts(plan.p1, s, |s|);
    SharesTotal(plan.p2, plan.load, plan.start, P, plan.b);
    assert Marked(plan.p1, i) <==> IsNew(s, i);
    if Marked(plan.p2, q) { RankBounds(plan.p2, q); }
  }

  /** The share that slot `q` belongs to knows it. */
  ghost predicate KnownAt<K(!new), R(!new)>(know: seq<iset<(K, R)>>, q: nat, b: nat, k: K, r: R) {
    b > 0 && Known(know, q / b, k, r)
  }

  /** The share that has this slot answers the repeated item. */
  lemma {:induction false} RepeatedAnswer<K(!new), V(!new), R(!new)>(
      s: seq<Item<K, V>>, routed: seq<Item<K, V>>, plan: Plan, know: seq<iset<(K, R)>>, w: seq<R>, i: nat)
    returns (q: nat)
    requires 0 < |plan.p1| <= |plan.p2| == |w| + 1 && Steps(plan.p1) && Steps(plan.p2) && |plan.p1| == |s| + 1
    requires i < |s| && !IsNew(s, i)
    requires ComesBack(s, routed, plan) && AllKnown(know, routed, w, plan.b)
    ensures ReturnsFrom(plan.p1, plan.p2, i, q)
    ensures KnownAt(know, q, plan.b, s[i].key, WayBack(w, plan.p1, plan.p2)[i])
  {
    hide WayBack, Steps, Known, BatchRouted, Place, ReturnsFrom;
    q := ReturnSlot(plan.p1, plan.p2, i);
    SlotOfRepeated(s, routed, plan, i, q);
    WayBackAt(w, plan.p1, plan.p2, i, q);
    WayBackAt(routed, plan.p1, plan.p2, i, q);
    assert Known(know, q / plan.b, routed[q].key, w[q]);
  }

  /** A share that is full has no slot for repeated items: they are asked about elsewhere. */
  lemma {:induction false} RepeatedElsewhere<K(!new), V(!new), R(!new)>(
      s: seq<Item<K, V>>, routed: seq<Item<K, V>>, plan: Plan, le: (K, K) -> bool, part: K -> nat,
      know: seq<iset<(K, R)>>, w: seq<R>, i: nat)
    requires TotalOrder(le) && Arranged(s, le, part) && ComesBack(s, routed, plan)
    requires 0 < |plan.p1| <= |plan.p2| == |w| + 1 && Steps(plan.p1) && Steps(plan.p2) && |plan.p1| == |s| + 1
    requires AllKnown(know, routed, w, plan.b) && i < |s| && s[i].partition < P && !IsNew(s, i)
    requires Load(s, |s|, s[i].partition) == plan.b
    ensures FromElsewhere(know, s, WayBack(w, plan.p1, plan.p2), i)
  {
    hide WayBack, Arranged, TotalOrder, Steps, Known, Load, Firsts, BatchRouted;
    var ids := Ids(|w|);
    var q := SideBySide(ids, w, plan.p1, plan.p2, i);
    var q' := SideBySide(ids, routed, plan.p1, plan.p2, i);
    assert q' == q && routed[q].key == s[i].key;
    assert Known(know, q / plan.b, routed[q].key, w[q]);
    NotOwnSlot(s, routed, plan, le, part, i, q);
  }

  lemma {:induction false} NotOwnSlot<K(!new), V>(s: seq<Item<K, V>>, routed: seq<Item<K, V>>, plan: Plan,
                                                  le: (K, K) -> bool, part: K -> nat, i: nat, q: nat)
    requires TotalOrder(le) && Arranged(s, le, part) && BatchRouted(s, routed, plan) && plan.b > 0
    requires 0 < |plan.p1| <= |plan.p2| == |routed| + 1 && Steps(plan.p1) && Steps(plan.p2) && |plan.p1| == |s| + 1
    requires i < |s| && s[i].partition < P && !IsNew(s, i) && Load(s, |s|, s[i].partition) == plan.b
    requires WayBack(Ids(|routed|), plan.p1, plan.p2)[i] == q
    ensures q / plan.b != s[i].partition
  {
    hide WayBack, Arranged, TotalOrder, Steps, Load, BatchRouted;
    var j, ids := s[i].partition, Ids(|routed|);
    if q / plan.b == j {
      SlotDigits(q, plan.b);
      var x := SlotIsTaken(s, routed, plan, le, part, j, q % plan.b, q);
      forall y ensures multiset(ids)[y] <= 1 { AtMostOnce(|routed|, y); }
      if x < i { WayBackOnce(ids, plan.p1, plan.p2, x, i); } else { WayBackOnce(ids, plan.p1, plan.p2, i, x); }
      assert false;
    }
  }

  lemma SlotDigits(q: nat, b: nat)
    requires b > 0
    ensures q == q / b * b + q % b && q % b < b
  {
  }

  /** Every slot of a full share belongs to a new item. */
  lemma {:induction false} SlotIsTaken<K(!new), V>(s: seq<Item<K, V>>, routed: seq<Item<K, V>>, plan: Plan,
                                                   le: (K, K) -> bool, part: K -> nat, j: nat, i: nat, q: nat)
    returns (x: nat)
    requires TotalOrder(le) && Arranged(s, le, part) && BatchRouted(s, routed, plan)
    requires 0 < |plan.p1| <= |plan.p2| == |routed| + 1 && Steps(plan.p1) && Steps(plan.p2) && |plan.p1| == |s| + 1
    requires j < P && i < plan.b && q == j * plan.b + i && Load(s, |s|, j) == plan.b
    ensures x < |s| && IsNew(s, x) && WayBack(Ids(|routed|), plan.p1, plan.p2)[x] == q
  {
    hide WayBack, Arranged, TotalOrder, Steps, Load, Firsts, BatchRouted;
    var u := NewOfSlot(s, routed, plan, le, part, j, i);
    x := FirstsFrom(s, |s|, u);
    var q' := NewComesBack(s, routed, plan, le, part, Ids(|routed|), x);
  }

  /** Slot `i` of share `j` is for first item start[j] + i. */
  lemma {:induction false} NewOfSlot<K(!new), V>(s: seq<Item<K, V>>, routed: seq<Item<K, V>>, plan: Plan,
                                                 le: (K, K) -> bool, part: K -> nat, j: nat, i: nat) returns (u: nat)
    requires TotalOrder(le) && Arranged(s, le, part) && BatchRouted(s, routed, plan)
    requires j < P && i < Load(s, |s|, j)
    ensures j < |plan.start| && u == plan.start[j] + i < |Firsts(s, |s|)| && Firsts(s, |s|)[u].partition == j
  {
    hide Arranged, TotalOrder, Load, Firsts, Shares, Routed, CountsNew;
    u := plan.start[j] + i;
    StartGrows(plan.load, plan.start, P, j + 1, P);
    Segments(s, le, part, plan.load, plan.start, P, j, u);
  }

  lemma IdsOnce(im: seq<nat>, n: nat, r: nat, t: nat)
    requires multiset(im) == multiset(Ids(n)) && r < t < |im|
    ensures im[r] != im[t]
  {
    if im[r] == im[t] {
      TwoPlaces(im, r, t);
      AtMostOnce(n, im[r]);
      assert false;
    }
  }

  lemma {:induction false} AtMostOnce(n: nat, x: nat)
    ensures multiset(Ids(n))[x] <= 1 && (x >= n ==> multiset(Ids(n))[x] == 0)
  {
    if n == 0 {
      assert Ids(0) == [];
    } else {
      AtMostOnce(n - 1, x);
      assert Ids(n) == Ids(n - 1) + [n - 1];
    }
  }

  // ---------------------------------------------------------------- propagation to repeated keys

  /** The loop that copies a value to the slot after it where the prefix sum did not grow one place earlier. */
  ghost function Propagated<R>(res: seq<R>, p: seq<nat>, n: nat): (r: seq<R>)
    requires n <= |res| < |p|
    ensures |r| == |res|
  {
    if n <= 1 then res
    else
      var r := Propagated(res, p, n - 1);
      if p[n - 1] == p[n - 2] then r[n - 1 := r[n - 2]] else r
  }

  /** What the loop is for: every slot has the value of the first slot with its key. */
  ghost function Spread<R>(res: seq<R>, p: seq<nat>, n: nat): (r: seq<R>)
    requires n <= |res| < |p|
    ensures |r| == |res|
  {
    if n <= 1 then res
    else
      var r := Spread(res, p, n - 1);
      if p[n] == p[n - 1] then r[n - 1 := r[n - 2]] else r
  }

  /** Propagates values over the first `n` results. */
  method Propagate<R>(res: array<R>, n: nat, prefix: seq<nat>)
    requires n <= res.Length && n < |prefix|
    modifies res
    ensures res[..n] == Propagated(old(res[..n]), prefix, n) && res[n..] == old(res[n..])
  {
    ghost var t := res[..n];
    var i := 1;
    while i < n
      invariant 1 <= i && (i <= n || n == 0)
      invariant res[n..] == old(res[n..])
      invariant res[..n] == Propagated(t, prefix, if i <= n then i else n)
    {
      var cond := prefix[i] == prefix[i - 1];
      var copy := res[i - 1];
      assert res[..n][i - 1] == copy;
      if cond { res[i] := copy; }
      i := i + 1;
    }
  }

  /** Where the loop takes the result of slot `i` from. */
  function Source(p: seq<nat>, i: nat): (t: nat)
    requires i < |p|
    ensures t <= i
  {
    if i > 0 && p[i] == p[i - 1] then Source(p, i - 1) else i
  }

  lemma {:induction false} PropagatedFrom<R>(res: seq<R>, p: seq<nat>, n: nat, i: nat)
    requires i < n <= |res| < |p|
    ensures Propagated(res, p, n)[i] == res[Source(p, i)]
    decreases n
  {
    if i < n - 1 {
      PropagatedFrom(res, p, n - 1, i);
    } else if n > 1 {
      PropagatedFrom(res, p, n - 1, i - 1);
      UntouchedYet(res, p, n - 1, i);
    }
  }

  lemma {:induction false} UntouchedYet<R>(res: seq<R>, p: seq<nat>, n: nat, i: nat)
    requires n <= i < |res| < |p|
    ensures Propagated(res, p, n)[i] == res[i]
  {
    if n > 1 { UntouchedYet(res, p, n - 1, i); }
  }

  /** The result of slot `i` is that of the slot itself if the item before it is new, and otherwise that of a slot with
      the key of the item before it: the test is one place off. */
  lemma {:induction false} SourceIs<K, V>(p: seq<nat>, s: seq<Item<K, V>>, i: nat)
    requires CountsNew(p, s) && i < |s|
    ensures i == 0 || IsNew(s, i - 1) ==> Source(p, i) == i
    ensures i > 0 && !IsNew(s, i - 1) ==> Source(p, i) < i && s[Source(p, i)].key == s[i - 1].key
  {
    if i > 0 {
      assert Marked(p, i - 1) <==> IsNew(s, i - 1);
      if !IsNew(s, i - 1) { SourceIs(p, s, i - 1); }
    }
  }

  lemma {:induction false} PropagatedAllNew<R>(res: seq<R>, p: seq<nat>, n: nat)
    requires n <= |res| < |p| && forall i: nat :: i < n ==> p[i] < p[i + 1]
    ensures Propagated(res, p, n) == res && Spread(res, p, n) == res
  {
    if n > 1 { PropagatedAllNew(res, p, n - 1); }
  }

  /** The loop spreads values to repeated keys exactly when there are none: its test is one place off. */
  lemma PropagationIffDistinct<R(!new)>(p: seq<nat>, n: nat, a: R, c: R)
    requires |p| == n + 1 && Steps(p) && n > 0 && p[0] < p[1] && a != c
    ensures (forall res: seq<R> :: |res| == n ==> Propagated(res, p, n) == Spread(res, p, n)) <==>
      (forall i: nat :: i < n ==> Marked(p, i))
  {
    if i: nat :| i < n && !Marked(p, i) {
      var res := MissedCopy(p, n, i, a, c);
    } else {
      forall res: seq<R> | |res| == n ensures Propagated(res, p, n) == Spread(res, p, n) {
        forall i: nat | i < n ensures p[i] < p[i + 1] { assert Marked(p, i); }
        PropagatedAllNew(res, p, n);
      }
    }
  }

  /** The first repeated key is missed. */
  lemma {:induction false} MissedCopy<R>(p: seq<nat>, n: nat, i: nat, a: R, c: R) returns (res: seq<R>)
    requires |p| == n + 1 && Steps(p) && n > 0 && p[0] < p[1] && a != c && i < n && !Marked(p, i)
    ensures |res| == n && Propagated(res, p, n) != Spread(res, p, n)
    decreases i
  {
    if j: nat :| j < i && !Marked(p, j) {
      res := MissedCopy(p, n, j, a, c);
    } else {
      res := seq(n, x => if x == i then c else a);
      forall x: nat | x < i ensures p[x] < p[x + 1] { assert Marked(p, x); }
      PropagatedAllNew(res, p, i);
      assert Propagated(res, p, i + 1)[i] == c && Spread(res, p, i + 1)[i] == a;
      LaterSlots(res, p, i + 1, n, i);
    }
  }

  lemma {:induction false} LaterSlots<R>(res: seq<R>, p: seq<nat>, m: nat, n: nat, i: nat)
    requires i < m <= n <= |res| < |p|
    ensures Propagated(res, p, n)[i] == Propagated(res, p, m)[i] && Spread(res, p, n)[i] == Spread(res, p, m)[i]
    decreases n
  {
    if m < n { LaterSlots(res, p, m, n - 1, i); }
  }
}
