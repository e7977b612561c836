/** The sharded map: a map cut into partitions, each with a worker of its own, read and written in batches. */
module ShardedMap {
  import opened Bits
  import opened Sequences
  import opened Options
  import opened BitonicSort
  import opened Compaction
  import opened CompactInPlace
  import opened BatchRouting
  import opened BatchSteps
  import opened BatchPipeline
  import opened BatchKeys
  import opened ChosenValues
  import opened Slotwise
  import opened UnsortedMap
  import opened InsertionLaws
  import opened Workers

  // ---------------------------------------------------------------- stretches

  function KeysOf<K, V>(items: seq<Item<K, V>>): (r: seq<K>)
    ensures |r| == |items| && forall i :: 0 <= i < |items| ==> r[i] == items[i].key
  {
    seq(|items|, i requires 0 <= i < |items| => items[i].key)
  }

  /** How many stretches a share has. */
  function Subtasks(b: nat): nat {
    (b + SUBTASK_SIZE - 1) / SUBTASK_SIZE
  }

  /** Where the stretches before number `k` end. */
  function Until(k: nat, b: nat): (u: nat)
    ensures u <= b
  {
    if k * SUBTASK_SIZE <= b then k * SUBTASK_SIZE else b
  }

  lemma SubtaskFits(j: nat, k: nat, b: nat)
    requires j < P && k < Subtasks(b)
    ensures k * SUBTASK_SIZE < b && Until(k, b) == k * SUBTASK_SIZE && (j + 1) * b == j * b + b <= P * b
    ensures Until(k + 1, b) == if k * SUBTASK_SIZE + SUBTASK_SIZE <= b then k * SUBTASK_SIZE + SUBTASK_SIZE else b
  {
    SlotFits(j, b, P, b);
  }

  /** Where stretch `k` of share `j` begins. */
  function Low(j: nat, k: nat, b: nat): nat {
    j * b + k * SUBTASK_SIZE
  }

  /** Where it ends: after 32 slots or at the end of the share. */
  function High(j: nat, k: nat, b: nat): nat {
    if Low(j, k, b) + SUBTASK_SIZE <= (j + 1) * b then Low(j, k, b) + SUBTASK_SIZE else (j + 1) * b
  }

  lemma StretchFits(j: nat, k: nat, b: nat)
    requires j < P && k < Subtasks(b)
    ensures Low(j, k, b) == j * b + Until(k, b) && High(j, k, b) == j * b + Until(k + 1, b)
    ensures k * SUBTASK_SIZE < b && Until(k, b) == k * SUBTASK_SIZE && Until(k, b) < Until(k + 1, b)
    ensures Low(j, k, b) < High(j, k, b) <= P * b && High(j, k, b) - Low(j, k, b) <= SUBTASK_SIZE
  {
    SubtaskFits(j, k, b);
  }

  lemma SubtasksCover(j: nat, b: nat)
    ensures Until(0, b) == 0 && Until(Subtasks(b), b) == b && (j + 1) * b == j * b + b
  {
  }

  // ---------------------------------------------------------------- lookups

  /** The slots of `wanted` are answered, each with what its share knows, and each answer is on its way. */
  ghost predicate AskedTo<K(!new), V(!new)>(know: seq<iset<(K, Option<V>)>>, routed: seq<Item<K, ()>>, b: nat,
                                            wanted: seq<Option<V>>, bag: multiset<Reply<V>>) {
    && |wanted| <= |routed| && b > 0
    && (forall q: nat :: q < |wanted| ==> Known(know, q / b, routed[q].key, wanted[q]))
    && (forall r :: r in bag ==> RightReply(r, wanted, b))
    && forall q: nat :: q < |wanted| ==> Covered(bag, b, q)
  }

  lemma NothingAsked<K(!new), V(!new)>(know: seq<iset<(K, Option<V>)>>, routed: seq<Item<K, ()>>, b: nat)
    requires b > 0
    ensures AskedTo(know, routed, b, [], multiset{})
  {
  }

  lemma AskedEverything<K(!new), V(!new)>(know: seq<iset<(K, Option<V>)>>, routed: seq<Item<K, ()>>, b: nat,
                                          wanted: seq<Option<V>>, bag: multiset<Reply<V>>, res: seq<Option<V>>)
    requires AskedTo(know, routed, b, wanted, bag) && |wanted| == |routed| == |res|
    ensures AllKnown(know, routed, wanted, b) && Pending(bag, res, wanted, b)
  {
    hide RightReply, Covered, Known;
  }

  lemma StillRight<V>(r: Reply<V>, wanted: seq<Option<V>>, values: seq<Option<V>>, b: nat)
    requires RightReply(r, wanted, b)
    ensures RightReply(r, wanted + values, b)
  {
    hide Base;
  }

  lemma NewReplyIsRight<V>(wanted: seq<Option<V>>, values: seq<Option<V>>, b: nat, j: nat, offset: nat)
    requires |values| <= SUBTASK_SIZE && |wanted| == j * b + offset
    ensures RightReply(Blocks(j, offset, values), wanted + values, b)
    ensures forall q: nat :: |wanted| <= q < |wanted| + |values| ==> Covers(Blocks(j, offset, values), b, q)
  {
  }

  /** One more stretch of share `j`. */
  lemma AskMore<K(!new), V(!new)>(know: seq<iset<(K, Option<V>)>>, routed: seq<Item<K, ()>>, b: nat,
                                  wanted: seq<Option<V>>, bag: multiset<Reply<V>>,
                                  j: nat, offset: nat, values: seq<Option<V>>)
    requires AskedTo(know, routed, b, wanted, bag) && |wanted| == j * b + offset
    requires |values| <= SUBTASK_SIZE && offset + |values| <= b && |wanted| + |values| <= |routed|
    requires forall t: nat :: t < |values| ==> Known(know, j, routed[|wanted| + t].key, values[t])
    ensures AskedTo(know, routed, b, wanted + values, bag + multiset{Blocks(j, offset, values)})
  {
    hide RightReply, Known, Covers;
    var w, reply := wanted + values, Blocks(j, offset, values);
    var bag' := bag + multiset{reply};
    NewReplyIsRight(wanted, values, b, j, offset);
    forall q: nat | q < |w| ensures Known(know, q / b, routed[q].key, w[q]) && Covered(bag', b, q) {
      if q < |wanted| {
        assert Covered(bag, b, q);
        var r :| r in bag && Covers(r, b, q);
        assert r in bag';
      } else {
        DivModUnique(q, b, j, q - j * b);
        assert w[q] == values[q - |wanted|];
        assert Known(know, j, routed[|wanted| + (q - |wanted|)].key, values[q - |wanted|]);
        assert reply in bag' && Covers(reply, b, q);
      }
    }
    forall r | r in bag' ensures RightReply(r, w, b) {
      if r in bag { StillRight(r, wanted, values, b); }
    }
  }

  /** A stretch of keys and worker `j`'s answer. */
  method AskWorker<K(==, !new), V(!new)>(ws: seq<UnsortedMap<K, V>>, j: nat, blocks: seq<K>,
                                         ghost know: seq<iset<(K, Option<V>)>>)
    returns (values: seq<Option<V>>)
    requires Working(ws) && j < |ws| && know == Knowledge(ws)
    ensures Working(ws) && know == Knowledge(ws)
    ensures |values| == |blocks| && forall t: nat :: t < |values| ==> Known(know, j, blocks[t], values[t])
  {
    hide UnsortedMap.Valid, Answers;
    values := AnswerGet(ws[j], blocks);
  }

  /** Sends every share in stretches of at most 32 keys; each worker answers what it is sent. */
  method SendGets<K(==, !new), V(==, !new)>(ws: seq<UnsortedMap<K, V>>, keyinfo: array<Item<K, ()>>, b: nat,
                                            ghost know: seq<iset<(K, Option<V>)>>)
    returns (replies: multiset<Reply<V>>, sentCount: nat, ghost wanted: seq<Option<V>>)
    requires |ws| == P && Working(ws) && know == Knowledge(ws) && keyinfo.Length == P * b && b > 0
    ensures Working(ws) && know == Knowledge(ws)
    ensures |replies| == sentCount && |wanted| == P * b && AskedTo(know, keyinfo[..], b, wanted, replies)
  {
    hide AskedTo, Known, Working, Until, Subtasks, Low, High;
    replies, sentCount, wanted := multiset{}, 0, [];
    NothingAsked(know, keyinfo[..], b);
    for j := 0 to P
      invariant Working(ws) && Knowledge(ws) == know
      invariant |replies| == sentCount && |wanted| == j * b && AskedTo(know, keyinfo[..], b, wanted, replies)
    {
      SubtasksCover(j, b);
      for k := 0 to Subtasks(b)
        invariant Working(ws) && Knowledge(ws) == know
        invariant |replies| == sentCount && |wanted| == j * b + Until(k, b)
        invariant AskedTo(know, keyinfo[..], b, wanted, replies)
      {
        StretchFits(j, k, b);
        var offset, low, high := k * SUBTASK_SIZE, Low(j, k, b), High(j, k, b);
        var blocks := KeysOf(keyinfo[low..high]);
        var values := AskWorker(ws, j, blocks, know);
        assert forall t: nat :: t < |values| ==> blocks[t] == keyinfo[..][low + t].key;
        AskMore(know, keyinfo[..], b, wanted, replies, j, offset, values);
        wanted := wanted + values;
        replies := replies + multiset{Blocks(j, offset, values)};
        sentCount := sentCount + 1;
      }
    }
  }

  // ---------------------------------------------------------------- insertions

  /** The first `i` slots of share `j`. */
  ghost function Share<K, V>(routed: seq<Item<K, V>>, b: nat, j: nat, i: nat): (r: seq<Item<K, V>>)
    requires j < P && i <= b && |routed| == P * b
    ensures |r| == i
  {
    SlotFits(j, i, P, b);
    routed[j * b..j * b + i]
  }

  lemma ShareAt<K, V>(routed: seq<Item<K, V>>, b: nat, j: nat, i: nat)
    requires j < P && |routed| == P * b && i < b
    ensures j * b + i < |routed| && Share(routed, b, j, b)[i] == routed[j * b + i]
  {
    SlotFits(j, b, P, b);
  }

  lemma ShareCut<K, V>(routed: seq<Item<K, V>>, b: nat, j: nat, u: nat, v: nat)
    requires j < P && |routed| == P * b && u <= v <= b
    ensures j * b + v <= |routed| && Share(routed, b, j, v) == Share(routed, b, j, u) + routed[j * b + u..j * b + v]
    ensures Share(routed, b, j, b)[..v] == Share(routed, b, j, v)
  {
    SlotFits(j, b, P, b);
    var base := j * b;
    assert routed[base..base + v] == routed[base..base + u] + routed[base + u..base + v];
    assert routed[base..base + b][..v] == routed[base..base + v];
  }

  /** The share of each worker. */
  ghost function SharesOf<K, V>(routed: seq<Item<K, V>>, b: nat): (r: seq<seq<Item<K, V>>>)
    requires |routed| == P * b
    ensures |r| == P && forall j :: 0 <= j < P ==> r[j] == Share(routed, b, j, b) && |r[j]| == b
  {
    seq(P, j requires 0 <= j < P => Share(routed, b, j, b))
  }

  /** The insertions of a batch: the share of each worker, how many of its items the worker got through, and the random
      numbers that it drew. */
  datatype Course<K, V> =
    Course(shares: seq<seq<Item<K, V>>>, counts: seq<nat>, draws: seq<seq<seq<(nat, nat)>>>)

  /** A worker has made the insertions of the first `count` items of its share. */
  ghost predicate InsertsMade<K, V>(before: State<K, V>, now: State<K, V>, hash: nat -> K -> nat,
                                    share: seq<Item<K, V>>, j: nat, count: nat, draws: seq<seq<(nat, nat)>>) {
    && IsState(before) && |draws| == count <= |share| && AllDraws(draws)
    && now == InsertedAll(before, hash, share[..count], j, draws)
  }

  /** Every worker has made the insertions that the course says. */
  ghost predicate CourseTaken<K, V>(before: seq<State<K, V>>, now: seq<State<K, V>>, hashes: seq<nat -> K -> nat>,
                                    c: Course<K, V>) {
    && |before| == |now| == |hashes| == |c.shares| == |c.counts| == |c.draws| == P
    && forall j :: 0 <= j < P ==> InsertsMade(before[j], now[j], hashes[j], c.shares[j], j, c.counts[j], c.draws[j])
  }

  ghost predicate Finished<K, V>(c: Course<K, V>) {
    && |c.shares| == |c.counts| == P
    && forall j :: 0 <= j < P ==> c.counts[j] == |c.shares[j]|
  }

  /** Some worker has items left and a full queue. */
  ghost predicate Stopped<K, V>(now: seq<State<K, V>>, c: Course<K, V>) {
    && |now| == |c.shares| == |c.counts| == P
    && exists j :: 0 <= j < P && c.counts[j] < |c.shares[j]| && |now[j].waiting| == INSERTION_QUEUE_MAX_SIZE
  }

  lemma {:induction false} NothingTaken<K, V>(before: seq<State<K, V>>, hashes: seq<nat -> K -> nat>,
                                              shares: seq<seq<Item<K, V>>>)
    requires |before| == |hashes| == |shares| == P && forall j :: 0 <= j < P ==> IsState(before[j])
    ensures CourseTaken(before, before, hashes, Course(shares, seq(P, _ => 0), seq(P, _ => [])))
  {
    forall j | 0 <= j < P ensures InsertsMade(before[j], before[j], hashes[j], shares[j], j, 0, []) {
      assert shares[j][..0] == [];
    }
  }

  /** [low, high) are the slots from `u` to `v` of share `j`. */
  ghost predicate SlotsOf(size: nat, b: nat, j: nat, u: nat, v: nat, low: nat, high: nat) {
    u <= v <= b && low == j * b + u && high == j * b + v <= size
  }

  lemma StretchIsSlots(j: nat, k: nat, b: nat)
    requires j < P && k < Subtasks(b)
    ensures SlotsOf(P * b, b, j, Until(k, b), Until(k + 1, b), Low(j, k, b), High(j, k, b))
    ensures Low(j, k, b) <= High(j, k, b) <= P * b
    ensures High(j, k, b) - Low(j, k, b) == Until(k + 1, b) - Until(k, b)
  {
    hide Low, High, Subtasks, Until;
    StretchFits(j, k, b);
  }

  /** The course with a stretch of `n` more items of share `j` that worker `j` got through. */
  ghost function Further<K, V>(c: Course<K, V>, j: nat, n: nat, d: seq<seq<(nat, nat)>>): Course<K, V>
    requires j < |c.counts| == |c.draws|
  {
    c.(counts := c.counts[j := c.counts[j] + n], draws := c.draws[j := c.draws[j] + d])
  }

  /** A stretch, or as much of it as the worker got through. */
  lemma {:induction false} OneTakesMore<K, V>(before: State<K, V>, now: State<K, V>, hash: nat -> K -> nat,
                                              routed: seq<Item<K, V>>, b: nat, j: nat, u: nat, v: nat, n: nat,
                                              low: nat, high: nat, e: seq<seq<(nat, nat)>>, d: seq<seq<(nat, nat)>>)
    requires |routed| == P * b && j < P && SlotsOf(|routed|, b, j, u, v, low, high)
    requires InsertsMade(before, now, hash, Share(routed, b, j, b), j, u, e)
    requires n <= high - low && |d| == n && AllDraws(d) && IsState(now)
    ensures InsertsMade(before, InsertedAll(now, hash, routed[low..high][..n], j, d), hash, Share(routed, b, j, b), j,
                        u + n, e + d)
  {
    hide Share, InsertedAll;
    var w, stretch := u + n, routed[low..high][..n];
    ShareCut(routed, b, j, u, w);
    ShareCut(routed, b, j, u, u);
    ShareCut(routed, b, j, u, v);
    assert stretch == routed[j * b + u..j * b + w];
    InsertedAllConcat(before, hash, Share(routed, b, j, u), stretch, j, e, d);
  }

  lemma {:induction false} TakenMore<K, V>(before: seq<State<K, V>>, now: seq<State<K, V>>,
                                           hashes: seq<nat -> K -> nat>, routed: seq<Item<K, V>>, b: nat,
                                           c: Course<K, V>, j: nat, v: nat, n: nat, low: nat, high: nat,
                                           d: seq<seq<(nat, nat)>>)
    requires |routed| == P * b && j < P && CourseTaken(before, now, hashes, c) && c.shares == SharesOf(routed, b)
    requires low <= high <= |routed| && SlotsOf(|routed|, b, j, c.counts[j], v, low, high)
    requires n <= high - low && |d| == n && AllDraws(d) && IsState(now[j])
    ensures CourseTaken(before, now[j := InsertedAll(now[j], hashes[j], routed[low..high][..n], j, d)], hashes,
                        Further(c, j, n, d))
  {
    hide Share, InsertedAll, InsertsMade, SlotsOf;
    var now', c' := now[j := InsertedAll(now[j], hashes[j], routed[low..high][..n], j, d)], Further(c, j, n, d);
    forall i | 0 <= i < P
      ensures InsertsMade(before[i], now'[i], hashes[i], c'.shares[i], i, c'.counts[i], c'.draws[i])
    {
      assert InsertsMade(before[i], now[i], hashes[i], c.shares[i], i, c.counts[i], c.draws[i]);
      if i == j {
        OneTakesMore(before[j], now[j], hashes[j], routed, b, j, c.counts[j], v, n, low, high, c.draws[j], d);
      }
    }
  }

  lemma CourseSizes<K, V>(before: seq<State<K, V>>, now: seq<State<K, V>>, hashes: seq<nat -> K -> nat>,
                          c: Course<K, V>)
    requires CourseTaken(before, now, hashes, c)
    ensures |c.shares| == |c.counts| == |c.draws| == P
  {
  }

  /** Sends the items [low, high) of share `j`, which follow those that the worker got through. */
  method SendPart<K(==, !new), V(!new)>(ws: seq<UnsortedMap<K, V>>, keyinfo: seq<Item<K, V>>, b: nat, j: nat,
                                        low: nat, high: nat, ghost v: nat, ghost before: seq<State<K, V>>,
                                        ghost c: Course<K, V>)
    returns (count: nat, ghost c': Course<K, V>)
    requires |ws| == P && Working(ws) && |keyinfo| == P * b && j < P == |c.counts|
    requires CourseTaken(before, StatesOf(ws), HashesOf(ws), c) && c.shares == SharesOf(keyinfo, b)
    requires low <= high <= |keyinfo| && SlotsOf(|keyinfo|, b, j, c.counts[j], v, low, high)
    modifies ws, QueuesOf(ws)
    ensures Working(ws) && CourseTaken(before, StatesOf(ws), HashesOf(ws), c') && count <= high - low
    ensures c'.shares == c.shares && c'.counts == c.counts[j := c.counts[j] + count]
    ensures count < high - low ==> |StatesOf(ws)[j].waiting| == INSERTION_QUEUE_MAX_SIZE
  {
    hide Working, StatesOf, CourseTaken, Share, SharesOf, QueuesOf, HashesOf, InsertedAll, Steady, Held, SlotsOf;
    hide IsState, AllDraws;
    ghost var now := StatesOf(ws);
    ghost var draws;
    count, draws := SendStretch(ws, j, keyinfo[low..high]);
    CourseSizes(before, now, HashesOf(ws), c);
    TakenMore(before, now, HashesOf(ws), keyinfo, b, c, j, v, count, low, high, draws);
    c' := Further(c, j, count, draws);
  }

  /** Sends share `j` in stretches of at most 32 items; `done` is false when its worker stopped. */
  method SendShare<K(==, !new), V(!new)>(ws: seq<UnsortedMap<K, V>>, keyinfo: seq<Item<K, V>>, b: nat, j: nat,
                                         ghost before: seq<State<K, V>>, ghost c: Course<K, V>)
    returns (done: bool, ghost c': Course<K, V>)
    requires |ws| == P && Working(ws) && |keyinfo| == P * b && b > 0 && j < P == |c.counts|
    requires CourseTaken(before, StatesOf(ws), HashesOf(ws), c) && c.shares == SharesOf(keyinfo, b) && c.counts[j] == 0
    modifies ws, QueuesOf(ws)
    ensures Working(ws) && CourseTaken(before, StatesOf(ws), HashesOf(ws), c')
    ensures |c'.counts| == P && c'.shares == c.shares && c'.counts == c.counts[j := c'.counts[j]]
    ensures done ==> c'.counts[j] == b
    ensures !done ==> c'.counts[j] < b && |StatesOf(ws)[j].waiting| == INSERTION_QUEUE_MAX_SIZE
  {
    hide Working, StatesOf, CourseTaken, Share, SharesOf, Until, Subtasks, Low, High, QueuesOf, HashesOf, InsertedAll;
    hide Steady, Held, SlotsOf, IsState;
    SubtasksCover(j, b);
    c' := c;
    for k := 0 to Subtasks(b)
      invariant Working(ws) && CourseTaken(before, StatesOf(ws), HashesOf(ws), c') && |c'.counts| == P
      invariant c'.shares == c.shares && c'.counts == c.counts[j := c'.counts[j]] && c'.counts[j] == Until(k, b)
    {
      StretchIsSlots(j, k, b);
      var low, high := Low(j, k, b), High(j, k, b);
      var count;
      count, c' := SendPart(ws, keyinfo, b, j, low, high, Until(k + 1, b), before, c');
      if count < high - low { return false, c'; }
    }
    done := true;
  }

  /** Inserts every share at its worker. A worker whose queue is full stops at an assertion, and the batch with it: then
      `done` is false. */
  method SendInserts<K(==, !new), V(!new)>(ws: seq<UnsortedMap<K, V>>, keyinfo: seq<Item<K, V>>, b: nat)
    returns (done: bool, ghost c: Course<K, V>)
    requires |ws| == P && Working(ws) && |keyinfo| == P * b && b > 0
    modifies ws, QueuesOf(ws)
    ensures Working(ws) && CourseTaken(old(StatesOf(ws)), StatesOf(ws), HashesOf(ws), c)
    ensures c.shares == SharesOf(keyinfo, b)
    ensures if done then Finished(c) else Stopped(StatesOf(ws), c)
  {
    hide Working, StatesOf, CourseTaken, Share, QueuesOf, HashesOf, Steady, Held;
    ghost var before := StatesOf(ws);
    NothingTaken(before, HashesOf(ws), SharesOf(keyinfo, b));
    c := Course(SharesOf(keyinfo, b), seq(P, _ => 0), seq(P, _ => []));
    for j := 0 to P
      invariant Working(ws) && CourseTaken(before, StatesOf(ws), HashesOf(ws), c) && c.shares == SharesOf(keyinfo, b)
      invariant |c.counts| == P && forall i :: 0 <= i < P ==> c.counts[i] == if i < j then b else 0
    {
      done, c := SendShare(ws, keyinfo, b, j, before, c);
      if !done { return; }
    }
    done := true;
  }

  // ---------------------------------------------------------------- what a share delivers

  /** A share holds `load` items of its partition, those from `lo` on, and otherwise nothing of it. */
  ghost predicate SharePlaced<K, V>(d: seq<Item<K, V>>, share: seq<Item<K, V>>, load: nat, lo: nat, j: nat) {
    && load <= |share| && lo + load <= |d|
    && (forall i :: 0 <= i < load ==> share[i] == d[lo + i])
    && (forall i :: load <= i < |share| ==> share[i].partition != j)
  }

  lemma {:induction false} ShareIsPlaced<K(!new), V>(s: seq<Item<K, V>>, routed: seq<Item<K, V>>, plan: Plan, j: nat)
    requires BatchRouted(s, routed, plan) && Padded(routed, plan.load, plan.b) && j < P
    ensures SharePlaced(Firsts(s, |s|), Share(routed, plan.b, j, plan.b), plan.load[j], plan.start[j], j)
    ensures plan.start[j + 1] == plan.start[j] + plan.load[j]
  {
    hide Firsts, Load, Shares, CountsNew, Routed, Padded, Share, Steps;
    var load, start, b := plan.load, plan.start, plan.b;
    var d, share := Firsts(s, |s|), Share(routed, b, j, b);
    StartGrows(load, start, P, j + 1, P);
    forall i: nat | i < load[j] ensures share[i] == d[start[j] + i] {
      assert RoutedSlot(d, routed, start, b, j, i) by { LoadedSlot(d, routed, load, start, b, j, i); }
      ShareAt(routed, b, j, i);
    }
    forall i: nat | load[j] <= i < b ensures share[i].partition != j {
      PaddedSlot(routed, load, b, j, i);
      ShareAt(routed, b, j, i);
    }
  }

  /** A share begins with `load` items of its partition, by increasing keys, and holds no others of it. */
  ghost predicate InKeyOrderFirst<K(!new), V>(share: seq<Item<K, V>>, load: nat, j: nat, le: (K, K) -> bool) {
    && load <= |share| && (forall i :: 0 <= i < load ==> share[i].partition == j)
    && (forall i, k :: 0 <= i < k < load ==> le(share[i].key, share[k].key) && share[i].key != share[k].key)
    && (forall i :: load <= i < |share| ==> share[i].partition != j)
  }

  /** The share of each worker is of size `b`, delivers what is meant for the worker, and has it in front, by increasing
      keys. */
  ghost predicate SharesFor<K(!new), V(!new)>(shares: seq<seq<Item<K, V>>>, sent: seq<multiset<Element<K, V>>>,
                                              keys: seq<K>, part: K -> nat, le: (K, K) -> bool, b: nat)
  {
    && |shares| == |sent| == P
    && forall j :: 0 <= j < P ==>
      && |shares[j]| == b && Delivered(shares[j], j) == sent[j]
      && InKeyOrderFirst(shares[j], |KeysOfPart(keys, part, j)|, j, le)
  }

  lemma {:induction false} ShareInOrder<K(!new), V>(s: seq<Item<K, V>>, routed: seq<Item<K, V>>, plan: Plan,
                                                    le: (K, K) -> bool, part: K -> nat, j: nat)
    requires TotalOrder(le) && Arranged(s, le, part)
    requires BatchRouted(s, routed, plan) && Padded(routed, plan.load, plan.b) && j < P
    ensures InKeyOrderFirst(Share(routed, plan.b, j, plan.b), plan.load[j], j, le)
  {
    hide Firsts, Load, Shares, CountsNew, Routed, Padded, Share, Arranged, TotalOrder;
    var d, share, lo := Firsts(s, |s|), Share(routed, plan.b, j, plan.b), plan.start[j];
    ShareIsPlaced(s, routed, plan, j);
    forall i: nat | i < plan.load[j] ensures share[i] == d[lo + i] && share[i].partition == j {
      Segments(s, le, part, plan.load, plan.start, P, j, lo + i);
    }
    forall i: nat, k: nat | i < k < plan.load[j]
      ensures le(share[i].key, share[k].key) && share[i].key != share[k].key
    {
      FirstsOrdered(s, le, part, |s|, lo + i, lo + k);
    }
  }

  lemma LoadedSlot<K, V>(d: seq<Item<K, V>>, routed: seq<Item<K, V>>, load: seq<nat>, start: seq<nat>, b: nat,
                         j: nat, i: nat)
    requires Routed(d, routed, load, start, b) && j < |load| && i < load[j] <= b
    ensures RoutedSlot(d, routed, start, b, j, i)
  {
  }

  lemma PaddedSlot<K, V>(routed: seq<Item<K, V>>, load: seq<nat>, b: nat, j: nat, i: nat)
    requires Padded(routed, load, b) && j < P && |load| == P && load[j] <= i < b
    ensures j * b + i < |routed| && routed[j * b + i].partition == P
  {
    assert PaddingSlot(routed, b, j, i);
  }

  lemma {:induction false} PlacedDelivers<K, V>(d: seq<Item<K, V>>, share: seq<Item<K, V>>, load: nat, lo: nat, j: nat)
    requires SharePlaced(d, share, load, lo, j)
    requires forall r :: 0 <= r < |d| ==> (d[r].partition == j <==> lo <= r < lo + load)
    ensures Delivered(share, j) == Delivered(d, j)
  {
    hide Delivered;
    var a, c, e := d[..lo], d[lo..lo + load], d[lo + load..];
    assert d == a + (c + e) && share == share[..load] + share[load..] && share[..load] == c;
    NoneDelivered(a, j);
    NoneDelivered(e, j);
    NoneDelivered(share[load..], j);
    DeliveredConcat(a, c + e, j);
    DeliveredConcat(c, e, j);
    DeliveredConcat(share[..load], share[load..], j);
  }

  /** Worker `j` is sent exactly the first items of its partition, each once. */
  lemma {:induction false} ShareDelivers<K(!new), V>(s: seq<Item<K, V>>, routed: seq<Item<K, V>>, plan: Plan,
                                                     le: (K, K) -> bool, part: K -> nat, j: nat)
    requires TotalOrder(le) && Arranged(s, le, part)
    requires BatchRouted(s, routed, plan) && Padded(routed, plan.load, plan.b) && j < P
    ensures Delivered(Share(routed, plan.b, j, plan.b), j) == Delivered(Firsts(s, |s|), j)
  {
    hide Firsts, Load, Shares, CountsNew, Routed, Padded, Share, Delivered, Arranged, TotalOrder, SharePlaced;
    var d := Firsts(s, |s|);
    ShareIsPlaced(s, routed, plan, j);
    forall r: nat | r < |d| ensures d[r].partition == j <==> plan.start[j] <= r < plan.start[j] + plan.load[j] {
      Segments(s, le, part, plan.load, plan.start, P, j, r);
    }
    PlacedDelivers(d, Share(routed, plan.b, j, plan.b), plan.load[j], plan.start[j], j);
  }

  // ---------------------------------------------------------------- the map

  /** The results in the order of the keys: `im` says which key each result is for. */
  ghost function InKeyOrder<R>(out: seq<R>, im: seq<nat>): (finds: seq<R>)
    requires |out| == |im| && multiset(im) == multiset(Ids(|im|))
    ensures |finds| == |out| && forall r :: 0 <= r < |im| ==> im[r] < |im| && out[r] == finds[im[r]]
  {
    var finds := seq(|im|, y requires 0 <= y < |im| =>
                     (PlaceExists(im, y); var r :| 0 <= r < |im| && im[r] == y; out[r]));
    assert forall r :: 0 <= r < |im| ==> im[r] < |im| && out[r] == finds[im[r]] by {
      forall r | 0 <= r < |im| ensures im[r] < |im| && out[r] == finds[im[r]] { PlaceIsOnly(im, r); }
    }
    finds
  }

  lemma PlaceExists(im: seq<nat>, y: nat)
    requires multiset(im) == multiset(Ids(|im|)) && y < |im|
    ensures exists r :: 0 <= r < |im| && im[r] == y
  {
    assert Ids(|im|)[y] in multiset(im);
  }

  lemma PlaceIsOnly(im: seq<nat>, r: nat)
    requires multiset(im) == multiset(Ids(|im|)) && r < |im|
    ensures im[r] < |im| && forall t :: 0 <= t < |im| && im[t] == im[r] ==> t == r
  {
    assert im[r] in multiset(Ids(|im|));
    assert im[r] in Ids(|im|);
    forall t | 0 <= t < |im| && im[t] == im[r] ensures t == r {
      if t < r { IdsOnce(im, |im|, t, r); }
      if r < t { IdsOnce(im, |im|, r, t); }
    }
  }

  /** The capacity of one of the workers. */
  function PartOf(capacity: nat): (n: nat)
    ensures P * n >= capacity && (n > 0 ==> P * (n - 1) < capacity)
  {
    (capacity + P - 1) / P
  }

  /** One more worker with an empty map. */
  method StartWorker<K(==, !new), V(==, !new)>(ws: seq<UnsortedMap<K, V>>, n: nat, hash: nat -> K -> nat,
                                               dflt: Element<K, V>)
    returns (w: UnsortedMap<K, V>)
    requires n > 0 && Working(ws)
    ensures fresh(w) && fresh(w.queue) && Working(ws + [w])
    ensures StatesOf(ws + [w]) == old(StatesOf(ws)) + [State(EmptyTables(n, dflt), [], [])]
    ensures EntriesOf(ws + [w]) == old(EntriesOf(ws)) + [multiset{}] && HashesOf(ws + [w]) == HashesOf(ws) + [hash]
  {
    hide UnsortedMap.Valid, UnsortedMap.Entries, EmptyTables, Held, InOrder, Steady;
    w := new UnsortedMap(n, hash, dflt);
    NewIsInOrder(w);
    OneMoreWorker(ws, w);
  }

  /** Every worker has an empty map with room for `n` keys and the hash functions meant for it. */
  ghost predicate Started<K, V>(states: seq<State<K, V>>, entries: seq<multiset<Element<K, V>>>,
                                hs: seq<nat -> K -> nat>, hashes: nat -> nat -> K -> nat, n: nat, dflt: Element<K, V>)
  {
    && |states| == |entries| == |hs|
    && forall j: nat :: j < |states| ==>
      states[j] == State(EmptyTables(n, dflt), [], []) && entries[j] == multiset{} && hs[j] == hashes(j)
  }

  lemma OneMoreStarted<K, V>(states: seq<State<K, V>>, entries: seq<multiset<Element<K, V>>>,
                             hs: seq<nat -> K -> nat>, hashes: nat -> nat -> K -> nat, n: nat, dflt: Element<K, V>)
    requires Started(states, entries, hs, hashes, n, dflt)
    ensures Started(states + [State(EmptyTables(n, dflt), [], [])], entries + [multiset{}], hs + [hashes(|hs|)], hashes,
                    n, dflt)
  {
    hide EmptyTables;
  }

  lemma StartedEmpty<K, V>(states: seq<State<K, V>>, entries: seq<multiset<Element<K, V>>>,
                           hs: seq<nat -> K -> nat>, hashes: nat -> nat -> K -> nat, n: nat, dflt: Element<K, V>)
    requires Started(states, entries, hs, hashes, n, dflt)
    ensures forall j :: 0 <= j < |entries| ==> entries[j] == multiset{}
  {
    hide EmptyTables;
  }

  /** Workers with empty maps, each with room for `n` keys. */
  method StartWorkers<K(==, !new), V(==, !new)>(n: nat, hashes: nat -> nat -> K -> nat, dflt: Element<K, V>)
    returns (ws: seq<UnsortedMap<K, V>>)
    requires n > 0
    ensures |ws| == P && Working(ws) && forall w :: w in ws ==> fresh(w) && fresh(w.queue)
    ensures Started(StatesOf(ws), EntriesOf(ws), HashesOf(ws), hashes, n, dflt)
    ensures forall j :: 0 <= j < P ==> EntriesOf(ws)[j] == multiset{}
  {
    hide Started, EmptyTables, Held, Steady, Working, StatesOf, EntriesOf, HashesOf, QueuesOf;
    ws := [];
    NoWorkers<K, V>(hashes, n, dflt);
    for i := 0 to P
      invariant |ws| == i && Working(ws) && forall w :: w in ws ==> fresh(w) && fresh(w.queue)
      invariant Started(StatesOf(ws), EntriesOf(ws), HashesOf(ws), hashes, n, dflt)
    {
      OneMoreStarted(StatesOf(ws), EntriesOf(ws), HashesOf(ws), hashes, n, dflt);
      var w := StartWorker(ws, n, hashes(i), dflt);
      ws := ws + [w];
    }
    StartedEmpty(StatesOf(ws), EntriesOf(ws), HashesOf(ws), hashes, n, dflt);
  }

  class ShardedMap<K(==, !new), V(==, !new)> {
    /** Number of keys inserted. */
    var size: nat
    /** The map of each worker. */
    const workers: seq<UnsortedMap<K, V>>
    /** The hash function that chooses the partition. */
    const hash: K -> nat
    const le: (K, K) -> bool
    /** The key and value of padding. */
    const dflt: Element<K, V>

    /** Every key is stored in its own partition. */
    ghost predicate InPartition(entries: seq<multiset<Element<K, V>>>) {
      forall j, e :: 0 <= j < |entries| && e in entries[j] ==> GetPartition(e.key) == j
    }

    ghost predicate Valid()
      reads workers, QueuesOf(workers)
    {
      |workers| == P && Working(workers) && TotalOrder(le) && InPartition(EntriesOf(workers))
    }

    function GetPartition(key: K): (p: nat)
      ensures p < P
    {
      hash(key) % P
    }

    /** What a lookup of `key` in its partition may return. */
    ghost predicate Answered(key: K, r: Option<V>)
      requires Valid()
      reads workers, QueuesOf(workers)
    {
      Known(Knowledge(workers), GetPartition(key), key, r)
    }

    /** What a lookup finds is stored. */
    lemma AnswersAreStored(key: K, r: Option<V>)
      requires Valid() && Answered(key, r) && r.Some?
      ensures Element(key, r.value) in EntriesOf(workers)[GetPartition(key)]
    {
      hide UnsortedMap.Valid, UnsortedMap.Visible, UnsortedMap.Entries;
    }

    /** A lookup of a key has one result. */
    lemma AnsweredIsOnly(key: K, r: Option<V>, t: Option<V>)
      requires Valid() && Answered(key, r) && Answered(key, t)
      ensures r == t
    {
      hide UnsortedMap.Valid, UnsortedMap.Visible, UnsortedMap.Entries, Answers;
      OneAnswer(workers[GetPartition(key)], key, r, t);
    }

    /** The answers in the book of a batch: the first item with the key at index `y` is answered rightly, the second one
        rightly or not at all, and not at all if it had to be asked about elsewhere. */
    ghost predicate BookAnswers(book: Book<K, Option<V>>, keys: seq<K>, y: nat, b: nat)
      requires Valid() && y < |keys|
      reads workers, QueuesOf(workers)
    {
      var k := keys[y];
      && k in book.first && k in book.own && k in book.other
      && book.first[k] < |keys| && keys[book.first[k]] == k
      && Answered(k, book.own[k])
      && (!Once(keys, y) ==> Answered(k, book.other[k]) || book.other[k] == None)
      && (Crowded(keys, y, GetPartition, b) ==> book.other[k] == None)
    }

    /** Whether `r` is right for index `y` of a batch, or wrong in the way a repeated key makes it so. */
    ghost predicate RightResult(keys: seq<K>, y: nat, r: Option<V>)
      requires Valid() && y < |keys|
      reads workers, QueuesOf(workers)
    {
      && (!AfterRepeated(keys, y, le, GetPartition) ==> Answered(keys[y], r) || (!Once(keys, y) && r == None))
      && (Once(keys, y) ==> forall x: nat :: x < |keys| && Precedes(keys, x, y, le, GetPartition) && !Once(keys, x) ==>
            Answered(keys[x], r) || r == None)
      && (Answered(keys[y], r) || r == None || AnsweredBefore(keys, y, r))
    }

    /** `r` is right for a repeated key that comes before the key at index `y`. */
    ghost predicate AnsweredBefore(keys: seq<K>, y: nat, r: Option<V>)
      requires Valid() && y < |keys|
      reads workers, QueuesOf(workers)
    {
      exists x: nat :: x < |keys| && Precedes(keys, x, y, le, GetPartition) && !Once(keys, x) && Answered(keys[x], r)
    }

    /** One of the places of the key at index `y` has its result. */
    ghost predicate SomePlaceRight(keys: seq<K>, res: seq<Option<V>>, y: nat)
      requires Valid() && y < |keys| == |res|
      reads workers, QueuesOf(workers)
    {
      exists z: nat :: z < |keys| && keys[z] == keys[y] && Answered(keys[z], res[z])
    }

    /** What any worker knows about a key is right or nothing, and nothing unless it is the one of its partition. */
    lemma KnownIsAnswered(j: nat, key: K, r: Option<V>)
      requires Valid() && Known(Knowledge(workers), j, key, r)
      ensures Answered(key, r) || r == None
      ensures j != GetPartition(key) ==> r == None
    {
      hide UnsortedMap.Valid, UnsortedMap.Visible, UnsortedMap.Entries;
      if r.Some? { assert Element(key, r.value) in EntriesOf(workers)[j]; }
    }

    lemma BookIsAnswered(book: Book<K, Option<V>>, keys: seq<K>, y: nat, b: nat)
      requires Valid() && y < |keys| && BookRight(book, keys, y, Knowledge(workers), GetPartition, b)
      ensures BookAnswers(book, keys, y, b)
    {
      hide Known, Knowledge, Working, TotalOrder, ShardedMap.InPartition, Once, Crowded;
      var k, know := keys[y], Knowledge(workers);
      if !Once(keys, y) {
        var j: nat :| Known(know, j, k, book.other[k]);
        KnownIsAnswered(j, k, book.other[k]);
      }
      if Crowded(keys, y, GetPartition, b) {
        var j: nat :| j != GetPartition(k) && Known(know, j, k, book.other[k]);
        KnownIsAnswered(j, k, book.other[k]);
      }
    }

    /** What the book says about single results. */
    lemma BookMeans(book: Book<K, Option<V>>, keys: seq<K>, y: nat, r: Option<V>, b: nat)
      requires Valid() && y < |keys| && forall x: nat :: x < |keys| ==> BookAnswers(book, keys, x, b)
      requires FromBook(book, keys, y, r, le, GetPartition)
      ensures RightResult(keys, y, r) && (Distinct(keys) ==> Answered(keys[y], r))
    {
      hide Known, Knowledge, Working, TotalOrder, ShardedMap.InPartition, Precedes, Crowded, ShardedMap.Answered;
      var k := keys[y];
      assert BookAnswers(book, keys, y, b);
      if y != book.first[k] { assert !Once(keys, y); }
      forall x: nat | y == book.first[k] && x < |keys| && Precedes(keys, x, y, le, GetPartition) && !Once(keys, x)
        ensures Answered(keys[x], r) || r == None
      {
        assert BookAnswers(book, keys, x, b);
      }
      if Distinct(keys) { forall x: nat | x < |keys| ensures Once(keys, x) { DistinctOnce(keys, x); } }
    }

    lemma FirstPlaceRight(book: Book<K, Option<V>>, keys: seq<K>, res: seq<Option<V>>, y: nat, b: nat)
      requires Valid() && y < |keys| == |res| && BookAnswers(book, keys, y, b)
      requires !AfterRepeated(keys, y, le, GetPartition)
      requires forall z: nat :: z < |keys| ==> FromBook(book, keys, z, res[z], le, GetPartition)
      ensures SomePlaceRight(keys, res, y)
    {
      hide Known, Knowledge, Working, TotalOrder, ShardedMap.InPartition, Precedes, Crowded, Once, AfterRepeated;
      hide ShardedMap.Answered;
      var z := book.first[keys[y]];
      assert FromBook(book, keys, z, res[z], le, GetPartition);
      if AfterRepeated(keys, z, le, GetPartition) { SameNeighbours(keys, y, z, le, GetPartition); }
    }

    /** An empty map with room for `capacity` keys; `hashes` are the hash functions of each worker. */
    constructor (capacity: nat, hash: K -> nat, hashes: nat -> nat -> K -> nat, le: (K, K) -> bool, dflt: Element<K, V>)
      requires TotalOrder(le) && capacity > 0
      ensures Valid() && size == 0 && forall j :: 0 <= j < P ==> EntriesOf(workers)[j] == multiset{}
      ensures Started(StatesOf(workers), EntriesOf(workers), HashesOf(workers), hashes, PartOf(capacity), dflt)
      ensures forall w :: w in workers ==> fresh(w) && fresh(w.queue)
    {
      hide TotalOrder, UnsortedMap.Valid, UnsortedMap.Entries, EmptyTables, Held, InOrder, Steady, Started, PartOf;
      var ws := StartWorkers(PartOf(capacity), hashes, dflt);
      this.hash, this.le, this.dflt := hash, le, dflt;
      size, workers := 0, ws;
      ghost var states, entries := StatesOf(ws), EntriesOf(ws);
      new;
      assert StatesOf(workers) == states && EntriesOf(workers) == entries;
    }

    /** The batch as items, padded to the size of all shares. */
    method BuildItems<W>(keys: seq<K>, values: seq<W>, b: nat, pad: W) returns (keyinfo: array<Item<K, W>>)
      requires |keys| == |values| <= P * b
      ensures fresh(keyinfo) && keyinfo.Length == P * b && IsBatch(keyinfo[..], |keys|, GetPartition)
      ensures keyinfo[..|keys|] == BatchItems(keys, values, GetPartition)
    {
      keyinfo := new Item<K, W>[P * b](_ => Item(P, dflt.key, pad));
      for i := 0 to |keys|
        invariant forall j :: 0 <= j < i ==> keyinfo[j] == Item(GetPartition(keys[j]), keys[j], values[j])
        invariant forall j :: i <= j < keyinfo.Length ==> keyinfo[j].partition == P
      {
        keyinfo[i] := Item(GetPartition(keys[i]), keys[i], values[i]);
      }
    }

    /** Receives the answers, undoes the routing, and copies results to repeated keys. */
    method CollectAnswers(replies: multiset<Reply<V>>, sentCount: nat, n: nat, b: nat, p1: seq<nat>, p2: seq<nat>,
                          ghost wanted: seq<Option<V>>)
      returns (out: array<Option<V>>)
      requires |replies| == sentCount && |wanted| == P * b < 0x8000_0000_0000_0000 && n <= P * b
      requires forall res: seq<Option<V>> :: |res| == P * b ==> Pending(replies, res, wanted, b)
      requires |p1| == n + 1 && Steps(p1) && |p2| == P * b + 1 && Steps(p2)
      ensures fresh(out) && out.Length == P * b && out[..n] == Propagated(WayBack(wanted, p1, p2), p1, n)
    {
      hide Pending, Compact, Distribute, Steps, Splice, Propagated;
      out := new Option<V>[P * b](_ => None);
      CollectReplies(replies, sentCount, out, b, wanted);
      CompactPayload(out, P * b, p2);
      SpliceAll(wanted, Compact(wanted, p2));
      assert wanted[..P * b] == wanted;
      DistributePayload(out, n, p1);
      SpliceFront(Compact(wanted, p2), n, Distribute(Compact(wanted, p2)[..n], p1));
      Propagate(out, n, p1);
    }

    /** Asks the workers for the routed batch, and takes the answers the way back. */
    method ReturnAnswers(keyinfo: array<Item<K, ()>>, n: nat, b: nat, p1: seq<nat>, p2: seq<nat>,
                         ghost s: seq<Item<K, ()>>, ghost plan: Plan)
      returns (out: array<Option<V>>, ghost wanted: seq<Option<V>>)
      requires Valid() && |s| == n && p1 == plan.p1 && p2 == plan.p2 && b == plan.b
      requires BatchRouted(s, keyinfo[..], plan) && P * b < 0x8000_0000_0000_0000
      ensures fresh(out) && out.Length == P * b && n <= P * b && b > 0
      ensures |p1| == n + 1 && Steps(p1) && |p2| == P * b + 1 == |wanted| + 1 && Steps(p2)
      ensures Valid() && Knowledge(workers) == old(Knowledge(workers)) && keyinfo[..] == old(keyinfo[..])
      ensures AllKnown(Knowledge(workers), keyinfo[..], wanted, b)
      ensures out[..n] == Propagated(WayBack(wanted, p1, p2), p1, n)
    {
      hide BatchRouted, TotalOrder, AskedTo, Pending, Steps, Propagated, WayBack, UnsortedMap.Valid;
      hide ShardedMap.InPartition, AllKnown, Answers;
      ghost var know, routed := Knowledge(workers), keyinfo[..];
      PlanFits(s, routed, plan);
      var replies, sentCount;
      replies, sentCount, wanted := SendGets(workers, keyinfo, b, know);
      forall res: seq<Option<V>> | |res| == P * b ensures Pending(replies, res, wanted, b) {
        AskedEverything(know, routed, b, wanted, replies, res);
      }
      AskedEverything(know, routed, b, wanted, replies, wanted);
      out := CollectAnswers(replies, sentCount, n, b, p1, p2, wanted);
      assert EntriesOf(workers) == old(EntriesOf(workers));
    }

    /** The first `n` results. */
    method Truncate(out: array<Option<V>>, n: nat) returns (res: array<Option<V>>)
      requires n <= out.Length
      ensures fresh(res) && res[..] == out[..n]
    {
      res := new Option<V>[n](_ => None);
      for i := 0 to n
        invariant forall r :: 0 <= r < i ==> res[r] == out[r]
      {
        res[i] := out[i];
      }
    }

    /** Looks up a batch of keys; `ok` is false when some partition gets more than `b` different ones. The book says
        where every result comes from. A result is right unless its key is repeated, when it may be missing, or comes
        after a repeated key in the order of the sorted batch, when it may be that of the repeated key, or missing. */
    method GetBatch(keys: seq<K>, b: nat)
      returns (res: array<Option<V>>, ok: bool, ghost book: Book<K, Option<V>>)
      requires Valid() && 0 < |keys| && b <= |keys| <= P * b < 0x8000_0000_0000_0000
      ensures fresh(res) && Valid() && Knowledge(workers) == old(Knowledge(workers))
      ensures ok <==> forall j: nat :: j < P ==> |KeysOfPart(keys, GetPartition, j)| <= b
      ensures ok ==> res.Length == |keys| && book.first == NetworkFirsts(keys, le, GetPartition)
      ensures ok ==> forall y: nat :: y < |keys| ==>
        BookAnswers(book, keys, y, b) && FromBook(book, keys, y, res[y], le, GetPartition)
      ensures ok ==> forall y: nat :: y < |keys| ==> RightResult(keys, y, res[y])
      ensures ok ==> forall y: nat :: y < |keys| && !AfterRepeated(keys, y, le, GetPartition) ==>
        SomePlaceRight(keys, res[..], y)
      ensures ok && Distinct(keys) ==> forall y: nat :: y < |keys| ==> Answered(keys[y], res[y])
    {
      hide UnsortedMap.Valid, UnsortedMap.Entries, Known, Answers, KeysOfPart, TotalOrder, ShardedMap.InPartition;
      hide ShardedMap.RightResult, ShardedMap.SomePlaceRight, Found, ShardedMap.BookAnswers, FromBook, NetworkFirsts;
      ghost var know, stored := Knowledge(workers), EntriesOf(workers);
      ghost var trail;
      res, ok, trail := LookUp(keys, b, know);
      assert EntriesOf(workers) == stored && Knowledge(workers) == know;
      book := Book(map[], map[], map[]);
      if ok { book := AllRight(keys, res[..], know, trail, b); }
    }

    /** The steps of a lookup. */
    method LookUp(keys: seq<K>, b: nat, ghost know: seq<iset<(K, Option<V>)>>)
      returns (res: array<Option<V>>, ok: bool, ghost trail: Trail<K, Option<V>>)
      requires Valid() && know == Knowledge(workers)
      requires 0 < |keys| && b <= |keys| <= P * b < 0x8000_0000_0000_0000
      ensures fresh(res)
      ensures ok <==> forall j: nat :: j < P ==> |KeysOfPart(keys, GetPartition, j)| <= b
      ensures ok ==> Found(keys, res[..], know, trail, le, GetPartition) && trail.plan.b == b
    {
      hide BatchRouted, TotalOrder, KeysOfPart, AllKnown, WayBack, UnsortedMap.Valid, UnsortedMap.Entries, Known,
           Answers;
      hide ShardedMap.InPartition, Propagated, ComesBack, SortedBatch, InKeyOrder, Steps, NetworkOrder;
      var n := |keys|;
      ghost var stored := EntriesOf(workers);
      var keyinfo, indexMap, prefix1, prefix2;
      ghost var s, plan;
      keyinfo, indexMap, prefix1, prefix2, ok, s, plan := RouteKeys(keys, b);
      trail := Trail(s, indexMap[..], keyinfo[..], plan, []);
      if !ok {
        res := new Option<V>[0];
        return;
      }
      assert EntriesOf(workers) == stored && Knowledge(workers) == know;
      RoutedComesBack(s, keyinfo[..], plan);
      var out;
      ghost var wanted;
      out, wanted := ReturnAnswers(keyinfo, n, b, prefix1[..], prefix2[..], s, plan);
      trail := Trail(s, indexMap[..], keyinfo[..], plan, wanted);
      res := RestoreOrder(out, indexMap, n);
    }

    /** The results are right, or wrong as repeated keys make them. */
    lemma AllRight(keys: seq<K>, finds: seq<Option<V>>, know: seq<iset<(K, Option<V>)>>, trail: Trail<K, Option<V>>,
                   b: nat)
      returns (book: Book<K, Option<V>>)
      requires Valid() && know == Knowledge(workers) && Found(keys, finds, know, trail, le, GetPartition)
      requires trail.plan.b == b
      ensures |finds| == |keys| && book.first == NetworkFirsts(keys, le, GetPartition)
      ensures forall y: nat :: y < |keys| ==>
        BookAnswers(book, keys, y, b) && FromBook(book, keys, y, finds[y], le, GetPartition)
      ensures forall y: nat :: y < |keys| ==> RightResult(keys, y, finds[y])
      ensures forall y: nat :: y < |keys| && !AfterRepeated(keys, y, le, GetPartition) ==>
        SomePlaceRight(keys, finds, y)
      ensures Distinct(keys) ==> forall y: nat :: y < |keys| ==> Answered(keys[y], finds[y])
    {
      hide ShardedMap.InPartition, Knowledge, ShardedMap.RightResult, Known, Working, Found, AfterRepeated, BookRight;
      hide ShardedMap.BookAnswers, FromBook, ShardedMap.Answered, Distinct, ShardedMap.SomePlaceRight, NetworkFirsts;
      FoundSize(keys, finds, know, trail, le, GetPartition);
      book := ResultsReturned(keys, finds, know, trail, le, GetPartition);
      forall y: nat | y < |keys| ensures BookAnswers(book, keys, y, b) { BookIsAnswered(book, keys, y, b); }
      forall y: nat | y < |keys|
        ensures RightResult(keys, y, finds[y]) && (Distinct(keys) ==> Answered(keys[y], finds[y]))
      {
        BookMeans(book, keys, y, finds[y], b);
      }
      forall y: nat | y < |keys| && !AfterRepeated(keys, y, le, GetPartition) ensures SomePlaceRight(keys, finds, y) {
        FirstPlaceRight(book, keys, finds, y, b);
      }
    }

    /** The first `n` results in the order of the keys. */
    method RestoreOrder(out: array<Option<V>>, indexMap: array<nat>, n: nat) returns (res: array<Option<V>>)
      requires n <= out.Length && indexMap.Length == n && n <= 0x8000_0000_0000_0000
      requires multiset(indexMap[..]) == multiset(Ids(n))
      modifies indexMap
      ensures fresh(res) && res[..] == InKeyOrder(old(out[..n]), old(indexMap[..]))
    {
      hide InKeyOrder;
      ghost var finds := InKeyOrder(out[..n], indexMap[..]);
      res := Truncate(out, n);
      SortBack(indexMap, res, n, finds);
    }

    /** Sorts and routes the keys of a lookup. */
    method RouteKeys(keys: seq<K>, b: nat)
      returns (keyinfo: array<Item<K, ()>>, indexMap: array<nat>, prefix1: array<nat>, prefix2: array<nat>, ok: bool,
               ghost s: seq<Item<K, ()>>, ghost plan: Plan)
      requires TotalOrder(le) && 0 < |keys| && b <= |keys| <= P * b < 0x8000_0000_0000_0000
      ensures fresh(keyinfo) && fresh(indexMap) && fresh(prefix1) && fresh(prefix2)
      ensures ok <==> forall j: nat :: j < P ==> |KeysOfPart(keys, GetPartition, j)| <= b
      ensures |s| == indexMap.Length == |keys| && multiset(indexMap[..]) == multiset(Ids(|keys|))
      ensures SortedBatch(keys, seq(|keys|, _ => ()), s, indexMap[..], le, GetPartition)
      ensures NetworkOrder(BatchItems(keys, seq(|keys|, _ => ()), GetPartition), s, indexMap[..], le)
      ensures ok ==> prefix1[..] == plan.p1 && prefix2[..] == plan.p2 && plan.b == b && ComesBack(s, keyinfo[..], plan)
    {
      hide BatchRouted, Rearranged, Arranged, Load, TotalOrder, KeysOfPart, ComesBack, SortedBatch, NetworkOrder;
      ghost var units := seq(|keys|, _ => ());
      keyinfo := BuildItems(keys, seq(|keys|, _ => ()), b, ());
      var total;
      indexMap, prefix1, prefix2, total, ok, s, plan := Route(keyinfo, |keys|, b, false, le, GetPartition);
      BatchIsSorted(keys, units, s, indexMap[..], le, GetPartition);
      BatchLoads(keys, units, s, indexMap[..], le, GetPartition, b);
    }

    /** Sorts and routes the items of an insertion. */
    method RouteItems(keys: seq<K>, values: seq<V>, b: nat)
      returns (keyinfo: array<Item<K, V>>, total: nat, ok: bool, ghost sent: seq<multiset<Element<K, V>>>)
      requires TotalOrder(le) && 0 < |keys| == |values| && b <= |keys| <= P * b < 0x8000_0000_0000_0000
      ensures fresh(keyinfo) && keyinfo.Length == P * b && |sent| == P
      ensures ok <==> forall j: nat :: j < P ==> |KeysOfPart(keys, GetPartition, j)| <= b
      ensures forall j :: 0 <= j < P ==> Chosen(sent[j], keys, values, GetPartition, j)
      ensures forall j: nat :: j < P ==> sent[j] == SentItems(keys, values, le, GetPartition, j)
      ensures ok ==> total == |set k | k in keys|
      ensures ok ==> SharesFor(SharesOf(keyinfo[..], b), sent, keys, GetPartition, le, b)
    {
      hide BatchRouted, Rearranged, Arranged, Load, TotalOrder, KeysOfPart, SortedBatch, Padded, Chosen, Delivered,
           Share, Firsts, NetworkOrder, Sorting, ItemLe;
      keyinfo := BuildItems(keys, values, b, dflt.value);
      var indexMap, prefix1, prefix2;
      ghost var s, plan;
      indexMap, prefix1, prefix2, total, ok, s, plan := Route(keyinfo, |keys|, b, true, le, GetPartition);
      BatchIsSorted(keys, values, s, indexMap[..], le, GetPartition);
      BatchLoads(keys, values, s, indexMap[..], le, GetPartition, b);
      NetworkSortsItems(BatchItems(keys, values, GetPartition), s, indexMap[..], le);
      sent := seq(P, j requires 0 <= j < P => Delivered(Firsts(s, |s|), j));
      forall j: nat | j < P ensures Chosen(sent[j], keys, values, GetPartition, j) {
        FirstsAreChosen(keys, values, s, indexMap[..], le, GetPartition, j);
      }
      if ok {
        forall j: nat | j < P
          ensures Delivered(Share(keyinfo[..], b, j, b), j) == sent[j]
          ensures InKeyOrderFirst(Share(keyinfo[..], b, j, b), |KeysOfPart(keys, GetPartition, j)|, j, le)
        {
          ShareDelivers(s, keyinfo[..], plan, le, GetPartition, j);
          ShareInOrder(s, keyinfo[..], plan, le, GetPartition, j);
          LoadOfPart(keys, values, s, indexMap[..], le, GetPartition, j);
          RoutedLoads(s, keyinfo[..], plan, j);
        }
      }
    }

    /** Inserts a batch of keys, each once and with one of its values, whether or not the map holds it already; `sent`
        is what each worker is to insert. The value is the one that the sorting network brings forward, which is the
        first one for different keys and for batches of one or two. `ok` is false, and nothing happens, when some
        partition gets more than `b` different keys. Otherwise each worker makes the insertions of its share: its keys
        in increasing order, and then as many that are not real as there is padding. `done` is false when a worker
        stopped because its queue was full, which no worker does that holds and is sent less than two buckets and a
        queue together. */
    method InsertBatch(keys: seq<K>, values: seq<V>, b: nat)
      returns (ok: bool, done: bool, ghost sent: seq<multiset<Element<K, V>>>, ghost c: Course<K, V>)
      requires Valid() && 0 < |keys| == |values| && b <= |keys| <= P * b < 0x8000_0000_0000_0000
      modifies this`size, workers, QueuesOf(workers)
      ensures Valid() && |sent| == P
      ensures ok <==> forall j: nat :: j < P ==> |KeysOfPart(keys, GetPartition, j)| <= b
      ensures !ok ==> !done && size == old(size) && StatesOf(workers) == old(StatesOf(workers))
      ensures ok ==> size == old(size) + |set k | k in keys|
      ensures forall j :: 0 <= j < P ==> Chosen(sent[j], keys, values, GetPartition, j)
      ensures forall j: nat :: j < P ==> sent[j] == SentItems(keys, values, le, GetPartition, j)
      ensures |keys| <= 2 || Distinct(keys) ==> SendsFirsts(keys, values, le, GetPartition)
      ensures Gained(old(EntriesOf(workers)), EntriesOf(workers), sent, done)
      ensures ok ==> CourseTaken(old(StatesOf(workers)), StatesOf(workers), HashesOf(workers), c)
      ensures ok ==> SharesFor(c.shares, sent, keys, GetPartition, le, b)
      ensures ok ==> if done then Finished(c) else Stopped(StatesOf(workers), c)
      ensures ok && Roomy(old(EntriesOf(workers)), sent) ==> done
    {
      hide TotalOrder, KeysOfPart, Chosen, Delivered, Share, Working, EntriesOf, ShardedMap.InPartition, Finished;
      hide Stopped, CourseTaken, Gained, SentItems, SendsFirsts, StatesOf, HashesOf, Roomy, SharesFor, Held;
      hide Steady;
      if |keys| <= 2 || Distinct(keys) { FewSendFirsts(keys, values, le, GetPartition); }
      ghost var before, states := EntriesOf(workers), StatesOf(workers);
      StatesHold(workers);
      var keyinfo, total;
      keyinfo, total, ok, sent := RouteItems(keys, values, b);
      assert EntriesOf(workers) == before && StatesOf(workers) == states;
      GainsNothing(before, sent);
      done, c := false, Course([], [], []);
      if !ok { return; }
      size := size + total;
      var routed := keyinfo[..];
      done, c := SendInserts(workers, routed, b);
      StatesHold(workers);
      SharesDeliver(c.shares, sent, keys, GetPartition, le, b);
      GainsTaken(before, EntriesOf(workers), states, StatesOf(workers), HashesOf(workers), c, sent, done);
      if !done { StoppedHasNoRoom(before, EntriesOf(workers), StatesOf(workers), c, sent); }
      GainsInPlace(keys, values, before, EntriesOf(workers), sent, done);
    }

    /** What was chosen for each partition belongs there. */
    lemma GainsInPlace(keys: seq<K>, values: seq<V>, before: seq<multiset<Element<K, V>>>,
                       now: seq<multiset<Element<K, V>>>, sent: seq<multiset<Element<K, V>>>, done: bool)
      requires |keys| == |values| && InPartition(before) && Gained(before, now, sent, done)
      requires forall j :: 0 <= j < |sent| ==> Chosen(sent[j], keys, values, GetPartition, j)
      ensures InPartition(now)
    {
      hide UniqueKeys;
      forall j, e | 0 <= j < |now| && e in now[j] ensures GetPartition(e.key) == j {
        assert e in before[j] + sent[j];
        assert Chosen(sent[j], keys, values, GetPartition, j);
      }
    }
  }

  /** Every worker has gained what it was sent, or at least nothing else. */
  ghost predicate Gained<K, V>(before: seq<multiset<Element<K, V>>>, now: seq<multiset<Element<K, V>>>,
                               sent: seq<multiset<Element<K, V>>>, done: bool) {
    && |before| == |now| == |sent|
    && forall j :: 0 <= j < |now| ==>
      if done then now[j] == before[j] + sent[j] else before[j] <= now[j] <= before[j] + sent[j]
  }

  lemma GainsNothing<K, V>(before: seq<multiset<Element<K, V>>>, sent: seq<multiset<Element<K, V>>>)
    requires |before| == |sent|
    ensures Gained(before, before, sent, false)
  {
  }

  lemma SharesDeliver<K(!new), V(!new)>(shares: seq<seq<Item<K, V>>>, sent: seq<multiset<Element<K, V>>>,
                                        keys: seq<K>, part: K -> nat, le: (K, K) -> bool, b: nat)
    requires SharesFor(shares, sent, keys, part, le, b)
    ensures |shares| == |sent| == P && forall j :: 0 <= j < P ==> Delivered(shares[j], j) == sent[j]
  {
    hide Delivered;
  }

  lemma GainsTaken<K, V>(before: seq<multiset<Element<K, V>>>, now: seq<multiset<Element<K, V>>>,
                         states: seq<State<K, V>>, states': seq<State<K, V>>, hashes: seq<nat -> K -> nat>,
                         c: Course<K, V>, sent: seq<multiset<Element<K, V>>>, done: bool)
    requires |before| == |now| == |sent| == P && CourseTaken(states, states', hashes, c) && (done ==> Finished(c))
    requires forall j :: 0 <= j < P ==> IsState(states'[j])
    requires forall j :: 0 <= j < P ==> before[j] == Held(states[j]) && now[j] == Held(states'[j])
    requires forall j :: 0 <= j < P ==> Delivered(c.shares[j], j) == sent[j]
    ensures Gained(before, now, sent, done)
  {
    hide Delivered, Held, InsertedAll;
    forall j | 0 <= j < P
      ensures if done then now[j] == before[j] + sent[j] else before[j] <= now[j] <= before[j] + sent[j]
    {
      var share, count := c.shares[j], c.counts[j];
      assert InsertsMade(states[j], states'[j], hashes[j], share, j, count, c.draws[j]);
      InsertedHolds(states[j], hashes[j], share[..count], j, c.draws[j]);
      DeliveredPrefix(share, count, j);
      if done { assert share[..count] == share; }
    }
  }

  /** What each worker holds and is sent is together less than two buckets and a queue. */
  ghost predicate Roomy<K, V>(before: seq<multiset<Element<K, V>>>, sent: seq<multiset<Element<K, V>>>) {
    && |before| == |sent| == P
    && forall j :: 0 <= j < P ==> |before[j]| + |sent[j]| < 2 * BUCKET_SIZE + INSERTION_QUEUE_MAX_SIZE
  }

  lemma StoppedHasNoRoom<K, V>(before: seq<multiset<Element<K, V>>>, now: seq<multiset<Element<K, V>>>,
                               states': seq<State<K, V>>, c: Course<K, V>, sent: seq<multiset<Element<K, V>>>)
    requires |before| == |now| == |sent| == P && Gained(before, now, sent, false) && Stopped(states', c)
    requires forall j :: 0 <= j < P ==> IsState(states'[j]) && Steady(states'[j]) && now[j] == Held(states'[j])
    ensures !Roomy(before, sent)
  {
    hide Steady, Held;
    var j :| 0 <= j < P && c.counts[j] < |c.shares[j]| && |states'[j].waiting| == INSERTION_QUEUE_MAX_SIZE;
    FullQueueMeans(states'[j]);
    SubsetSize(now[j], before[j] + sent[j]);
    assert |before[j] + sent[j]| == |before[j]| + |sent[j]|;
  }

  lemma DistinctOnce<K>(keys: seq<K>, x: nat)
    requires Distinct(keys) && x < |keys|
    ensures Once(keys, x)
  {
  }

  lemma BatchIsSorted<K(!new), V>(keys: seq<K>, values: seq<V>, s: seq<Item<K, V>>, im: seq<nat>,
                                  le: (K, K) -> bool, part: K -> nat)
    requires |keys| == |values| && TotalOrder(le) && (forall k :: part(k) < P)
    requires Rearranged(BatchItems(keys, values, part), s, im) && Arranged(s, le, part)
    ensures SortedBatch(keys, values, s, im, le, part)
    ensures |im| == |keys| && multiset(im) == multiset(Ids(|im|))
  {
    hide TotalOrder, Arranged;
  }

  lemma {:induction false} RoutedLoads<K(!new), V>(s: seq<Item<K, V>>, routed: seq<Item<K, V>>, plan: Plan, j: nat)
    requires BatchRouted(s, routed, plan) && j < P
    ensures plan.load[j] == Load(s, |s|, j)
  {
  }

  lemma RoutedComesBack<K(!new), V>(s: seq<Item<K, V>>, routed: seq<Item<K, V>>, plan: Plan)
    requires ComesBack(s, routed, plan)
    ensures BatchRouted(s, routed, plan)
  {
  }

  /** How the results of a lookup came about: the sorted batch and where its items come from, the routed batch, and what
      was answered in its slots. */
  datatype Trail<K, R> = Trail(s: seq<Item<K, ()>>, im: seq<nat>, routed: seq<Item<K, ()>>, plan: Plan, wanted: seq<R>)

  /** The results are those of the trail. */
  ghost predicate Found<K(!new), R(!new)>(keys: seq<K>, finds: seq<R>, know: seq<iset<(K, R)>>, t: Trail<K, R>,
                                          le: (K, K) -> bool, part: K -> nat) {
    && SortedBatch(keys, seq(|keys|, _ => ()), t.s, t.im, le, part)
    && NetworkOrder(BatchItems(keys, seq(|keys|, _ => ()), part), t.s, t.im, le)
    && |t.s| == |t.im| == |keys| && multiset(t.im) == multiset(Ids(|t.im|))
    && ComesBack(t.s, t.routed, t.plan) && AllKnown(know, t.routed, t.wanted, t.plan.b)
    && |t.plan.p1| == |t.s| + 1 <= |t.plan.p2| == |t.wanted| + 1 && Steps(t.plan.p1) && Steps(t.plan.p2)
    && finds == InKeyOrder(Propagated(WayBack(t.wanted, t.plan.p1, t.plan.p2), t.plan.p1, |t.s|), t.im)
  }

  lemma FoundSize<K(!new), R(!new)>(keys: seq<K>, finds: seq<R>, know: seq<iset<(K, R)>>, t: Trail<K, R>,
                                    le: (K, K) -> bool, part: K -> nat)
    requires Found(keys, finds, know, t, le, part)
    ensures |finds| == |keys|
  {
    hide SortedBatch, ComesBack, AllKnown, Steps, WayBack, Propagated;
  }

  /** What comes back is right, and the prefix sum counts the new items. */
  lemma {:induction false} TrailComesBack<K(!new), R(!new)>(keys: seq<K>, finds: seq<R>, know: seq<iset<(K, R)>>,
                                                            t: Trail<K, R>, le: (K, K) -> bool, part: K -> nat)
    requires Found(keys, finds, know, t, le, part)
    ensures CountsNew(t.plan.p1, t.s)
    ensures AllBack(know, keys, t.s, WayBack(t.wanted, t.plan.p1, t.plan.p2), part, t.plan.b)
  {
    hide SortedBatch, ComesBack, AllKnown, Steps, WayBack, Propagated, BatchRouted, CountsNew, InKeyOrder, RightBack;
    hide FromElsewhere, Load, KeysOfPart, Arranged, TotalOrder;
    var units, back := seq(|keys|, _ => ()), WayBack(t.wanted, t.plan.p1, t.plan.p2);
    BatchSize(keys, units, t.s, t.im, le, part);
    forall i: nat | i < |t.s|
      ensures RightBack(know, t.s, back, i)
      ensures !IsNew(t.s, i) && |KeysOfPart(keys, part, t.s[i].partition)| == t.plan.b ==>
        FromElsewhere(know, t.s, back, i)
    {
      AnswersComeBack(t.s, t.routed, t.plan, le, part, know, t.wanted, i);
      LoadOfPart(keys, units, t.s, t.im, le, part, t.s[i].partition);
      if !IsNew(t.s, i) && |KeysOfPart(keys, part, t.s[i].partition)| == t.plan.b {
        RepeatedElsewhere(t.s, t.routed, t.plan, le, part, know, t.wanted, i);
      }
    }
    RoutedComesBack(t.s, t.routed, t.plan);
    CountsOfPlan(t.s, t.routed, t.plan);
  }

  /** What is returned for each key, from what the shares know. */
  lemma {:induction false} ResultsReturned<K(!new), R(!new)>(keys: seq<K>, finds: seq<R>, know: seq<iset<(K, R)>>,
                                                             t: Trail<K, R>, le: (K, K) -> bool, part: K -> nat)
    returns (book: Book<K, R>)
    requires Found(keys, finds, know, t, le, part) && |finds| == |keys|
    ensures forall y: nat :: y < |keys| ==> BookRight(book, keys, y, know, part, t.plan.b)
    ensures forall y: nat :: y < |keys| ==> FromBook(book, keys, y, finds[y], le, part)
    ensures book.first == NetworkFirsts(keys, le, part)
  {
    hide NetworkOrder, NetworkFirsts, SortedBatch, ComesBack, AllKnown, Steps, WayBack, Propagated, BatchRouted,
         CountsNew, InKeyOrder;
    hide BookRight, FromBook, MakeBook, AllBack, HasSlot;
    var s, im, plan, units := t.s, t.im, t.plan, seq(|keys|, _ => ());
    var back := WayBack(t.wanted, plan.p1, plan.p2);
    TrailComesBack(keys, finds, know, t, le, part);
    EveryKeyHasSlot(keys, units, s, im, le, part);
    book := MakeBook(keys, s, im, back);
    BookHasNetworkFirsts(keys, s, im, back, le, part);
    forall y: nat | y < |keys|
      ensures BookRight(book, keys, y, know, part, plan.b) && FromBook(book, keys, y, finds[y], le, part)
    {
      BookIsRight(keys, units, s, im, le, part, back, know, plan.b, y);
      var i := IndexHits(keys, units, s, im, le, part, y);
      ResultIs(keys, units, s, im, le, part, plan.p1, back, i);
    }
  }

  lemma CountsOfPlan<K(!new), V>(s: seq<Item<K, V>>, routed: seq<Item<K, V>>, plan: Plan)
    requires BatchRouted(s, routed, plan)
    ensures CountsNew(plan.p1, s)
  {
  }

  lemma NoWorkers<K(!new), V(!new)>(hashes: nat -> nat -> K -> nat, n: nat, dflt: Element<K, V>)
    ensures Working<K, V>([]) && Started(StatesOf<K, V>([]), EntriesOf<K, V>([]), HashesOf<K, V>([]), hashes, n, dflt)
  {
  }

  lemma OneMoreWorker<K(!new), V(!new)>(ws: seq<UnsortedMap<K, V>>, w: UnsortedMap<K, V>)
    requires Working(ws) && InOrder(w) && forall v :: v in ws ==> v != w && v.queue != w.queue
    ensures Working(ws + [w]) && StatesOf(ws + [w]) == StatesOf(ws) + [w.Now()]
    ensures EntriesOf(ws + [w]) == EntriesOf(ws) + [w.Entries()] && HashesOf(ws + [w]) == HashesOf(ws) + [w.hash]
  {
    hide InOrder, UnsortedMap.Valid, UnsortedMap.Entries, Held, Steady;
    WorksWithOneMore(ws, w);
  }

  lemma WorksWithOneMore<K(!new), V(!new)>(ws: seq<UnsortedMap<K, V>>, w: UnsortedMap<K, V>)
    requires Working(ws) && InOrder(w) && forall v :: v in ws ==> v != w && v.queue != w.queue
    ensures Working(ws + [w])
  {
    hide InOrder;
    forall i | 0 <= i <= |ws| ensures (ws + [w])[i] in ws + [w] && (ws + [w])[i].queue in QueuesOf(ws + [w]) {
      assert (ws + [w])[i] in ws + [w];
    }
  }

  /** New keys stay unique in their partition. */
  lemma NewKeysStayUnique<K(!new), V(!new)>(keys: seq<K>, values: seq<V>, part: K -> nat, j: nat,
                                            before: multiset<Element<K, V>>, sent: multiset<Element<K, V>>)
    requires |keys| == |values| && UniqueKeys(before) && Chosen(sent, keys, values, part, j)
    requires forall e :: e in before ==> e.key !in keys
    ensures UniqueKeys(before + sent)
  {
    forall e, f | e in before + sent && f in before + sent && e.key == f.key ensures e == f && (before + sent)[e] == 1 {
      if e in sent { assert e.key in keys; }
      if f in sent { assert f.key in keys; }
    }
  }
}
