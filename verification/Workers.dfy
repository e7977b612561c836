/** The workers of the sharded map: each holds the cuckoo map of one partition. */
module Workers {
  import opened Options
  import opened Randomness
  import opened BatchRouting
  import opened UnsortedMap
  import opened InsertionLaws
  import opened ShortQueue

  // ---------------------------------------------------------------- the workers

  /** The worker's answer for `key`: the value at the last of the places where a lookup looks that hold the key. */
  ghost predicate Answers<K(!new), V(!new)>(m: UnsortedMap<K, V>, key: K, r: Option<V>)
    requires m.Valid()
    reads m, m.queue
    ensures Answers(m, key, r) ==> (r.Some? <==> m.Visible(key))
    ensures Answers(m, key, r) && r.Some? ==> Element(key, r.value) in m.Entries()
  {
    m.MatchIsStored(key, r);
    LastMatch(m.Places(key), key, r)
  }

  /** There is one answer for each key. */
  lemma OneAnswer<K(!new), V(!new)>(m: UnsortedMap<K, V>, key: K, r: Option<V>, t: Option<V>)
    requires m.Valid() && Answers(m, key, r) && Answers(m, key, t)
    ensures r == t
  {
    hide UnsortedMap.Valid, UnsortedMap.Entries, UnsortedMap.Places, UnsortedMap.Visible, LastMatch;
    LastMatchIsOnly(m.Places(key), key, r, t);
  }

  /** The worker's answer to a stretch of keys. */
  method AnswerGet<K(==, !new), V(!new)>(m: UnsortedMap<K, V>, blocks: seq<K>) returns (values: seq<Option<V>>)
    requires m.Valid()
    ensures |values| == |blocks| && forall i :: 0 <= i < |blocks| ==> Answers(m, blocks[i], values[i])
  {
    hide UnsortedMap.Valid, UnsortedMap.Visible, UnsortedMap.Entries, UnsortedMap.Places, LastMatch;
    values := [];
    for i := 0 to |blocks|
      invariant |values| == i && forall j :: 0 <= j < i ==> Answers(m, blocks[j], values[j])
    {
      var value, isSome := m.Get(blocks[i], m.dflt.value);
      values := values + [if isSome then Some(value) else None];
    }
  }

  /** The entries that a worker takes from the items it is sent: those of its own partition. */
  ghost function Delivered<K, V>(items: seq<Item<K, V>>, pid: nat): multiset<Element<K, V>> {
    if items == [] then multiset{}
    else
      var x := items[|items| - 1];
      Delivered(items[..|items| - 1], pid) +
        (if x.partition == pid then multiset{Element(x.key, x.value)} else multiset{})
  }

  lemma {:induction false} DeliveredConcat<K, V>(a: seq<Item<K, V>>, c: seq<Item<K, V>>, pid: nat)
    ensures Delivered(a + c, pid) == Delivered(a, pid) + Delivered(c, pid)
  {
    if c == [] {
      assert a + c == a;
    } else {
      var c' := c[..|c| - 1];
      assert (a + c)[..|a + c| - 1] == a + c';
      DeliveredConcat(a, c', pid);
    }
  }

  lemma {:induction false} DeliveredMore<K, V>(items: seq<Item<K, V>>, i: nat, pid: nat)
    requires i < |items|
    ensures Delivered(items[..i + 1], pid) == Delivered(items[..i], pid) +
            (if items[i].partition == pid then multiset{Element(items[i].key, items[i].value)} else multiset{})
  {
    assert items[..i + 1][..i] == items[..i];
  }

  lemma {:induction false} DeliveredPrefix<K, V>(items: seq<Item<K, V>>, i: nat, pid: nat)
    requires i <= |items|
    ensures Delivered(items[..i], pid) <= Delivered(items, pid)
  {
    assert items == items[..i] + items[i..];
    DeliveredConcat(items[..i], items[i..], pid);
  }

  lemma {:induction false} NoneDelivered<K, V>(items: seq<Item<K, V>>, pid: nat)
    requires forall i :: 0 <= i < |items| ==> items[i].partition != pid
    ensures Delivered(items, pid) == multiset{}
  {
    if items != [] { NoneDelivered(items[..|items| - 1], pid); }
  }

  /** Whoever holds a delivered entry was sent it. */
  lemma {:induction false} DeliveredFrom<K, V>(items: seq<Item<K, V>>, pid: nat, e: Element<K, V>) returns (r: nat)
    requires e in Delivered(items, pid)
    ensures r < |items| && items[r].partition == pid && e == Element(items[r].key, items[r].value)
  {
    var n := |items| - 1;
    if items[n].partition == pid && e == Element(items[n].key, items[n].value) {
      r := n;
    } else {
      r := DeliveredFrom(items[..n], pid, e);
    }
  }

  lemma {:induction false} DeliveredHas<K, V>(items: seq<Item<K, V>>, pid: nat, r: nat)
    requires r < |items| && items[r].partition == pid
    ensures Element(items[r].key, items[r].value) in Delivered(items, pid)
  {
    if r < |items| - 1 { DeliveredHas(items[..|items| - 1], pid, r); }
  }

  /** Different keys are delivered once each. */
  lemma {:induction false} DeliveredUnique<K(!new), V(!new)>(items: seq<Item<K, V>>, pid: nat)
    requires forall r, t :: 0 <= r < t < |items| ==> items[r].key != items[t].key
    ensures UniqueKeys(Delivered(items, pid))
  {
    hide UniqueKeys;
    if items == [] {
      NothingUnique<K, V>();
    } else {
      var n := |items| - 1;
      var m, x := Delivered(items[..n], pid), Element(items[n].key, items[n].value);
      DeliveredUnique(items[..n], pid);
      forall e | e in m ensures e.key != x.key { var r := DeliveredFrom(items[..n], pid, e); }
      UniqueAfterInsert(m, x);
      assert m + multiset{} == m;
    }
  }

  lemma NothingUnique<K(!new), V(!new)>()
    ensures UniqueKeys<K, V>(multiset{})
  {
  }

  /** The random numbers of one insertion. */
  method RandomDraws() returns (draws: seq<(nat, nat)>)
    ensures AreDraws(draws)
  {
    draws := [];
    for i := 0 to DEAMORTIZED_INSERTIONS
      invariant |draws| == i && forall j :: 0 <= j < i ==> draws[j].0 < BUCKET_SIZE && draws[j].1 < BUCKET_SIZE
    {
      var one := RandomPosition(BUCKET_SIZE);
      var zero := RandomPosition(BUCKET_SIZE);
      draws := draws + [(one, zero)];
    }
  }

  /** One insertion for each item, real for those of the worker's own partition. The worker stops when its queue is
      full, at the assertion of the insertion; `count` is the number of items it got through, and `draws` are the random
      numbers of their insertions. */
  method HandleInsert<K(==, !new), V(!new)>(m: UnsortedMap<K, V>, blocks: seq<Item<K, V>>, pid: nat)
    returns (count: nat, ghost draws: seq<seq<(nat, nat)>>)
    requires m.Valid()
    modifies m, m.queue
    ensures m.Valid() && count <= |blocks| && |draws| == count && AllDraws(draws)
    ensures m.Now() == InsertedAll(old(m.Now()), m.hash, blocks[..count], pid, draws)
    ensures m.Entries() == old(m.Entries()) + Delivered(blocks[..count], pid)
    ensures m.size == old(m.size) + |Delivered(blocks[..count], pid)|
    ensures count < |blocks| ==> m.queue.size == INSERTION_QUEUE_MAX_SIZE
  {
    hide UnsortedMap.Valid, UnsortedMap.Entries, Delivered, Deamortized, Pushed;
    NothingDelivered(blocks, pid);
    QueueWithinBounds(m);
    draws := [];
    for i := 0 to |blocks|
      invariant m.Valid() && m.Entries() == old(m.Entries()) + Delivered(blocks[..i], pid)
      invariant m.size == old(m.size) + |Delivered(blocks[..i], pid)|
      invariant |draws| == i && AllDraws(draws)
      invariant m.Now() == InsertedAll(old(m.Now()), m.hash, blocks[..i], pid, draws)
      invariant m.queue.size <= INSERTION_QUEUE_MAX_SIZE
    {
      if m.queue.size == INSERTION_QUEUE_MAX_SIZE { return i, draws; }
      DeliveredMore(blocks, i, pid);
      var isReal := blocks[i].partition == pid;
      var drawn := RandomDraws();
      m.InsertCond(blocks[i].key, blocks[i].value, isReal, drawn);
      InsertedOneMore(old(m.Now()), m.hash, blocks, i, pid, draws, drawn);
      draws := draws + [drawn];
    }
    count := |blocks|;
  }

  lemma {:induction false} InsertedOneMore<K, V>(s: State<K, V>, hash: nat -> K -> nat, items: seq<Item<K, V>>, i: nat,
                                                 pid: nat, draws: seq<seq<(nat, nat)>>, d: seq<(nat, nat)>)
    requires IsState(s) && i < |items| && |draws| == i && AllDraws(draws) && AreDraws(d)
    ensures AllDraws(draws + [d])
    ensures InsertedAll(s, hash, items[..i + 1], pid, draws + [d]) ==
            Inserted(InsertedAll(s, hash, items[..i], pid, draws), hash, items[i].partition == pid,
                     Element(items[i].key, items[i].value), d)
  {
    hide Inserted;
    assert items[..i + 1][..i] == items[..i] && (draws + [d])[..i] == draws;
  }

  lemma {:induction false} NothingDelivered<K, V>(items: seq<Item<K, V>>, pid: nat)
    ensures Delivered(items[..0], pid) == multiset{}
  {
  }

  lemma QueueWithinBounds<K(!new), V(!new)>(m: UnsortedMap<K, V>)
    requires m.Valid()
    ensures m.queue.size <= INSERTION_QUEUE_MAX_SIZE
  {
  }

  /** Insertions add the items of the partition, and nothing else. */
  lemma {:induction false} InsertedHolds<K, V>(s: State<K, V>, hash: nat -> K -> nat, items: seq<Item<K, V>>, pid: nat,
                                               draws: seq<seq<(nat, nat)>>)
    requires IsState(s) && |draws| == |items| && AllDraws(draws)
    ensures Held(InsertedAll(s, hash, items, pid, draws)) == Held(s) + Delivered(items, pid)
  {
    hide Held, Inserted;
    if items != [] {
      var n := |items| - 1;
      InsertedHolds(s, hash, items[..n], pid, draws[..n]);
      InsertedBalance(InsertedAll(s, hash, items[..n], pid, draws[..n]), hash, items[n].partition == pid,
                      Element(items[n].key, items[n].value), draws[n]);
    }
  }

  // ---------------------------------------------------------------- all workers together

  ghost function QueuesOf<K(!new), V(!new)>(ws: seq<UnsortedMap<K, V>>): set<ShortQueue<Element<K, V>>> {
    set w | w in ws :: w.queue
  }

  /** A map in working order, as insertions leave it. */
  ghost predicate InOrder<K(!new), V(!new)>(m: UnsortedMap<K, V>)
    reads m, m.queue
    ensures InOrder(m) ==> m.Valid()
  {
    m.Valid() && Steady(m.Now())
  }

  lemma NewIsInOrder<K(!new), V(!new)>(m: UnsortedMap<K, V>)
    requires m.Valid() && m.Now().waiting == []
    ensures InOrder(m) && m.Entries() == Held(m.Now())
  {
  }

  /** Different maps in working order, none of them sharing a queue. */
  ghost predicate Working<K(!new), V(!new)>(ws: seq<UnsortedMap<K, V>>)
    reads ws, QueuesOf(ws)
  {
    && (forall i, j :: 0 <= i < j < |ws| ==> ws[i] != ws[j] && ws[i].queue != ws[j].queue)
    && (forall i :: 0 <= i < |ws| ==> ws[i] in ws && ws[i].queue in QueuesOf(ws) && InOrder(ws[i]))
  }

  /** The entries of every partition. */
  ghost function EntriesOf<K(!new), V(!new)>(ws: seq<UnsortedMap<K, V>>): (r: seq<multiset<Element<K, V>>>)
    requires Working(ws)
    reads ws, QueuesOf(ws)
    ensures |r| == |ws| && forall i :: 0 <= i < |ws| ==> r[i] == ws[i].Entries()
  {
    seq(|ws|, i requires 0 <= i < |ws| && Working(ws) reads ws, QueuesOf(ws) => ws[i].Entries())
  }

  /** Tables and queue of every worker. */
  ghost function StatesOf<K(!new), V(!new)>(ws: seq<UnsortedMap<K, V>>): (r: seq<State<K, V>>)
    requires Working(ws)
    reads ws, QueuesOf(ws)
    ensures |r| == |ws| && forall i :: 0 <= i < |ws| ==> r[i] == ws[i].Now() && IsState(r[i])
  {
    seq(|ws|, i requires 0 <= i < |ws| && Working(ws) reads ws, QueuesOf(ws) => ws[i].Now())
  }

  lemma StatesHold<K(!new), V(!new)>(ws: seq<UnsortedMap<K, V>>)
    requires Working(ws)
    ensures forall i :: 0 <= i < |ws| ==> Steady(StatesOf(ws)[i]) && Held(StatesOf(ws)[i]) == EntriesOf(ws)[i]
  {
    hide TableEntries, TablesShaped;
  }

  /** The hash functions of every worker. */
  ghost function HashesOf<K(!new), V(!new)>(ws: seq<UnsortedMap<K, V>>): (r: seq<nat -> K -> nat>)
    ensures |r| == |ws| && forall i :: 0 <= i < |ws| ==> r[i] == ws[i].hash
  {
    seq<nat -> K -> nat>(|ws|, i requires 0 <= i < |ws| => ws[i].hash)
  }

  /** What the workers may answer. */
  ghost function Knowledge<K(!new), V(!new)>(ws: seq<UnsortedMap<K, V>>): (know: seq<iset<(K, Option<V>)>>)
    requires Working(ws)
    reads ws, QueuesOf(ws)
    ensures |know| == |ws|
    ensures forall j, k, r :: 0 <= j < |ws| ==> ((k, r) in know[j] <==> Answers(ws[j], k, r))
  {
    seq(|ws|, j requires 0 <= j < |ws| && Working(ws) reads ws, QueuesOf(ws) =>
      iset k: K, r: Option<V> | Answers(ws[j], k, r) :: (k, r))
  }

  /** Sends a stretch of items to worker `j`, which gets through the first `count`; no other worker changes. */
  method SendStretch<K(==, !new), V(!new)>(ws: seq<UnsortedMap<K, V>>, j: nat, blocks: seq<Item<K, V>>)
    returns (count: nat, ghost draws: seq<seq<(nat, nat)>>)
    requires Working(ws) && j < |ws|
    modifies ws, QueuesOf(ws)
    ensures Working(ws) && count <= |blocks| && |draws| == count && AllDraws(draws)
    ensures StatesOf(ws) ==
            old(StatesOf(ws))[j := InsertedAll(old(StatesOf(ws))[j], HashesOf(ws)[j], blocks[..count], j, draws)]
    ensures count < |blocks| ==> |StatesOf(ws)[j].waiting| == INSERTION_QUEUE_MAX_SIZE
  {
    hide UnsortedMap.Valid, UnsortedMap.Entries, Delivered, InsertedAll, Steady, Held;
    assert ws[j] in ws && ws[j].queue in QueuesOf(ws);
    ghost var before := StatesOf(ws);
    StatesHold(ws);
    count, draws := HandleInsert(ws[j], blocks, j);
    StaysSteady(before[j], ws[j].hash, blocks[..count], j, draws);
    forall i | 0 <= i < |ws| ensures ws[i] in ws && ws[i].queue in QueuesOf(ws) && InOrder(ws[i]) {
      assert ws[i] in ws;
    }
    assert StatesOf(ws) == before[j := InsertedAll(before[j], ws[j].hash, blocks[..count], j, draws)];
  }
}
