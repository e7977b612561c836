/** What insertions do to a cuckoo map, whatever the hash functions and the random numbers are. */
module InsertionLaws {
  import opened Options
  import opened Sequences
  import opened BatchRouting
  import opened UnsortedMap

  ghost predicate IsState<K, V>(s: State<K, V>) {
    TablesShaped(s.table) && |s.at| == |s.waiting|
  }

  /** One insertion; one that is not real only makes the tries. */
  function Inserted<K, V>(s: State<K, V>, hash: nat -> K -> nat, isReal: bool, e: Element<K, V>,
                          draws: seq<(nat, nat)>): (r: State<K, V>)
    requires TablesShaped(s.table) && |s.at| == |s.waiting| && AreDraws(draws)
    ensures TablesShaped(r.table) && |r.at| == |r.waiting|
  {
    Deamortized(if isReal then Pushed(s, e) else s, hash, draws, DEAMORTIZED_INSERTIONS)
  }

  predicate AllDraws(draws: seq<seq<(nat, nat)>>) {
    forall i :: 0 <= i < |draws| ==> AreDraws(draws[i])
  }

  /** One insertion for each item; it is real for the items of partition `pid`. */
  function InsertedAll<K, V>(s: State<K, V>, hash: nat -> K -> nat, items: seq<Item<K, V>>, pid: nat,
                             draws: seq<seq<(nat, nat)>>): (r: State<K, V>)
    requires TablesShaped(s.table) && |s.at| == |s.waiting| && |draws| == |items| && AllDraws(draws)
    ensures TablesShaped(r.table) && |r.at| == |r.waiting|
  {
    if items == [] then s
    else
      var n := |items| - 1;
      Inserted(InsertedAll(s, hash, items[..n], pid, draws[..n]), hash, items[n].partition == pid,
               Element(items[n].key, items[n].value), draws[n])
  }

  lemma {:induction false} InsertedAllConcat<K, V>(s: State<K, V>, hash: nat -> K -> nat, a: seq<Item<K, V>>,
                                                   c: seq<Item<K, V>>, pid: nat, da: seq<seq<(nat, nat)>>,
                                                   dc: seq<seq<(nat, nat)>>)
    requires IsState(s) && |da| == |a| && |dc| == |c| && AllDraws(da) && AllDraws(dc)
    ensures AllDraws(da + dc)
    ensures InsertedAll(s, hash, a + c, pid, da + dc) ==
            InsertedAll(InsertedAll(s, hash, a, pid, da), hash, c, pid, dc)
  {
    hide Inserted;
    if c == [] {
      assert a + c == a && da + dc == da;
    } else {
      var n := |c| - 1;
      assert (a + c)[..|a| + n] == a + c[..n] && (da + dc)[..|a| + n] == da + dc[..n];
      InsertedAllConcat(s, hash, a, c[..n], pid, da, dc[..n]);
    }
  }

  // ---------------------------------------------------------------- entries

  /** What the tables hold. */
  ghost function Tabled<K, V>(table: seq<seq<Bucket<K, V>>>): multiset<Element<K, V>>
    requires TablesShaped(table)
  {
    TableEntries(table[0]) + TableEntries(table[1])
  }

  /** What tables and queue hold. */
  ghost function Held<K, V>(s: State<K, V>): multiset<Element<K, V>>
    requires TablesShaped(s.table)
  {
    Tabled(s.table) + multiset(s.waiting)
  }

  ghost function Left<T>(x: Option<T>): multiset<T> {
    match x { case None => multiset{} case Some(y) => multiset{y} }
  }

  lemma {:induction false} FullSlots<K, V>(isValid: seq<bool>, elements: seq<Element<K, V>>)
    requires |isValid| == |elements| && forall i :: 0 <= i < |isValid| ==> isValid[i]
    ensures |Slots(isValid, elements)| == |isValid|
  {
    if isValid != [] { FullSlots(isValid[..|isValid| - 1], elements[..|isValid| - 1]); }
  }

  /** Placing an element loses nothing, and pushes one out of a full bucket only. */
  lemma PlacedBalance<K, V>(b: Bucket<K, V>, e: Element<K, V>, r: nat)
    requires b.Shaped() && r < BUCKET_SIZE
    ensures var p := Placed(b, e, r);
            && p.0.Shaped() && Occupied(p.0) + Left(p.1) == Occupied(b) + multiset{e}
            && (p.1.Some? ==> |Occupied(b)| == BUCKET_SIZE)
  {
    hide Slots, FirstFree;
    var i := FirstFree(b.isValid);
    if i < BUCKET_SIZE {
      SlotChanged(b.isValid, b.elements, i, true, e);
    } else {
      FullSlots(b.isValid, b.elements);
      EvictionBalance(b, r, e);
    }
  }

  lemma {:induction false} BucketWithin<K, V>(t: seq<Bucket<K, V>>, j: nat)
    requires TableShaped(t) && j < |t|
    ensures Occupied(t[j]) <= TableEntries(t)
  {
    hide Occupied;
    if j < |t| - 1 { BucketWithin(t[..|t| - 1], j); }
  }

  lemma Exchanged<T>(t': multiset<T>, b: multiset<T>, t: multiset<T>, b': multiset<T>, x: multiset<T>, e: multiset<T>)
    requires t' + b == t + b' && b' + x == b + e
    ensures t' + x == t + e
  {
    assert (t' + x) + b == (t' + b) + x == (t + b') + x == t + (b' + x) == t + (b + e) == (t + e) + b;
    CancelRight(t' + x, t + e, b);
  }

  /** A try in one table loses nothing, and pushes an element out of a full bucket only. */
  lemma TriedOneBalance<K, V>(table: seq<seq<Bucket<K, V>>>, hash: K -> nat, t: nat, e: Element<K, V>, r: nat)
    requires TablesShaped(table) && t < 2 && r < BUCKET_SIZE
    ensures var p := TriedOne(table, hash, t, e, r);
            && p.0[1 - t] == table[1 - t] && TableShaped(p.0[t]) && TableShaped(table[t])
            && TableEntries(p.0[t]) + Left(p.1) == TableEntries(table[t]) + multiset{e}
            && (p.1.Some? ==> |TableEntries(table[t])| >= BUCKET_SIZE)
  {
    hide Occupied, TableEntries, Placed;
    var j := hash(e.key) % |table[t]|;
    var b := table[t][j];
    var p := Placed(b, e, r);
    PlacedBalance(b, e, r);
    BucketChanged(table[t], j, p.0);
    BucketWithin(table[t], j);
    Exchanged(TableEntries(table[t][j := p.0]), Occupied(b), TableEntries(table[t]), Occupied(p.0), Left(p.1),
              multiset{e});
    if p.1.Some? { SubsetSize(Occupied(b), TableEntries(table[t])); }
  }

  lemma SubsetSize<T>(a: multiset<T>, b: multiset<T>)
    requires a <= b
    ensures |a| <= |b|
  {
    assert b == a + (b - a);
  }

  lemma TwoTables<T>(a': multiset<T>, x: multiset<T>, a: multiset<T>, e: multiset<T>, c': multiset<T>, y: multiset<T>,
                     c: multiset<T>)
    requires a' + x == a + e && c' + y == c + x
    ensures (c' + a') + y == (c + a) + e
  {
    assert (c' + a') + y == (c' + y) + a' == (c + x) + a' == c + (a' + x) == c + (a + e) == (c + a) + e;
  }

  /** A try loses nothing. It leaves an element over only when it met two full buckets, one in each table. */
  lemma TriedBalance<K, V>(table: seq<seq<Bucket<K, V>>>, hash: nat -> K -> nat, e: Element<K, V>, draws: (nat, nat))
    requires TablesShaped(table) && draws.0 < BUCKET_SIZE && draws.1 < BUCKET_SIZE
    ensures var p := Tried(table, hash, e, draws);
            && Tabled(p.0) + Left(p.1) == Tabled(table) + multiset{e}
            && (p.1.Some? ==> |Tabled(p.0)| == |Tabled(table)| >= 2 * BUCKET_SIZE)
            && |Tabled(p.0)| >= |Tabled(table)|
  {
    hide TableEntries, TriedOne;
    TriedOneBalance(table, hash(1), 1, e, draws.0);
    var one := TriedOne(table, hash(1), 1, e, draws.0);
    if one.1.Some? {
      var x := one.1.value;
      TriedOneBalance(one.0, hash(0), 0, x, draws.1);
      var p := TriedOne(one.0, hash(0), 0, x, draws.1);
      TwoTables(TableEntries(one.0[1]), multiset{x}, TableEntries(table[1]), multiset{e}, TableEntries(p.0[0]),
                Left(p.1), TableEntries(one.0[0]));
    } else {
      TwoTables(TableEntries(one.0[1]), multiset{}, TableEntries(table[1]), multiset{e}, TableEntries(table[0]),
                multiset{}, TableEntries(table[0]));
    }
    var p := Tried(table, hash, e, draws);
    SizesBalance(Tabled(p.0), p.1, Tabled(table), e);
  }

  lemma SizesBalance<T>(t': multiset<T>, x: Option<T>, t: multiset<T>, e: T)
    requires t' + Left(x) == t + multiset{e}
    ensures |t'| == |t| + if x.Some? then 0 else 1
  {
    assert |t' + Left(x)| == |t'| + |Left(x)| && |t + multiset{e}| == |t| + 1;
  }

  // ---------------------------------------------------------------- who has to wait

  /** Elements wait only when the tables hold at least two full buckets. */
  ghost predicate Steady<K, V>(s: State<K, V>)
    requires TablesShaped(s.table)
  {
    s.waiting != [] ==> |Tabled(s.table)| >= 2 * BUCKET_SIZE
  }

  lemma Requeued<T>(t': multiset<T>, x: multiset<T>, t: multiset<T>, e: multiset<T>, rest: multiset<T>, w: multiset<T>)
    requires t' + x == t + e && w == e + rest
    ensures t' + (rest + x) == t + w
  {
    assert t' + (rest + x) == (t' + x) + rest == (t + e) + rest == t + w;
  }

  /** A new try loses nothing, and leaves a waiting element only if another one waited or two buckets were full. */
  lemma RetriedBalance<K, V>(s: State<K, V>, hash: nat -> K -> nat, draws: (nat, nat))
    requires IsState(s) && draws.0 < BUCKET_SIZE && draws.1 < BUCKET_SIZE
    ensures var r := Retried(s, hash, draws);
            && Held(r) == Held(s) && |Tabled(r.table)| >= |Tabled(s.table)|
            && (r.waiting != [] ==> |s.waiting| > 1 || |Tabled(r.table)| >= 2 * BUCKET_SIZE)
  {
    hide Tried, Tabled, NextSlot;
    if s.waiting != [] {
      var x := s.waiting[0];
      TriedBalance(s.table, hash, x, draws);
      var tried := Tried(s.table, hash, x, draws);
      assert s.waiting == [x] + s.waiting[1..];
      Requeued(Tabled(tried.0), Left(tried.1), Tabled(s.table), multiset{x}, multiset(s.waiting[1..]),
               multiset(s.waiting));
      if tried.1.Some? {
        assert multiset(s.waiting[1..] + [tried.1.value]) == multiset(s.waiting[1..]) + multiset{tried.1.value};
      }
    }
  }

  lemma PushedHolds<K, V>(s: State<K, V>, e: Element<K, V>)
    requires IsState(s)
    ensures Held(Pushed(s, e)) == Held(s) + multiset{e}
  {
    hide Tabled;
    assert multiset(s.waiting + [e]) == multiset(s.waiting) + multiset{e};
  }

  /** The two tries of an insertion. */
  lemma {:induction false} TwoTries<K, V>(s: State<K, V>, hash: nat -> K -> nat, draws: seq<(nat, nat)>)
    requires IsState(s) && AreDraws(draws)
    ensures Deamortized(s, hash, draws, DEAMORTIZED_INSERTIONS) == Retried(Retried(s, hash, draws[0]), hash, draws[1])
  {
    hide Retried;
    assert Deamortized(s, hash, draws, 1) == Retried(Deamortized(s, hash, draws, 0), hash, draws[0]);
  }

  /** An insertion adds its element, and makes elements wait only when two buckets are full. */
  lemma InsertedBalance<K, V>(s: State<K, V>, hash: nat -> K -> nat, isReal: bool, e: Element<K, V>,
                              draws: seq<(nat, nat)>)
    requires IsState(s) && AreDraws(draws)
    ensures var r := Inserted(s, hash, isReal, e, draws);
            Held(r) == Held(s) + (if isReal then multiset{e} else multiset{}) && (Steady(s) ==> Steady(r))
  {
    hide Retried, Held, Tabled;
    var s0 := if isReal then Pushed(s, e) else s;
    TwoTries(s0, hash, draws);
    var s1 := Retried(s0, hash, draws[0]);
    RetriedBalance(s0, hash, draws[0]);
    RetriedBalance(s1, hash, draws[1]);
    PushedHolds(s, e);
    if s.waiting == [] && !isReal { NothingToTry(s, hash, draws[0]); }
    if s1.waiting == [] { NothingToTry(s1, hash, draws[1]); }
  }

  lemma NothingToTry<K, V>(s: State<K, V>, hash: nat -> K -> nat, draws: (nat, nat))
    requires IsState(s) && s.waiting == [] && draws.0 < BUCKET_SIZE && draws.1 < BUCKET_SIZE
    ensures Retried(s, hash, draws) == s
  {
  }

  /** With an empty queue and a free slot in the bucket of the second table, the element goes into that slot, and the
      queue is empty afterwards. */
  lemma FreeSlotTakes<K, V>(s: State<K, V>, hash: nat -> K -> nat, e: Element<K, V>, draws: seq<(nat, nat)>)
    requires IsState(s) && AreDraws(draws) && s.waiting == []
    requires exists i :: 0 <= i < BUCKET_SIZE && s.table[1][hash(1)(e.key) % |s.table[1]|].IsEmpty(i)
    ensures var j, r := hash(1)(e.key) % |s.table[1]|, Inserted(s, hash, true, e, draws);
            && r.waiting == [] && r.table[0] == s.table[0] && |r.table[1]| == |s.table[1]|
            && (forall k :: 0 <= k < |s.table[1]| && k != j ==> r.table[1][k] == s.table[1][k])
            && exists i :: 0 <= i < BUCKET_SIZE && s.table[1][j].IsEmpty(i)
                           && (forall k :: 0 <= k < i ==> !s.table[1][j].IsEmpty(k))
                           && r.table[1][j] == Filled(s.table[1][j], i, e)
  {
    hide FirstFree, NextSlot;
    var j := hash(1)(e.key) % |s.table[1]|;
    var i := FirstFree(s.table[1][j].isValid);
    var s0 := Pushed(s, e);
    TwoTries(s0, hash, draws);
    assert s0.waiting[0] == e;
    var tried := Tried(s.table, hash, e, draws[0]);
    assert tried.1 == None;
    var s1 := Retried(s0, hash, draws[0]);
    NothingToTry(s1, hash, draws[1]);
    assert s.table[1][j].IsEmpty(i) && s1.table[1][j] == Filled(s.table[1][j], i, e);
  }

  /** In every map that insertions into an empty one lead to, elements wait only when two buckets are full. */
  lemma {:induction false} RunsAreSteady<K, V>(capacity: nat, dflt: Element<K, V>, hash: nat -> K -> nat,
                                               items: seq<Item<K, V>>, pid: nat, draws: seq<seq<(nat, nat)>>)
    requires |draws| == |items| && AllDraws(draws)
    ensures var s := InsertedAll(State(EmptyTables(capacity, dflt), [], []), hash, items, pid, draws);
            s.waiting != [] ==> |Tabled(s.table)| >= 2 * BUCKET_SIZE
  {
    StaysSteady(State(EmptyTables(capacity, dflt), [], []), hash, items, pid, draws);
  }

  lemma {:induction false} StaysSteady<K, V>(s: State<K, V>, hash: nat -> K -> nat, items: seq<Item<K, V>>, pid: nat,
                                             draws: seq<seq<(nat, nat)>>)
    requires IsState(s) && Steady(s) && |draws| == |items| && AllDraws(draws)
    ensures Steady(InsertedAll(s, hash, items, pid, draws))
  {
    hide Steady, Inserted;
    if items != [] {
      var n := |items| - 1;
      StaysSteady(s, hash, items[..n], pid, draws[..n]);
      InsertedBalance(InsertedAll(s, hash, items[..n], pid, draws[..n]), hash, items[n].partition == pid,
                      Element(items[n].key, items[n].value), draws[n]);
    }
  }

  /** A full queue means that there are at least two full buckets as well. */
  lemma FullQueueMeans<K, V>(s: State<K, V>)
    requires IsState(s) && Steady(s) && |s.waiting| == INSERTION_QUEUE_MAX_SIZE
    ensures |Held(s)| >= 2 * BUCKET_SIZE + INSERTION_QUEUE_MAX_SIZE
  {
    hide Tabled;
    assert |multiset(s.waiting)| == |s.waiting|;
  }
}
