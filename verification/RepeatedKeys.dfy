/** Runs of the batch operations on repeated keys that do not do what the operations are for. */
module RepeatedKeys {
  import opened Options
  import opened BatchRouting
  import opened BatchPipeline
  import opened BatchKeys
  import opened ChosenValues
  import opened UnsortedMap
  import opened Workers
  import opened ShardedMap

  lemma PairSize<K>(s: set<K>, x: K, y: K)
    requires s <= {x, y}
    ensures |s| <= 2
  {
    assert s == (if x in s then {x} else {}) + (if y in s then {y} else {});
  }

  /** For every map that stores `x` where lookups see it, and does not store a key `k` that comes before `x`: a batch
      that asks twice for `k` and once for `x` does not find `x`. */
  method MissedByBatch<K(==, !new), V(==, !new)>(m: ShardedMap<K, V>, k: K, x: K) returns (res: array<Option<V>>)
    requires m.Valid() && KeyBelow(k, x, m.le, m.GetPartition) && !m.Answered(x, None)
    requires forall j, e :: 0 <= j < P && e in EntriesOf(m.workers)[j] ==> e.key != k
    ensures m.Valid() && res.Length == 3 && res[2] == None && !m.Answered(x, res[2])
  {
    hide UnsortedMap.Valid, UnsortedMap.Entries, UnsortedMap.Visible, ShardedMap.InPartition, TotalOrder, Known;
    hide FromBook, ShardedMap.BookAnswers, NetworkFirsts, ShardedMap.SomePlaceRight;
    var keys := [k, k, x];
    ghost var know, stored := Knowledge(m.workers), EntriesOf(m.workers);
    forall j: nat | j < P ensures |KeysOfPart(keys, m.GetPartition, j)| <= 2 {
      PairSize(KeysOfPart(keys, m.GetPartition, j), k, x);
    }
    assert !Once(keys, 0) by { assert keys[1] == keys[0]; }
    assert Once(keys, 2) && Precedes(keys, 0, 2, m.le, m.GetPartition);
    var ok;
    ghost var book;
    res, ok, book := m.GetBatch(keys, 2);
    assert m.RightResult(keys, 2, res[2]);
    if res[2].Some? { m.AnswersAreStored(k, res[2]); }
  }

  lemma SingleSize<K>(s: set<K>, x: K)
    requires s <= {x}
    ensures |s| == if x in s then 1 else 0
  {
    assert s == if x in s then {x} else {};
  }

  /** With shares of one slot, a batch that asks twice for a key finds it in one place only, in every map where lookups
      see the key. */
  method MissedInOnePlace<K(==, !new), V(==, !new)>(m: ShardedMap<K, V>, k: K) returns (res: array<Option<V>>)
    requires m.Valid() && !m.Answered(k, None)
    ensures m.Valid() && res.Length == 2 && (res[0] == None <==> res[1] != None)
    ensures forall y :: 0 <= y < 2 && res[y] != None ==> m.Answered(k, res[y])
  {
    hide UnsortedMap.Valid, UnsortedMap.Entries, UnsortedMap.Visible, ShardedMap.InPartition, TotalOrder, Known;
    hide KeysOfPart, Knowledge, Working, FromBook, ShardedMap.BookAnswers, Once, AfterRepeated, NetworkFirsts;
    hide ShardedMap.RightResult, ShardedMap.SomePlaceRight;
    var keys := [k, k];
    ghost var part := m.GetPartition;
    forall j: nat | j < P ensures |KeysOfPart(keys, part, j)| == if j == part(k) then 1 else 0 {
      TwiceInPart(k, part, j);
    }
    var ok;
    ghost var book;
    res, ok, book := m.GetBatch(keys, 1);
    TwiceResults(m, k, book, res[0], res[1]);
  }

  lemma TwiceResults<K(!new), V(!new)>(m: ShardedMap<K, V>, k: K, book: Book<K, Option<V>>, r0: Option<V>,
                                               r1: Option<V>)
    requires m.Valid() && m.BookAnswers(book, [k, k], 0, 1)
    requires |KeysOfPart([k, k], m.GetPartition, m.GetPartition(k))| == 1
    requires FromBook(book, [k, k], 0, r0, m.le, m.GetPartition) && FromBook(book, [k, k], 1, r1, m.le, m.GetPartition)
    ensures k in book.own && m.Answered(k, book.own[k])
    ensures (r0 == None && r1 == book.own[k]) || (r1 == None && r0 == book.own[k])
  {
    hide KeysOfPart, Knowledge, Working, ShardedMap.Answered, ShardedMap.InPartition, TotalOrder;
    assert !Once([k, k], 0) by { assert [k, k][1] == k; }
  }

  lemma TwiceInPart<K(!new)>(k: K, part: K -> nat, j: nat)
    ensures |KeysOfPart([k, k], part, j)| == if j == part(k) then 1 else 0
  {
    SingleSize(KeysOfPart([k, k], part, j), k);
  }

  /** With shares of one slot, a batch that asks twice for `k` and twice for `x`, of a later partition, does not find
      `x`
      at all, whatever the map stores. */
  method MissedEverywhere<K(==, !new), V(==, !new)>(m: ShardedMap<K, V>, k: K, x: K) returns (res: array<Option<V>>)
    requires m.Valid() && m.GetPartition(k) < m.GetPartition(x)
    ensures m.Valid() && res.Length == 4 && res[2] == None && res[3] == None
    ensures m.Answered(x, None) == old(m.Answered(x, None))
  {
    hide UnsortedMap.Valid, UnsortedMap.Entries, UnsortedMap.Visible, ShardedMap.InPartition, TotalOrder, Known;
    hide KeysOfPart, Knowledge, Working, FromBook, ShardedMap.BookAnswers, Once, AfterRepeated, NetworkFirsts;
    hide ShardedMap.RightResult, ShardedMap.SomePlaceRight;
    var keys := [k, k, x, x];
    ghost var part := m.GetPartition;
    forall j: nat | j < P ensures |KeysOfPart(keys, part, j)| == if j == part(k) || j == part(x) then 1 else 0 {
      TwoTwiceInPart(k, x, part, j);
    }
    var ok;
    ghost var book;
    res, ok, book := m.GetBatch(keys, 1);
    assert m.BookAnswers(book, keys, 0, 1) && m.BookAnswers(book, keys, 2, 1);
    assert FromBook(book, keys, 2, res[2], m.le, part) && FromBook(book, keys, 3, res[3], m.le, part);
    TwoTwiceResults(m, k, x, book, res[2], 2);
    TwoTwiceResults(m, k, x, book, res[3], 3);
  }

  lemma TwoTwiceResults<K(!new), V(!new)>(m: ShardedMap<K, V>, k: K, x: K, book: Book<K, Option<V>>,
                                                  r: Option<V>, y: nat)
    requires m.Valid() && m.GetPartition(k) < m.GetPartition(x) && y in {2, 3}
    requires m.BookAnswers(book, [k, k, x, x], 0, 1) && m.BookAnswers(book, [k, k, x, x], 2, 1)
    requires |KeysOfPart([k, k, x, x], m.GetPartition, m.GetPartition(k))| == 1
    requires |KeysOfPart([k, k, x, x], m.GetPartition, m.GetPartition(x))| == 1
    requires FromBook(book, [k, k, x, x], y, r, m.le, m.GetPartition)
    ensures r == None
  {
    hide KeysOfPart, Knowledge, Working, ShardedMap.Answered, ShardedMap.InPartition, TotalOrder;
    var keys := [k, k, x, x];
    assert !Once(keys, 0) by { assert keys[1] == k; }
    assert !Once(keys, 2) by { assert keys[3] == x; }
    assert Precedes(keys, 0, y, m.le, m.GetPartition);
  }

  lemma TwoTwiceInPart<K(!new)>(k: K, x: K, part: K -> nat, j: nat)
    requires part(k) != part(x)
    ensures |KeysOfPart([k, k, x, x], part, j)| == if j == part(k) || j == part(x) then 1 else 0
  {
    var s := KeysOfPart([k, k, x, x], part, j);
    SingleSize(s, if j == part(k) then k else x);
  }

  /** For every map, key and list of at least four values: an insertion of the key with these values, in this order,
      sends a value of the second quarter to the worker, and never the first. */
  method LaterValueSent<K(==, !new), V(==, !new)>(m: ShardedMap<K, V>, k: K, values: seq<V>)
    returns (done: bool, ghost t: nat, ghost c: Course<K, V>)
    requires m.Valid() && 4 <= |values| && P * |values| < 0x8000_0000_0000_0000
    modifies m`size, m.workers, QueuesOf(m.workers)
    ensures m.Valid() && |values| / 2 / 2 <= t < |values| / 2
    ensures if done then Finished(c) else Stopped(StatesOf(m.workers), c)
    ensures var j := m.GetPartition(k);
            Gained(old(EntriesOf(m.workers)), EntriesOf(m.workers),
                   seq(P, _ => multiset{})[j := multiset{Element(k, values[t])}], done)
  {
    hide UnsortedMap.Valid, UnsortedMap.Entries, ShardedMap.InPartition, TotalOrder, SentItems, Chosen, Gained,
         Finished, Stopped, CourseTaken, StatesOf, Roomy, SharesFor, HashesOf, SendsFirsts, Working;
    var keys := seq(|values|, _ => k);
    forall j: nat | j < P ensures |KeysOfPart(keys, m.GetPartition, j)| <= 2 {
      PairSize(KeysOfPart(keys, m.GetPartition, j), k, k);
    }
    t := TiedSendLater(k, keys, values, m.le, m.GetPartition);
    var ok;
    ghost var sent;
    ok, done, sent, c := m.InsertBatch(keys, values, |keys|);
    assert sent == seq(P, _ => multiset{})[m.GetPartition(k) := multiset{Element(k, values[t])}];
  }
}
