/** A run of insertions after which a lookup misses a stored key. */
module MissedKey {
  import opened Options
  import opened UnsortedMap

  /** All keys hash to bucket 0 of both tables, except that key 0 goes to bucket 1 of the first table. */
  function ExampleHash(t: nat): nat -> nat {
    (k: nat) => if t == 0 && k == 0 then 1 else 0
  }

  /** The keys in the buckets in use and in the queue, with the queue slots of the latter. */
  datatype Keys = Keys(one: seq<nat>, zero: seq<nat>, spare: seq<nat>, waiting: seq<nat>, at: seq<nat>)

  ghost function Elements<V>(keys: seq<nat>, v: V): (r: seq<Element<nat, V>>)
    ensures |r| == |keys| && forall i :: 0 <= i < |keys| ==> r[i] == Element(keys[i], v)
  {
    seq(|keys|, i requires 0 <= i < |keys| => Element(keys[i], v))
  }

  /** The bucket holds the keys in its first slots. */
  ghost predicate BucketOf<V>(b: Bucket<nat, V>, keys: seq<nat>, v: V) {
    && b.Shaped() && |keys| <= BUCKET_SIZE
    && (forall i :: 0 <= i < BUCKET_SIZE ==> b.isValid[i] == (i < |keys|))
    && (forall i :: 0 <= i < |keys| ==> b.elements[i] == Element(keys[i], v))
  }

  /** The keys are where `l` says, each with value `v`. */
  ghost predicate Looks<V>(s: State<nat, V>, l: Keys, v: V) {
    && TablesShaped(s.table) && |s.table[0]| >= 2
    && BucketOf(s.table[1][0], l.one, v) && BucketOf(s.table[0][0], l.zero, v) && BucketOf(s.table[0][1], l.spare, v)
    && s.waiting == Elements(l.waiting, v) && s.at == l.at && |l.at| == |l.waiting|
  }

  // ---------------------------------------------------------------- the steps on keys alone

  function PlacedKeys(keys: seq<nat>, k: nat, r: nat): (seq<nat>, Option<nat>)
    requires r < BUCKET_SIZE
  {
    if |keys| < BUCKET_SIZE then (keys + [k], None) else (keys[r := k], Some(keys[r]))
  }

  function TriedKeys(l: Keys, k: nat, draws: (nat, nat)): (Keys, Option<nat>)
    requires draws.0 < BUCKET_SIZE && draws.1 < BUCKET_SIZE
  {
    var one := PlacedKeys(l.one, k, draws.0);
    var l1 := l.(one := one.0);
    match one.1
    case None => (l1, None)
    case Some(0) => var spare := PlacedKeys(l.spare, 0, draws.1); (l1.(spare := spare.0), spare.1)
    case Some(x) => var zero := PlacedKeys(l.zero, x, draws.1); (l1.(zero := zero.0), zero.1)
  }

  function PushedKeys(l: Keys, k: nat): Keys {
    l.(waiting := l.waiting + [k], at := l.at + [NextSlot(l.at)])
  }

  function RetriedKeys(l: Keys, draws: (nat, nat)): (r: Keys)
    requires |l.at| == |l.waiting| && draws.0 < BUCKET_SIZE && draws.1 < BUCKET_SIZE
    ensures |r.at| == |r.waiting|
  {
    if l.waiting == [] then l
    else
      var tried := TriedKeys(l, l.waiting[0], draws);
      var rest := tried.0.(waiting := l.waiting[1..], at := l.at[1..]);
      if tried.1.None? then rest else PushedKeys(rest, tried.1.value)
  }

  function InsertedKeys(l: Keys, k: nat, draws: seq<(nat, nat)>): (r: Keys)
    requires |l.at| == |l.waiting| && AreDraws(draws)
    ensures |r.at| == |r.waiting|
  {
    RetriedKeys(RetriedKeys(PushedKeys(l, k), draws[0]), draws[1])
  }

  lemma PlacedLooks<V>(b: Bucket<nat, V>, keys: seq<nat>, v: V, k: nat, r: nat)
    requires BucketOf(b, keys, v) && r < BUCKET_SIZE
    ensures var (p, q) := (Placed(b, Element(k, v), r), PlacedKeys(keys, k, r));
            BucketOf(p.0, q.0, v) && p.1 == match q.1 { case None => None case Some(x) => Some(Element(x, v)) }
  {
    FirstFreeIs(b.isValid, |keys|);
  }

  function Lifted<V>(o: Option<nat>, v: V): Option<Element<nat, V>> {
    match o { case None => None case Some(x) => Some(Element(x, v)) }
  }

  lemma OneLooks<V>(s: State<nat, V>, l: Keys, v: V, k: nat, r: nat)
    requires Looks(s, l, v) && r < BUCKET_SIZE
    ensures var (p, q) := (TriedOne(s.table, ExampleHash(1), 1, Element(k, v), r), PlacedKeys(l.one, k, r));
            Looks(s.(table := p.0), l.(one := q.0), v) && p.1 == Lifted(q.1, v)
  {
    hide BucketOf, Placed, PlacedKeys, Elements;
    PlacedLooks(s.table[1][0], l.one, v, k, r);
  }

  lemma ZeroLooks<V>(s: State<nat, V>, l: Keys, v: V, k: nat, r: nat)
    requires Looks(s, l, v) && r < BUCKET_SIZE && k > 0
    ensures var (p, q) := (TriedOne(s.table, ExampleHash(0), 0, Element(k, v), r), PlacedKeys(l.zero, k, r));
            Looks(s.(table := p.0), l.(zero := q.0), v) && p.1 == Lifted(q.1, v)
  {
    hide BucketOf, Placed, PlacedKeys, Elements;
    PlacedLooks(s.table[0][0], l.zero, v, k, r);
  }

  lemma SpareLooks<V>(s: State<nat, V>, l: Keys, v: V, r: nat)
    requires Looks(s, l, v) && r < BUCKET_SIZE
    ensures var (p, q) := (TriedOne(s.table, ExampleHash(0), 0, Element(0, v), r), PlacedKeys(l.spare, 0, r));
            Looks(s.(table := p.0), l.(spare := q.0), v) && p.1 == Lifted(q.1, v)
  {
    hide BucketOf, Placed, PlacedKeys, Elements;
    assert 1 % |s.table[0]| == 1;
    PlacedLooks(s.table[0][1], l.spare, v, 0, r);
  }

  lemma TriedLooks<V>(s: State<nat, V>, l: Keys, v: V, k: nat, draws: (nat, nat))
    requires Looks(s, l, v) && draws.0 < BUCKET_SIZE && draws.1 < BUCKET_SIZE
    ensures var (p, q) := (Tried(s.table, ExampleHash, Element(k, v), draws), TriedKeys(l, k, draws));
            Looks(s.(table := p.0), q.0, v) && p.1 == Lifted(q.1, v)
  {
    hide Looks, TriedOne, PlacedKeys, TablesShaped;
    LooksShaped(s, l, v);
    OneLooks(s, l, v, k, draws.0);
    var one := PlacedKeys(l.one, k, draws.0);
    if one.1.Some? {
      var s1 := s.(table := TriedOne(s.table, ExampleHash(1), 1, Element(k, v), draws.0).0);
      var l1 := l.(one := one.0);
      if one.1.value == 0 {
        SpareLooks(s1, l1, v, draws.1);
      } else {
        ZeroLooks(s1, l1, v, one.1.value, draws.1);
      }
    }
  }

  lemma PushedLooks<V>(s: State<nat, V>, l: Keys, v: V, k: nat)
    requires Looks(s, l, v)
    ensures Looks(Pushed(s, Element(k, v)), PushedKeys(l, k), v)
  {
    hide BucketOf, NextSlot;
  }

  lemma RetriedLooks<V>(s: State<nat, V>, l: Keys, v: V, draws: (nat, nat))
    requires Looks(s, l, v) && draws.0 < BUCKET_SIZE && draws.1 < BUCKET_SIZE
    ensures Looks(Retried(s, ExampleHash, draws), RetriedKeys(l, draws), v)
  {
    hide BucketOf, NextSlot, Tried, TriedKeys;
    if l.waiting != [] {
      TriedLooks(s, l, v, l.waiting[0], draws);
      var tried, keys := Tried(s.table, ExampleHash, s.waiting[0], draws), TriedKeys(l, l.waiting[0], draws);
      assert Elements(l.waiting, v)[1..] == Elements(l.waiting[1..], v);
      var rest := State(tried.0, s.waiting[1..], s.at[1..]);
      var left := keys.0.(waiting := l.waiting[1..], at := l.at[1..]);
      assert Looks(rest, left, v);
      if keys.1.Some? { PushedLooks(rest, left, v, keys.1.value); }
    }
  }

  lemma {:induction false} InsertedLooks<V>(s: State<nat, V>, l: Keys, v: V, k: nat, draws: seq<(nat, nat)>)
    requires Looks(s, l, v) && AreDraws(draws)
    ensures Looks(Deamortized(Pushed(s, Element(k, v)), ExampleHash, draws, DEAMORTIZED_INSERTIONS),
                  InsertedKeys(l, k, draws), v)
  {
    hide Looks, Retried, RetriedKeys, Pushed, PushedKeys, TablesShaped;
    LooksShaped(s, l, v);
    PushedLooks(s, l, v, k);
    var s0, l0 := Pushed(s, Element(k, v)), PushedKeys(l, k);
    LooksShaped(s0, l0, v);
    RetriedLooks(s0, l0, v, draws[0]);
    RetriedLooks(Retried(s0, ExampleHash, draws[0]), RetriedKeys(l0, draws[0]), v, draws[1]);
    assert Deamortized(s0, ExampleHash, draws, 0) == s0;
    assert Deamortized(s0, ExampleHash, draws, 1) == Retried(s0, ExampleHash, draws[0]);
  }

  lemma LooksShaped<V>(s: State<nat, V>, l: Keys, v: V)
    requires Looks(s, l, v)
    ensures TablesShaped(s.table) && |s.at| == |s.waiting| == |l.at| == |l.waiting|
  {
  }

  // ---------------------------------------------------------------- the run

  /** The random numbers of the insertion of key `k`: slot 1 is pushed out, except that the last insertion first pushes
      out slot 0, which holds key 0. */
  function RunDraws(k: nat): (draws: seq<(nat, nat)>)
    ensures AreDraws(draws)
  {
    [(if k == 10 then 0 else 1, 1), (1, 1)]
  }

  /** The keys after the insertion of the keys below `n`. */
  function RunKeys(n: nat): (l: Keys)
    ensures |l.at| == |l.waiting|
  {
    if n == 0 then Keys([], [], [], [], []) else InsertedKeys(RunKeys(n - 1), n - 1, RunDraws(n - 1))
  }

  lemma NextSlotIs(at: seq<nat>, i: nat)
    requires i < INSERTION_QUEUE_MAX_SIZE && i !in at && forall j: nat :: j < i ==> j in at
    ensures NextSlot(at) == i
  {
    FirstFreeIs(InUse(at), i);
  }

  lemma SlotsOfRun()
    ensures NextSlot([]) == 0 && NextSlot([0]) == 1 && NextSlot([0, 1]) == 2 && NextSlot([1]) == 0 && NextSlot([2]) == 0
  {
    NextSlotIs([], 0);
    NextSlotIs([0], 1);
    NextSlotIs([0, 1], 2);
    NextSlotIs([1], 0);
    NextSlotIs([2], 0);
  }

  lemma RunStep(n: nat)
    ensures RunKeys(n + 1) == InsertedKeys(RunKeys(n), n, RunDraws(n))
  {
  }

  /** With room in its bucket of the second table, or of the first for what it pushes out, a key need not wait. */
  lemma Filling(l: Keys, k: nat, draws: seq<(nat, nat)>)
    requires l.waiting == l.at == [] && AreDraws(draws)
    ensures |l.one| < BUCKET_SIZE ==> InsertedKeys(l, k, draws) == l.(one := l.one + [k])
    ensures |l.one| == BUCKET_SIZE && l.one[draws[0].0] != 0 && |l.zero| < BUCKET_SIZE ==>
      InsertedKeys(l, k, draws) == l.(one := l.one[draws[0].0 := k], zero := l.zero + [l.one[draws[0].0]])
  {
    SlotsOfRun();
  }

  lemma {:induction false} FirstFour(n: nat)
    requires n <= 4
    ensures RunKeys(n) == Keys([0, 1, 2, 3][..n], [], [], [], [])
  {
    hide InsertedKeys;
    if n > 0 {
      FirstFour(n - 1);
      Filling(RunKeys(n - 1), n - 1, RunDraws(n - 1));
      assert [0, 1, 2, 3][..n - 1] + [n - 1] == [0, 1, 2, 3][..n];
    }
  }

  lemma {:induction false} FirstEight(n: nat)
    requires 5 <= n <= 8
    ensures RunKeys(n) == Keys([0, n - 1, 2, 3], [1, 4, 5, 6][..n - 4], [], [], [])
  {
    hide RunKeys, InsertedKeys;
    RunStep(n - 1);
    if n == 5 {
      FirstFour(4);
      assert [0, 1, 2, 3][..4] == [0, 1, 2, 3];
    } else {
      FirstEight(n - 1);
      assert [1, 4, 5, 6][..n - 5] + [n - 2] == [1, 4, 5, 6][..n - 4];
    }
    Filling(RunKeys(n - 1), n - 1, RunDraws(n - 1));
  }

  /** A try when both buckets are full: two elements are pushed on, and the last one waits again. */
  lemma FullTry(l: Keys, k: nat, draws: (nat, nat), x: nat, y: nat)
    requires |l.one| == |l.zero| == BUCKET_SIZE && draws.0 < BUCKET_SIZE && draws.1 < BUCKET_SIZE
    requires l.at != [] && |l.at| == |l.waiting| && l.waiting[0] == k
    requires l.one[draws.0] == x != 0 && l.zero[draws.1] == y
    ensures RetriedKeys(l, draws) == Keys(l.one[draws.0 := k], l.zero[draws.1 := x], l.spare, l.waiting[1..] + [y],
                                          l.at[1..] + [NextSlot(l.at[1..])])
  {
    hide NextSlot;
  }

  lemma Ninth()
    ensures RunKeys(9) == Keys([0, 4, 2, 3], [1, 8, 5, 6], [], [7], [0])
  {
    hide RunKeys, NextSlot, RetriedKeys;
    FirstEight(8);
    assert [1, 4, 5, 6][..4] == [1, 4, 5, 6];
    SlotsOfRun();
    RunStep(8);
    var a := Keys([0, 7, 2, 3], [1, 4, 5, 6], [], [8], [0]);
    var b := Keys([0, 8, 2, 3], [1, 7, 5, 6], [], [4], [0]);
    FullTry(a, 8, (1, 1), 7, 4);
    FullTry(b, 4, (1, 1), 8, 7);
    assert a.at[1..] == b.at[1..] == [];
    assert PushedKeys(RunKeys(8), 8) == a && RetriedKeys(a, (1, 1)) == b;
  }

  lemma Tenth()
    ensures RunKeys(10) == Keys([0, 9, 2, 3], [1, 7, 5, 6], [], [8, 4], [0, 1])
  {
    hide RunKeys, NextSlot, RetriedKeys;
    Ninth();
    SlotsOfRun();
    RunStep(9);
    var a := Keys([0, 4, 2, 3], [1, 8, 5, 6], [], [7, 9], [0, 1]);
    var b := Keys([0, 7, 2, 3], [1, 4, 5, 6], [], [9, 8], [1, 0]);
    FullTry(a, 7, (1, 1), 4, 8);
    FullTry(b, 9, (1, 1), 7, 4);
    assert a.at[1..] == [1] && b.at[1..] == [0];
    assert PushedKeys(RunKeys(9), 9) == a && RetriedKeys(a, (1, 1)) == b;
  }

  /** The last insertion takes queue slot 2; its first try succeeds, and its second one moves an element from slot 1
      to slot 0. */
  lemma AllEleven()
    ensures RunKeys(11) == Keys([8, 4, 2, 3], [1, 9, 5, 6], [0], [10, 7], [2, 0])
  {
    hide RunKeys, NextSlot, RetriedKeys;
    Tenth();
    SlotsOfRun();
    RunStep(10);
    var a := Keys([0, 9, 2, 3], [1, 7, 5, 6], [], [8, 4, 10], [0, 1, 2]);
    var b := Keys([8, 9, 2, 3], [1, 7, 5, 6], [0], [4, 10], [1, 2]);
    KeyZeroMoves(a, 8, 1);
    FullTry(b, 4, (1, 1), 9, 7);
    assert a.at[1..] == [1, 2] && b.at[1..] == [2];
    assert PushedKeys(RunKeys(10), 10) == a && RetriedKeys(a, (0, 1)) == b;
  }

  /** A try that pushes out key 0, which has room elsewhere. */
  lemma KeyZeroMoves(l: Keys, k: nat, r: nat)
    requires |l.one| == BUCKET_SIZE && l.one[0] == 0 && l.spare == [] && r < BUCKET_SIZE
    requires l.at != [] && |l.at| == |l.waiting| && l.waiting[0] == k
    ensures RetriedKeys(l, (0, r)) == Keys(l.one[0 := k], l.zero, [0], l.waiting[1..], l.at[1..])
  {
  }

  // ---------------------------------------------------------------- the map that misses a key

  /** Inserts the next key of the run. */
  method InsertNext<V(!new)>(m: UnsortedMap<nat, V>, k: nat, v: V)
    requires m.Valid() && m.hash == ExampleHash && Looks(m.Now(), RunKeys(k), v) && k < 11
    requires UniqueKeys(m.Entries()) && forall e :: e in m.Entries() ==> e.key < k
    modifies m, m.queue
    ensures m.Valid() && Looks(m.Now(), RunKeys(k + 1), v)
    ensures m.Entries() == old(m.Entries()) + multiset{Element(k, v)}
    ensures UniqueKeys(m.Entries()) && forall e :: e in m.Entries() ==> e.key < k + 1
  {
    hide Looks, RunKeys, UnsortedMap.Valid, UnsortedMap.Entries, UniqueKeys, Deamortized, InsertedKeys;
    FewWait(m.Now(), k, v);
    InsertedLooks(m.Now(), RunKeys(k), v, k, RunDraws(k));
    RunStep(k);
    UniqueAfterInsert(m.Entries(), Element(k, v));
    m.Insert(k, v, RunDraws(k));
  }

  lemma {:induction false} FewWait<V>(s: State<nat, V>, k: nat, v: V)
    requires Looks(s, RunKeys(k), v) && k < 11
    ensures |s.waiting| <= 2
  {
    hide RunKeys;
    RunIsShort(k);
  }

  lemma {:induction false} RunIsShort(k: nat)
    requires k < 11
    ensures |RunKeys(k).waiting| <= 2
  {
    hide RunKeys, InsertedKeys;
    if k <= 4 { FirstFour(k); } else if k <= 8 { FirstEight(k); } else if k == 9 { Ninth(); } else { Tenth(); }
  }

  lemma EmptyLooks<V>(v: V)
    ensures Looks(State(EmptyTables(11, Element(0, v)), [], []), RunKeys(0), v)
  {
  }

  /** The element in a queue slot past the size is the one that was inserted last. */
  lemma LastIsBeyond<V(!new)>(m: UnsortedMap<nat, V>, v: V)
    requires m.Valid() && Looks(m.Now(), RunKeys(11), v)
    ensures m.queue.size == 2 && |m.queue.elements| == INSERTION_QUEUE_MAX_SIZE
    ensures !m.queue.elements[2].IsEmpty() && m.queue.elements[2].value == Element(10, v)
  {
    hide RunKeys, BucketOf, InPlace;
    AllEleven();
    assert m.queue.at[0] == 2 && m.queue.contents[0] == Element(10, v);
  }

  /** Eleven insertions of different keys into an empty map, and a lookup of the last key that does not find it. */
  method MissStoredKey<V(!new)>(v: V) returns (m: UnsortedMap<nat, V>, found: bool)
    ensures m.Valid() && UniqueKeys(m.Entries()) && Element(10, v) in m.Entries() && !found
  {
    hide Looks, RunKeys, UnsortedMap.Valid, UnsortedMap.Entries, UnsortedMap.Visible;
    m := new UnsortedMap(11, ExampleHash, Element(0, v));
    EmptyLooks(v);
    for k := 0 to 11
      invariant fresh(m) && fresh(m.queue) && m.Valid() && m.hash == ExampleHash && Looks(m.Now(), RunKeys(k), v)
      invariant UniqueKeys(m.Entries()) && forall e :: e in m.Entries() ==> e.key < k
      invariant k > 0 ==> Element(k - 1, v) in m.Entries()
    {
      InsertNext(m, k, v);
    }
    LastIsBeyond(m, v);
    m.BeyondIsHidden(2);
    var _, seen := m.Get(10, v);
    found := seen;
  }
}
