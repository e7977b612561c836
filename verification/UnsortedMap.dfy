/** A cuckoo hash map with two tables and a queue of insertions that have not found a place yet. */
module UnsortedMap {
  import opened Options
  import opened Sequences
  import opened ShortQueue

  const BUCKET_SIZE: nat := 4
  const INSERTION_QUEUE_MAX_SIZE: nat := 10
  const DEAMORTIZED_INSERTIONS: nat := 2

  datatype Element<K, V> = Element(key: K, value: V)

  datatype Bucket<K, V> = Bucket(isValid: seq<bool>, elements: seq<Element<K, V>>) {
    predicate Shaped() {
      |isValid| == |elements| == BUCKET_SIZE
    }

    predicate IsEmpty(i: nat)
      requires i < |isValid|
    {
      !isValid[i]
    }
  }

  // ---------------------------------------------------------------- contents

  ghost function Slots<K, V>(isValid: seq<bool>, elements: seq<Element<K, V>>): (m: multiset<Element<K, V>>)
    requires |isValid| == |elements|
  {
    if isValid == [] then multiset{}
    else
      var n := |isValid| - 1;
      Slots(isValid[..n], elements[..n]) + (if isValid[n] then multiset{elements[n]} else multiset{})
  }

  /** The elements of a bucket. */
  ghost function Occupied<K, V>(b: Bucket<K, V>): multiset<Element<K, V>>
    requires b.Shaped()
  {
    Slots(b.isValid, b.elements)
  }

  ghost function One<K, V>(valid: bool, e: Element<K, V>): multiset<Element<K, V>> {
    if valid then multiset{e} else multiset{}
  }

  lemma Reorder<T>(a: multiset<T>, x: multiset<T>, y: multiset<T>)
    ensures a + x + y == a + y + x
  {
  }

  lemma Carry<T>(a': multiset<T>, x: multiset<T>, a: multiset<T>, y: multiset<T>, l: multiset<T>)
    requires a' + x == a + y
    ensures a' + l + x == a + l + y
  {
    assert a' + l + x == (a' + x) + l && a + l + y == (a + y) + l;
  }

  /** Overwriting a slot exchanges what it held. */
  lemma {:induction false} SlotChanged<K, V>(isValid: seq<bool>, elements: seq<Element<K, V>>, i: nat, valid: bool,
                                             e: Element<K, V>)
    requires i < |isValid| == |elements|
    ensures Slots(isValid[i := valid], elements[i := e]) + One(isValid[i], elements[i]) ==
            Slots(isValid, elements) + One(valid, e)
  {
    var n := |isValid| - 1;
    if i == n {
      assert isValid[i := valid][..n] == isValid[..n] && elements[i := e][..n] == elements[..n];
      Reorder(Slots(isValid[..n], elements[..n]), One(valid, e), One(isValid[i], elements[i]));
    } else {
      SlotChanged(isValid[..n], elements[..n], i, valid, e);
      assert isValid[i := valid][..n] == isValid[..n][i := valid] && elements[i := e][..n] == elements[..n][i := e];
      Carry(Slots(isValid[..n][i := valid], elements[..n][i := e]), One(isValid[i], elements[i]),
            Slots(isValid[..n], elements[..n]), One(valid, e), One(isValid[n], elements[n]));
    }
  }

  lemma {:induction false} SlotIn<K, V>(isValid: seq<bool>, elements: seq<Element<K, V>>, i: nat)
    requires i < |isValid| == |elements| && isValid[i]
    ensures elements[i] in Slots(isValid, elements)
  {
    var n := |isValid| - 1;
    if i < n { SlotIn(isValid[..n], elements[..n], i); }
  }

  lemma {:induction false} InSlot<K, V>(isValid: seq<bool>, elements: seq<Element<K, V>>, e: Element<K, V>)
    returns (i: nat)
    requires |isValid| == |elements| && e in Slots(isValid, elements)
    ensures i < |isValid| && isValid[i] && elements[i] == e
  {
    var n := |isValid| - 1;
    if isValid[n] && elements[n] == e { i := n; } else { i := InSlot(isValid[..n], elements[..n], e); }
  }

  ghost predicate TableShaped<K, V>(t: seq<Bucket<K, V>>) {
    forall j :: 0 <= j < |t| ==> t[j].Shaped()
  }

  /** The elements of a table. */
  ghost function TableEntries<K, V>(t: seq<Bucket<K, V>>): multiset<Element<K, V>>
    requires TableShaped(t)
  {
    if t == [] then multiset{} else TableEntries(t[..|t| - 1]) + Occupied(t[|t| - 1])
  }

  lemma {:induction false} BucketChanged<K, V>(t: seq<Bucket<K, V>>, j: nat, b: Bucket<K, V>)
    requires TableShaped(t) && j < |t| && b.Shaped()
    ensures TableShaped(t[j := b])
    ensures TableEntries(t[j := b]) + Occupied(t[j]) == TableEntries(t) + Occupied(b)
  {
    hide Occupied, Slots;
    var n := |t| - 1;
    var t', u := t[..n], t[j := b];
    assert TableEntries(t) == TableEntries(t') + Occupied(t[n]);
    assert TableEntries(u) == TableEntries(u[..n]) + Occupied(u[n]);
    if j == n {
      assert u[..n] == t';
      Reorder(TableEntries(t'), Occupied(b), Occupied(t[j]));
    } else {
      BucketChanged(t', j, b);
      assert u[..n] == t'[j := b];
      Carry(TableEntries(t'[j := b]), Occupied(t[j]), TableEntries(t'), Occupied(b), Occupied(t[n]));
    }
  }

  lemma {:induction false} BucketIn<K, V>(t: seq<Bucket<K, V>>, j: nat, e: Element<K, V>)
    requires TableShaped(t) && j < |t| && e in Occupied(t[j])
    ensures e in TableEntries(t)
  {
    if j < |t| - 1 { BucketIn(t[..|t| - 1], j, e); }
  }

  lemma {:induction false} InBucket<K, V>(t: seq<Bucket<K, V>>, e: Element<K, V>) returns (j: nat)
    requires TableShaped(t) && e in TableEntries(t)
    ensures j < |t| && e in Occupied(t[j])
  {
    var n := |t| - 1;
    if e in Occupied(t[n]) { j := n; } else { j := InBucket(t[..n], e); }
  }

  // ---------------------------------------------------------------- one bucket

  /** The first place that is not in use, or the number of places. */
  function FirstFree(used: seq<bool>): (i: nat)
    ensures i <= |used| && (forall j :: 0 <= j < i ==> used[j]) && (i < |used| ==> !used[i])
  {
    if used == [] || !used[0] then 0 else 1 + FirstFree(used[1..])
  }

  lemma {:induction false} FirstFreeIs(used: seq<bool>, i: nat)
    requires i <= |used| && (forall j :: 0 <= j < i ==> used[j]) && (i < |used| ==> !used[i])
    ensures FirstFree(used) == i
  {
    if i > 0 { FirstFreeIs(used[1..], i - 1); }
  }

  /** A bucket with `element` in slot `i`. */
  function Filled<K, V>(b: Bucket<K, V>, i: nat, element: Element<K, V>): Bucket<K, V>
    requires i < |b.isValid| == |b.elements|
  {
    Bucket(b.isValid[i := true], b.elements[i := element])
  }

  /** What placing an element does to its bucket: it takes the first empty slot, or else changes places with the
      element of slot `randIdx`. */
  function Placed<K, V>(b: Bucket<K, V>, element: Element<K, V>, randIdx: nat): (Bucket<K, V>, Option<Element<K, V>>)
    requires b.Shaped() && randIdx < BUCKET_SIZE
  {
    var i := FirstFree(b.isValid);
    if i < BUCKET_SIZE then (Filled(b, i, element), None)
    else (Filled(b, randIdx, element), Some(b.elements[randIdx]))
  }

  /** Puts `element` into the first empty slot if `isReal`; `inserted` tells whether nothing is left to do. */
  method InsertIfAvailable<K, V>(b: Bucket<K, V>, isReal: bool, element: Element<K, V>)
    returns (b': Bucket<K, V>, inserted: bool)
    requires b.Shaped()
    ensures b'.Shaped()
    ensures inserted <==> !isReal || FirstFree(b.isValid) < BUCKET_SIZE
    ensures isReal && inserted ==> Occupied(b') == Occupied(b) + multiset{element}
    ensures b' == if isReal && inserted then Filled(b, FirstFree(b.isValid), element) else b
  {
    hide Slots, FirstFree;
    b', inserted := b, !isReal;
    for i := 0 to BUCKET_SIZE
      invariant b'.Shaped() && (inserted <==> !isReal || FirstFree(b.isValid) < i)
      invariant b' == if isReal && inserted then Filled(b, FirstFree(b.isValid), element) else b
      invariant isReal && inserted ==> Occupied(b') == Occupied(b) + multiset{element}
    {
      var choice := !inserted && b'.IsEmpty(i);
      if choice {
        FirstFreeIs(b.isValid, i);
        SlotChanged(b'.isValid, b'.elements, i, true, element);
        b' := Bucket(b'.isValid[i := true], b'.elements[i := element]);
        inserted := true;
      }
    }
  }

  /** Exchanges the element of a slot that is in use with `element`. */
  lemma EvictionBalance<K, V>(b: Bucket<K, V>, i: nat, element: Element<K, V>)
    requires b.Shaped() && i < BUCKET_SIZE && b.isValid[i]
    ensures b.(elements := b.elements[i := element]) == Filled(b, i, element)
    ensures Occupied(Filled(b, i, element)) + multiset{b.elements[i]} == Occupied(b) + multiset{element}
  {
    SlotChanged(b.isValid, b.elements, i, true, element);
    assert b.isValid[i := true] == b.isValid;
  }

  /** The closure that an insertion runs on a bucket: insert, or else change places with the element of a slot. */
  method PlaceOrEvict<K, V>(b: Bucket<K, V>, done: bool, element: Element<K, V>, randIdx: nat)
    returns (b': Bucket<K, V>, done': bool, element': Element<K, V>)
    requires b.Shaped() && randIdx < BUCKET_SIZE
    ensures b'.Shaped() && (done ==> done' && b' == b && element' == element)
    ensures !done ==> (b', if done' then None else Some(element')) == Placed(b, element, randIdx)
    ensures !done && done' ==> Occupied(b') == Occupied(b) + multiset{element}
    ensures !done' ==> Occupied(b') + multiset{element'} == Occupied(b) + multiset{element}
  {
    hide Slots, FirstFree;
    var inserted;
    b', inserted := InsertIfAvailable(b, !done, element);
    done' := done || inserted;
    element' := element;
    if !done' {
      assert !b.IsEmpty(randIdx);
      EvictionBalance(b, randIdx, element);
      element' := b'.elements[randIdx];
      b' := b'.(elements := b'.elements[randIdx := element]);
    }
  }

  // ---------------------------------------------------------------- the places of a lookup

  /** What the slots of a bucket hold, in order. */
  ghost function BucketPlaces<K, V>(b: Bucket<K, V>): (s: seq<Option<Element<K, V>>>)
    requires b.Shaped()
    ensures |s| == BUCKET_SIZE
  {
    seq(BUCKET_SIZE, i requires 0 <= i < BUCKET_SIZE => if b.IsEmpty(i) then None else Some(b.elements[i]))
  }

  /** What slots of the queue hold, in order. */
  ghost function QueuePlaces<K, V>(slots: seq<Slot<Element<K, V>>>): (s: seq<Option<Element<K, V>>>)
    ensures |s| == |slots|
  {
    seq(|slots|, i requires 0 <= i < |slots| => if slots[i].IsEmpty() then None else Some(slots[i].value))
  }

  ghost predicate HoldsKey<K, V>(places: seq<Option<Element<K, V>>>, i: int, key: K) {
    0 <= i < |places| && places[i].Some? && places[i].value.key == key
  }

  /** `r` is the value at the last of the places that hold the key, or None when there is no such place. */
  ghost predicate LastMatch<K, V>(places: seq<Option<Element<K, V>>>, key: K, r: Option<V>) {
    match r
    case None => forall i :: 0 <= i < |places| ==> !HoldsKey(places, i, key)
    case Some(v) =>
      exists i :: HoldsKey(places, i, key) && places[i].value.value == v
                  && forall j :: i < j < |places| ==> !HoldsKey(places, j, key)
  }

  /** There is one such value. */
  lemma LastMatchIsOnly<K, V>(places: seq<Option<Element<K, V>>>, key: K, r: Option<V>, t: Option<V>)
    requires LastMatch(places, key, r) && LastMatch(places, key, t)
    ensures r == t
  {
  }

  /** In places after others, a match goes before those in the others. */
  lemma LastMatchConcat<K, V>(a: seq<Option<Element<K, V>>>, c: seq<Option<Element<K, V>>>, key: K, r: Option<V>,
                              t: Option<V>)
    requires LastMatch(a, key, r) && LastMatch(c, key, t)
    ensures LastMatch(a + c, key, if t.Some? then t else r)
  {
    var s := a + c;
    forall i ensures HoldsKey(s, i, key) == if i < |a| then HoldsKey(a, i, key) else HoldsKey(c, i - |a|, key) {
    }
    if t.Some? {
      var i :| HoldsKey(c, i, key) && c[i].value.value == t.value
               && forall j :: i < j < |c| ==> !HoldsKey(c, j, key);
      assert HoldsKey(s, |a| + i, key) && s[|a| + i] == c[i];
    } else if r.Some? {
      var i :| HoldsKey(a, i, key) && a[i].value.value == r.value
               && forall j :: i < j < |a| ==> !HoldsKey(a, j, key);
      assert HoldsKey(s, i, key) && s[i] == a[i];
    }
  }

  /** One more place. */
  lemma LastMatchStep<K, V>(places: seq<Option<Element<K, V>>>, n: nat, key: K, r: Option<V>)
    requires n < |places| && LastMatch(places[..n], key, r)
    ensures LastMatch(places[..n + 1], key, if HoldsKey(places, n, key) then Some(places[n].value.value) else r)
  {
    assert places[..n + 1] == places[..n] + [places[n]];
    assert HoldsKey([places[n]], 0, key) == HoldsKey(places, n, key);
    LastMatchConcat(places[..n], [places[n]], key, r,
                    if HoldsKey(places, n, key) then Some(places[n].value.value) else None);
  }

  function Hit<V>(found: bool, v: V): Option<V> {
    if found then Some(v) else None
  }

  /** Reads the value of `key` into `ret` if the bucket has it: the one in the last slot with the key. */
  method ReadIfExists<K(==), V>(b: Bucket<K, V>, key: K, ret: V) returns (ret': V, found: bool)
    requires b.Shaped()
    ensures LastMatch(BucketPlaces(b), key, Hit(found, ret')) && (!found ==> ret' == ret)
  {
    hide LastMatch;
    ret', found := ret, false;
    ghost var places := BucketPlaces(b);
    NoPlaces<K, V>(key);
    for i := 0 to BUCKET_SIZE
      invariant LastMatch(places[..i], key, Hit(found, ret')) && (!found ==> ret' == ret)
    {
      LastMatchStep(places, i, key, Hit(found, ret'));
      var choice := !b.IsEmpty(i) && b.elements[i].key == key;
      if choice { ret', found := b.elements[i].value, true; }
    }
    assert places[..BUCKET_SIZE] == places;
  }

  lemma NoPlaces<K, V>(key: K)
    ensures LastMatch<K, V>([], key, None)
  {
  }

  // ---------------------------------------------------------------- the map

  /** Every element of the table is in the bucket that its hash names. */
  ghost predicate InPlace<K, V>(t: seq<Bucket<K, V>>, hash: K -> nat) {
    && |t| > 0 && TableShaped(t)
    && forall j, e :: 0 <= j < |t| && e in Occupied(t[j]) ==> hash(e.key) % |t| == j
  }

  lemma StaysInPlace<K, V>(t: seq<Bucket<K, V>>, hash: K -> nat, j: nat, b: Bucket<K, V>, x: Element<K, V>)
    requires InPlace(t, hash) && j < |t| && b.Shaped() && hash(x.key) % |t| == j
    requires forall e :: e in Occupied(b) ==> e in Occupied(t[j]) || e == x
    ensures InPlace(t[j := b], hash)
  {
    hide Slots;
  }

  /** No key is stored twice. */
  ghost predicate UniqueKeys<K(!new), V(!new)>(m: multiset<Element<K, V>>) {
    forall e, f :: e in m && f in m && e.key == f.key ==> e == f && m[e] == 1
  }

  /** Inserting a new key keeps the keys unique. */
  lemma UniqueAfterInsert<K(!new), V(!new)>(m: multiset<Element<K, V>>, x: Element<K, V>)
    requires UniqueKeys(m) && forall e :: e in m ==> e.key != x.key
    ensures UniqueKeys(m + multiset{x})
  {
  }

  // ---------------------------------------------------------------- insertion, step by step

  /** The tables, the waiting elements from the oldest on, and the queue slots that they are in. */
  datatype State<K, V> = State(table: seq<seq<Bucket<K, V>>>, waiting: seq<Element<K, V>>, at: seq<nat>)

  predicate TablesShaped<K, V>(table: seq<seq<Bucket<K, V>>>) {
    && |table| == 2 && |table[0]| > 0 && |table[1]| > 0
    && forall t, j :: 0 <= t < 2 && 0 <= j < |table[t]| ==> table[t][j].Shaped()
  }

  /** One try in table `t`. */
  function TriedOne<K, V>(table: seq<seq<Bucket<K, V>>>, hash: K -> nat, t: nat, element: Element<K, V>, randIdx: nat)
    : (r: (seq<seq<Bucket<K, V>>>, Option<Element<K, V>>))
    requires TablesShaped(table) && t < 2 && randIdx < BUCKET_SIZE
    ensures TablesShaped(r.0) && |r.0[0]| == |table[0]| && |r.0[1]| == |table[1]|
  {
    var j := hash(element.key) % |table[t]|;
    var placed := Placed(table[t][j], element, randIdx);
    (table[t := table[t][j := placed.0]], placed.1)
  }

  /** A try in the second table, and then one in the first for what was pushed out. */
  function Tried<K, V>(table: seq<seq<Bucket<K, V>>>, hash: nat -> K -> nat, element: Element<K, V>, draws: (nat, nat))
    : (r: (seq<seq<Bucket<K, V>>>, Option<Element<K, V>>))
    requires TablesShaped(table) && draws.0 < BUCKET_SIZE && draws.1 < BUCKET_SIZE
    ensures TablesShaped(r.0)
  {
    var one := TriedOne(table, hash(1), 1, element, draws.0);
    if one.1.None? then one else TriedOne(one.0, hash(0), 0, one.1.value, draws.1)
  }

  /** The queue slot that the next push takes. */
  function NextSlot(at: seq<nat>): nat {
    FirstFree(InUse(at))
  }

  /** Which queue slots are in use. */
  function InUse(at: seq<nat>): (used: seq<bool>)
    ensures |used| == INSERTION_QUEUE_MAX_SIZE
    ensures forall i :: 0 <= i < INSERTION_QUEUE_MAX_SIZE ==> used[i] == (i in at)
  {
    seq(INSERTION_QUEUE_MAX_SIZE, i => i in at)
  }

  function Pushed<K, V>(s: State<K, V>, element: Element<K, V>): State<K, V> {
    s.(waiting := s.waiting + [element], at := s.at + [NextSlot(s.at)])
  }

  /** A new try for the element that waits longest. */
  function Retried<K, V>(s: State<K, V>, hash: nat -> K -> nat, draws: (nat, nat)): (r: State<K, V>)
    requires TablesShaped(s.table) && |s.at| == |s.waiting| && draws.0 < BUCKET_SIZE && draws.1 < BUCKET_SIZE
    ensures TablesShaped(r.table) && |r.at| == |r.waiting|
  {
    if s.waiting == [] then s
    else
      var tried := Tried(s.table, hash, s.waiting[0], draws);
      var rest := State(tried.0, s.waiting[1..], s.at[1..]);
      if tried.1.None? then rest else Pushed(rest, tried.1.value)
  }

  lemma PushStates<K, V>(s: State<K, V>, s': State<K, V>, isReal: bool, e: Element<K, V>)
    requires s'.table == s.table && s'.waiting == s.waiting + (if isReal then [e] else [])
    requires s'.at == s.at + (if isReal then [NextSlot(s.at)] else [])
    ensures s' == if isReal then Pushed(s, e) else s
  {
    assert s.waiting + [] == s.waiting && s.at + [] == s.at;
  }

  /** A pop, a try, and a push of what is left are a new try. */
  lemma RetryStates<K, V>(s: State<K, V>, s': State<K, V>, hash: nat -> K -> nat, draws: (nat, nat), done: bool,
                          x: Element<K, V>)
    requires TablesShaped(s.table) && |s.at| == |s.waiting| && draws.0 < BUCKET_SIZE && draws.1 < BUCKET_SIZE
    requires s.waiting == [] ==> done && s' == s
    requires s.waiting != [] ==>
      && (s'.table, if done then None else Some(x)) == Tried(s.table, hash, s.waiting[0], draws)
      && s'.waiting == s.waiting[1..] + (if done then [] else [x])
      && s'.at == s.at[1..] + (if done then [] else [NextSlot(s.at[1..])])
    ensures s' == Retried(s, hash, draws)
  {
    hide Tried, NextSlot;
    if s.waiting != [] && done { assert s.waiting[1..] + [] == s.waiting[1..] && s.at[1..] + [] == s.at[1..]; }
  }

  predicate AreDraws(draws: seq<(nat, nat)>) {
    && |draws| == DEAMORTIZED_INSERTIONS
    && forall i :: 0 <= i < |draws| ==> draws[i].0 < BUCKET_SIZE && draws[i].1 < BUCKET_SIZE
  }

  /** The tries that each insertion makes. */
  function Deamortized<K, V>(s: State<K, V>, hash: nat -> K -> nat, draws: seq<(nat, nat)>, n: nat): (r: State<K, V>)
    requires TablesShaped(s.table) && |s.at| == |s.waiting| && AreDraws(draws) && n <= |draws|
    ensures TablesShaped(r.table) && |r.at| == |r.waiting|
  {
    if n == 0 then s else Retried(Deamortized(s, hash, draws, n - 1), hash, draws[n - 1])
  }

  class UnsortedMap<K(==, !new), V(!new)> {
    /** The hash function of each table. */
    const hash: nat -> K -> nat
    const queue: ShortQueue<Element<K, V>>
    const dflt: Element<K, V>
    var size: nat
    var table: seq<seq<Bucket<K, V>>>

    ghost predicate Valid()
      reads this, queue
    {
      && queue.Valid() && |queue.elements| == INSERTION_QUEUE_MAX_SIZE
      && |table| == 2 && InPlace(table[0], hash(0)) && InPlace(table[1], hash(1))
    }

    /** Everything stored, in the tables and in the queue. */
    ghost function Entries(): multiset<Element<K, V>>
      reads this, queue
      requires Valid()
    {
      Tables() + multiset(queue.contents)
    }

    ghost function Tables(): multiset<Element<K, V>>
      reads this, queue
      requires Valid()
    {
      TableEntries(table[0]) + TableEntries(table[1])
    }

    /** Tables and queue as a value. */
    ghost function Now(): (s: State<K, V>)
      reads this, queue
      requires Valid()
      ensures TablesShaped(s.table) && |s.at| == |s.waiting| == queue.size
    {
      State(table, queue.contents, queue.at)
    }

    /** An empty map for `capacity` elements. */
    constructor (capacity: nat, hash: nat -> K -> nat, dflt: Element<K, V>)
      requires capacity > 0
      ensures Valid() && fresh(queue) && Entries() == multiset{} && size == 0 && this.hash == hash
      ensures Now() == State(EmptyTables(capacity, dflt), [], [])
    {
      hide InPlace;
      this.hash, this.dflt, size := hash, dflt, 0;
      queue := new ShortQueue(INSERTION_QUEUE_MAX_SIZE, dflt);
      table := EmptyTables(capacity, dflt);
      new;
      EmptyTablesInPlace(capacity, dflt, hash);
    }

    /** Tries table `t`: places the element, or changes places with the one in slot `randIdx` of the bucket. */
    method TryTable(t: nat, done: bool, element: Element<K, V>, randIdx: nat)
      returns (done': bool, element': Element<K, V>)
      requires Valid() && t < 2 && randIdx < BUCKET_SIZE
      modifies this`table
      ensures Valid()
      ensures done ==> done' && element' == element && table == old(table)
      ensures !done ==>
        (table, if done' then None else Some(element')) == TriedOne(old(table), hash(t), t, element, randIdx)
      ensures !done && done' ==> Entries() == old(Entries()) + multiset{element}
      ensures !done' ==> Entries() + multiset{element'} == old(Entries()) + multiset{element}
    {
      hide Slots, Occupied, TableEntries, Placed;
      var index := hash(t)(element.key) % |table[t]|;
      var b := table[t][index];
      var b';
      b', done', element' := PlaceOrEvict(b, done, element, randIdx);
      BucketChanged(table[t], index, b');
      FromSum(Occupied(b), Occupied(b'), element, element');
      StaysInPlace(table[t], hash(t), index, b', element);
      TableBalance(TableEntries(table[t]), TableEntries(table[t][index := b']), Occupied(b), Occupied(b'),
                   TableEntries(table[1 - t]), multiset(queue.contents), element, element');
      assert table[t][index := b] == table[t];
      table := table[t := table[t][index := b']];
    }

    /** Tries both tables; when there is no room, `element'` is what was pushed out in the end. */
    method TryInsertEntry(isReal: bool, element: Element<K, V>, draws: (nat, nat))
      returns (done: bool, element': Element<K, V>)
      requires Valid() && draws.0 < BUCKET_SIZE && draws.1 < BUCKET_SIZE
      modifies this`table
      ensures Valid()
      ensures !isReal ==> done && table == old(table)
      ensures isReal ==> (table, if done then None else Some(element')) == Tried(old(table), hash, element, draws)
      ensures isReal && done ==> Entries() == old(Entries()) + multiset{element}
      ensures !done ==> Entries() + multiset{element'} == old(Entries()) + multiset{element}
    {
      hide InPlace, UnsortedMap.Entries, TriedOne;
      TablesAreShaped();
      done, element' := TryTable(1, !isReal, element, draws.0);
      done, element' := TryTable(0, done, element', draws.1);
    }

    lemma TablesAreShaped()
      requires Valid()
      ensures TablesShaped(table)
    {
    }

    /** Tries again to place the oldest element of the queue. */
    method RetryOldest(draws: (nat, nat))
      requires Valid() && draws.0 < BUCKET_SIZE && draws.1 < BUCKET_SIZE
      modifies this`table, queue
      ensures Valid() && Entries() == old(Entries()) && queue.size <= old(queue.size)
      ensures Now() == Retried(old(Now()), hash, draws)
    {
      hide InPlace, TableEntries, Holds, Tried, NextSlot, FirstEmpty, Retried, TablesShaped;
      TablesAreShaped();
      var isReal := queue.size > 0;
      ghost var q, t := queue.contents, Tables();
      var oldest := queue.MaybePop(isReal, dflt);
      ghost var q1 := queue.contents;
      var done, element := TryInsertEntry(isReal, oldest, draws);
      ghost var t' := Tables();
      NextSlotIsFirstEmpty(queue);
      queue.MaybePush(!done, element);
      if isReal { assert q == [oldest] + q1; }
      RetryBalance(q, q1, t, t', isReal, done, oldest, element);
      RetryStates(old(Now()), Now(), hash, draws, done, element);
    }

    /** Tries again to place elements of the queue; `draws` are the random numbers that the tries draw. */
    method DeamortizeInsertionQueue(draws: seq<(nat, nat)>)
      requires Valid() && AreDraws(draws)
      modifies this`table, queue
      ensures Valid() && Entries() == old(Entries()) && queue.size <= old(queue.size)
      ensures Now() == Deamortized(old(Now()), hash, draws, DEAMORTIZED_INSERTIONS)
    {
      hide InPlace, UnsortedMap.Entries, Retried;
      for i := 0 to DEAMORTIZED_INSERTIONS
        invariant Valid() && Entries() == old(Entries()) && queue.size <= old(queue.size)
        invariant Now() == Deamortized(old(Now()), hash, draws, i)
      {
        RetryOldest(draws[i]);
      }
    }

    /** Adds an entry if `isReal`. */
    method InsertCond(key: K, value: V, isReal: bool, draws: seq<(nat, nat)>)
      requires Valid() && queue.size < INSERTION_QUEUE_MAX_SIZE && AreDraws(draws)
      modifies this, queue
      ensures Valid() && queue.size <= INSERTION_QUEUE_MAX_SIZE
      ensures Entries() == old(Entries()) + if isReal then multiset{Element(key, value)} else multiset{}
      ensures size == old(size) + if isReal then 1 else 0
      ensures var s := if isReal then Pushed(old(Now()), Element(key, value)) else old(Now());
              Now() == Deamortized(s, hash, draws, DEAMORTIZED_INSERTIONS)
    {
      hide InPlace, TableEntries, Holds, Deamortized, NextSlot, FirstEmpty;
      NextSlotIsFirstEmpty(queue);
      queue.MaybePush(isReal, Element(key, value));
      PushStates(old(Now()), Now(), isReal, Element(key, value));
      DeamortizeInsertionQueue(draws);
      if isReal { size := size + 1; }
    }

    /** Adds an entry. */
    method Insert(key: K, value: V, draws: seq<(nat, nat)>)
      requires Valid() && queue.size < INSERTION_QUEUE_MAX_SIZE && AreDraws(draws)
      modifies this, queue
      ensures Valid() && queue.size <= INSERTION_QUEUE_MAX_SIZE && size == old(size) + 1
      ensures Entries() == old(Entries()) + multiset{Element(key, value)}
      ensures Now() == Deamortized(Pushed(old(Now()), Element(key, value)), hash, draws, DEAMORTIZED_INSERTIONS)
    {
      hide InPlace, TableEntries, Holds, Deamortized, NextSlot, FirstEmpty;
      NextSlotIsFirstEmpty(queue);
      queue.MaybePush(true, Element(key, value));
      DeamortizeInsertionQueue(draws);
      size := size + 1;
    }

    /** What the places hold where a lookup of `key` looks, in order: the slots of its bucket in the first table, those
        of its bucket in the second, and the first `size` queue slots. */
    ghost function Places(key: K): (s: seq<Option<Element<K, V>>>)
      reads this, queue
      requires Valid()
    {
      BucketPlaces(table[0][hash(0)(key) % |table[0]|]) + BucketPlaces(table[1][hash(1)(key) % |table[1]|])
      + QueuePlaces(queue.elements[..queue.size])
    }

    /** A lookup of `key` comes across it. */
    ghost predicate Visible(key: K)
      reads this, queue
      requires Valid()
    {
      exists i :: HoldsKey(Places(key), i, key)
    }

    /** What a lookup comes across is stored. */
    lemma PlacesAreStored(key: K, i: int)
      requires Valid() && HoldsKey(Places(key), i, key)
      ensures Places(key)[i].value in Entries()
    {
      hide Slots, Occupied, Holds;
      var t0, t1 := table[0][hash(0)(key) % |table[0]|], table[1][hash(1)(key) % |table[1]|];
      if i < BUCKET_SIZE {
        SlotOccupied(t0, i);
        BucketIn(table[0], hash(0)(key) % |table[0]|, t0.elements[i]);
      } else if i < 2 * BUCKET_SIZE {
        SlotOccupied(t1, i - BUCKET_SIZE);
        BucketIn(table[1], hash(1)(key) % |table[1]|, t1.elements[i - BUCKET_SIZE]);
      } else {
        SlotIsQueued(queue, i - 2 * BUCKET_SIZE);
      }
    }

    /** The value at the last match is stored, and there is one if there is a match at all. */
    lemma MatchIsStored(key: K, r: Option<V>)
      requires Valid()
      ensures LastMatch(Places(key), key, r) ==> (r.Some? <==> Visible(key))
      ensures LastMatch(Places(key), key, r) && r.Some? ==> Element(key, r.value) in Entries()
    {
      hide UnsortedMap.Valid, UnsortedMap.Entries, UnsortedMap.Places;
      if LastMatch(Places(key), key, r) && r.Some? {
        var i :| HoldsKey(Places(key), i, key) && Places(key)[i].value.value == r.value;
        PlacesAreStored(key, i);
        assert Places(key)[i].value == Element(key, r.value);
      }
    }

    /** Looks `key` up in the first `size` slots of the queue; the last slot with the key goes. */
    method ScanQueue(key: K, ret: V) returns (ret': V, found: bool)
      requires Valid()
      ensures LastMatch(QueuePlaces(queue.elements[..queue.size]), key, Hit(found, ret')) && (!found ==> ret' == ret)
    {
      hide InPlace, Holds, LastMatch;
      ret', found := ret, false;
      ghost var places := QueuePlaces(queue.elements[..queue.size]);
      NoPlaces<K, V>(key);
      for i := 0 to queue.size
        invariant LastMatch(places[..i], key, Hit(found, ret')) && (!found ==> ret' == ret)
      {
        LastMatchStep(places, i, key, Hit(found, ret'));
        var element := queue.elements[i];
        var foundLocal := !element.IsEmpty() && element.value.key == key;
        if foundLocal { ret', found := element.value.value, true; }
      }
      assert places[..queue.size] == places;
    }

    /** Looks `key` up in both tables and in the first `size` slots of the queue; the last of these places with the key
        goes. */
    method Get(key: K, ret: V) returns (ret': V, found: bool)
      requires Valid()
      ensures LastMatch(Places(key), key, Hit(found, ret')) && (!found ==> ret' == ret)
      ensures (found <==> Visible(key)) && (found ==> Element(key, ret') in Entries())
    {
      hide Holds, LastMatch, BucketPlaces, QueuePlaces, Occupied, UnsortedMap.Entries, UnsortedMap.Visible;
      var h0, h1 := hash(0)(key) % |table[0]|, hash(1)(key) % |table[1]|;
      var found0, found1, found2, value0, value1;
      value0, found0 := ReadIfExists(table[0][h0], key, ret);
      value1, found1 := ReadIfExists(table[1][h1], key, value0);
      ret', found2 := ScanQueue(key, value1);
      found := found0 || found1 || found2;
      ghost var p0, p1, p2 :=
        BucketPlaces(table[0][h0]), BucketPlaces(table[1][h1]), QueuePlaces(queue.elements[..queue.size]);
      LastMatchConcat(p0, p1, key, Hit(found0, value0), Hit(found1, value1));
      LastMatchConcat(p0 + p1, p2, key, Hit(found0 || found1, value1), Hit(found2, ret'));
      MatchIsStored(key, Hit(found, ret'));
    }

    /** A lookup finds every stored key exactly when no queue slot from `size` on is in use. */
    lemma FindsAllIffNoHoles()
      requires Valid() && UniqueKeys(Entries())
      ensures (forall e :: e in Entries() ==> Visible(e.key)) <==>
              (forall i: nat :: queue.size <= i < |queue.elements| ==> queue.elements[i].IsEmpty())
    {
      hide Slots, Occupied, TableEntries, Holds, InPlace, UnsortedMap.Visible;
      if forall i: nat :: queue.size <= i < |queue.elements| ==> queue.elements[i].IsEmpty() {
        forall e | e in Entries() ensures Visible(e.key) { StoredIsVisible(e); }
      } else {
        var i: nat :| queue.size <= i < |queue.elements| && !queue.elements[i].IsEmpty();
        BeyondIsHidden(i);
      }
    }

    lemma InTableIsVisible(t: nat, e: Element<K, V>)
      requires Valid() && t < 2 && e in TableEntries(table[t])
      ensures Visible(e.key)
    {
      hide Slots, Occupied, Holds;
      var j := InBucket(table[t], e);
      var i := OccupiedSlot(table[t][j], e);
      assert HoldsKey(Places(e.key), t * BUCKET_SIZE + i, e.key);
    }

    lemma StoredIsVisible(e: Element<K, V>)
      requires Valid() && e in Entries()
      requires forall i: nat :: queue.size <= i < |queue.elements| ==> queue.elements[i].IsEmpty()
      ensures Visible(e.key)
    {
      hide Slots, Occupied, TableEntries;
      if e in TableEntries(table[0]) {
        InTableIsVisible(0, e);
      } else if e in TableEntries(table[1]) {
        InTableIsVisible(1, e);
      } else {
        var k: nat :| k < |queue.contents| && queue.contents[k] == e;
        assert queue.elements[queue.at[k]].value == e;
        assert HoldsKey(Places(e.key), 2 * BUCKET_SIZE + queue.at[k], e.key);
      }
    }

    lemma BeyondIsHidden(i: nat)
      requires Valid() && UniqueKeys(Entries()) && queue.size <= i < |queue.elements| && !queue.elements[i].IsEmpty()
      ensures queue.elements[i].value in Entries() && !Visible(queue.elements[i].value.key)
    {
      hide Slots, Occupied, Holds;
      var e := queue.elements[i].value;
      SlotIsQueued(queue, i);
      assert Entries()[e] == 1;
      if k :| HoldsKey(Places(e.key), k, e.key) {
        PlacesAreStored(e.key, k);
        var h0, h1 := hash(0)(e.key) % |table[0]|, hash(1)(e.key) % |table[1]|;
        if k < BUCKET_SIZE {
          SlotOccupied(table[0][h0], k);
          BucketIn(table[0], h0, e);
          assert false;
        } else if k < 2 * BUCKET_SIZE {
          SlotOccupied(table[1][h1], k - BUCKET_SIZE);
          BucketIn(table[1], h1, e);
          assert false;
        } else {
          TwoSlots(queue, k - 2 * BUCKET_SIZE, i);
        }
      }
    }
  }

  lemma SlotOccupied<K, V>(b: Bucket<K, V>, i: nat)
    requires b.Shaped() && i < BUCKET_SIZE && !b.IsEmpty(i)
    ensures b.elements[i] in Occupied(b)
  {
    SlotIn(b.isValid, b.elements, i);
  }

  lemma OccupiedSlot<K, V>(b: Bucket<K, V>, e: Element<K, V>) returns (i: nat)
    requires b.Shaped() && e in Occupied(b)
    ensures i < BUCKET_SIZE && !b.IsEmpty(i) && b.elements[i] == e
  {
    i := InSlot(b.isValid, b.elements, e);
  }

  lemma SlotIsQueued<T>(q: ShortQueue<T>, i: nat)
    requires q.Valid() && i < |q.elements| && !q.elements[i].IsEmpty()
    ensures q.elements[i].value in multiset(q.contents)
  {
    var k := q.elements[i].timestamp - (q.highestTimestamp - q.size) - 1;
    assert q.at[k] == i;
    assert q.contents[k] == q.elements[i].value;
  }

  /** Two slots that hold the same element count twice. */
  lemma TwoSlots<T>(q: ShortQueue<T>, i: nat, j: nat)
    requires q.Valid() && i < j < |q.elements| && !q.elements[i].IsEmpty() && !q.elements[j].IsEmpty()
    requires q.elements[i].value == q.elements[j].value
    ensures multiset(q.contents)[q.elements[i].value] >= 2
  {
    var base := q.highestTimestamp - q.size;
    var k, l := q.elements[i].timestamp - base - 1, q.elements[j].timestamp - base - 1;
    assert q.at[k] == i && q.at[l] == j && q.contents[k] == q.contents[l];
    TwoPlaces(q.contents, if k < l then k else l, if k < l then l else k);
  }

  lemma NextSlotIsFirstEmpty<T>(q: ShortQueue<T>)
    requires q.Valid() && |q.elements| == INSERTION_QUEUE_MAX_SIZE
    ensures q.size < |q.elements| ==> FirstEmpty(q.elements) == NextSlot(q.at)
  {
    hide Holds, FirstFree, InUse;
    if q.size < |q.elements| {
      RoomForOne(q.elements, q.contents, q.at, q.highestTimestamp - q.size);
      SlotsInUse(q.elements, q.contents, q.at, q.highestTimestamp - q.size);
      FirstFreeIs(InUse(q.at), FirstEmpty(q.elements));
    }
  }

  /** What changes in one bucket changes in everything. */
  lemma TableBalance<T>(t: multiset<T>, t': multiset<T>, b: multiset<T>, b': multiset<T>, other: multiset<T>,
                        q: multiset<T>, e: T, e': T)
    requires t' + b == t + b'
    ensures b' == b ==> t' == t
    ensures b' == b + multiset{e} ==>
      t' + other + q == t + other + q + multiset{e} && other + t' + q == other + t + q + multiset{e}
    ensures b' + multiset{e'} == b + multiset{e} ==>
      t' + other + q + multiset{e'} == t + other + q + multiset{e}
        && other + t' + q + multiset{e'} == other + t + q + multiset{e}
  {
    if b' == b {
      CancelRight(t', t, b);
    }
    if b' == b + multiset{e} {
      assert t + b' == (t + multiset{e}) + b;
      CancelRight(t', t + multiset{e}, b);
      AddedTo(t, t', other, q, multiset{e}, multiset{});
    }
    if b' + multiset{e'} == b + multiset{e} {
      calc {
        (t' + multiset{e'}) + b;
        (t' + b) + multiset{e'};
        (t + b') + multiset{e'};
        t + (b' + multiset{e'});
        t + (b + multiset{e});
        (t + multiset{e}) + b;
      }
      CancelRight(t' + multiset{e'}, t + multiset{e}, b);
      AddedTo(t, t', other, q, multiset{e}, multiset{e'});
    }
  }

  lemma AddedTo<T>(t: multiset<T>, t': multiset<T>, other: multiset<T>, q: multiset<T>, x: multiset<T>, y: multiset<T>)
    requires t' + y == t + x
    ensures t' + other + q + y == t + other + q + x && other + t' + q + y == other + t + q + x
  {
    assert t' + other + q + y == (t' + y) + (other + q) && t + other + q + x == (t + x) + (other + q);
    assert other + t' + q + y == (t' + y) + (other + q) && other + t + q + x == (t + x) + (other + q);
  }

  lemma FromSum<T>(m: multiset<T>, m': multiset<T>, x: T, y: T)
    requires m' == m || m' == m + multiset{x} || m' + multiset{y} == m + multiset{x}
    ensures forall z :: z in m' ==> z in m || z == x
  {
    forall z | z in m' ensures z in m || z == x {
      assert z in m' + multiset{y};
      assert m' + multiset{y} == m + multiset{x} ==> z in m + multiset{x};
    }
  }

  /** Taking an element off the queue, placing it or not, and putting back what is left. */
  lemma RetryBalance<T>(q: seq<T>, q1: seq<T>, t: multiset<T>, t': multiset<T>, isReal: bool, done: bool, x: T, y: T)
    requires if isReal then multiset(q) == multiset(q1) + multiset{x} else q1 == q && done && t' == t
    requires isReal && done ==> t' + multiset(q1) == t + multiset(q1) + multiset{x}
    requires !done ==> t' + multiset(q1) + multiset{y} == t + multiset(q1) + multiset{x}
    ensures t' + multiset(q1 + if !done then [y] else []) == t + multiset(q)
  {
    if isReal { assert t + multiset(q1) + multiset{x} == t + multiset(q); }
    if !done {
      assert multiset(q1 + [y]) == multiset(q1) + multiset{y};
      assert t' + multiset(q1 + [y]) == t' + multiset(q1) + multiset{y};
    } else {
      assert q1 + [] == q1;
    }
  }

  /** The number of buckets of a table. */
  function TableSize(capacity: nat): (n: nat)
    ensures n >= 2 && 9 * BUCKET_SIZE * n >= 10 * capacity
  {
    var n := (10 * capacity + 9 * BUCKET_SIZE - 1) / (9 * BUCKET_SIZE);
    if n < 2 then 2 else n
  }

  /** Two tables of empty buckets. */
  function EmptyTables<K, V>(capacity: nat, dflt: Element<K, V>): (table: seq<seq<Bucket<K, V>>>)
    ensures |table| == 2 && |table[0]| == |table[1]| == TableSize(capacity)
  {
    var empty := Bucket(seq(BUCKET_SIZE, _ => false), seq(BUCKET_SIZE, _ => dflt));
    seq(2, _ => seq(TableSize(capacity), _ => empty))
  }

  lemma EmptyTablesInPlace<K, V>(capacity: nat, dflt: Element<K, V>, hash: nat -> K -> nat)
    ensures var table := EmptyTables(capacity, dflt);
            forall t :: 0 <= t < 2 ==> InPlace(table[t], hash(t)) && TableEntries(table[t]) == multiset{}
  {
    hide TableEntries, Occupied;
    var table := EmptyTables(capacity, dflt);
    EmptyTable(table[0]);
    EmptyTable(table[1]);
  }

  lemma {:induction false} EmptyTable<K, V>(t: seq<Bucket<K, V>>)
    requires TableShaped(t) && forall j, i :: 0 <= j < |t| && 0 <= i < BUCKET_SIZE ==> !t[j].isValid[i]
    ensures TableEntries(t) == multiset{} && forall j :: 0 <= j < |t| ==> Occupied(t[j]) == multiset{}
  {
    if t != [] {
      var n := |t| - 1;
      EmptyTable(t[..n]);
      NoSlots(t[n].isValid, t[n].elements);
    }
  }

  lemma {:induction false} NoSlots<K, V>(isValid: seq<bool>, elements: seq<Element<K, V>>)
    requires |isValid| == |elements| && forall i :: 0 <= i < |isValid| ==> !isValid[i]
    ensures Slots(isValid, elements) == multiset{}
  {
    if isValid != [] { NoSlots(isValid[..|isValid| - 1], elements[..|isValid| - 1]); }
  }
}
