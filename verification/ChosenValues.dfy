/** Which of the values of a key an insertion of a batch sends to the worker. */
module ChosenValues {
  import opened Sequences
  import opened Networks
  import opened Bitonic
  import opened BitonicSort
  import opened TiedSort
  import opened BatchRouting
  import opened BatchSteps
  import opened BatchPipeline
  import opened BatchKeys
  import opened UnsortedMap
  import opened Workers

  /** One entry for each key of the batch in partition `j`, with one of the values given for the key. */
  ghost predicate Chosen<K(!new), V(!new)>(m: multiset<Element<K, V>>, keys: seq<K>, values: seq<V>, part: K -> nat,
                                           j: nat)
    requires |keys| == |values|
  {
    && UniqueKeys(m)
    && (forall e :: e in m ==>
        part(e.key) == j && exists i :: 0 <= i < |keys| && keys[i] == e.key && values[i] == e.value)
    && (forall i :: 0 <= i < |keys| && part(keys[i]) == j ==> exists e :: e in m && e.key == keys[i])
  }

  lemma ChosenFrom<K(!new), V(!new)>(keys: seq<K>, values: seq<V>, s: seq<Item<K, V>>, im: seq<nat>,
                                     le: (K, K) -> bool, part: K -> nat, j: nat, e: Element<K, V>) returns (i: nat)
    requires SortedBatch(keys, values, s, im, le, part) && |keys| == |values|
    requires e in Delivered(Firsts(s, |s|), j)
    ensures part(e.key) == j && i < |keys| && keys[i] == e.key && values[i] == e.value
  {
    hide SortedBatch, Firsts, Delivered, Arranged, TotalOrder;
    BatchSize(keys, values, s, im, le, part);
    var r := DeliveredFrom(Firsts(s, |s|), j, e);
    var x := FirstsFrom(s, |s|, r);
    ItemAt(keys, values, s, im, le, part, x);
    i := im[x];
  }

  lemma ChosenFor<K(!new), V(!new)>(keys: seq<K>, values: seq<V>, s: seq<Item<K, V>>, im: seq<nat>,
                                    le: (K, K) -> bool, part: K -> nat, i: nat) returns (e: Element<K, V>)
    requires SortedBatch(keys, values, s, im, le, part) && i < |keys|
    ensures e in Delivered(Firsts(s, |s|), part(keys[i])) && e.key == keys[i]
  {
    hide SortedBatch, Firsts, Delivered, Arranged, TotalOrder;
    BatchSize(keys, values, s, im, le, part);
    var x := IndexHits(keys, values, s, im, le, part, i);
    var r := FirstsHaveAll(s, |s|, x);
    var y := FirstsFrom(s, |s|, r);
    ItemAt(keys, values, s, im, le, part, y);
    e := Element(s[y].key, s[y].value);
    DeliveredHas(Firsts(s, |s|), part(keys[i]), r);
  }

  lemma {:induction false} FirstsAreChosen<K(!new), V(!new)>(keys: seq<K>, values: seq<V>, s: seq<Item<K, V>>,
                                                             im: seq<nat>, le: (K, K) -> bool, part: K -> nat, j: nat)
    requires SortedBatch(keys, values, s, im, le, part) && |keys| == |values|
    ensures Chosen(Delivered(Firsts(s, |s|), j), keys, values, part, j)
  {
    hide SortedBatch, Firsts, Delivered, UniqueKeys, Arranged, TotalOrder;
    BatchSize(keys, values, s, im, le, part);
    var d := Firsts(s, |s|);
    forall r, t | 0 <= r < t < |d| ensures d[r].key != d[t].key { FirstsOrdered(s, le, part, |s|, r, t); }
    DeliveredUnique(d, j);
    forall e | e in Delivered(d, j)
      ensures part(e.key) == j && exists i :: 0 <= i < |keys| && keys[i] == e.key && values[i] == e.value
    {
      var i := ChosenFrom(keys, values, s, im, le, part, j, e);
    }
    forall i: nat | i < |keys| && part(keys[i]) == j ensures exists e :: e in Delivered(d, j) && e.key == keys[i] {
      var e := ChosenFor(keys, values, s, im, le, part, i);
    }
  }

  // ---------------------------------------------------------------- the choice of the sorting network

  /** The batch in the order that the sorting network gives it. */
  ghost function SortedItems<K, V>(keys: seq<K>, values: seq<V>, le: (K, K) -> bool, part: K -> nat):
    (s: seq<Item<K, V>>)
    requires |keys| == |values|
    ensures |s| == |keys|
  {
    Sorting(BatchItems(keys, values, part), ItemLe(le))
  }

  /** What is sent to worker `j`. */
  ghost function SentItems<K, V>(keys: seq<K>, values: seq<V>, le: (K, K) -> bool, part: K -> nat, j: nat):
    multiset<Element<K, V>>
    requires |keys| == |values|
  {
    Delivered(Firsts(SortedItems(keys, values, le, part), |keys|), j)
  }

  /** The entry is the first occurrence of its key. */
  ghost predicate IsFirst<K, V>(e: Element<K, V>, keys: seq<K>, values: seq<V>)
    requires |keys| == |values|
  {
    exists i: nat :: i < |keys| && keys[i] == e.key && values[i] == e.value && NotBefore(keys, e.key, i)
  }

  ghost predicate NotBefore<K>(keys: seq<K>, k: K, i: nat)
    requires i <= |keys|
  {
    forall z :: 0 <= z < i ==> keys[z] != k
  }

  /** Every worker is sent the first occurrences, as the documentation promises. */
  ghost predicate SendsFirsts<K(!new), V(!new)>(keys: seq<K>, values: seq<V>, le: (K, K) -> bool, part: K -> nat) {
    |keys| == |values| && forall j: nat, e :: e in SentItems(keys, values, le, part, j) ==> IsFirst(e, keys, values)
  }

  /** The sorting network puts the batch in order. */
  lemma {:induction false} SortedItemsAre<K(!new), V(!new)>(keys: seq<K>, values: seq<V>, le: (K, K) -> bool,
                                                            part: K -> nat) returns (im: seq<nat>)
    requires |keys| == |values| && TotalOrder(le) && forall k :: part(k) < P
    ensures SortedBatch(keys, values, SortedItems(keys, values, le, part), im, le, part)
  {
    hide TotalOrder, Sorted, SortNet, Apply, ItemLe, TotalPreorder;
    var items := BatchItems(keys, values, part);
    var s := SortedItems(keys, values, le, part);
    var z := Zip(items, Ids(|items|));
    var r := Sorting(z, ByFirst(ItemLe(le)));
    SortingMap(z, ByFirst(ItemLe(le)), ItemLe(le), (x: (Item<K, V>, nat)) => x.0);
    im := Map(r, (x: (Item<K, V>, nat)) => x.1);
    assert Map(z, (x: (Item<K, V>, nat)) => x.0) == items && Zip(s, im) == r;
    ItemLeIsTotal<K, V>(le);
    if |items| > 1 {
      SortWithin(0, |items|, true);
      ApplyPermutes(SortNet(0, |items|, true), z, ByFirst(ItemLe(le)));
      BitonicSorts(items, ItemLe(le));
    } else {
      ShortIsSorted(items, ItemLe(le));
    }
    ZipRearranges(items, s, im);
    RearrangedIsArranged(items, s, im, le, part);
  }

  lemma ShortIsSorted<T>(s: seq<T>, le: (T, T) -> bool)
    requires |s| <= 1
    ensures Sorted(s, le)
  {
  }

  /** Different keys have one occurrence each. */
  lemma {:induction false} DistinctSendFirsts<K(!new), V(!new)>(keys: seq<K>, values: seq<V>, le: (K, K) -> bool,
                                                                part: K -> nat)
    requires |keys| == |values| && TotalOrder(le) && (forall k :: part(k) < P) && Distinct(keys)
    ensures SendsFirsts(keys, values, le, part)
  {
    hide TotalOrder, SortedBatch, SortedItems, Firsts, Delivered;
    var im := SortedItemsAre(keys, values, le, part);
    forall j: nat, e | e in SentItems(keys, values, le, part, j) ensures IsFirst(e, keys, values) {
      var i := ChosenFrom(keys, values, SortedItems(keys, values, le, part), im, le, part, j, e);
      assert NotBefore(keys, e.key, i);
    }
  }

  /** A single key leaves one item, that at the front. */
  lemma {:induction false} FirstsOfOneKey<K, V>(s: seq<Item<K, V>>, n: nat)
    requires 0 < n <= |s| && forall i :: 0 <= i < |s| ==> s[i].key == s[0].key
    ensures Firsts(s, n) == [s[0]]
  {
    if n > 1 { FirstsOfOneKey(s, n - 1); }
  }

  /** Two items with the same key stay in order. */
  lemma {:induction false} PairSendsFirsts<K(!new), V(!new)>(keys: seq<K>, values: seq<V>, le: (K, K) -> bool,
                                                             part: K -> nat)
    requires |keys| == |values| == 2 && keys[0] == keys[1]
    ensures SendsFirsts(keys, values, le, part)
  {
    hide Firsts, Delivered, SortNet;
    var s := BatchItems(keys, values, part);
    PairKept(s, ItemLe(le));
    FirstsOfOneKey(s, 2);
    forall j: nat, e | e in SentItems(keys, values, le, part, j) ensures IsFirst(e, keys, values) {
      var r := DeliveredFrom(Firsts(s, 2), j, e);
      assert e == Element(keys[0], values[0]) && NotBefore(keys, e.key, 0);
    }
  }

  lemma {:induction false} FewSendFirsts<K(!new), V(!new)>(keys: seq<K>, values: seq<V>, le: (K, K) -> bool,
                                                           part: K -> nat)
    requires |keys| == |values| && TotalOrder(le) && (forall k :: part(k) < P) && (|keys| <= 2 || Distinct(keys))
    ensures SendsFirsts(keys, values, le, part)
  {
    hide SendsFirsts, TotalOrder;
    if |keys| == 2 && keys[0] == keys[1] {
      PairSendsFirsts(keys, values, le, part);
    } else {
      DistinctSendFirsts(keys, values, le, part);
    }
  }

  /** Of three items, the first with the greater key, the sort turns the other two round. */
  lemma {:induction false} ThreeSendLast<K(!new), V(!new)>(x: K, y: K, values: seq<V>, le: (K, K) -> bool,
                                                           part: K -> nat)
    requires |values| == 3 && TotalOrder(le) && KeyBelow(x, y, le, part)
    ensures Element(x, values[2]) in SentItems([y, x, x], values, le, part, part(x))
  {
    hide Firsts, Delivered, SortNet;
    var keys := [y, x, x];
    var items := BatchItems(keys, values, part);
    CmpCtIsLexicographic(items[0], items[2], le);
    CmpCtIsLexicographic(items[1], items[2], le);
    CmpCtIsLexicographic(items[2], items[1], le);
    assert le(x, x) || le(x, x);
    assert x != y && (part(x) == part(y) ==> !le(y, x));
    ThreeReversed(items, ItemLe(le));
    var s := SortedItems(keys, values, le, part);
    FirstsAt(s, 3, 0);
    DeliveredHas(Firsts(s, 3), part(x), |Firsts(s, 0)|);
  }

  /** Of four or more items with one key, one of the second quarter is sent, and so never the first. */
  lemma {:induction false} TiedSendLater<K(!new), V(!new)>(k: K, keys: seq<K>, values: seq<V>, le: (K, K) -> bool,
                                                           part: K -> nat) returns (t: nat)
    requires |keys| == |values| >= 4 && TotalOrder(le) && (forall k :: part(k) < P)
    requires forall i :: 0 <= i < |keys| ==> keys[i] == k
    ensures |keys| / 2 / 2 <= t < |keys| / 2
    ensures forall j: nat :: SentItems(keys, values, le, part, j) ==
                             if j == part(k) then multiset{Element(k, values[t])} else multiset{}
  {
    hide TotalOrder, Firsts, Sorting, Tied, SortedBatch;
    var n := |keys|;
    var items, s := BatchItems(keys, values, part), SortedItems(keys, values, le, part);
    var z := Zip(items, Ids(n));
    SortingMap(z, ByFirst(ItemLe(le)), ItemLe(le), (x: (Item<K, V>, nat)) => x.0);
    assert Map(z, (x: (Item<K, V>, nat)) => x.0) == items;
    t := TiedFrontOf(k, keys, values, le, part, z);
    assert s[0] == items[t];
    var im := SortedItemsAre(keys, values, le, part);
    forall i: nat | i < |s| ensures s[i].key == s[0].key {
      ItemAt(keys, values, s, im, le, part, i);
    }
    FirstsOfOneKey(s, n);
    forall j: nat
      ensures SentItems(keys, values, le, part, j) ==
              if j == part(k) then multiset{Element(k, values[t])} else multiset{}
    {
      assert [s[0]][..0] == [] && Delivered<K, V>([], j) == multiset{};
      assert Delivered([s[0]], j) ==
             multiset{} + if j == part(k) then multiset{Element(k, values[t])} else multiset{};
    }
  }

  ghost function OfKey<K, V>(j: nat, k: K): ((Item<K, V>, nat)) -> bool {
    (p: (Item<K, V>, nat)) => p.0.partition == j && p.0.key == k
  }

  lemma OneKeyIsTied<K(!new), V(!new)>(k: K, keys: seq<K>, values: seq<V>, le: (K, K) -> bool, part: K -> nat,
                                       z: seq<(Item<K, V>, nat)>)
    requires |keys| == |values| && forall i :: 0 <= i < |keys| ==> keys[i] == k
    requires z == Zip(BatchItems(keys, values, part), Ids(|values|))
    ensures Tied(z, ByFirst(ItemLe(le)), OfKey(part(k), k))
  {
    var q := OfKey<K, V>(part(k), k);
    forall x, y | q(x) && q(y) ensures ByFirst<Item<K, V>, nat>(ItemLe(le))(x, y) {
      SameKeyLe(x.0, y.0, le);
    }
  }

  lemma SameKeyLe<K, V>(a: Item<K, V>, b: Item<K, V>, le: (K, K) -> bool)
    requires a.partition == b.partition && a.key == b.key
    ensures ItemLe(le)(a, b)
  {
  }

  lemma {:induction false} TiedFrontOf<K(!new), V(!new)>(k: K, keys: seq<K>, values: seq<V>, le: (K, K) -> bool,
                                                         part: K -> nat, z: seq<(Item<K, V>, nat)>) returns (t: nat)
    requires |keys| == |values| >= 4 && forall i :: 0 <= i < |keys| ==> keys[i] == k
    requires z == Zip(BatchItems(keys, values, part), Ids(|values|))
    ensures |values| / 2 / 2 <= t < |values| / 2 && Sorting(z, ByFirst(ItemLe(le)))[0] == z[t]
  {
    hide SortNet, Apply, Tied;
    var q := OfKey<K, V>(part(k), k);
    OneKeyIsTied(k, keys, values, le, part, z);
    TiedFront(z, ByFirst(ItemLe(le)), q);
    var h := |values| / 2;
    var i :| 0 <= i < h - h / 2 && z[h / 2..h][i] == Sorting(z, ByFirst(ItemLe(le)))[0];
    t := h / 2 + i;
  }

  lemma FirstIsOne<K, V>(e: Element<K, V>, keys: seq<K>, values: seq<V>, i: nat)
    requires |keys| == |values| && IsFirst(e, keys, values) && i < |keys| && keys[i] == e.key
    requires NotBefore(keys, e.key, i)
    ensures values[i] == e.value
  {
    var z: nat :| z < |keys| && keys[z] == e.key && values[z] == e.value && NotBefore(keys, e.key, z);
    assert z == i;
  }

  lemma SomethingElseSent<K(!new), V(!new)>(keys: seq<K>, values: seq<V>, le: (K, K) -> bool, part: K -> nat, j: nat,
                                            e: Element<K, V>, i: nat)
    requires |keys| == |values| && e in SentItems(keys, values, le, part, j) && i < |keys|
    requires keys[i] == e.key && values[i] != e.value && NotBefore(keys, e.key, i)
    ensures !SendsFirsts(keys, values, le, part)
  {
    hide SentItems;
    if IsFirst(e, keys, values) { FirstIsOne(e, keys, values, i); }
  }

  /** Batches of `n` keys send the first occurrence, whatever the keys and values, exactly when `n` is at most 2. Here
      `x` and `y` are any two keys in order, and `v` and `w` any two values. */
  lemma {:induction false} FirstsSentIff<K(!new), V(!new)>(n: nat, x: K, y: K, v: V, w: V, le: (K, K) -> bool,
                                                           part: K -> nat)
    requires TotalOrder(le) && (forall k :: part(k) < P) && KeyBelow(x, y, le, part) && v != w
    ensures (forall keys: seq<K>, values: seq<V> :: |keys| == |values| == n ==>
             SendsFirsts(keys, values, le, part)) <==>
            n <= 2
  {
    hide TotalOrder, SendsFirsts, SentItems;
    if n <= 2 {
      forall keys: seq<K>, values: seq<V> | |keys| == |values| == n ensures SendsFirsts(keys, values, le, part) {
        FewSendFirsts(keys, values, le, part);
      }
    } else if n == 3 {
      var keys, values := [y, x, x], [v, v, w];
      ThreeSendLast(x, y, values, le, part);
      SomethingElseSent(keys, values, le, part, part(x), Element(x, w), 1);
    } else {
      var keys, values := seq(n, _ => x), seq(n, i => if i == 0 then v else w);
      var t := TiedSendLater(x, keys, values, le, part);
      SomethingElseSent(keys, values, le, part, part(x), Element(x, w), 0);
    }
  }
}
