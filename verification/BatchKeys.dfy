/** What the sorted batch says about the keys that were asked for. */
module BatchKeys {
  import opened Networks
  import opened BitonicSort
  import opened Compaction
  import opened BatchRouting
  import opened BatchSteps
  import opened BatchPipeline

  /** The keys of a batch that belong to partition `j`. */
  ghost function KeysOfPart<K(!new)>(keys: seq<K>, part: K -> nat, j: nat): set<K> {
    set k | k in keys && part(k) == j
  }

  ghost function BatchItems<K, V>(keys: seq<K>, values: seq<V>, part: K -> nat): (items: seq<Item<K, V>>)
    requires |keys| == |values|
    ensures |items| == |keys|
    ensures forall i :: 0 <= i < |keys| ==> items[i] == Item(part(keys[i]), keys[i], values[i])
  {
    seq(|keys|, i requires 0 <= i < |keys| => Item(part(keys[i]), keys[i], values[i]))
  }

  /** `s` is the batch in order, and `im` says where each item comes from. */
  ghost predicate SortedBatch<K(!new), V>(keys: seq<K>, values: seq<V>, s: seq<Item<K, V>>, im: seq<nat>,
                                          le: (K, K) -> bool, part: K -> nat) {
    && |keys| == |values| && TotalOrder(le) && (forall k :: part(k) < P)
    && Rearranged(BatchItems(keys, values, part), s, im) && Arranged(s, le, part)
  }

  lemma BatchSize<K(!new), V>(keys: seq<K>, values: seq<V>, s: seq<Item<K, V>>, im: seq<nat>,
                              le: (K, K) -> bool, part: K -> nat)
    requires SortedBatch(keys, values, s, im, le, part)
    ensures |s| == |im| == |keys| == |values| && TotalOrder(le) && Arranged(s, le, part)
    ensures multiset(im) == multiset(Ids(|keys|))
    ensures forall r :: 0 <= r < |s| ==> s[r].partition < P
  {
    hide TotalOrder, Sorted;
  }

  /** Item `r` of the sorted batch is the one with index im[r]. */
  lemma ItemAt<K(!new), V>(keys: seq<K>, values: seq<V>, s: seq<Item<K, V>>, im: seq<nat>,
                           le: (K, K) -> bool, part: K -> nat, r: nat)
    requires SortedBatch(keys, values, s, im, le, part) && r < |s|
    ensures |s| == |im| == |keys| == |values| && im[r] < |keys|
    ensures s[r] == Item(part(keys[im[r]]), keys[im[r]], values[im[r]])
  {
    hide TotalOrder, Arranged;
    var items := BatchItems(keys, values, part);
    assert s[r] == items[im[r]];
  }

  /** Every index of the batch has its place in the sorted batch. */
  lemma IndexHits<K(!new), V>(keys: seq<K>, values: seq<V>, s: seq<Item<K, V>>, im: seq<nat>,
                              le: (K, K) -> bool, part: K -> nat, y: nat) returns (r: nat)
    requires SortedBatch(keys, values, s, im, le, part) && y < |keys|
    ensures r < |s| == |im| == |keys| && im[r] == y && s[r].key == keys[y]
  {
    hide TotalOrder, Arranged;
    assert Ids(|keys|)[y] in multiset(im);
    r :| 0 <= r < |im| && im[r] == y;
    ItemAt(keys, values, s, im, le, part, r);
  }

  // ---------------------------------------------------------------- loads

  /** The sorted batch has the same keys as the batch, in every partition. */
  lemma SameKeys<K(!new), V>(keys: seq<K>, values: seq<V>, s: seq<Item<K, V>>, im: seq<nat>,
                             le: (K, K) -> bool, part: K -> nat, j: nat)
    requires SortedBatch(keys, values, s, im, le, part)
    ensures KeysIn(s, |s|, j) == KeysOfPart(keys, part, j) && AllKeys(s, |s|) == set k | k in keys
  {
    hide SortedBatch;
    forall k | k in keys ensures k in AllKeys(s, |s|) && (part(k) == j ==> k in KeysIn(s, |s|, j)) {
      var y: nat :| y < |keys| && keys[y] == k;
      var r := IndexHits(keys, values, s, im, le, part, y);
      ItemAt(keys, values, s, im, le, part, r);
    }
    forall r: nat | r < |s| ensures s[r].key in keys && s[r].partition == part(s[r].key) {
      ItemAt(keys, values, s, im, le, part, r);
    }
  }

  lemma {:induction false} LoadOfPart<K(!new), V>(keys: seq<K>, values: seq<V>, s: seq<Item<K, V>>, im: seq<nat>,
                                                  le: (K, K) -> bool, part: K -> nat, j: nat)
    requires SortedBatch(keys, values, s, im, le, part)
    ensures Load(s, |s|, j) == |KeysOfPart(keys, part, j)| && |Firsts(s, |s|)| == |set k | k in keys|
  {
    hide SortedBatch, Load, KeysOfPart, KeysIn, AllKeys, Firsts, TotalOrder, Arranged;
    BatchSize(keys, values, s, im, le, part);
    LoadIsCount(s, le, part, |s|, j);
    SameKeys(keys, values, s, im, le, part, j);
  }

  /** The loads stay within `b` exactly when no partition gets more than `b` different keys. */
  lemma {:induction false} BatchLoads<K(!new), V>(keys: seq<K>, values: seq<V>, s: seq<Item<K, V>>, im: seq<nat>,
                                                  le: (K, K) -> bool, part: K -> nat, b: nat)
    requires SortedBatch(keys, values, s, im, le, part)
    ensures |s| == |keys| && |Firsts(s, |s|)| == |set k | k in keys|
    ensures (forall j: nat :: j < P ==> Load(s, |s|, j) <= b) <==>
            (forall j: nat :: j < P ==> |KeysOfPart(keys, part, j)| <= b)
  {
    hide SortedBatch, Load, KeysOfPart, Firsts, TotalOrder, Arranged;
    BatchSize(keys, values, s, im, le, part);
    LoadOfPart(keys, values, s, im, le, part, 0);
    if forall j: nat :: j < P ==> Load(s, |s|, j) <= b {
      forall j: nat | j < P ensures |KeysOfPart(keys, part, j)| <= b {
        LoadOfPart(keys, values, s, im, le, part, j);
        assert Load(s, |s|, j) <= b;
      }
    } else {
      var j: nat :| j < P && Load(s, |s|, j) > b;
      LoadOfPart(keys, values, s, im, le, part, j);
    }
  }

  // ---------------------------------------------------------------- neighbours in the batch

  /** The key at index `y` occurs at no other index. */
  ghost predicate Once<K>(keys: seq<K>, y: nat)
    requires y < |keys|
  {
    forall z :: 0 <= z < |keys| && keys[z] == keys[y] ==> z == y
  }

  /** The order of the sorted batch. */
  ghost predicate KeyBelow<K>(x: K, y: K, le: (K, K) -> bool, part: K -> nat) {
    part(x) < part(y) || (part(x) == part(y) && x != y && le(x, y))
  }

  /** No key of the batch lies between those at `x` and `y`, which are in this order. */
  ghost predicate Precedes<K>(keys: seq<K>, x: nat, y: nat, le: (K, K) -> bool, part: K -> nat)
    requires x < |keys| && y < |keys|
  {
    && KeyBelow(keys[x], keys[y], le, part)
    && forall z :: 0 <= z < |keys| ==> !(KeyBelow(keys[x], keys[z], le, part) && KeyBelow(keys[z], keys[y], le, part))
  }

  /** The key before that at index `y` is repeated. */
  ghost predicate AfterRepeated<K>(keys: seq<K>, y: nat, le: (K, K) -> bool, part: K -> nat)
    requires y < |keys|
  {
    exists x: nat :: x < |keys| && Precedes(keys, x, y, le, part) && !Once(keys, x)
  }

  lemma OrderedKeys<K(!new), V>(s: seq<Item<K, V>>, le: (K, K) -> bool, part: K -> nat, i: nat, j: nat)
    requires TotalOrder(le) && Arranged(s, le, part) && i <= j < |s|
    ensures s[i].key == s[j].key || KeyBelow(s[i].key, s[j].key, le, part)
    ensures !KeyBelow(s[j].key, s[i].key, le, part)
  {
    if i < j {
      assert ItemLe(le)(s[i], s[j]);
      CmpCtIsLexicographic(s[i], s[j], le);
    }
  }

  /** Two places of the sorted batch with the same key make it a repeated one. */
  lemma TwoAreRepeated<K(!new), V>(keys: seq<K>, values: seq<V>, s: seq<Item<K, V>>, im: seq<nat>,
                                   le: (K, K) -> bool, part: K -> nat, i: nat, j: nat)
    requires SortedBatch(keys, values, s, im, le, part) && i < j < |s| == |im| == |keys| && s[i].key == s[j].key
    ensures im[j] < |keys| && keys[im[j]] == s[j].key && !Once(keys, im[j])
  {
    hide SortedBatch;
    BatchSize(keys, values, s, im, le, part);
    ItemAt(keys, values, s, im, le, part, i);
    ItemAt(keys, values, s, im, le, part, j);
    IdsOnce(im, |keys|, i, j);
  }

  /** A new item after one that is not new comes after a repeated key. */
  lemma NewAfterRepeated<K(!new), V>(keys: seq<K>, values: seq<V>, s: seq<Item<K, V>>, im: seq<nat>,
                                     le: (K, K) -> bool, part: K -> nat, i: nat)
    requires SortedBatch(keys, values, s, im, le, part) && 0 < i < |s| == |im| == |keys| && im[i] < |keys|
    requires IsNew(s, i) && !IsNew(s, i - 1)
    ensures AfterRepeated(keys, im[i], le, part)
  {
    hide SortedBatch, KeyBelow, Arranged, TotalOrder;
    BatchSize(keys, values, s, im, le, part);
    ItemAt(keys, values, s, im, le, part, i);
    TwoAreRepeated(keys, values, s, im, le, part, i - 2, i - 1);
    var x, y := im[i - 1], im[i];
    OrderedKeys(s, le, part, i - 1, i);
    forall z: nat | z < |keys|
      ensures !(KeyBelow(keys[x], keys[z], le, part) && KeyBelow(keys[z], keys[y], le, part))
    {
      var t := IndexHits(keys, values, s, im, le, part, z);
      if t <= i - 1 { OrderedKeys(s, le, part, t, i - 1); } else { OrderedKeys(s, le, part, i, t); }
    }
    assert Precedes(keys, x, y, le, part);
  }

  /** The item before a new item has the key before it; if that is repeated, the item before is not new. */
  lemma RepeatedIsBefore<K(!new), V>(keys: seq<K>, values: seq<V>, s: seq<Item<K, V>>, im: seq<nat>,
                                     le: (K, K) -> bool, part: K -> nat, i: nat, x: nat)
    requires SortedBatch(keys, values, s, im, le, part) && i < |s| == |im| == |keys| && im[i] < |keys| && IsNew(s, i)
    requires x < |keys| && Precedes(keys, x, im[i], le, part)
    ensures i > 0 && s[i - 1].key == keys[x] && (!Once(keys, x) ==> !IsNew(s, i - 1))
  {
    hide SortedBatch, KeyBelow, Arranged, TotalOrder;
    BatchSize(keys, values, s, im, le, part);
    ItemAt(keys, values, s, im, le, part, i);
    var t := IndexHits(keys, values, s, im, le, part, x);
    if i <= t { OrderedKeys(s, le, part, i, t); }
    ItemAt(keys, values, s, im, le, part, i - 1);
    OrderedKeys(s, le, part, i - 1, i);
    OrderedKeys(s, le, part, t, i - 1);
    assert s[i - 1].key == keys[x];
    if z: nat :| z < |keys| && keys[z] == keys[x] && z != x {
      var u := IndexHits(keys, values, s, im, le, part, z);
      if i <= u { OrderedKeys(s, le, part, i, u); }
      SameKeysAdjacent(s, le, part, if u < t then u else t, i - 1);
    }
  }

  /** Whether a repeated key comes before depends on the key only. */
  lemma SameNeighbours<K>(keys: seq<K>, y: nat, z: nat, le: (K, K) -> bool, part: K -> nat)
    requires y < |keys| && z < |keys| && keys[y] == keys[z] && AfterRepeated(keys, z, le, part)
    ensures AfterRepeated(keys, y, le, part)
  {
    hide Once, KeyBelow;
    var x: nat :| x < |keys| && Precedes(keys, x, z, le, part) && !Once(keys, x);
    assert Precedes(keys, x, y, le, part);
  }

  // ---------------------------------------------------------------- results

  /** What the results of a batch come from: for each key, the index of the item that stands first in the sorted batch,
      the answer to that item, and the answer to the second item with the key. */
  datatype Book<K, R> = Book(first: map<K, nat>, own: map<K, R>, other: map<K, R>)

  /** The key at index `y` is repeated, and the share of its partition is full. */
  ghost predicate Crowded<K(!new)>(keys: seq<K>, y: nat, part: K -> nat, b: nat)
    requires y < |keys|
  {
    !Once(keys, y) && |KeysOfPart(keys, part, part(keys[y]))| == b
  }

  /** The answers in the book: the first item is answered by the share of its partition; the second one by some share,
      and by another one if the share of the partition is full. */
  ghost predicate BookRight<K(!new), R(!new)>(book: Book<K, R>, keys: seq<K>, y: nat, know: seq<iset<(K, R)>>,
                                              part: K -> nat, b: nat)
    requires y < |keys|
  {
    var k := keys[y];
    && k in book.first && k in book.own && k in book.other
    && book.first[k] < |keys| && keys[book.first[k]] == k
    && Known(know, part(k), k, book.own[k])
    && (!Once(keys, y) ==> exists j: nat :: Known(know, j, k, book.other[k]))
    && (Crowded(keys, y, part, b) ==> exists j: nat :: j != part(k) && Known(know, j, k, book.other[k]))
  }

  /** The result `r` for index `y` is the one in the book: that of the first item in the first place, unless the key
      before is repeated, whose second answer it is then; that of the second item in the other places. */
  ghost predicate FromBook<K(!new), R(!new)>(book: Book<K, R>, keys: seq<K>, y: nat, r: R, le: (K, K) -> bool,
                                             part: K -> nat)
    requires y < |keys|
  {
    var k := keys[y];
    && k in book.first && k in book.own && k in book.other
    && (y != book.first[k] ==> r == book.other[k])
    && (y == book.first[k] && !AfterRepeated(keys, y, le, part) ==> r == book.own[k])
    && (y == book.first[k] ==> forall x: nat :: x < |keys| && Precedes(keys, x, y, le, part) && !Once(keys, x) ==>
          keys[x] in book.other && r == book.other[keys[x]])
  }

  ghost predicate HasSlot<K, V>(s: seq<Item<K, V>>, n: nat, k: K)
    requires n <= |s|
  {
    exists i: nat :: i < n && s[i].key == k
  }

  /** The first of the first `n` slots with key `k`. */
  ghost function SlotOf<K, V>(s: seq<Item<K, V>>, n: nat, k: K): (f: nat)
    requires n <= |s| && HasSlot(s, n, k)
    ensures f < n && s[f].key == k && IsNew(s, f) && forall i :: 0 <= i < f ==> s[i].key != k
  {
    if HasSlot(s, n - 1, k) then SlotOf(s, n - 1, k) else n - 1
  }

  /** The slot after it, if there is one. */
  ghost function NextSlotOf<K, V>(s: seq<Item<K, V>>, k: K): (f: nat)
    requires HasSlot(s, |s|, k)
    ensures f < |s|
  {
    var f := SlotOf(s, |s|, k);
    if f + 1 < |s| then f + 1 else f
  }

  ghost function MakeBook<K, V, R>(keys: seq<K>, s: seq<Item<K, V>>, im: seq<nat>, back: seq<R>): Book<K, R>
    requires |s| == |im| == |back| && forall k :: k in keys ==> HasSlot(s, |s|, k)
  {
    Book(map k | k in keys :: im[SlotOf(s, |s|, k)], map k | k in keys :: back[SlotOf(s, |s|, k)],
         map k | k in keys :: back[NextSlotOf(s, k)])
  }

  /** The indices that the sorting network brings to the first slots of their keys. */
  ghost function NetworkFirsts<K>(keys: seq<K>, le: (K, K) -> bool, part: K -> nat): map<K, nat> {
    var r := Sorting(Zip(BatchItems(keys, seq(|keys|, _ => ()), part), Ids(|keys|)), ByFirst(ItemLe(le)));
    var s := Map(r, (x: (Item<K, ()>, nat)) => x.0);
    map k | k in keys && HasSlot(s, |s|, k) :: r[SlotOf(s, |s|, k)].1
  }

  lemma {:induction false} BookHasNetworkFirsts<K(!new), R>(keys: seq<K>, s: seq<Item<K, ()>>, im: seq<nat>,
                                                            back: seq<R>, le: (K, K) -> bool, part: K -> nat)
    requires |s| == |im| == |back| && forall k :: k in keys ==> HasSlot(s, |s|, k)
    requires NetworkOrder(BatchItems(keys, seq(|keys|, _ => ()), part), s, im, le)
    ensures MakeBook(keys, s, im, back).first == NetworkFirsts(keys, le, part)
  {
    hide Sorting, HasSlot, SlotOf;
    assert Map(Zip(s, im), (x: (Item<K, ()>, nat)) => x.0) == s;
  }

  /** What comes back to every item: an answer about its key, by the share of its partition if the item is new, and by
      another one if it is not and that share is full. */
  ghost predicate AllBack<K(!new), V, R(!new)>(know: seq<iset<(K, R)>>, keys: seq<K>, s: seq<Item<K, V>>, back: seq<R>,
                                               part: K -> nat, b: nat)
    requires |s| == |back|
  {
    forall i: nat :: i < |s| ==>
      && RightBack(know, s, back, i)
      && (!IsNew(s, i) && |KeysOfPart(keys, part, s[i].partition)| == b ==> FromElsewhere(know, s, back, i))
  }

  lemma EveryKeyHasSlot<K(!new), V>(keys: seq<K>, values: seq<V>, s: seq<Item<K, V>>, im: seq<nat>,
                                    le: (K, K) -> bool, part: K -> nat)
    requires SortedBatch(keys, values, s, im, le, part)
    ensures |s| == |im| == |keys| && forall k :: k in keys ==> HasSlot(s, |s|, k)
  {
    hide SortedBatch;
    BatchSize(keys, values, s, im, le, part);
    forall k | k in keys ensures HasSlot(s, |s|, k) {
      var y: nat :| y < |keys| && keys[y] == k;
      var r := IndexHits(keys, values, s, im, le, part, y);
    }
  }

  /** The items from the first with a key to any other with it have this key. */
  lemma {:induction false} RunOfKey<K(!new), V>(s: seq<Item<K, V>>, le: (K, K) -> bool, part: K -> nat, f: nat, i: nat,
                                                t: nat)
    requires TotalOrder(le) && Arranged(s, le, part) && f < t <= i < |s| && s[f].key == s[i].key
    ensures s[t].key == s[i].key && !IsNew(s, t)
    decreases i
  {
    hide TotalOrder, Arranged;
    SameKeysAdjacent(s, le, part, f, i);
    if t < i { RunOfKey(s, le, part, f, i - 1, t); }
  }

  /** The loop takes the result of all slots up to the one after a run from the second slot of the run. */
  lemma {:induction false} SourceOfRun<K, V>(p: seq<nat>, s: seq<Item<K, V>>, f: nat, i: nat)
    requires CountsNew(p, s) && f < i < |s| && IsNew(s, f) && forall t :: f < t < i ==> !IsNew(s, t)
    ensures Source(p, i) == f + 1
  {
    assert Marked(p, i - 1) <==> IsNew(s, i - 1);
    if i > f + 1 { SourceOfRun(p, s, f, i - 1); }
  }

  /** Where the keys of the batch stand: `f` is the first slot with the key at index `y`, and if the key is repeated,
      the slot after it has the key as well. */
  lemma PlacesOfKey<K(!new), V>(keys: seq<K>, values: seq<V>, s: seq<Item<K, V>>, im: seq<nat>, le: (K, K) -> bool,
                                part: K -> nat, y: nat) returns (f: nat)
    requires SortedBatch(keys, values, s, im, le, part) && y < |keys|
    ensures |s| == |im| == |keys| && HasSlot(s, |s|, keys[y]) && f == SlotOf(s, |s|, keys[y])
    ensures im[f] < |keys| && keys[im[f]] == keys[y] && s[f].partition == part(keys[y])
    ensures !Once(keys, y) ==> f + 1 < |s| && s[f + 1].key == keys[y] && !IsNew(s, f + 1)
    ensures !Once(keys, y) ==> s[f + 1].partition == part(keys[y])
  {
    hide SortedBatch, SlotOf, Arranged, TotalOrder;
    BatchSize(keys, values, s, im, le, part);
    EveryKeyHasSlot(keys, values, s, im, le, part);
    f := SlotOf(s, |s|, keys[y]);
    ItemAt(keys, values, s, im, le, part, f);
    if z: nat :| z < |keys| && keys[z] == keys[y] && z != y {
      var u := IndexHits(keys, values, s, im, le, part, y);
      var v := IndexHits(keys, values, s, im, le, part, z);
      RunOfKey(s, le, part, f, if u < v then v else u, f + 1);
      ItemAt(keys, values, s, im, le, part, f + 1);
    }
  }

  lemma {:induction false} BookIsRight<K(!new), V(!new), R(!new)>(
      keys: seq<K>, values: seq<V>, s: seq<Item<K, V>>, im: seq<nat>, le: (K, K) -> bool, part: K -> nat,
      back: seq<R>, know: seq<iset<(K, R)>>, b: nat, y: nat)
    requires SortedBatch(keys, values, s, im, le, part) && |back| == |s| && AllBack(know, keys, s, back, part, b)
    requires y < |keys| && |s| == |im| && forall k :: k in keys ==> HasSlot(s, |s|, k)
    ensures BookRight(MakeBook(keys, s, im, back), keys, y, know, part, b)
  {
    hide SortedBatch, Known, Once, KeysOfPart, SlotOf, HasSlot, MakeBook, NextSlotOf, RightBack, FromElsewhere, IsNew;
    var f := PlacesOfKey(keys, values, s, im, le, part, y);
    BookEntries(keys, s, im, back, keys[y]);
    BackIs(know, keys, s, back, part, b, f);
    if !Once(keys, y) { BackIs(know, keys, s, back, part, b, f + 1); }
  }

  lemma {:induction false} BookEntries<K, V, R>(keys: seq<K>, s: seq<Item<K, V>>, im: seq<nat>, back: seq<R>, k: K)
    requires |s| == |im| == |back| && k in keys && forall k :: k in keys ==> HasSlot(s, |s|, k)
    ensures var (book, f) := (MakeBook(keys, s, im, back), SlotOf(s, |s|, k));
            && k in book.first && k in book.own && k in book.other && IsNew(s, f)
            && book.first[k] == im[f] && book.own[k] == back[f]
            && (f + 1 < |s| ==> book.other[k] == back[f + 1])
  {
    hide HasSlot, SlotOf;
  }

  lemma BackIs<K(!new), V, R(!new)>(know: seq<iset<(K, R)>>, keys: seq<K>, s: seq<Item<K, V>>, back: seq<R>,
                                    part: K -> nat, b: nat, i: nat)
    requires i < |s| == |back| && AllBack(know, keys, s, back, part, b)
    ensures exists j: nat :: Known(know, j, s[i].key, back[i])
    ensures IsNew(s, i) ==> Known(know, s[i].partition, s[i].key, back[i])
    ensures !IsNew(s, i) && |KeysOfPart(keys, part, s[i].partition)| == b ==>
      exists j: nat :: j != s[i].partition && Known(know, j, s[i].key, back[i])
  {
    hide Known, KeysOfPart;
    assert RightBack(know, s, back, i);
  }

  /** Every result is the one in the book. */
  lemma {:induction false} ResultIs<K(!new), V(!new), R(!new)>(
      keys: seq<K>, values: seq<V>, s: seq<Item<K, V>>, im: seq<nat>, le: (K, K) -> bool, part: K -> nat,
      p1: seq<nat>, back: seq<R>, i: nat)
    requires SortedBatch(keys, values, s, im, le, part) && CountsNew(p1, s) && |back| == |s| < |p1|
    requires i < |s| == |im| && im[i] < |keys| && forall k :: k in keys ==> HasSlot(s, |s|, k)
    ensures FromBook(MakeBook(keys, s, im, back), keys, im[i], Propagated(back, p1, |s|)[i], le, part)
  {
    hide SortedBatch, Propagated, CountsNew, Source, Once, Precedes, SlotOf, HasSlot, NextSlotOf, AfterRepeated;
    BatchSize(keys, values, s, im, le, part);
    ItemAt(keys, values, s, im, le, part, i);
    var f := PlacesOfKey(keys, values, s, im, le, part, im[i]);
    PropagatedFrom(back, p1, |s|, i);
    if i == f {
      SourceIs(p1, s, i);
      if i > 0 && !IsNew(s, i - 1) { NewAfterRepeated(keys, values, s, im, le, part, i); }
      forall x: nat | x < |keys| && Precedes(keys, x, im[i], le, part) && !Once(keys, x)
        ensures Source(p1, i) == NextSlotOf(s, keys[x])
      {
        SourceAfterRepeated(keys, values, s, im, le, part, p1, i, x);
      }
    } else {
      IdsOnce(im, |keys|, f, i);
      SourceOfRepeated(s, le, part, p1, f, i);
    }
  }

  lemma {:induction false} SourceOfRepeated<K(!new), V>(s: seq<Item<K, V>>, le: (K, K) -> bool, part: K -> nat,
                                                        p1: seq<nat>, f: nat, i: nat)
    requires TotalOrder(le) && Arranged(s, le, part) && CountsNew(p1, s) && f < i < |s| && s[i].key == s[f].key
    requires HasSlot(s, |s|, s[f].key) && f == SlotOf(s, |s|, s[f].key)
    ensures Source(p1, i) == NextSlotOf(s, s[f].key)
  {
    hide TotalOrder, Arranged, CountsNew, Source;
    forall t | f < t < i ensures !IsNew(s, t) { RunOfKey(s, le, part, f, i, t); }
    SourceOfRun(p1, s, f, i);
  }

  lemma {:induction false} SourceAfterRepeated<K(!new), V>(keys: seq<K>, values: seq<V>, s: seq<Item<K, V>>,
                                                           im: seq<nat>, le: (K, K) -> bool, part: K -> nat,
                                                           p1: seq<nat>, i: nat, x: nat)
    requires SortedBatch(keys, values, s, im, le, part) && CountsNew(p1, s) && i < |s| == |im| == |keys|
    requires im[i] < |keys| && IsNew(s, i) && x < |keys| && Precedes(keys, x, im[i], le, part) && !Once(keys, x)
    requires HasSlot(s, |s|, keys[x])
    ensures Source(p1, i) == NextSlotOf(s, keys[x])
  {
    hide SortedBatch, CountsNew, Source, Once, Precedes, Arranged, TotalOrder;
    BatchSize(keys, values, s, im, le, part);
    RepeatedIsBefore(keys, values, s, im, le, part, i, x);
    var g := SlotOf(s, |s|, keys[x]);
    forall t | g < t < i ensures !IsNew(s, t) { RunOfKey(s, le, part, g, i - 1, t); }
    SourceOfRun(p1, s, g, i);
  }
}
