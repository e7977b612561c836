/** The steps that batch lookups and batch insertions share, on the arrays they work on. */
module BatchSteps {
  import opened Bits
  import opened Sequences
  import opened Networks
  import opened BitonicSort
  import opened Compaction
  import opened CompactInPlace
  import opened BatchRouting

  // ---------------------------------------------------------------- sorting with an index map

  ghost function Ids(n: nat): (r: seq<nat>)
    ensures |r| == n && forall i :: 0 <= i < n ==> r[i] == i
  {
    seq(n, i requires 0 <= i < n => i)
  }

  /** `im` says which item of `items` each item of `s` is. */
  ghost predicate Rearranged<T>(items: seq<T>, s: seq<T>, im: seq<nat>) {
    && |s| == |items| == |im| && multiset(im) == multiset(Ids(|items|))
    && forall r :: 0 <= r < |s| ==> im[r] < |items| && s[r] == items[im[r]]
  }

  lemma InZip<A, B>(a: seq<A>, b: seq<B>, a': seq<A>, b': seq<B>, r: nat) returns (i: nat)
    requires |a| == |b| && |a'| == |b'| && multiset(Zip(a, b)) == multiset(Zip(a', b')) && r < |a|
    ensures i < |a'| && a[r] == a'[i] && b[r] == b'[i]
  {
    assert Zip(a, b)[r] in multiset(Zip(a', b'));
    i :| 0 <= i < |a'| && Zip(a', b')[i] == Zip(a, b)[r];
  }

  lemma ZipSeconds<A, B>(a: seq<A>, b: seq<B>, a': seq<A>, b': seq<B>)
    requires |a| == |b| && |a'| == |b'| && multiset(Zip(a, b)) == multiset(Zip(a', b'))
    ensures multiset(b) == multiset(b')
  {
    MapPermutes(Zip(a, b), Zip(a', b'), (x: (A, B)) => x.1);
    assert Map(Zip(a, b), (x: (A, B)) => x.1) == b && Map(Zip(a', b'), (x: (A, B)) => x.1) == b';
  }

  lemma ZipRearranges<T>(items: seq<T>, s: seq<T>, im: seq<nat>)
    requires |s| == |items| == |im| && multiset(Zip(s, im)) == multiset(Zip(items, Ids(|items|)))
    ensures Rearranged(items, s, im)
  {
    ZipSeconds(s, im, items, Ids(|items|));
    forall r | 0 <= r < |s| ensures im[r] < |items| && s[r] == items[im[r]] {
      var i := InZip(s, im, items, Ids(|items|), r);
    }
  }

  /** `s` and `im` are what the sorting network makes of the items and their numbers. */
  ghost predicate NetworkOrder<K, V>(items: seq<Item<K, V>>, s: seq<Item<K, V>>, im: seq<nat>, le: (K, K) -> bool) {
    && |s| == |im| == |items|
    && Zip(s, im) == Sorting(Zip(items, Ids(|items|)), ByFirst(ItemLe(le)))
  }

  /** The numbers do not influence the order of the items. */
  lemma {:induction false} NetworkSortsItems<K, V>(items: seq<Item<K, V>>, s: seq<Item<K, V>>, im: seq<nat>,
                                                   le: (K, K) -> bool)
    requires NetworkOrder(items, s, im, le)
    ensures s == Sorting(items, ItemLe(le))
  {
    hide Sorting, ItemLe;
    var z := Zip(items, Ids(|items|));
    SortingMap(z, ByFirst(ItemLe(le)), ItemLe(le), (x: (Item<K, V>, nat)) => x.0);
    assert Map(z, (x: (Item<K, V>, nat)) => x.0) == items;
    assert Map(Zip(s, im), (x: (Item<K, V>, nat)) => x.0) == s;
  }

  /** Sorts the first `n` items by partition and key, and returns where each came from. */
  method SortByPartition<K(==, !new), V(!new)>(keyinfo: array<Item<K, V>>, n: nat, le: (K, K) -> bool)
    returns (indexMap: array<nat>)
    requires TotalOrder(le) && n <= keyinfo.Length && n <= 0x8000_0000_0000_0000
    modifies keyinfo
    ensures fresh(indexMap) && indexMap.Length == n && keyinfo[n..] == old(keyinfo[n..])
    ensures Rearranged(old(keyinfo[..n]), keyinfo[..n], indexMap[..]) && Sorted(keyinfo[..n], ItemLe(le))
    ensures NetworkOrder(old(keyinfo[..n]), keyinfo[..n], indexMap[..], le)
  {
    hide Zip, Sorted, TotalOrder, TotalPreorder, Sorting, ItemLe, ByFirst;
    indexMap := new nat[n](i => i);
    assert indexMap[..] == Ids(n);
    ItemLeIsTotal<K, V>(le);
    BitonicPayloadSort(keyinfo, indexMap, n, ItemLe(le));
    ZipRearranges(old(keyinfo[..n]), keyinfo[..n], indexMap[..]);
  }

  predicate NatLe(a: nat, b: nat) { a <= b }

  /** A sorted arrangement of 0..n is 0..n itself. */
  lemma {:induction false} SortedIds(j: seq<nat>, n: nat)
    requires Sorted(j, NatLe) && |j| == n && multiset(j) == multiset(Ids(n))
    ensures j == Ids(n)
  {
    if n > 0 {
      var m := n - 1;
      assert Ids(n) == Ids(m) + [m] && j == j[..m] + [j[m]];
      LastIsGreatest(j, n);
      CancelOne(multiset(j[..m]), multiset(Ids(m)), m);
      SortedIds(j[..m], m);
    }
  }

  lemma LastIsGreatest(j: seq<nat>, n: nat)
    requires Sorted(j, NatLe) && |j| == n > 0 && multiset(j) == multiset(Ids(n))
    ensures j[n - 1] == n - 1
  {
    assert Ids(n)[n - 1] in multiset(j);
    var i :| 0 <= i < n && j[i] == n - 1;
    if i < n - 1 { assert NatLe(j[i], j[n - 1]); }
    assert j[n - 1] in multiset(Ids(n));
    assert j[n - 1] in Ids(n);
  }

  /** Sorting results by their original index puts each back in its place. */
  method SortBack<R>(indexMap: array<nat>, results: array<R>, n: nat, ghost items: seq<R>)
    requires indexMap.Length == results.Length == n == |items| && indexMap as object != results
    requires n <= 0x8000_0000_0000_0000
    requires multiset(indexMap[..]) == multiset(Ids(n))
    requires forall r :: 0 <= r < n ==> indexMap[r] < n && results[r] == items[indexMap[r]]
    modifies indexMap, results
    ensures results[..] == items
  {
    hide Zip, Sorted;
    ghost var im, res := indexMap[..], results[..];
    NatLeIsTotal();
    assert indexMap[..n] == im;
    BitonicPayloadSort(indexMap, results, n, NatLe);
    assert indexMap[..n] == indexMap[..];
    SortedIds(indexMap[..], n);
    forall i | 0 <= i < n ensures results[i] == items[i] {
      var r := InZip(indexMap[..], results[..], im, res, i);
    }
  }

  lemma NatLeIsTotal()
    ensures TotalPreorder(NatLe)
  {
  }

  // ---------------------------------------------------------------- repeated keys and loads

  /** What is left of `s` when the repeated items are given partition `parts`, if `mark`. */
  ghost function MarkedItems<K, V>(s: seq<Item<K, V>>, n: nat, parts: nat, mark: bool): (r: seq<Item<K, V>>)
    requires n <= |s|
    ensures |r| == |s|
  {
    seq(|s|, i requires 0 <= i < |s| => if mark && i < n && !IsNew(s, i) then s[i].(partition := parts) else s[i])
  }

  /** A prefix sum that counts the new items. */
  ghost predicate CountsNew<K, V>(p: seq<nat>, s: seq<Item<K, V>>) {
    && |p| == |s| + 1 && Steps(p) && p[0] == 0
    && forall i: nat :: i < |s| ==> (Marked(p, i) <==> IsNew(s, i))
  }

  /** Adds one to the load of the partition of a new item. */
  method AddLoad(load: array<nat>, partition: nat, isNew: bool)
    modifies load
    ensures forall j :: 0 <= j < load.Length ==> load[j] == old(load[j]) + if isNew && j == partition then 1 else 0
  {
    for j := 0 to load.Length
      invariant forall k :: 0 <= k < load.Length ==>
        load[k] == old(load[k]) + if k < j && isNew && k == partition then 1 else 0
    {
      var cond := partition == j;
      if cond && isNew { load[j] := load[j] + 1; }
    }
  }

  lemma MarkOne<K, V>(s: seq<Item<K, V>>, i: nat, parts: nat, mark: bool)
    requires 0 < i < |s|
    ensures MarkedItems(s, i, parts, mark)[i] == s[i] && MarkedItems(s, i, parts, mark)[i - 1].key == s[i - 1].key
    ensures MarkedItems(s, i + 1, parts, mark) ==
            if mark && !IsNew(s, i) then MarkedItems(s, i, parts, mark)[i := s[i].(partition := parts)]
            else MarkedItems(s, i, parts, mark)
  {
  }

  lemma MarkNone<K, V>(s: seq<Item<K, V>>, parts: nat, mark: bool)
    requires |s| > 0
    ensures MarkedItems(s, 1, parts, mark) == s
  {
  }

  /** The prefix sum and the loads after `i` items. */
  ghost predicate Counted<K, V>(s: seq<Item<K, V>>, prefix: seq<nat>, load: seq<nat>, i: nat) {
    && i <= |s| && |prefix| == |s| + 1 && prefix[0] == 0
    && (forall x: nat :: x < i ==> prefix[x + 1] == prefix[x] + if IsNew(s, x) then 1 else 0)
    && forall j: nat :: j < |load| ==> load[j] == Load(s, i, j)
  }

  /** The loads with one more new item of the given partition. */
  ghost predicate Added(load: seq<nat>, load': seq<nat>, partition: nat, isNew: bool) {
    |load'| == |load| && forall j :: 0 <= j < |load| ==> load'[j] == load[j] + if isNew && j == partition then 1 else 0
  }

  lemma CountOne<K, V>(s: seq<Item<K, V>>, prefix: seq<nat>, load: seq<nat>, load': seq<nat>, i: nat)
    requires Counted(s, prefix, load, i) && i < |s| && Added(load, load', s[i].partition, IsNew(s, i))
    ensures Counted(s, prefix[i + 1 := prefix[i] + if IsNew(s, i) then 1 else 0], load', i + 1)
  {
  }

  lemma CountStart<K, V>(s: seq<Item<K, V>>, prefix: seq<nat>, load: seq<nat>)
    requires |prefix| == |s| + 1 && prefix[0] == 0 && forall j :: 0 <= j < |load| ==> load[j] == 0
    ensures Counted(s, prefix, load, 0)
  {
  }

  lemma {:induction false} CountEnd<K, V>(s: seq<Item<K, V>>, prefix: seq<nat>, load: seq<nat>)
    requires Counted(s, prefix, load, |s|)
    ensures CountsNew(prefix, s) && forall j: nat :: j < |load| ==> load[j] == Load(s, |s|, j)
  {
    forall i: nat | i < |s|
      ensures prefix[i] <= prefix[i + 1] <= prefix[i] + 1 && (Marked(prefix, i) <==> IsNew(s, i))
    {
      assert prefix[i + 1] == prefix[i] + if IsNew(s, i) then 1 else 0;
    }
  }

  /** Counts the new items and the load of each partition; marks repeated items with partition `parts` if `mark`. */
  method FindRepeats<K(==), V>(keyinfo: array<Item<K, V>>, n: nat, parts: nat, mark: bool)
    returns (prefix: array<nat>, load: array<nat>)
    requires 0 < n <= keyinfo.Length
    modifies keyinfo
    ensures fresh(prefix) && fresh(load) && keyinfo[n..] == old(keyinfo[n..])
    ensures keyinfo[..n] == MarkedItems(old(keyinfo[..n]), n, parts, mark)
    ensures CountsNew(prefix[..], old(keyinfo[..n]))
    ensures load.Length == parts && forall j: nat :: j < parts ==> load[j] == Load(old(keyinfo[..n]), n, j)
  {
    hide MarkedItems, Counted, Load, CountsNew;
    ghost var s := keyinfo[..n];
    load := new nat[parts](_ => 0);
    prefix := new nat[n + 1](_ => 0);
    CountStart(s, prefix[..], load[..]);
    ghost var p0, l0 := prefix[..], load[..];
    prefix[1] := 1;
    AddLoad(load, keyinfo[0].partition, true);
    CountOne(s, p0, l0, load[..], 0);
    assert prefix[..] == p0[1 := 1];
    MarkNone(s, parts, mark);
    for i := 1 to n
      invariant prefix.Length == n + 1 && load.Length == parts
      invariant keyinfo[n..] == old(keyinfo[n..]) && keyinfo[..n] == MarkedItems(s, i, parts, mark)
      invariant Counted(s, prefix[..], load[..], i)
    {
      MarkOne(s, i, parts, mark);
      assert keyinfo[..n][i] == keyinfo[i] && keyinfo[..n][i - 1] == keyinfo[i - 1];
      var newKey := keyinfo[i].key != keyinfo[i - 1].key;
      ghost var p, l := prefix[..], load[..];
      prefix[i + 1] := prefix[i];
      if newKey { prefix[i + 1] := prefix[i] + 1; }
      if mark && !newKey { keyinfo[i] := keyinfo[i].(partition := parts); }
      AddLoad(load, keyinfo[i].partition, newKey);
      CountOne(s, p, l, load[..], i);
      assert prefix[..] == p[i + 1 := p[i] + if IsNew(s, i) then 1 else 0];
    }
    CountEnd(s, prefix[..], load[..]);
  }

  // ---------------------------------------------------------------- equal shares

  /** The running sum of the loads. */
  method RunningSum(load: array<nat>) returns (start: array<nat>)
    ensures fresh(start) && start.Length == load.Length + 1 && Sums(load[..], start[..], load.Length)
  {
    start := new nat[load.Length + 1](_ => 0);
    for j := 0 to load.Length
      invariant start[0] == 0 && forall k :: 0 <= k < j ==> start[k + 1] == start[k] + load[k]
    {
      start[j + 1] := start[j] + load[j];
    }
  }

  ghost predicate ShareEntry(p: seq<nat>, load: seq<nat>, start: seq<nat>, b: nat, j: nat, i: nat) {
    j < |load| && j < |start| && j * b + i < |p| && p[j * b + i] == start[j] + Min(i, load[j])
  }

  /** The entries up to slot `i` of share `j` are there. */
  ghost predicate SharedTo(p: seq<nat>, load: seq<nat>, start: seq<nat>, b: nat, j: nat, i: nat) {
    && |start| == |load| + 1 && |p| == |load| * b + 1 && j <= |load| && i <= b
    && forall k: nat, x: nat :: k < |load| && x <= b && (k < j || (k == j && x <= i)) ==>
       ShareEntry(p, load, start, b, k, x)
  }

  lemma ShareStart(p: seq<nat>, load: seq<nat>, start: seq<nat>, b: nat)
    requires |start| == |load| + 1 && |p| == |load| * b + 1 && start[0] == 0 && p[0] == 0
    ensures SharedTo(p, load, start, b, 0, 0)
  {
    assert 0 * b == 0;
  }

  lemma ShareSlot(p: seq<nat>, load: seq<nat>, start: seq<nat>, b: nat, j: nat, i: nat)
    requires SharedTo(p, load, start, b, j, i) && j < |load| && i < b
    ensures j * b + i + 1 < |p|
    ensures SharedTo(p[j * b + i + 1 := start[j] + Min(i + 1, load[j])], load, start, b, j, i + 1)
  {
    hide ShareEntry;
    SlotFits(j, i + 1, |load|, b);
    var i' := i + 1;
    var p' := p[j * b + i + 1 := start[j] + Min(i', load[j])];
    forall k: nat, x: nat | k < |load| && x <= b && (k < j || (k == j && x <= i'))
      ensures ShareEntry(p', load, start, b, k, x)
    {
      if k == j && x == i' {
        NewEntry(p, load, start, b, j, i);
      } else {
        OldEntry(p, load, start, b, j, i, k, x, start[j] + Min(i', load[j]));
      }
    }
  }

  lemma NewEntry(p: seq<nat>, load: seq<nat>, start: seq<nat>, b: nat, j: nat, i: nat)
    requires j < |load| && j < |start| && j * b + i + 1 < |p|
    ensures ShareEntry(p[j * b + i + 1 := start[j] + Min(i + 1, load[j])], load, start, b, j, i + 1)
  {
  }

  lemma OldEntry(p: seq<nat>, load: seq<nat>, start: seq<nat>, b: nat, j: nat, i: nat, k: nat, x: nat, v: nat)
    requires ShareEntry(p, load, start, b, k, x) && x <= b && (k < j || (k == j && x <= i)) && j * b + i + 1 < |p|
    ensures ShareEntry(p[j * b + i + 1 := v], load, start, b, k, x)
  {
    if k < j { EarlierShare(b, k, j); }
  }

  lemma EarlierShare(b: nat, k: nat, j: nat)
    requires k < j
    ensures k * b + b <= j * b
  {
    MulMonotone(b, k + 1, j);
  }

  lemma NextShare(p: seq<nat>, load: seq<nat>, start: seq<nat>, b: nat, j: nat)
    requires SharedTo(p, load, start, b, j, b) && Sums(load, start, |load|) && j < |load| && load[j] <= b
    ensures SharedTo(p, load, start, b, j + 1, 0)
  {
    var j' := j + 1;
    forall k: nat, x: nat | k < |load| && x <= b && (k < j' || (k == j' && x <= 0))
      ensures ShareEntry(p, load, start, b, k, x)
    {
      assert ShareEntry(p, load, start, b, j, b);
      if k == j' { FirstEntry(p, load, start, b, j); }
    }
  }

  lemma FirstEntry(p: seq<nat>, load: seq<nat>, start: seq<nat>, b: nat, j: nat)
    requires ShareEntry(p, load, start, b, j, b) && Sums(load, start, |load|) && j + 1 < |load| && load[j] <= b
    ensures ShareEntry(p, load, start, b, j + 1, 0)
  {
    assert (j + 1) * b + 0 == j * b + b;
  }

  lemma SharesDone(p: seq<nat>, load: seq<nat>, start: seq<nat>, b: nat)
    requires SharedTo(p, load, start, b, |load|, 0) && Sums(load, start, |load|) && b > 0
    ensures Shares(p, load, start, |load|, b)
  {
    forall j: nat, i: nat | j < |load| && i <= b
      ensures (SlotFits(j, i, |load|, b); p[j * b + i] == start[j] + Min(i, load[j]))
    {
      assert ShareEntry(p, load, start, b, j, i);
      SlotFits(j, i, |load|, b);
    }
  }

  /** The prefix sum of equal shares: share `j` counts its first load[j] slots. */
  method SharePrefix(load: array<nat>, start: array<nat>, b: nat) returns (prefix: array<nat>)
    requires Sums(load[..], start[..], load.Length) && b > 0 && forall j :: 0 <= j < load.Length ==> load[j] <= b
    ensures fresh(prefix) && Shares(prefix[..], load[..], start[..], load.Length, b)
  {
    hide SharedTo, Shares;
    prefix := new nat[load.Length * b + 1](_ => 0);
    ShareStart(prefix[..], load[..], start[..], b);
    for j := 0 to load.Length
      invariant prefix.Length == load.Length * b + 1 && SharedTo(prefix[..], load[..], start[..], b, j, 0)
    {
      for i := 0 to b
        invariant prefix.Length == load.Length * b + 1 && SharedTo(prefix[..], load[..], start[..], b, j, i)
      {
        ShareSlot(prefix[..], load[..], start[..], b, j, i);
        var rankInPart := i + 1;
        if rankInPart > load[j] { rankInPart := load[j]; }
        prefix[j * b + i + 1] := start[j] + rankInPart;
      }
      NextShare(prefix[..], load[..], start[..], b, j);
    }
    SharesDone(prefix[..], load[..], start[..], b);
  }

  // ---------------------------------------------------------------- the routed batch

  /** Compaction by the prefix sum of new items brings the first ones to the front. */
  lemma {:induction false} FirstsComeFirst<K, V>(p: seq<nat>, s: seq<Item<K, V>>, u: seq<Item<K, V>>, n: nat)
    requires CountsNew(p, s) && |u| == |s| && n <= |s|
    requires forall i: nat :: i < |s| && IsNew(s, i) ==> u[i] == s[i]
    ensures Rank(p, n) == |Firsts(s, n)| <= n && Compact(u, p)[..Rank(p, n)] == Firsts(s, n)
  {
    hide Compact;
    StepsMonotone(p, 0, n);
    if n > 0 {
      FirstsComeFirst(p, s, u, n - 1);
      assert Marked(p, n - 1) <==> IsNew(s, n - 1);
      if IsNew(s, n - 1) {
        CompactPlaces(u, p, n - 1);
      }
    }
  }

  /** Slot `i` of share `j` holds item `i` of partition `j`. */
  ghost predicate RoutedSlot<K, V>(d: seq<Item<K, V>>, routed: seq<Item<K, V>>, start: seq<nat>, b: nat, j: nat,
                                   i: nat) {
    j < |start| && start[j] + i < |d| && j * b + i < |routed| && routed[j * b + i] == d[start[j] + i]
  }

  /** Where the routed items are: in each share, in order, in as many slots as the load says. */
  ghost predicate Routed<K, V>(d: seq<Item<K, V>>, routed: seq<Item<K, V>>, load: seq<nat>, start: seq<nat>, b: nat) {
    && |start| == |load| + 1 && |routed| == |load| * b
    && forall j: nat, i: nat :: j < |load| && i < load[j] && i < b ==> RoutedSlot(d, routed, start, b, j, i)
  }

  /** Distribution by shares routes the leading items. */
  lemma {:induction false} DistributeRoutes<K, V>(e: seq<Item<K, V>>, d: seq<Item<K, V>>, p: seq<nat>, load: seq<nat>,
                                                  start: seq<nat>, b: nat)
    requires |load| > 0 && Shares(p, load, start, |load|, b) && Steps(p) && |e| == |load| * b && |p| == |e| + 1
    requires d <= e && |d| == start[|load|]
    ensures Routed(d, Distribute(e, p), load, start, b)
  {
    hide Distribute, Shares, Steps, Rank, Marked;
    SharesLength(p, load, start, |load|, b);
    SharesSums(p, load, start, b);
    forall j: nat, i: nat | j < |load| && i < load[j] && i < b ensures RoutedSlot(d, Distribute(e, p), start, b, j, i) {
      SlotFits(j, i + 1, |load|, b);
      ShareSlots(p, load, start, |load|, b, j, i);
      DistributePlaces(e, p, j * b + i);
      StartGrows(load, start, |load|, j + 1, |load|);
    }
  }

  lemma SharesSums(p: seq<nat>, load: seq<nat>, start: seq<nat>, b: nat)
    requires Shares(p, load, start, |load|, b)
    ensures Sums(load, start, |load|)
  {
  }

  /** The slots past the loads hold items of no partition, if everything past the leading items does. */
  lemma {:induction false} RestIsPadding<K(!new), V(!new)>(e: seq<Item<K, V>>, d: seq<Item<K, V>>, p: seq<nat>,
                                                           load: seq<nat>, start: seq<nat>, b: nat,
                                                           j: nat, i: nat)
    requires |load| > 0 && Shares(p, load, start, |load|, b) && Steps(p) && |e| == |load| * b && |p| == |e| + 1
    requires d <= e && |d| == start[|load|] && load[|load| - 1] <= b
    requires (forall r :: 0 <= r < |d| ==> d[r].partition < |load|)
    requires (forall r :: |d| <= r < |e| ==> e[r].partition == |load|)
    requires j < |load| && load[j] <= i < b
    ensures j * b + i < |e| && Distribute(e, p)[j * b + i].partition == |load|
  {
    hide Distribute, Shares, Steps, Kept, Compact;
    var isDummy := (x: Item<K, V>) => x.partition == |load|;
    var r := Distribute(e, p);
    ShareSlots(p, load, start, |load|, b, j, i);
    SharesTotal(p, load, start, |load|, b);
    forall q: nat | q < |e| && Marked(p, q) ensures !isDummy(r[q]) {
      DistributePlaces(e, p, q);
      RankBounds(p, q);
    }
    DistributePermutes(e, p);
    KeptOfPermutation(r, e, isDummy);
    LeadingAreKept(e, d, isDummy);
    OthersAreDummies(p, r, isDummy, j * b + i);
  }

  lemma {:induction false} LeadingAreKept<T>(e: seq<T>, d: seq<T>, isDummy: T -> bool)
    requires d <= e && (forall r :: 0 <= r < |d| ==> !isDummy(d[r])) && (forall r :: |d| <= r < |e| ==> isDummy(e[r]))
    ensures Kept(e, isDummy) == d
  {
    hide Kept;
    NothingKept(isDummy);
    if e != [] {
      var n := |e| - 1;
      assert e == e[..n] + [e[n]];
      LastKept(e[..n], e[n], isDummy);
      if |d| == |e| { LeadingAreKept(e[..n], d[..n], isDummy); } else { LeadingAreKept(e[..n], d, isDummy); }
    }
  }
}
