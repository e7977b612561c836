/** How a sorted batch of keys is cut into equal shares for the partitions: repeated keys, loads, and prefix sums. */
module BatchRouting {
  import opened Bits
  import opened Networks
  import opened Compaction
  import opened CompactInPlace

  /** A key with its partition, and a value for insertions. */
  datatype Item<K, V> = Item(partition: nat, key: K, value: V)

  ghost predicate TotalOrder<K(!new)>(le: (K, K) -> bool) {
    TotalPreorder(le) && forall x, y :: le(x, y) && le(y, x) ==> x == y
  }

  /** The sign of a three-way comparison. */
  function Cmp<K(==)>(a: K, b: K, le: (K, K) -> bool): int {
    if a == b then 0 else if le(a, b) then -1 else 1
  }

  /** The comparison of two items: the partition decides, and the key when the partitions are equal. */
  function CmpCt<K(==), V>(a: Item<K, V>, b: Item<K, V>, le: (K, K) -> bool): int {
    var part := if a.partition == b.partition then 0 else if a.partition < b.partition then -1 else 1;
    var key := Cmp(a.key, b.key, le);
    if part == 0 then key else part
  }

  function ItemLe<K(==), V>(le: (K, K) -> bool): (Item<K, V>, Item<K, V>) -> bool {
    (a: Item<K, V>, b: Item<K, V>) => CmpCt(a, b, le) <= 0
  }

  /** The comparison is the lexicographic order. */
  lemma CmpCtIsLexicographic<K(!new), V>(a: Item<K, V>, b: Item<K, V>, le: (K, K) -> bool)
    requires TotalOrder(le)
    ensures CmpCt(a, b, le) <= 0 <==> a.partition < b.partition || (a.partition == b.partition && le(a.key, b.key))
    ensures CmpCt(a, b, le) == 0 <==> a.partition == b.partition && a.key == b.key
  {
    assert le(a.key, a.key) || le(a.key, a.key);
  }

  lemma ItemLeIsTotal<K(!new), V(!new)>(le: (K, K) -> bool)
    requires TotalOrder(le)
    ensures TotalPreorder<Item<K, V>>(ItemLe(le))
  {
    var ile: (Item<K, V>, Item<K, V>) -> bool := ItemLe(le);
    forall a, b ensures ile(a, b) || ile(b, a) {
      CmpCtIsLexicographic(a, b, le);
      CmpCtIsLexicographic(b, a, le);
      assert le(a.key, b.key) || le(b.key, a.key);
    }
    forall a, b, c | ile(a, b) && ile(b, c) ensures ile(a, c) {
      CmpCtIsLexicographic(a, b, le);
      CmpCtIsLexicographic(b, c, le);
      CmpCtIsLexicographic(a, c, le);
    }
  }

  // ---------------------------------------------------------------- repeated keys

  /** Item `i` is the first with its key. */
  ghost predicate IsNew<K, V>(s: seq<Item<K, V>>, i: nat)
    requires i < |s|
  {
    i == 0 || s[i].key != s[i - 1].key
  }

  /** The items that are the first with their key, among the first `n`. */
  ghost function Firsts<K, V>(s: seq<Item<K, V>>, n: nat): (r: seq<Item<K, V>>)
    requires n <= |s|
    ensures |r| <= n
  {
    if n == 0 then [] else Firsts(s, n - 1) + (if IsNew(s, n - 1) then [s[n - 1]] else [])
  }

  /** Sorted by partition and key, the partition a function of the key. */
  ghost predicate Arranged<K(!new), V>(s: seq<Item<K, V>>, le: (K, K) -> bool, part: K -> nat) {
    && (forall i :: 0 <= i < |s| ==> s[i].partition == part(s[i].key))
    && Sorted(s, ItemLe(le))
  }

  /** Equal keys lie side by side. */
  lemma {:induction false} SameKeysAdjacent<K(!new), V>(s: seq<Item<K, V>>, le: (K, K) -> bool, part: K -> nat, i: nat,
                                                        j: nat)
    requires TotalOrder(le) && Arranged(s, le, part) && i < j < |s| && s[i].key == s[j].key
    ensures s[j - 1].key == s[j].key
  {
    if i < j - 1 {
      assert ItemLe(le)(s[i], s[j - 1]) && ItemLe(le)(s[j - 1], s[j]);
      CmpCtIsLexicographic(s[i], s[j - 1], le);
      CmpCtIsLexicographic(s[j - 1], s[j], le);
    }
  }

  /** A new item's key does not occur before it. */
  lemma NewIsNew<K(!new), V>(s: seq<Item<K, V>>, le: (K, K) -> bool, part: K -> nat, i: nat, j: nat)
    requires TotalOrder(le) && Arranged(s, le, part) && i < j < |s| && IsNew(s, j)
    ensures s[i].key != s[j].key
  {
    if s[i].key == s[j].key { SameKeysAdjacent(s, le, part, i, j); }
  }

  /** Item `r` of the first ones stands at a new place. */
  lemma {:induction false} FirstsFrom<K, V>(s: seq<Item<K, V>>, n: nat, r: nat) returns (i: nat)
    requires n <= |s| && r < |Firsts(s, n)|
    ensures i < n && IsNew(s, i) && Firsts(s, n)[r] == s[i] && |Firsts(s, i)| == r
  {
    if r < |Firsts(s, n - 1)| { i := FirstsFrom(s, n - 1, r); } else { i := n - 1; }
  }

  /** Every key is among the first ones. */
  lemma {:induction false} FirstsHaveAll<K, V>(s: seq<Item<K, V>>, n: nat, i: nat) returns (r: nat)
    requires i < n <= |s|
    ensures r < |Firsts(s, n)| && Firsts(s, n)[r].key == s[i].key
  {
    if i < n - 1 {
      r := FirstsHaveAll(s, n - 1, i);
    } else if IsNew(s, i) {
      r := |Firsts(s, i)|;
    } else {
      r := FirstsHaveAll(s, n - 1, i - 1);
    }
  }

  lemma {:induction false} FirstsGrow<K, V>(s: seq<Item<K, V>>, m: nat, n: nat)
    requires m <= n <= |s|
    ensures |Firsts(s, m)| <= |Firsts(s, n)|
    decreases n
  {
    if m < n { FirstsGrow(s, m, n - 1); }
  }

  /** The first ones have increasing partitions, within a partition increasing keys, and no repeated key. */
  lemma {:induction false} FirstsOrdered<K(!new), V>(s: seq<Item<K, V>>, le: (K, K) -> bool, part: K -> nat, n: nat,
                                                     r: nat, t: nat)
    requires TotalOrder(le) && Arranged(s, le, part) && n <= |s| && r < t < |Firsts(s, n)|
    ensures Firsts(s, n)[r].partition <= Firsts(s, n)[t].partition && Firsts(s, n)[r].key != Firsts(s, n)[t].key
    ensures Firsts(s, n)[r].partition == Firsts(s, n)[t].partition ==> le(Firsts(s, n)[r].key, Firsts(s, n)[t].key)
  {
    hide Firsts;
    var i := FirstsFrom(s, n, r);
    var j := FirstsFrom(s, n, t);
    if j <= i { FirstsGrow(s, j, i); }
    NewIsNew(s, le, part, i, j);
    assert ItemLe(le)(s[i], s[j]);
    CmpCtIsLexicographic(s[i], s[j], le);
  }

  // ---------------------------------------------------------------- loads

  /** How many of the first `n` items are new and belong to partition `j`. */
  ghost function Load<K, V>(s: seq<Item<K, V>>, n: nat, j: nat): (c: nat)
    requires n <= |s|
    ensures c <= n
  {
    if n == 0 then 0 else Load(s, n - 1, j) + (if IsNew(s, n - 1) && s[n - 1].partition == j then 1 else 0)
  }

  ghost function KeysIn<K(!new), V>(s: seq<Item<K, V>>, n: nat, j: nat): set<K>
    requires n <= |s|
  {
    set i | 0 <= i < n && s[i].partition == j :: s[i].key
  }

  ghost function AllKeys<K(!new), V>(s: seq<Item<K, V>>, n: nat): set<K>
    requires n <= |s|
  {
    set i | 0 <= i < n :: s[i].key
  }

  /** The load of a partition is the number of different keys it gets, and there are as many first items as keys. */
  lemma {:induction false} LoadIsCount<K(!new), V>(s: seq<Item<K, V>>, le: (K, K) -> bool, part: K -> nat, n: nat,
                                                   j: nat)
    requires TotalOrder(le) && Arranged(s, le, part) && n <= |s|
    ensures Load(s, n, j) == |KeysIn(s, n, j)| && |Firsts(s, n)| == |AllKeys(s, n)|
  {
    hide TotalOrder, Arranged, KeysIn, AllKeys, Load, Firsts;
    NoItems(s, j);
    if n > 0 {
      var m := n - 1;
      LoadIsCount(s, le, part, m, j);
      KeysGrow(s, le, part, m, j);
      OneItem(s, m, j);
    }
  }

  lemma {:induction false} NoItems<K(!new), V>(s: seq<Item<K, V>>, j: nat)
    ensures Load(s, 0, j) == 0 && Firsts(s, 0) == [] && KeysIn(s, 0, j) == {} && AllKeys(s, 0) == {}
  {
  }

  lemma {:induction false} OneItem<K, V>(s: seq<Item<K, V>>, m: nat, j: nat)
    requires m < |s|
    ensures Load(s, m + 1, j) == Load(s, m, j) + (if IsNew(s, m) && s[m].partition == j then 1 else 0)
    ensures |Firsts(s, m + 1)| == |Firsts(s, m)| + (if IsNew(s, m) then 1 else 0)
  {
  }

  lemma KeysGrow<K(!new), V>(s: seq<Item<K, V>>, le: (K, K) -> bool, part: K -> nat, m: nat, j: nat)
    requires TotalOrder(le) && Arranged(s, le, part) && m < |s|
    ensures var x := s[m];
            && (IsNew(s, m) ==> x.key !in AllKeys(s, m) && AllKeys(s, m + 1) == AllKeys(s, m) + {x.key})
            && (!IsNew(s, m) ==> AllKeys(s, m + 1) == AllKeys(s, m))
            && (IsNew(s, m) ==> x.key !in KeysIn(s, m, j))
            && KeysIn(s, m + 1, j) ==
               if IsNew(s, m) && x.partition == j then KeysIn(s, m, j) + {x.key} else KeysIn(s, m, j)
  {
    if IsNew(s, m) {
      forall i | 0 <= i < m ensures s[i].key != s[m].key { NewIsNew(s, le, part, i, m); }
    } else {
      assert s[m - 1].key == s[m].key && s[m - 1].partition == s[m].partition;
    }
  }

  /** How many items belong to a partition below `j`. */
  ghost function Below<K, V>(d: seq<Item<K, V>>, j: nat): (c: nat)
    ensures c <= |d|
  {
    if d == [] then 0 else Below(d[..|d| - 1], j) + (if d[|d| - 1].partition < j then 1 else 0)
  }

  lemma {:induction false} BelowGrows<K, V>(s: seq<Item<K, V>>, n: nat, j: nat)
    requires n <= |s|
    ensures Below(Firsts(s, n), j + 1) == Below(Firsts(s, n), j) + Load(s, n, j)
  {
    if n > 0 {
      BelowGrows(s, n - 1, j);
      BelowOneMore(Firsts(s, n - 1), s[n - 1], j);
      BelowOneMore(Firsts(s, n - 1), s[n - 1], j + 1);
      assert Firsts(s, n - 1) + [] == Firsts(s, n - 1);
    }
  }

  lemma {:induction false} BelowOneMore<K, V>(d: seq<Item<K, V>>, x: Item<K, V>, j: nat)
    ensures Below(d + [x], j) == Below(d, j) + (if x.partition < j then 1 else 0)
  {
    assert (d + [x])[..|d|] == d;
  }

  lemma {:induction false} BelowEnds<K, V>(d: seq<Item<K, V>>, top: nat)
    requires forall r :: 0 <= r < |d| ==> d[r].partition < top
    ensures Below(d, 0) == 0 && Below(d, top) == |d|
  {
    if d != [] { BelowEnds(d[..|d| - 1], top); }
  }

  /** In a sequence sorted by partition, the partitions below `j` come first. */
  lemma {:induction false} BelowCuts<K, V>(d: seq<Item<K, V>>, j: nat, r: nat)
    requires (forall i, k :: 0 <= i < k < |d| ==> d[i].partition <= d[k].partition) && r < |d|
    ensures d[r].partition < j <==> r < Below(d, j)
  {
    var n := |d| - 1;
    if r < n {
      BelowCuts(d[..n], j, r);
    } else if d[n].partition < j {
      AllBelow(d[..n], j);
    }
  }

  lemma {:induction false} AllBelow<K, V>(d: seq<Item<K, V>>, j: nat)
    requires forall r :: 0 <= r < |d| ==> d[r].partition < j
    ensures Below(d, j) == |d|
  {
    if d != [] { AllBelow(d[..|d| - 1], j); }
  }

  /** The loads and their running sum. */
  ghost predicate Sums(load: seq<nat>, start: seq<nat>, parts: nat) {
    && |load| == parts && |start| == parts + 1 && start[0] == 0
    && forall j :: 0 <= j < parts ==> start[j + 1] == start[j] + load[j]
  }

  /** The loads are those of `s`, and `start` says where each partition begins among the first ones. */
  lemma {:induction false} StartsAre<K, V>(s: seq<Item<K, V>>, load: seq<nat>, start: seq<nat>, parts: nat, j: nat)
    requires Sums(load, start, parts) && j <= parts && (forall i: nat :: i < parts ==> load[i] == Load(s, |s|, i))
    ensures start[j] == Below(Firsts(s, |s|), j)
  {
    if j == 0 {
      NoneBelow(Firsts(s, |s|));
    } else {
      StartsAre(s, load, start, parts, j - 1);
      BelowGrows(s, |s|, j - 1);
    }
  }

  lemma {:induction false} NoneBelow<K, V>(d: seq<Item<K, V>>)
    ensures Below(d, 0) == 0
  {
    if d != [] { NoneBelow(d[..|d| - 1]); }
  }

  /** Partition `j` is the stretch [start[j], start[j + 1]) of the first ones. */
  lemma {:induction false} Segments<K(!new), V>(s: seq<Item<K, V>>, le: (K, K) -> bool, part: K -> nat, load: seq<nat>,
                                                start: seq<nat>, parts: nat, j: nat, r: nat)
    requires TotalOrder(le) && Arranged(s, le, part) && Sums(load, start, parts) && j < parts
    requires forall i: nat :: i < parts ==> load[i] == Load(s, |s|, i)
    requires r < |Firsts(s, |s|)|
    ensures Firsts(s, |s|)[r].partition == j <==> start[j] <= r < start[j + 1]
  {
    hide Firsts, Arranged, TotalOrder, Below;
    var d := Firsts(s, |s|);
    forall i, k | 0 <= i < k < |d| ensures d[i].partition <= d[k].partition { FirstsOrdered(s, le, part, |s|, i, k); }
    BelowCuts(d, j, r);
    BelowCuts(d, j + 1, r);
    StartsAre(s, load, start, parts, j);
    StartsAre(s, load, start, parts, j + 1);
  }

  lemma {:induction false} TotalStart<K, V>(s: seq<Item<K, V>>, load: seq<nat>, start: seq<nat>, parts: nat)
    requires Sums(load, start, parts) && (forall i: nat :: i < parts ==> load[i] == Load(s, |s|, i))
    requires forall i :: 0 <= i < |s| ==> s[i].partition < parts
    ensures start[parts] == |Firsts(s, |s|)|
  {
    hide Firsts;
    var d := Firsts(s, |s|);
    forall r | 0 <= r < |d| ensures d[r].partition < parts { var i := FirstsFrom(s, |s|, r); }
    BelowEnds(d, parts);
    StartsAre(s, load, start, parts, parts);
  }

  lemma {:induction false} StartGrows(load: seq<nat>, start: seq<nat>, parts: nat, i: nat, j: nat)
    requires Sums(load, start, parts) && i <= j <= parts
    ensures start[i] <= start[j]
    decreases j
  {
    if i < j { StartGrows(load, start, parts, i, j - 1); }
  }

  // ---------------------------------------------------------------- equal shares

  /** Share `j` of width `b` counts its first load[j] slots. */
  ghost predicate Shares(p: seq<nat>, load: seq<nat>, start: seq<nat>, parts: nat, b: nat) {
    && Sums(load, start, parts) && b > 0 && |p| == parts * b + 1
    && (forall j: nat, i: nat :: j < parts && i <= b ==>
        (SlotFits(j, i, parts, b); p[j * b + i] == start[j] + Min(i, load[j])))
  }

  lemma SlotFits(j: nat, i: nat, parts: nat, b: nat)
    requires j < parts && i <= b
    ensures j * b + i <= parts * b
  {
    MulMonotone(b, j + 1, parts);
  }

  lemma SlotOf(x: nat, parts: nat, b: nat) returns (j: nat, i: nat)
    requires x < parts * b
    ensures j < parts && i < b && x == j * b + i
  {
    assert b == 0 ==> parts * b == 0;
    j, i := x / b, x % b;
    assert x == b * j + i;
    MulMonotone(b, parts, j);
  }

  lemma SharesStep(p: seq<nat>, load: seq<nat>, start: seq<nat>, parts: nat, b: nat, j: nat, i: nat)
    requires Shares(p, load, start, parts, b) && j < parts && i < b
    ensures j * b + i + 1 <= parts * b
    ensures p[j * b + i] == start[j] + Min(i, load[j]) && p[j * b + i + 1] == start[j] + Min(i + 1, load[j])
  {
    SlotFits(j, i, parts, b);
    SlotFits(j, i + 1, parts, b);
    assert j * b + (i + 1) == j * b + i + 1;
  }

  lemma SharesAreSteps(p: seq<nat>, load: seq<nat>, start: seq<nat>, parts: nat, b: nat)
    requires Shares(p, load, start, parts, b) && parts > 0
    ensures Steps(p) && p[0] == 0
  {
    hide Shares, Sums;
    SharesLength(p, load, start, parts, b);
    forall x | 0 <= x < |p| - 1 ensures p[x] <= p[x + 1] <= p[x] + 1 {
      var j, i := SlotOf(x, parts, b);
      SharesStep(p, load, start, parts, b, j, i);
    }
  }

  lemma SharesLength(p: seq<nat>, load: seq<nat>, start: seq<nat>, parts: nat, b: nat)
    requires Shares(p, load, start, parts, b) && parts > 0
    ensures |p| == parts * b + 1 && |load| == parts && |start| == parts + 1 && b > 0 && p[0] == 0
  {
    SlotFits(0, 0, parts, b);
    assert 0 * b == 0;
    assert p[0 * b + 0] == start[0] + Min(0, load[0]);
  }

  /** Which slots a share counts, and their ranks. */
  lemma ShareSlots(p: seq<nat>, load: seq<nat>, start: seq<nat>, parts: nat, b: nat, j: nat, i: nat)
    requires Shares(p, load, start, parts, b) && j < parts && i < b
    ensures Steps(p) && j * b + i + 1 < |p|
    ensures Marked(p, j * b + i) <==> i < load[j]
    ensures i < load[j] ==> Rank(p, j * b + i) == start[j] + i
  {
    SharesAreSteps(p, load, start, parts, b);
    SharesLength(p, load, start, parts, b);
    SharesStep(p, load, start, parts, b, j, i);
  }

  lemma SharesTotal(p: seq<nat>, load: seq<nat>, start: seq<nat>, parts: nat, b: nat)
    requires Shares(p, load, start, parts, b) && parts > 0 && load[parts - 1] <= b
    ensures Steps(p) && Rank(p, |p| - 1) == start[parts]
  {
    SharesAreSteps(p, load, start, parts, b);
    var j := parts - 1;
    SlotFits(j, b, parts, b);
    assert j * b + b == parts * b;
    assert p[j * b + b] == start[j] + Min(b, load[j]);
    assert start[j + 1] == start[j] + load[j];
  }

  // ---------------------------------------------------------------- slots that are not counted

  lemma {:induction false} KeptMultiplicity<T>(s: seq<T>, isDummy: T -> bool, x: T)
    ensures multiset(Kept(s, isDummy))[x] == if isDummy(x) then 0 else multiset(s)[x]
  {
    hide Kept;
    NothingKept(isDummy);
    if s != [] {
      var s', y := s[..|s| - 1], s[|s| - 1];
      KeptMultiplicity(s', isDummy, x);
      assert s == s' + [y];
      LastKept(s', y, isDummy);
    }
  }

  /** How many elements are kept depends on the multiset alone. */
  lemma {:induction false} KeptOfPermutation<T(!new)>(s: seq<T>, r: seq<T>, isDummy: T -> bool)
    requires multiset(s) == multiset(r)
    ensures |Kept(s, isDummy)| == |Kept(r, isDummy)|
  {
    forall x ensures multiset(Kept(s, isDummy))[x] == multiset(Kept(r, isDummy))[x] {
      KeptMultiplicity(s, isDummy, x);
      KeptMultiplicity(r, isDummy, x);
    }
    assert multiset(Kept(s, isDummy)) == multiset(Kept(r, isDummy));
    assert |multiset(Kept(s, isDummy))| == |Kept(s, isDummy)|;
  }

  /** If all counted slots hold kept elements, there are at least as many of those; more if another slot does. */
  lemma {:induction false} KeptAtLeast<T>(p: seq<nat>, s: seq<T>, isDummy: T -> bool, n: nat, q: nat)
    requires Steps(p) && |p| == |s| + 1 && n <= |s| && q < |s|
    requires forall i: nat :: i < |s| && Marked(p, i) ==> !isDummy(s[i])
    ensures |Kept(s[..n], isDummy)| >= Rank(p, n) + (if q < n && !Marked(p, q) && !isDummy(s[q]) then 1 else 0)
    decreases n
  {
    hide Kept;
    NothingKept(isDummy);
    if n == 0 {
      assert s[..0] == [];
    } else {
      KeptAtLeast(p, s, isDummy, n - 1, q);
      assert s[..n] == s[..n - 1] + [s[n - 1]];
      LastKept(s[..n - 1], s[n - 1], isDummy);
      StepsMonotone(p, 0, n - 1);
    }
  }

  /** When the counted slots hold kept elements and there are no more of those, the other slots hold dummies. */
  lemma {:induction false} OthersAreDummies<T>(p: seq<nat>, s: seq<T>, isDummy: T -> bool, q: nat)
    requires Steps(p) && |p| == |s| + 1 && q < |s| && !Marked(p, q)
    requires forall i: nat :: i < |s| && Marked(p, i) ==> !isDummy(s[i])
    requires |Kept(s, isDummy)| == Rank(p, |s|)
    ensures isDummy(s[q])
  {
    KeptAtLeast(p, s, isDummy, |s|, q);
    assert s[..|s|] == s;
  }
}
