/** The in-place bitonic sorters, with and without a payload; both run the same body. */
module BitonicSort {
  import opened Bits
  import opened Sequences
  import opened Networks
  import opened Bitonic
  import opened Options
  import opened PowerOfTwo

  /** The first `n` elements paired with their payload, if there is one. */
  ghost function Pairs<T, P>(arr: array<T>, payload: array?<P>, n: nat): (r: seq<(T, Option<P>)>)
    requires n <= arr.Length && (payload != null ==> n <= payload.Length)
    reads arr, payload
    ensures |r| == n
  {
    seq(n, i requires 0 <= i < n reads arr, payload => (arr[i], if payload == null then None else Some(payload[i])))
  }

  ghost function ByKey<T, P>(le: (T, T) -> bool): ((T, Option<P>), (T, Option<P>)) -> bool {
    (x: (T, Option<P>), y: (T, Option<P>)) => le(x.0, y.0)
  }

  /** The compare-swap step: exchanges the elements, and their payload, when they are out of order. */
  method CompareSwap<T, P>(arr: array<T>, payload: array?<P>, n: nat, left: nat, right: nat, up: bool,
                           le: (T, T) -> bool)
    requires n <= arr.Length && (payload != null ==> n <= payload.Length && arr as object != payload)
    requires left < n && right < n && left != right
    modifies arr, payload
    ensures Pairs(arr, payload, n) == Exchange(old(Pairs(arr, payload, n)), Comparator(left, right, up), ByKey(le))
    ensures arr[n..] == old(arr[n..])
  {
    var cond := le(arr[left], arr[right]);
    var swap := if up then !cond else cond;
    if swap {
      arr[left], arr[right] := arr[right], arr[left];
      if payload != null {
        payload[left], payload[right] := payload[right], payload[left];
      }
    }
  }

  /** The inner loop of a stage: the comparators of the pair of blocks at `base`, on top of those already done. */
  method BlockPass<T, P>(arr: array<T>, payload: array?<P>, n: nat, start: nat, s2: nat, base: nat, up: bool,
                         le: (T, T) -> bool, ghost net: Network, ghost s: seq<(T, Option<P>)>)
    requires n <= arr.Length && (payload != null ==> n <= payload.Length && arr as object != payload)
    requires s2 > 0 && start <= base && base + 2 * s2 <= n
    requires forall x: nat :: base <= x < base + s2 ==> LowerHalves(start, s2)(x)
    requires forall x: nat :: base + s2 <= x < base + 2 * s2 ==> !LowerHalves(start, s2)(x)
    requires Pairs(arr, payload, n) == Apply(net + Layer(LowerHalves(start, s2), s2, start, base, up), s, ByKey(le))
    modifies arr, payload
    ensures Pairs(arr, payload, n) ==
            Apply(net + Layer(LowerHalves(start, s2), s2, start, base + 2 * s2, up), s, ByKey(le))
    ensures arr[n..] == old(arr[n..])
  {
    hide Apply, Layer, LowerHalves, Exchange, Pairs, ByKey;
    ghost var f := LowerHalves(start, s2);
    for i := 0 to s2
      invariant Pairs(arr, payload, n) == Apply(net + Layer(f, s2, start, base + i, up), s, ByKey(le))
      invariant arr[n..] == old(arr[n..])
    {
      var left := base + i;
      var right := left + s2;
      CompareSwap(arr, payload, n, left, right, up, le);
      LayerGrows(f, s2, start, left, up, net, s, ByKey(le));
    }
    LayerSplit(f, s2, start, base + s2, base + 2 * s2, up);
    LayerIdle(f, s2, base + s2, base + 2 * s2, up);
    assert Layer(f, s2, start, base + s2, up) + [] == Layer(f, s2, start, base + s2, up);
  }

  /** The comparators of block pair `j` of a stage. */
  method StagePass<T, P>(arr: array<T>, payload: array?<P>, n: nat, start: nat, size: nat, s2: nat, j: nat, up: bool,
                         le: (T, T) -> bool, ghost net: Network, ghost s: seq<(T, Option<P>)>)
    requires n <= arr.Length && (payload != null ==> n <= payload.Length && arr as object != payload)
    requires s2 > 0 && start + size <= n && 2 * j * s2 + 2 * s2 <= size
    requires Pairs(arr, payload, n) ==
             Apply(net + Layer(LowerHalves(start, s2), s2, start, start + 2 * j * s2, up), s, ByKey(le))
    modifies arr, payload
    ensures Pairs(arr, payload, n) ==
            Apply(net + Layer(LowerHalves(start, s2), s2, start, start + 2 * (j + 1) * s2, up), s, ByKey(le))
    ensures arr[n..] == old(arr[n..])
  {
    hide Apply, Layer, LowerHalves, Pairs, ByKey;
    LowerActive(start, s2, j, start + 2 * j * s2);
    UpperIdle(start, s2, j, start + 2 * j * s2);
    BlockPass(arr, payload, n, start, s2, start + 2 * j * s2, up, le, net, s);
  }

  lemma LowerActive(start: nat, s2: nat, j: nat, base: nat)
    requires s2 > 0 && base == start + 2 * j * s2
    ensures forall x: nat :: base <= x < base + s2 ==> LowerHalves(start, s2)(x)
    ensures start + 2 * (j + 1) * s2 == base + 2 * s2
  {
    hide LowerHalves;
    forall x: nat | base <= x < base + s2 ensures LowerHalves(start, s2)(x) {
      HalfOf(start, s2, 2 * j, x - base, x);
    }
  }

  lemma UpperIdle(start: nat, s2: nat, j: nat, base: nat)
    requires s2 > 0 && base == start + 2 * j * s2
    ensures forall x: nat :: base + s2 <= x < base + 2 * s2 ==> !LowerHalves(start, s2)(x)
  {
    hide LowerHalves;
    assert (2 * j + 1) * s2 == 2 * j * s2 + s2;
    forall x: nat | base + s2 <= x < base + 2 * s2 ensures !LowerHalves(start, s2)(x) {
      HalfOf(start, s2, 2 * j + 1, x - base - s2, x);
    }
  }

  /** Merges a bitonic range whose size is a power of two, stage by stage. */
  method MergePow2<T, P>(arr: array<T>, payload: array?<P>, n: nat, start: nat, size: nat, ghost k: nat, up: bool,
                         le: (T, T) -> bool)
    requires n <= arr.Length && (payload != null ==> n <= payload.Length && arr as object != payload)
    requires size == Pow2(k) && size > 1 && start + size <= n
    modifies arr, payload
    ensures Pairs(arr, payload, n) == Apply(StagesNet(start, k, k, up), old(Pairs(arr, payload, n)), ByKey(le))
    ensures arr[n..] == old(arr[n..])
  {
    hide Apply, Layer, LowerHalves, Exchange, Pairs, ByKey, StagesNet;
    ghost var s := Pairs(arr, payload, n);
    var l2 := TrailingZeros(size);
    TrailingZerosOfPow2(k);
    NoStages(start, k, up, s, ByKey(le));
    for sz := 0 to l2
      invariant Pairs(arr, payload, n) == Apply(StagesNet(start, k, sz, up), s, ByKey(le))
      invariant arr[n..] == old(arr[n..])
    {
      var blocks, s2 := Pow2(sz), size / Pow2(sz + 1);
      StageWidth(k, sz);
      ghost var net := StagesNet(start, k, sz, up);
      NoLayerYet(start, s2, net, up);
      for j := 0 to blocks
        invariant Pairs(arr, payload, n) ==
                  Apply(net + Layer(LowerHalves(start, s2), s2, start, start + 2 * j * s2, up), s, ByKey(le))
        invariant arr[n..] == old(arr[n..])
      {
        PairFits(j, blocks, s2, size);
        StagePass(arr, payload, n, start, size, s2, j, up, le, net, s);
      }
      StageDone(start, k, sz, blocks, s2, up);
    }
  }

  lemma {:induction false} NoStages<T>(start: nat, k: nat, up: bool, s: seq<T>, le: (T, T) -> bool)
    ensures Apply(StagesNet(start, k, 0, up), s, le) == s
  {
  }

  lemma NoLayerYet(start: nat, s2: nat, net: Network, up: bool)
    requires s2 > 0
    ensures net + Layer(LowerHalves(start, s2), s2, start, start + 2 * 0 * s2, up) == net
  {
  }

  lemma StageWidth(k: nat, sz: nat)
    requires sz < k
    ensures Pow2(k) / Pow2(sz + 1) == Pow2(k - sz - 1) && Pow2(sz) * (2 * Pow2(k - sz - 1)) == Pow2(k)
  {
    StageSizes(k, sz + 1);
    Pow2Add(sz + 1, k - sz - 1);
    DivModUnique(Pow2(k), Pow2(sz + 1), Pow2(k - sz - 1), 0);
  }

  lemma PairFits(j: nat, blocks: nat, s2: nat, size: nat)
    requires j < blocks && blocks * (2 * s2) == size
    ensures 2 * j * s2 + 2 * s2 <= size
  {
    BlockFits(2 * s2, j, blocks);
  }

  lemma StageDone(start: nat, k: nat, sz: nat, blocks: nat, s2: nat, up: bool)
    requires sz < k && blocks == Pow2(sz) && s2 == Pow2(k - sz - 1) && blocks * (2 * s2) == Pow2(k)
    ensures StagesNet(start, k, sz, up) + Layer(LowerHalves(start, s2), s2, start, start + 2 * blocks * s2, up) ==
            StagesNet(start, k, sz + 1, up)
  {
    hide Layer;
    assert k - (sz + 1) == k - sz - 1;
    assert 2 * blocks * s2 == blocks * (2 * s2);
  }

  /** The first layer of a merge: every element of the range against the one `s2` further on. */
  method FirstPass<T, P>(arr: array<T>, payload: array?<P>, n: nat, start: nat, size: nat, s2: nat, up: bool,
                         le: (T, T) -> bool)
    requires n <= arr.Length && (payload != null ==> n <= payload.Length && arr as object != payload)
    requires 0 < s2 < size && start + size <= n
    modifies arr, payload
    ensures Pairs(arr, payload, n) ==
            Apply(Layer(Everywhere(), s2, start, start + size - s2, up), old(Pairs(arr, payload, n)), ByKey(le))
    ensures arr[n..] == old(arr[n..])
  {
    hide Apply, Layer, Exchange, Pairs, ByKey;
    ghost var s := Pairs(arr, payload, n);
    NoFirstLayer(start, s2, up, s, ByKey(le));
    for i := 0 to size - s2
      invariant Pairs(arr, payload, n) == Apply([] + Layer(Everywhere(), s2, start, start + i, up), s, ByKey(le))
      invariant arr[n..] == old(arr[n..])
    {
      var left := start + i;
      var right := left + s2;
      CompareSwap(arr, payload, n, left, right, up, le);
      LayerGrows(Everywhere(), s2, start, left, up, [], s, ByKey(le));
    }
    assert [] + Layer(Everywhere(), s2, start, start + size - s2, up) ==
      Layer(Everywhere(), s2, start, start + size - s2, up);
  }

  lemma {:induction false} NoFirstLayer<T>(start: nat, s2: nat, up: bool, s: seq<T>, le: (T, T) -> bool)
    ensures Apply([] + Layer(Everywhere(), s2, start, start, up), s, le) == s
  {
  }

  /** Merges a range that goes down and then up (for `up`; the other way round otherwise). */
  method Merge<T, P>(arr: array<T>, payload: array?<P>, n: nat, start: nat, size: nat, up: bool, le: (T, T) -> bool)
    requires n <= arr.Length && (payload != null ==> n <= payload.Length && arr as object != payload)
    requires size > 1 && start + size <= n && n <= 0x8000_0000_0000_0000
    modifies arr, payload
    ensures Pairs(arr, payload, n) == Apply(MergeNet(start, size, up), old(Pairs(arr, payload, n)), ByKey(le))
    ensures arr[n..] == old(arr[n..])
    decreases size
  {
    hide Apply, Layer, Exchange, Pairs, ByKey, MergeNet, StagesNet, Ilog2, Pow2;
    ghost var s := Pairs(arr, payload, n);
    var p2 := GetStrictlyBiggerPowerOfTwo(size - 1);
    var s2 := p2 / 2;
    ghost var k := Ilog2(size - 1);
    MergeParts(start, size, up);
    ghost var first := Layer(Everywhere(), s2, start, start + size - s2, up);
    ghost var second := if s2 > 1 then StagesNet(start, k, k, up) else [];
    ghost var third := if size - s2 > 1 then MergeNet(start + s2, size - s2, up) else [];
    ApplyConcat(first, second, s, ByKey(le));
    ApplyConcat(first + second, third, s, ByKey(le));
    FirstPass(arr, payload, n, start, size, s2, up, le);
    ApplyNone(Pairs(arr, payload, n), ByKey(le));
    if s2 > 1 {
      MergePow2(arr, payload, n, start, s2, k, up, le);
    }
    ApplyNone(Pairs(arr, payload, n), ByKey(le));
    if size - s2 > 1 {
      Merge(arr, payload, n, start + s2, size - s2, up, le);
    }
  }

  /** Sorts the two halves in opposite directions and merges them. */
  method SortInner<T, P>(arr: array<T>, payload: array?<P>, n: nat, start: nat, size: nat, up: bool, le: (T, T) -> bool)
    requires n <= arr.Length && (payload != null ==> n <= payload.Length && arr as object != payload)
    requires size > 1 && start + size <= n && n <= 0x8000_0000_0000_0000
    modifies arr, payload
    ensures Pairs(arr, payload, n) == Apply(SortNet(start, size, up), old(Pairs(arr, payload, n)), ByKey(le))
    ensures arr[n..] == old(arr[n..])
    decreases size
  {
    hide Apply, Pairs, ByKey, MergeNet, SortNet;
    ghost var s := Pairs(arr, payload, n);
    var half := size / 2;
    SortParts(start, size, up);
    ghost var right := if size - half > 1 then SortNet(start + half, size - half, up) else [];
    ghost var left := if half > 1 then SortNet(start, half, !up) else [];
    assert HalvesNet(start, size, up) == right + left;
    ApplyConcat(right, left, s, ByKey(le));
    ApplyConcat(right + left, MergeNet(start, size, up), s, ByKey(le));
    ApplyNone(s, ByKey(le));
    if size - half > 1 {
      SortInner(arr, payload, n, start + half, size - half, up, le);
      ApplyNone(Pairs(arr, payload, n), ByKey(le));
      if half > 1 {
        SortInner(arr, payload, n, start, half, !up, le);
      }
    }
    Merge(arr, payload, n, start, size, up, le);
  }

  ghost function Keys<T, P>(s: seq<(T, Option<P>)>): (r: seq<T>)
    ensures |r| == |s|
  {
    seq(|s|, i requires 0 <= i < |s| => s[i].0)
  }

  /** The payload does not influence what happens to the keys. */
  lemma {:induction false} KeysOfApply<T, P>(net: Network, s: seq<(T, Option<P>)>, le: (T, T) -> bool)
    ensures Keys(Apply(net, s, ByKey(le))) == Apply(net, Keys(s), le)
  {
    if net != [] {
      KeysOfApply(net[..|net| - 1], s, le);
    }
  }

  /** What the sorters do to a sequence of any length. */
  ghost function Sorting<T>(s: seq<T>, le: (T, T) -> bool): (r: seq<T>)
    ensures |r| == |s|
  {
    if |s| <= 1 then s else Apply(SortNet(0, |s|, true), s, le)
  }

  ghost function ByFirst<T, P>(le: (T, T) -> bool): ((T, P), (T, P)) -> bool {
    (x: (T, P), y: (T, P)) => le(x.0, y.0)
  }

  /** A network moves elements as it moves the elements they are compared by. */
  lemma {:induction false} ApplyMap<T, U>(net: Network, s: seq<T>, le: (T, T) -> bool, le': (U, U) -> bool, f: T -> U)
    requires forall x, y :: le(x, y) == le'(f(x), f(y))
    ensures Map(Apply(net, s, le), f) == Apply(net, Map(s, f), le')
  {
    hide Exchange;
    if net == [] {
      ApplyNone(s, le);
      ApplyNone(Map(s, f), le');
    } else {
      var m := |net| - 1;
      ApplyMap(net[..m], s, le, le', f);
      ExchangeMap(Apply(net[..m], s, le), net[m], le, le', f);
    }
  }

  lemma ExchangeMap<T, U>(s: seq<T>, c: Comparator, le: (T, T) -> bool, le': (U, U) -> bool, f: T -> U)
    requires forall x, y :: le(x, y) == le'(f(x), f(y))
    ensures Map(Exchange(s, c, le), f) == Exchange(Map(s, f), c, le')
  {
    if c.left < |s| && c.right < |s| {
      assert le(s[c.left], s[c.right]) == le'(f(s[c.left]), f(s[c.right]));
    }
  }

  lemma {:induction false} SortingMap<T, U>(s: seq<T>, le: (T, T) -> bool, le': (U, U) -> bool, f: T -> U)
    requires forall x, y :: le(x, y) == le'(f(x), f(y))
    ensures Map(Sorting(s, le), f) == Sorting(Map(s, f), le')
  {
    if |s| > 1 { ApplyMap(SortNet(0, |s|, true), s, le, le', f); }
  }

  /** What the sorting network does to keys and payload. */
  lemma {:induction false} NetworkSorts<T(!new), P>(s: seq<(T, Option<P>)>, r: seq<(T, Option<P>)>, le: (T, T) -> bool)
    requires TotalPreorder(le) && |s| > 1 && r == Apply(SortNet(0, |s|, true), s, ByKey(le))
    ensures SortedPermutation(Keys(s), Keys(r), le) && multiset(r) == multiset(s)
  {
    hide SortNet, Apply, Sorted, TotalPreorder;
    KeysOfApply(SortNet(0, |s|, true), s, le);
    BitonicSorts(Keys(s), le);
    SortWithin(0, |s|, true);
    ApplyPermutes(SortNet(0, |s|, true), s, ByKey(le));
  }

  /** Sorts an array of any length in place. */
  method BitonicSort<T(!new)>(arr: array<T>, le: (T, T) -> bool)
    requires TotalPreorder(le) && arr.Length <= 0x8000_0000_0000_0000
    modifies arr
    ensures SortedPermutation(old(arr[..]), arr[..], le) && arr[..] == Sorting(old(arr[..]), le)
  {
    hide SortNet, Apply, TotalPreorder;
    if arr.Length <= 1 { return; }
    ghost var s := Pairs<T, ()>(arr, null, arr.Length);
    assert Keys(s) == arr[..];
    SortInner<T, ()>(arr, null, arr.Length, 0, arr.Length, true, le);
    ghost var r := Pairs<T, ()>(arr, null, arr.Length);
    NetworkSorts(s, r, le);
    KeysOfApply(SortNet(0, arr.Length, true), s, le);
    assert Keys(r) == arr[..];
  }

  ghost function Zip<T, P>(a: seq<T>, b: seq<P>): (r: seq<(T, P)>)
    requires |a| == |b|
    ensures |r| == |a|
  {
    seq(|a|, i requires 0 <= i < |a| => (a[i], b[i]))
  }

  function Unwrap<T, P>(x: (T, Option<P>), d: P): (T, P) {
    (x.0, match x.1 { case Some(v) => v case None => d })
  }

  lemma {:induction false} UnwrapPermutes<T, P>(s: seq<(T, Option<P>)>, r: seq<(T, Option<P>)>, d: P)
    requires multiset(s) == multiset(r)
    ensures multiset(Map(s, x => Unwrap(x, d))) == multiset(Map(r, x => Unwrap(x, d)))
  {
    MapPermutes(s, r, x => Unwrap(x, d));
  }

  lemma {:induction false} UnwrapApply<T, P>(net: Network, s: seq<(T, Option<P>)>, d: P, le: (T, T) -> bool)
    ensures Map(Apply(net, s, ByKey(le)), x => Unwrap(x, d)) == Apply(net, Map(s, x => Unwrap(x, d)), ByFirst(le))
  {
    hide Apply;
    ApplyMap(net, s, ByKey(le), ByFirst(le), x => Unwrap(x, d));
  }

  /** Sorts the first `n` elements of an array and rearranges the payload alongside: keys and payload stay paired. */
  method BitonicPayloadSort<T(!new), P>(arr: array<T>, payload: array<P>, n: nat, le: (T, T) -> bool)
    requires TotalPreorder(le) && n == payload.Length <= arr.Length && n <= 0x8000_0000_0000_0000
    requires arr as object != payload
    modifies arr, payload
    ensures SortedPermutation(old(arr[..n]), arr[..n], le) && arr[n..] == old(arr[n..])
    ensures multiset(Zip(arr[..n], payload[..])) == multiset(Zip(old(arr[..n]), old(payload[..])))
    ensures Zip(arr[..n], payload[..]) == Sorting(Zip(old(arr[..n]), old(payload[..])), ByFirst(le))
  {
    hide SortNet, Apply, TotalPreorder, ByKey, ByFirst;
    if n <= 1 { return; }
    ghost var s := Pairs(arr, payload, n);
    ghost var d := payload[0];
    assert Keys(s) == arr[..n] && Map(s, x => Unwrap(x, d)) == Zip(arr[..n], payload[..]);
    SortInner(arr, payload, n, 0, n, true, le);
    ghost var r := Pairs(arr, payload, n);
    NetworkSorts(s, r, le);
    UnwrapPermutes(s, r, d);
    UnwrapApply(SortNet(0, n, true), s, d, le);
    assert Keys(r) == arr[..n] && Map(r, x => Unwrap(x, d)) == Zip(arr[..n], payload[..]);
  }

  lemma {:induction false} MapPermutes<T, U>(s: seq<T>, r: seq<T>, f: T -> U)
    requires multiset(s) == multiset(r)
    ensures multiset(Map(s, f)) == multiset(Map(r, f))
  {
    if s == [] {
      assert |r| == |multiset(r)| == |multiset(s)| == 0;
    } else {
      assert s == [s[0]] + s[1..];
      assert s[0] in multiset(r);
      var i :| 0 <= i < |r| && r[i] == s[0];
      MapRemove(s, 0, f);
      MapRemove(r, i, f);
      assert Without(s, 0) == s[1..];
      RemoveFrom(s, 0);
      RemoveFrom(r, i);
      CancelOne(multiset(s[1..]), multiset(Without(r, i)), s[0]);
      MapPermutes(s[1..], Without(r, i), f);
    }
  }

  ghost function Without<T>(s: seq<T>, i: nat): seq<T>
    requires i < |s|
  {
    s[..i] + s[i + 1..]
  }

  lemma RemoveFrom<T>(s: seq<T>, i: nat)
    requires i < |s|
    ensures multiset(s) == multiset(Without(s, i)) + multiset{s[i]}
  {
    assert s == s[..i] + [s[i]] + s[i + 1..];
  }

  lemma MapRemove<T, U>(s: seq<T>, i: nat, f: T -> U)
    requires i < |s|
    ensures multiset(Map(s, f)) == multiset(Map(Without(s, i), f)) + multiset{f(s[i])}
  {
    assert Without(Map(s, f), i) == Map(Without(s, i), f);
    RemoveFrom(Map(s, f), i);
  }
}
