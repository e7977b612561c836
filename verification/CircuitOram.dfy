/** Circuit ORAM: blocks live in a stash or in a tree, always on the path of their own position, and every access
    moves them about. Seen from outside it is a map from keys to positions and values. */
module CircuitOram {
  import opened Bits
  import opened Sequences
  import opened Blocks
  import opened HeapTree
  import opened Eviction
  import opened EvictionSpec

  const EVICTIONS_PER_OP: nat := 2

  datatype Entry<V> = Entry(pos: Position, value: V)

  /** `bs` holds one block for every key of `m`, and nothing else. */
  ghost predicate Represents<V>(bs: multiset<Block<V>>, m: map<Key, Entry<V>>) {
    && (forall b :: b in bs ==> bs[b] == 1 && !b.IsEmpty() && b.key in m && m[b.key] == Entry(b.pos, b.value))
    && (forall k :: k in m ==> Block(m[k].pos, k, m[k].value) in bs)
  }

  lemma RepresentsAdd<V>(bs: multiset<Block<V>>, m: map<Key, Entry<V>>, b: Block<V>)
    requires Represents(bs, m) && b.key !in m
    ensures Represents(bs + Real(b), if b.IsEmpty() then m else m[b.key := Entry(b.pos, b.value)])
  {
  }

  lemma RepresentsRemove<V>(bs: multiset<Block<V>>, m: map<Key, Entry<V>>, b: Block<V>)
    requires Represents(bs, m) && b in bs
    ensures Represents(bs - Real(b), m - {b.key})
  {
  }

  /** The blocks an ORAM holds while the buckets of `path` are loaded into the stash. */
  ghost function Working<V>(stash: seq<Block<V>>, tree: Tree<V>, h: nat, path: Position): multiset<Block<V>>
    requires IsTree(tree, h)
  {
    RealBlocks(stash) + (TreeBlocks(tree) - RealBlocks(PathBlocks(tree, h, path, h)))
  }

  /** The blocks an ORAM holds between operations. */
  ghost function Resting<V>(stash: seq<Block<V>>, tree: Tree<V>): multiset<Block<V>>
    requires |stash| >= S
  {
    RealBlocks(stash[..S]) + TreeBlocks(tree)
  }

  lemma {:induction false} LoadingKeepsBlocks<V>(stash: seq<Block<V>>, tree: Tree<V>, h: nat, path: Position)
    requires IsTree(tree, h) && |stash| == S + h * Z
    ensures Working(stash[..S] + PathBlocks(tree, h, path, h), tree, h, path) == Resting(stash, tree)
  {
    hide RealBlocks, TreeBlocks, PathBlocks;
    PathWithinTree(tree, h, path);
    RealBlocksConcat(stash[..S], PathBlocks(tree, h, path, h));
  }

  lemma {:induction false} LoadedPathIsLegal<V>(stash: seq<Block<V>>, tree: Tree<V>, h: nat, path: Position)
    requires h <= 32 && IsTree(tree, h) && OnOwnPath(tree, h) && |stash| == S + h * Z
    ensures Legal(stash[..S] + PathBlocks(tree, h, path, h), path)
  {
    var s := stash[..S] + PathBlocks(tree, h, path, h);
    forall k | 0 <= k < |s| && !s[k].IsEmpty() ensures Depth(s[k], path) >= LevelOf(k) {
      if k >= S {
        var d := LevelOf(k);
        PathBlocksAt(tree, h, path, h, d);
        var bucket := tree[GetIndex(h, d, path)];
        assert bucket == s[S..][d * Z..(d + 1) * Z];
        assert s[k] == bucket[k - S - d * Z];
        assert BucketAtHome(bucket, h, d, path);
        SameNodeIffSharedBits(h, d, s[k].pos, path);
      }
    }
  }

  lemma {:induction false} WritingBackKeepsBlocks<V>(stash: seq<Block<V>>, tree: Tree<V>, h: nat, path: Position)
    requires IsTree(tree, h) && |stash| == S + h * Z
    ensures Resting(stash, WithPath(tree, h, path, stash[S..], h)) == Working(stash, tree, h, path)
  {
    hide RealBlocks, TreeBlocks, PathBlocks, WithPath;
    PathWithinTree(tree, h, path);
    WithPathExchanges(tree, h, path, stash[S..], h);
    assert stash[S..][..h * Z] == stash[S..];
    assert stash == stash[..S] + stash[S..];
    RealBlocksConcat(stash[..S], stash[S..]);
    Exchanged(TreeBlocks(WithPath(tree, h, path, stash[S..], h)), RealBlocks(PathBlocks(tree, h, path, h)),
              TreeBlocks(tree), RealBlocks(stash[S..]), RealBlocks(stash[..S]));
  }

  lemma Exchanged<T>(t': multiset<T>, p: multiset<T>, t: multiset<T>, w: multiset<T>, a: multiset<T>)
    requires t' + p == t + w && p <= t
    ensures a + t' == (a + w) + (t - p)
  {
    forall x ensures (a + t')[x] == ((a + w) + (t - p))[x] {
      assert (t' + p)[x] == (t + w)[x];
    }
  }

  lemma {:induction false} WrittenPathIsHome<V>(stash: seq<Block<V>>, tree: Tree<V>, h: nat, path: Position)
    requires h <= 32 && IsTree(tree, h) && OnOwnPath(tree, h) && |stash| == S + h * Z && Legal(stash, path)
    ensures OnOwnPath(WithPath(tree, h, path, stash[S..], h), h)
  {
    hide WithPath;
    var blocks := stash[S..];
    var t := WithPath(tree, h, path, blocks, h);
    forall d, p: Position | 0 <= d < h ensures BucketAtHome(t[GetIndex(h, d, p)], h, d, p) {
      WithPathAt(tree, h, path, blocks, h, d, p);
      assert BucketAtHome(tree[GetIndex(h, d, p)], h, d, p);
      if GetIndex(h, d, p) == GetIndex(h, d, path) {
        var bucket := blocks[d * Z..(d + 1) * Z];
        forall k | 0 <= k < |bucket| && !bucket[k].IsEmpty()
          ensures GetIndex(h, d, bucket[k].pos) == GetIndex(h, d, p)
        {
          assert bucket[k] == stash[S + d * Z + k] && LevelOf(S + d * Z + k) == d;
          SameNodeIffSharedBits(h, d, bucket[k].pos, path);
        }
      }
    }
  }

  /** A block of the tree is found on the path of its own position. */
  lemma {:induction false} BlockIsOnItsPath<V>(tree: Tree<V>, h: nat, b: Block<V>)
    requires h <= 32 && IsTree(tree, h) && OnOwnPath(tree, h) && b in TreeBlocks(tree)
    ensures b in RealBlocks(PathBlocks(tree, h, b.pos, h))
  {
    hide RealBlocks, TreeBlocks, PathBlocks;
    TreeBlocksMember(tree, b);
    var n :| 0 <= n < |tree| && b in RealBlocks(tree[n]);
    var d, p := DepthOfNode(n, h);
    assert BucketAtHome(tree[n], h, d, p);
    RealBlocksMember(tree[n], b);
    PathBlocksAt(tree, h, b.pos, h, d);
    assert b in PathBlocks(tree, h, b.pos, h)[d * Z..(d + 1) * Z];
    RealBlocksMember(PathBlocks(tree, h, b.pos, h), b);
  }

  /** Every node of the tree is the node of some path at some depth. */
  lemma DepthOfNode(n: nat, h: nat) returns (d: nat, p: Position)
    requires n < Pow2(h) - 1 && h <= 32
    ensures d < h && GetIndex(h, d, p) == n
  {
    d := 0;
    while n >= Pow2(d + 1) - 1
      invariant d < h && Pow2(d) - 1 <= n
      decreases h - d
    {
      d := d + 1;
    }
    var r := n - (Pow2(d) - 1);
    Pow2Monotone(d, 32);
    assert Pow2(32) == 0x1_0000_0000 by { Pow2Of32(); }
    p := r;
    DivModUnique(r, Pow2(d), 0, r);
  }

  predicate Matches<V>(b: Block<V>, k: Key) {
    !b.IsEmpty() && b.key == k
  }

  /** What the debug assertion in the scans relies on. */
  ghost predicate AtMostOnce<V>(arr: seq<Block<V>>, k: Key) {
    forall i, j :: 0 <= i < j < |arr| ==> !(Matches(arr[i], k) && Matches(arr[j], k))
  }

  ghost predicate SomeMatch<V>(arr: seq<Block<V>>, k: Key) {
    exists i :: 0 <= i < |arr| && Matches(arr[i], k)
  }

  /** The slots with every block of key `k` taken out. */
  ghost function Without<V>(arr: seq<Block<V>>, k: Key): seq<Block<V>> {
    seq(|arr|, i requires 0 <= i < |arr| => if Matches(arr[i], k) then arr[i].Emptied() else arr[i])
  }

  /** The slots with `b` in the first free one of the first `n`, if there is one. */
  ghost function Filled<V>(arr: seq<Block<V>>, n: nat, b: Block<V>): seq<Block<V>>
    requires n <= |arr|
  {
    seq(|arr|, i requires 0 <= i < |arr| => if i < n && IsFirstFree(arr, 0, i) then b else arr[i])
  }

  lemma WithoutIs<V>(arr: seq<Block<V>>, k: Key, at: nat, found: bool, arr': seq<Block<V>>)
    requires AtMostOnce(arr, k) && found == SomeMatch(arr, k)
    requires if found then at < |arr| && Matches(arr[at], k) && arr' == arr[at := arr[at].Emptied()] else arr' == arr
    ensures arr' == Without(arr, k)
  {
    assert found ==> forall i :: 0 <= i < |arr| ==> (Matches(arr[i], k) <==> i == at);
  }

  lemma FilledIs<V>(arr: seq<Block<V>>, n: nat, b: Block<V>, at: nat, ok: bool, arr': seq<Block<V>>)
    requires n <= |arr| && ok == SomeEmpty(arr, 0, n)
    requires if ok then at < n && IsFirstFree(arr, 0, at) && arr' == arr[at := b] else arr' == arr
    ensures arr' == Filled(arr, n, b)
  {
  }

  /** Scans for key `k`; empties its slot and reports its value. */
  method ReadAndRemoveElement<V>(arr: seq<Block<V>>, k: Key, ret: V)
    returns (arr': seq<Block<V>>, found: bool, ret': V, ghost at: nat)
    requires AtMostOnce(arr, k)
    ensures found == SomeMatch(arr, k)
    ensures if found then at < |arr| && Matches(arr[at], k) && arr' == arr[at := arr[at].Emptied()]
            && ret' == arr[at].value
            else arr' == arr && ret' == ret
  {
    arr', found, ret', at := arr, false, ret, 0;
    for i := 0 to |arr|
      invariant found ==> at < i && Matches(arr[at], k) && arr' == arr[at := arr[at].Emptied()] && ret' == arr[at].value
      invariant !found ==> arr' == arr && ret' == ret && forall j :: 0 <= j < i ==> !Matches(arr[j], k)
    {
      assert arr'[i] == arr[i];
      var matched := Matches(arr'[i], k);
      if matched {
        at := i;
        ret' := arr'[i].value;
        arr' := arr'[i := arr'[i].Emptied()];
        found := true;
      }
    }
  }

  /** Removes the block of key `k`, if there is one. */
  method RemoveElement<V>(arr: seq<Block<V>>, k: Key) returns (arr': seq<Block<V>>, found: bool, ghost at: nat)
    requires AtMostOnce(arr, k)
    ensures found == SomeMatch(arr, k)
    ensures if found then at < |arr| && Matches(arr[at], k) && arr' == arr[at := arr[at].Emptied()] else arr' == arr
  {
    arr', found, at := arr, false, 0;
    for i := 0 to |arr|
      invariant found ==> at < i && Matches(arr[at], k) && arr' == arr[at := arr[at].Emptied()]
      invariant !found ==> arr' == arr && forall j :: 0 <= j < i ==> !Matches(arr[j], k)
    {
      assert arr'[i] == arr[i];
      var matched := Matches(arr'[i], k);
      if matched {
        at := i;
        arr' := arr'[i := arr'[i].Emptied()];
        found := true;
      }
    }
  }

  /** Writes a block to the first free slot among the first `n`; fails when there is none. */
  method WriteBlockToEmptySlot<V>(arr: seq<Block<V>>, n: nat, val: Block<V>)
    returns (arr': seq<Block<V>>, ok: bool, ghost at: nat)
    requires n <= |arr|
    ensures ok == SomeEmpty(arr, 0, n)
    ensures if ok then at < n && IsFirstFree(arr, 0, at) && arr' == arr[at := val] else arr' == arr
  {
    arr', ok, at := arr, false, 0;
    for i := 0 to n
      invariant ok ==> at < i && IsFirstFree(arr, 0, at) && arr' == arr[at := val]
      invariant !ok ==> arr' == arr && !SomeEmpty(arr, 0, i)
    {
      if arr'[i].IsEmpty() && !ok {
        at := i;
        arr' := arr'[i := val];
        ok := true;
      }
    }
  }

  lemma {:induction false} TwoSlotsCountTwice<V>(s: seq<Block<V>>, i: nat, j: nat)
    requires i < j < |s| && s[i] == s[j] && !s[i].IsEmpty()
    ensures RealBlocks(s)[s[i]] >= 2
  {
    if i == 0 {
      RealBlocksMember(s[1..], s[j]);
      assert s[j] == s[1..][j - 1];
    } else {
      TwoSlotsCountTwice(s[1..], i - 1, j - 1);
    }
  }

  lemma {:induction false} KeysAreUniqueInStash<V>(stash: seq<Block<V>>, rest: multiset<Block<V>>,
                                                   m: map<Key, Entry<V>>, k: Key)
    requires Represents(RealBlocks(stash) + rest, m)
    ensures AtMostOnce(stash, k)
  {
    hide RealBlocks;
    forall i, j | 0 <= i < j < |stash| && Matches(stash[i], k) && Matches(stash[j], k) ensures false {
      RealBlocksMember(stash, stash[i]);
      RealBlocksMember(stash, stash[j]);
      assert stash[i] in RealBlocks(stash) + rest && stash[j] in RealBlocks(stash) + rest;
      TwoSlotsCountTwice(stash, i, j);
    }
  }

  /** With the path of `pos` loaded, a key whose block has position `pos` is in the stash. */
  lemma {:induction false} LoadedKeyIsInStash<V>(stash: seq<Block<V>>, tree: Tree<V>, h: nat, pos: Position,
                                                 m: map<Key, Entry<V>>, k: Key)
    requires h <= 32 && IsTree(tree, h) && OnOwnPath(tree, h) && |stash| == S + h * Z
    requires stash[S..] == PathBlocks(tree, h, pos, h)
    requires Represents(Working(stash, tree, h, pos), m)
    requires k in m ==> m[k].pos == pos
    ensures SomeMatch(stash, k) <==> k in m
  {
    hide RealBlocks, TreeBlocks, PathBlocks;
    if k in m {
      var b := Block(m[k].pos, k, m[k].value);
      assert b in Working(stash, tree, h, pos);
      assert stash == stash[..S] + stash[S..];
      RealBlocksConcat(stash[..S], stash[S..]);
      if b in TreeBlocks(tree) {
        BlockIsOnItsPath(tree, h, b);
      }
      RealBlocksMember(stash, b);
      assert Matches(b, k);
    }
    if i :| 0 <= i < |stash| && Matches(stash[i], k) {
      RealBlocksMember(stash, stash[i]);
      assert stash[i] in Working(stash, tree, h, pos);
    }
  }

  /** Emptying the slot of a key removes that key from what the ORAM represents. */
  lemma RemovalRepresents<V>(stash: seq<Block<V>>, rest: multiset<Block<V>>, m: map<Key, Entry<V>>, at: nat)
    requires at < |stash| && !stash[at].IsEmpty() && Represents(RealBlocks(stash) + rest, m)
    ensures Represents(RealBlocks(stash[at := stash[at].Emptied()]) + rest, m - {stash[at].key})
    ensures stash[at].key in m && m[stash[at].key] == Entry(stash[at].pos, stash[at].value)
  {
    hide RealBlocks;
    var b := stash[at];
    RealBlocksMember(stash, b);
    assert b in RealBlocks(stash) + rest;
    RealBlocksUpdate(stash, at, b.Emptied());
    RepresentsRemove(RealBlocks(stash) + rest, m, b);
    var s' := stash[at := b.Emptied()];
    assert RealBlocks(s') + Real(b) == RealBlocks(stash) + multiset{} == RealBlocks(stash);
    assert RealBlocks(s') + rest == (RealBlocks(s') + Real(b)) + rest - Real(b);
  }

  /** Filling a free slot adds the block's key. */
  lemma InsertionRepresents<V>(stash: seq<Block<V>>, rest: multiset<Block<V>>, m: map<Key, Entry<V>>, at: nat,
                               b: Block<V>)
    requires at < |stash| && stash[at].IsEmpty() && Represents(RealBlocks(stash) + rest, m) && b.key !in m
    ensures Represents(RealBlocks(stash[at := b]) + rest, if b.IsEmpty() then m else m[b.key := Entry(b.pos, b.value)])
  {
    hide RealBlocks;
    RealBlocksUpdate(stash, at, b);
    RepresentsAdd(RealBlocks(stash) + rest, m, b);
    assert RealBlocks(stash[at := b]) == RealBlocks(stash[at := b]) + multiset{} == RealBlocks(stash) + Real(b);
    assert RealBlocks(stash) + rest + Real(b) == (RealBlocks(stash) + Real(b)) + rest;
  }

  /** Stash and tree of an ORAM. */
  datatype Slots<V> = Slots(stash: seq<Block<V>>, tree: Tree<V>)

  /** The stash proper with the path of `pos` behind it. */
  ghost function LoadedSlots<V>(s: Slots<V>, h: nat, pos: Position): seq<Block<V>>
    requires |s.stash| >= S && IsTree(s.tree, h)
  {
    s.stash[..S] + PathBlocks(s.tree, h, pos, h)
  }

  /** One eviction pass over the loaded slots, after which the path of `pos` is written back. */
  ghost predicate EvictedBack<V>(loaded: seq<Block<V>>, tree: Tree<V>, h: nat, pos: Position, s': Slots<V>) {
    && 1 <= h && IsTree(tree, h) && |loaded| == |s'.stash| == S + h * Z
    && Evicted(loaded, s'.stash, h, pos)
    && s'.tree == WithPath(tree, h, pos, s'.stash[S..], h)
  }

  /** One eviction along the path of `pos`. */
  ghost predicate EvictedAlong<V>(s: Slots<V>, h: nat, pos: Position, s': Slots<V>) {
    && |s.stash| >= S && IsTree(s.tree, h)
    && EvictedBack(LoadedSlots(s, h, pos), s.tree, h, pos, s')
  }

  /** Each state of the trail comes from the one before by an eviction along the next of the paths. */
  ghost predicate EvictedEach<V>(trail: seq<Slots<V>>, h: nat, paths: seq<Position>) {
    && |trail| == |paths| + 1
    && forall j :: 0 <= j < |paths| ==> EvictedAlong(trail[j], h, paths[j], trail[j + 1])
  }

  /** The paths of the next `n` evictions: path `c` and, cyclically, the ones after it. */
  ghost function NextPaths(c: nat, n: nat, maxN: nat): (ps: seq<Position>)
    requires c < maxN <= 0x8000_0000
    ensures |ps| == n
  {
    seq(n, j requires 0 <= j => Advance(c, j, maxN))
  }

  /** An access to `key`: with the path of `pos` loaded, its block is taken out and `b` put in the first free slot of
      the
      stash; then comes an eviction along that path and one along each of the next two paths in turn. */
  ghost predicate AccessEvicts<V>(s: Slots<V>, h: nat, maxN: nat, c: nat, pos: Position, key: Key, b: Block<V>,
                              trail: seq<Slots<V>>, s': Slots<V>)
    requires |s.stash| >= S && IsTree(s.tree, h) && c < maxN <= 0x8000_0000
  {
    && EvictedEach(trail, h, NextPaths(c, EVICTIONS_PER_OP, maxN))
    && EvictedBack(Filled(Without(LoadedSlots(s, h, pos), key), S, b), s.tree, h, pos, trail[0])
    && trail[EVICTIONS_PER_OP] == s'
  }

  function EmptyBlock<V>(v: V): Block<V> {
    Block(DUMMY_POS, 0, v)
  }

  class CircuitOram<V> {
    /** The value of a key that was never written. */
    const dflt: V
    /** Number of leaves. */
    var maxN: nat
    /** Height of the tree. */
    var h: nat
    /** The stash proper, S slots, followed by room for one path. */
    var stash: seq<Block<V>>
    var tree: Tree<V>
    var evictCounter: nat
    /** What the ORAM represents. */
    ghost var contents: map<Key, Entry<V>>

    ghost predicate Shaped()
      reads this
    {
      && 2 <= h <= 32 && maxN == Pow2(h - 1) && evictCounter < maxN <= 0x8000_0000
      && |stash| == S + h * Z
      && IsTree(tree, h) && OnOwnPath(tree, h)
    }

    /** Between operations: stash and tree together hold exactly the contents. */
    ghost predicate Valid()
      reads this
      ensures Valid() ==> |stash| >= S
    {
      Shaped() && Represents(Resting(stash, tree), contents)
    }

    /** During an operation: the path of `pos` is loaded behind the stash and its buckets in the tree are stale. */
    ghost predicate Loaded(pos: Position)
      reads this
    {
      Shaped() && Legal(stash, pos) && Represents(Working(stash, tree, h, pos), contents)
    }

    /** There is an empty slot in the stash proper. */
    ghost predicate Inv1()
      reads this
      requires |stash| >= S
    {
      SomeEmpty(stash, 0, S)
    }

    /** The stash proper can take a block for `key` once the block it may hold for `key` is gone. */
    ghost predicate Room(key: Key)
      reads this
      requires |stash| >= S
    {
      HasRoom(stash, key)
    }

    lemma RoomForAll(key: Key)
      requires |stash| >= S && Inv1()
      ensures Room(key)
    {
    }

    /** An empty ORAM for `max` blocks. Above 2^31 blocks the number of leaves is 2^32, which is 0 as a 32-bit number.
        */
    constructor (max: nat, dflt: V)
      requires 1 < max <= 0xFFFF_FFFF
      ensures contents == map[] && this.dflt == dflt && max <= maxN
      ensures Valid() <==> max <= 0x8000_0000
      ensures Valid() ==> Inv1()
      ensures max > 0x8000_0000 ==> maxN == 0x1_0000_0000
      ensures IsPow2(max) ==> maxN == max
    {
      hide Represents, OnOwnPath, IsTree, SomeEmpty, Resting, IsPow2, Pow2;
      var h0 := Ilog2(max);
      var height := if Pow2(h0) < max then h0 + 2 else h0 + 1;
      HeightOf(max, h0, height);
      this.dflt := dflt;
      h := height;
      maxN := Pow2(height - 1);
      var slots, nodes := EmptyState(height, dflt);
      stash, tree := slots, nodes;
      evictCounter := 0;
      contents := map[];
    }

    /** Loads the path of `pos` behind the stash. */
    method ReadPathAndGetNodes(pos: Position)
      requires Valid()
      modifies this`stash
      ensures Loaded(pos)
      ensures stash[..S] == old(stash[..S]) && stash[S..] == PathBlocks(tree, h, pos, h)
    {
      hide Represents, OnOwnPath, Legal, RealBlocks, TreeBlocks, PathBlocks, Working, Resting;
      LoadingKeepsBlocks(stash, tree, h, pos);
      LoadedPathIsLegal(stash, tree, h, pos);
      var nodes := ReadPath(tree, h, pos, stash[S..]);
      stash := stash[..S] + nodes;
    }

    /** Writes the loaded path back. */
    method WriteBackPath(pos: Position)
      requires Loaded(pos)
      modifies this`tree
      ensures Valid()
      ensures tree == WithPath(old(tree), h, pos, stash[S..], h)
    {
      hide Represents, OnOwnPath, Legal, RealBlocks, TreeBlocks, WithPath, Working, Resting;
      WritingBackKeepsBlocks(stash, tree, h, pos);
      WrittenPathIsHome(stash, tree, h, pos);
      tree := WritePath(tree, h, pos, stash[S..]);
    }

    /** One eviction pass over the loaded path. */
    method EvictOnceFast(pos: Position)
      requires Loaded(pos)
      modifies this`stash
      ensures Loaded(pos)
      ensures |stash| == |old(stash)| && Evicted(old(stash), stash, h, pos)
    {
      hide Represents, OnOwnPath, Legal, RealBlocks, TreeBlocks, Evicted, IsTree;
      ghost var before := stash;
      stash := Eviction.EvictOnceFast(stash, h, pos, EmptyBlock(dflt));
      EvictedKeepsBlocks(before, stash, h, pos);
    }

    /** One eviction along the path of `pos`. */
    method PerformEviction(pos: Position)
      requires Valid()
      modifies this`stash, this`tree
      ensures Valid() && EvictedAlong(old(Slots(stash, tree)), h, pos, Slots(stash, tree))
    {
      hide Represents, OnOwnPath, Evicted, PathBlocks, WithPath, Legal, Working, Resting;
      ReadPathAndGetNodes(pos);
      assert stash == LoadedSlots(old(Slots(stash, tree)), h, pos);
      EvictOnceFast(pos);
      WriteBackPath(pos);
    }

    /** Evicts along the next two paths; `ok` is the debug assertion that a stash slot is free again. */
    method PerformDeterministicEvictions() returns (ok: bool, ghost trail: seq<Slots<V>>)
      requires Valid()
      modifies this`stash, this`tree, this`evictCounter
      ensures Valid() && ok == Inv1()
      ensures evictCounter == Advance(old(evictCounter), EVICTIONS_PER_OP, maxN)
      ensures EvictedEach(trail, h, NextPaths(old(evictCounter), EVICTIONS_PER_OP, maxN))
      ensures trail[0] == old(Slots(stash, tree)) && trail[EVICTIONS_PER_OP] == Slots(stash, tree)
    {
      hide Represents, OnOwnPath, IsTree, Resting, SomeEmpty, Pow2, EvictedAlong;
      trail := [Slots(stash, tree)];
      for i := 0 to EVICTIONS_PER_OP
        invariant Valid()
        invariant evictCounter == Advance(old(evictCounter), i, maxN)
        invariant EvictedEach(trail, h, NextPaths(old(evictCounter), i, maxN))
        invariant trail[0] == old(Slots(stash, tree)) && trail[i] == Slots(stash, tree)
      {
        PerformEviction(evictCounter);
        evictCounter := (evictCounter + 1) % maxN;
        trail := trail + [Slots(stash, tree)];
      }
      ok := StashHasRoom();
    }

    method StashHasRoom() returns (ok: bool)
      requires |stash| >= S
      ensures ok == Inv1()
    {
      ok := false;
      for i := 0 to S
        invariant ok == SomeEmpty(stash, 0, i)
      {
        if stash[i].IsEmpty() { ok := true; }
      }
    }

    /** Takes the block of `key` out of the stash or the freshly loaded path and reports its value. */
    method ExtractKey(pos: Position, key: Key, ret: V) returns (found: bool, ret': V)
      requires Loaded(pos) && stash[S..] == PathBlocks(tree, h, pos, h)
      requires key in contents ==> contents[key].pos == pos
      modifies this`stash, this`contents
      ensures Loaded(pos) && contents == old(contents) - {key}
      ensures found == (key in old(contents)) && ret' == if found then old(contents)[key].value else ret
      ensures Inv1() == old(Room(key)) && stash == Without(old(stash), key)
    {
      hide Represents, OnOwnPath, RealBlocks, TreeBlocks, PathBlocks, IsTree;
      ghost var rest := TreeBlocks(tree) - RealBlocks(PathBlocks(tree, h, pos, h));
      KeysAreUniqueInStash(stash, rest, contents, key);
      LoadedKeyIsInStash(stash, tree, h, pos, contents, key);
      ghost var at: nat;
      ghost var before := stash;
      stash, found, ret', at := ReadAndRemoveElement(stash, key, ret);
      RoomAfterRemoval(before, key, at, found, stash);
      WithoutIs(before, key, at, found, stash);
      if found {
        RemovalRepresents(before, rest, contents, at);
        RemovalStaysLegal(before, at, pos);
      }
      contents := contents - {key};
      assert !found ==> contents == old(contents);
    }

    /** Takes the block of `key` out of the stash or the freshly loaded path, if it is there. */
    method DiscardLoaded(pos: Position, key: Key) returns (found: bool)
      requires Loaded(pos) && stash[S..] == PathBlocks(tree, h, pos, h)
      modifies this`stash, this`contents
      ensures Loaded(pos) && found == SomeMatch(old(stash), key)
      ensures contents == if found then old(contents) - {key} else old(contents)
      ensures key in old(contents) && old(contents)[key].pos == pos ==> found
      ensures key !in old(contents) ==> !found
      ensures Inv1() == old(Room(key)) && stash == Without(old(stash), key)
    {
      hide Represents, OnOwnPath, RealBlocks, TreeBlocks, PathBlocks, IsTree;
      ghost var rest := TreeBlocks(tree) - RealBlocks(PathBlocks(tree, h, pos, h));
      KeysAreUniqueInStash(stash, rest, contents, key);
      if key in contents ==> contents[key].pos == pos { LoadedKeyIsInStash(stash, tree, h, pos, contents, key); }
      ghost var at: nat;
      ghost var before := stash;
      stash, found, at := RemoveElement(stash, key);
      RoomAfterRemoval(before, key, at, found, stash);
      WithoutIs(before, key, at, found, stash);
      if found {
        RemovalRepresents(before, rest, contents, at);
        RemovalStaysLegal(before, at, pos);
        contents := contents - {key};
      }
    }

    /** The same for a key that is on the loaded path if it is stored at all. */
    method DiscardKey(pos: Position, key: Key) returns (found: bool)
      requires Loaded(pos) && stash[S..] == PathBlocks(tree, h, pos, h)
      requires key in contents ==> contents[key].pos == pos
      modifies this`stash, this`contents
      ensures Loaded(pos) && contents == old(contents) - {key}
      ensures found == (key in old(contents))
      ensures Inv1() == old(Room(key)) && stash == Without(old(stash), key)
    {
      hide Represents, OnOwnPath, RealBlocks, TreeBlocks, PathBlocks, IsTree, SomeMatch, Legal, Working;
      found := DiscardLoaded(pos, key);
      assert key !in old(contents) ==> old(contents) - {key} == old(contents);
    }

    /** Writes a block into a free slot of the stash proper; without one, the block is lost. */
    method PlaceBlock(pos: Position, b: Block<V>)
      requires Loaded(pos) && b.key !in contents
      modifies this`stash, this`contents
      ensures Loaded(pos) && stash == Filled(old(stash), S, b)
      ensures contents == Put(old(contents), old(Inv1()), b.key, b.pos, b.value)
    {
      hide Represents, OnOwnPath, RealBlocks, TreeBlocks, PathBlocks, IsTree;
      ghost var rest := TreeBlocks(tree) - RealBlocks(PathBlocks(tree, h, pos, h));
      ghost var at: nat;
      ghost var before := stash;
      var ok;
      stash, ok, at := WriteBlockToEmptySlot(stash, S, b);
      FilledIs(before, S, b, at, ok, stash);
      if ok {
        InsertionRepresents(before, rest, contents, at, b);
        InsertionStaysLegal(before, at, b, pos);
      }
      assert contents - {b.key} == contents;
      contents := Put(contents, ok, b.key, b.pos, b.value);
    }

    /** Writes a block into a free slot of the stash proper between operations; without one, the block is lost. */
    method PlaceAtRest(b: Block<V>)
      requires Valid() && b.key !in contents
      modifies this`stash, this`contents
      ensures Valid() && stash == Filled(old(stash), S, b)
      ensures contents == Put(old(contents), old(Inv1()), b.key, b.pos, b.value)
    {
      hide Represents, OnOwnPath, RealBlocks, TreeBlocks, IsTree;
      ghost var before := stash;
      ghost var at: nat;
      var ok;
      stash, ok, at := WriteBlockToEmptySlot(stash, S, b);
      FilledIs(before, S, b, at, ok, stash);
      if ok {
        assert stash[..S] == before[..S][at := b];
        InsertionRepresents(before[..S], TreeBlocks(tree), contents, at, b);
      }
      assert contents - {b.key} == contents;
      contents := Put(contents, ok, b.key, b.pos, b.value);
    }

    /** The end of every access: evict along the loaded path, write it back, evict twice more. */
    method FinishAccess(pos: Position) returns (ok: bool, ghost trail: seq<Slots<V>>)
      requires Loaded(pos)
      modifies this`stash, this`tree, this`evictCounter
      ensures Valid() && ok == Inv1()
      ensures evictCounter == Advance(old(evictCounter), EVICTIONS_PER_OP, maxN)
      ensures EvictedEach(trail, h, NextPaths(old(evictCounter), EVICTIONS_PER_OP, maxN))
      ensures EvictedBack(old(stash), old(tree), h, pos, trail[0]) && trail[EVICTIONS_PER_OP] == Slots(stash, tree)
    {
      hide Represents, OnOwnPath, Evicted, WithPath, IsTree, Legal, Working, Resting, EvictedAlong, Advance, NextPaths;
      EvictOnceFast(pos);
      WriteBackPath(pos);
      ok, trail := PerformDeterministicEvictions();
    }

    /** Reads `key`, whose block is at `pos`, and moves it to `newPos`. A dummy `newPos` deletes the key. */
    method Read(pos: Position, newPos: Position, key: Key, ret: V)
      returns (found: bool, ret': V, ok: bool, ghost trail: seq<Slots<V>>)
      requires Valid()
      requires key in contents ==> contents[key].pos == pos
      modifies this`stash, this`tree, this`evictCounter, this`contents
      ensures Valid() && ok == Inv1()
      ensures found == (key in old(contents)) && ret' == if found then old(contents)[key].value else ret
      ensures contents == if found then Put(old(contents), old(Room(key)), key, newPos, ret') else old(contents)
      ensures evictCounter == Advance(old(evictCounter), EVICTIONS_PER_OP, maxN)
      ensures AccessEvicts(old(Slots(stash, tree)), h, maxN, old(evictCounter), pos, key,
                       Block(if found then newPos else DUMMY_POS, key, ret'), trail, Slots(stash, tree))
    {
      hide Represents, OnOwnPath, PathBlocks, IsTree, Legal, Put, HasRoom, SomeEmpty, Resting, Working, Without, Filled,
           EvictedBack, EvictedAlong, Advance, NextPaths;
      ReadPathAndGetNodes(pos);
      assert stash == LoadedSlots(old(Slots(stash, tree)), h, pos);
      RoomSeesStashOnly(old(stash), stash, key);
      found, ret' := ExtractKey(pos, key, ret);
      PlaceBlock(pos, Block(if found then newPos else DUMMY_POS, key, ret'));
      PutReplaces(old(contents), old(Room(key)), key, if found then newPos else DUMMY_POS, ret');
      ok, trail := FinishAccess(pos);
    }

    /** Overwrites `key`, whose block is at `pos`, and moves it to `newPos`; does nothing when the key is absent. */
    method Write(pos: Position, newPos: Position, key: Key, val: V)
      returns (found: bool, ok: bool, ghost trail: seq<Slots<V>>)
      requires Valid()
      requires key in contents ==> contents[key].pos == pos
      modifies this`stash, this`tree, this`evictCounter, this`contents
      ensures Valid() && ok == Inv1()
      ensures found == (key in old(contents))
      ensures contents == if found then Put(old(contents), old(Room(key)), key, newPos, val) else old(contents)
      ensures evictCounter == Advance(old(evictCounter), EVICTIONS_PER_OP, maxN)
      ensures AccessEvicts(old(Slots(stash, tree)), h, maxN, old(evictCounter), pos, key,
                       Block(if found then newPos else DUMMY_POS, key, val), trail, Slots(stash, tree))
    {
      hide Represents, OnOwnPath, PathBlocks, IsTree, Legal, Put, HasRoom, SomeEmpty, Resting, Working, Without, Filled,
           EvictedBack, EvictedAlong, Advance, NextPaths;
      ReadPathAndGetNodes(pos);
      assert stash == LoadedSlots(old(Slots(stash, tree)), h, pos);
      RoomSeesStashOnly(old(stash), stash, key);
      found := DiscardKey(pos, key);
      PlaceBlock(pos, Block(if found then newPos else DUMMY_POS, key, val));
      PutReplaces(old(contents), old(Room(key)), key, if found then newPos else DUMMY_POS, val);
      ok, trail := FinishAccess(pos);
    }

    /** Overwrites or inserts `key`. */
    method WriteOrInsert(pos: Position, newPos: Position, key: Key, val: V)
      returns (found: bool, ok: bool, ghost trail: seq<Slots<V>>)
      requires Valid()
      requires key in contents ==> contents[key].pos == pos
      modifies this`stash, this`tree, this`evictCounter, this`contents
      ensures Valid() && ok == Inv1()
      ensures found == (key in old(contents))
      ensures contents == Put(old(contents), old(Room(key)), key, newPos, val)
      ensures evictCounter == Advance(old(evictCounter), EVICTIONS_PER_OP, maxN)
      ensures AccessEvicts(old(Slots(stash, tree)), h, maxN, old(evictCounter), pos, key,
                       Block(newPos, key, val), trail, Slots(stash, tree))
    {
      hide Represents, OnOwnPath, PathBlocks, IsTree, Legal, Put, HasRoom, SomeEmpty, Resting, Working, Without, Filled,
           EvictedBack, EvictedAlong, Advance, NextPaths;
      ReadPathAndGetNodes(pos);
      assert stash == LoadedSlots(old(Slots(stash, tree)), h, pos);
      RoomSeesStashOnly(old(stash), stash, key);
      found := DiscardKey(pos, key);
      PlaceBlock(pos, Block(newPos, key, val));
      PutReplaces(old(contents), old(Room(key)), key, newPos, val);
      ok, trail := FinishAccess(pos);
    }

    /** Applies `f` to the value of `key`, or to the default value when the key is absent, and stores the result. */
    method Update<T>(pos: Position, newPos: Position, key: Key, f: V -> (V, T))
      returns (found: bool, rv: T, ok: bool, ghost trail: seq<Slots<V>>)
      requires Valid()
      requires key in contents ==> contents[key].pos == pos
      modifies this`stash, this`tree, this`evictCounter, this`contents
      ensures Valid() && ok == Inv1()
      ensures found == (key in old(contents))
      ensures var before := if found then old(contents)[key].value else dflt;
              rv == f(before).1 && contents == Put(old(contents), old(Room(key)), key, newPos, f(before).0)
      ensures evictCounter == Advance(old(evictCounter), EVICTIONS_PER_OP, maxN)
      ensures AccessEvicts(old(Slots(stash, tree)), h, maxN, old(evictCounter), pos, key,
                       Block(newPos, key, f(if found then old(contents)[key].value else dflt).0), trail,
                         Slots(stash, tree))
    {
      hide Represents, OnOwnPath, PathBlocks, IsTree, Legal, Put, HasRoom, SomeEmpty, Resting, Working, Without, Filled,
           EvictedBack, EvictedAlong, Advance, NextPaths;
      ReadPathAndGetNodes(pos);
      assert stash == LoadedSlots(old(Slots(stash, tree)), h, pos);
      RoomSeesStashOnly(old(stash), stash, key);
      var val;
      found, val := ExtractKey(pos, key, dflt);
      rv := f(val).1;
      PlaceBlock(pos, Block(newPos, key, f(val).0));
      PutReplaces(old(contents), old(Room(key)), key, newPos, f(val).0);
      ok, trail := FinishAccess(pos);
    }
  }

  /** The effect of storing a block on the map: nothing is stored without room, and a dummy position deletes. */
  ghost function Put<V>(m: map<Key, Entry<V>>, room: bool, key: Key, pos: Position, value: V): map<Key, Entry<V>> {
    if room && pos != DUMMY_POS then m[key := Entry(pos, value)] else m - {key}
  }

  lemma PutReplaces<V>(m: map<Key, Entry<V>>, room: bool, key: Key, pos: Position, value: V)
    ensures Put(m - {key}, room, key, pos, value) == Put(m, room, key, pos, value)
    ensures key !in m ==> Put(m, room, key, DUMMY_POS, value) == m
  {
    assert key !in m ==> m - {key} == m;
  }

  ghost predicate HasRoom<V>(stash: seq<Block<V>>, key: Key)
    requires |stash| >= S
  {
    exists i :: 0 <= i < S && (stash[i].IsEmpty() || stash[i].key == key)
  }

  lemma RoomAfterRemoval<V>(stash: seq<Block<V>>, key: Key, at: nat, found: bool, stash': seq<Block<V>>)
    requires |stash| >= S && found == SomeMatch(stash, key)
    requires if found then at < |stash| && Matches(stash[at], key) && stash' == stash[at := stash[at].Emptied()]
             else stash' == stash
    requires AtMostOnce(stash, key)
    ensures SomeEmpty(stash', 0, S) == HasRoom(stash, key)
  {
    if i :| 0 <= i < S && (stash[i].IsEmpty() || stash[i].key == key) {
      assert stash[i].IsEmpty() || Matches(stash[i], key);
      assert stash'[i].IsEmpty();
    }
  }

  lemma RoomSeesStashOnly<V>(a: seq<Block<V>>, b: seq<Block<V>>, key: Key)
    requires |a| >= S && |b| >= S && a[..S] == b[..S]
    ensures HasRoom(a, key) == HasRoom(b, key)
  {
    forall i | 0 <= i < S ensures a[i] == b[i] {
      assert a[i] == a[..S][i] && b[i] == b[..S][i];
    }
  }

  lemma RemovalStaysLegal<V>(stash: seq<Block<V>>, at: nat, pos: Position)
    requires at < |stash| && Legal(stash, pos)
    ensures Legal(stash[at := stash[at].Emptied()], pos)
  {
  }

  lemma InsertionStaysLegal<V>(stash: seq<Block<V>>, at: nat, b: Block<V>, pos: Position)
    requires at < S <= |stash| && Legal(stash, pos)
    ensures Legal(stash[at := b], pos)
  {
  }

  lemma {:induction false} EvictedKeepsBlocks<V>(s: seq<Block<V>>, s': seq<Block<V>>, h: nat, path: Position)
    requires 1 <= h && |s| == |s'| == S + h * Z && Evicted(s, s', h, path)
    ensures RealBlocks(s') == RealBlocks(s) && (Legal(s, path) ==> Legal(s', path))
  {
  }

  /** The eviction counter after `n` evictions. */
  function Advance(c: nat, n: nat, m: nat): (r: nat)
    requires m > 0
    ensures c < m ==> r < m
  {
    if n == 0 then c else (Advance(c, n - 1, m) + 1) % m
  }

  lemma HeightOf(max: nat, h0: nat, height: nat)
    requires 1 < max <= 0xFFFF_FFFF
    requires Pow2(h0) <= max < Pow2(h0 + 1) && height == if Pow2(h0) < max then h0 + 2 else h0 + 1
    ensures 2 <= height <= 33 && max <= Pow2(height - 1)
    ensures max <= 0x8000_0000 ==> height <= 32 && Pow2(height - 1) <= 0x8000_0000
    ensures max > 0x8000_0000 ==> Pow2(height - 1) == 0x1_0000_0000
    ensures IsPow2(max) ==> Pow2(height - 1) == max
  {
    hide Pow2;
    Pow2Of32();
    Pow2Doubles(32);
    Pow2Doubles(1);
    if h0 >= 32 { Pow2Monotone(32, h0); }
    if max <= 0x8000_0000 {
      Pow2Monotone(height - 1, 31);
    } else if h0 < 31 {
      Pow2Monotone(h0 + 1, 31);
    }
    if k: nat :| Pow2(k) == max {
      if k < h0 { Pow2Monotone(k, h0); } else if k > h0 { Pow2Monotone(h0 + 1, k); }
    }
  }

  lemma {:induction false} NoTreeBlocks<V>(tree: Tree<V>)
    requires forall n :: 0 <= n < |tree| ==> forall k :: 0 <= k < |tree[n]| ==> tree[n][k].IsEmpty()
    ensures TreeBlocks(tree) == multiset{}
  {
    if tree != [] {
      AllEmpty(tree[0]);
      NoTreeBlocks(tree[1..]);
    }
  }

  lemma {:induction false} EmptyTree<V>(tree: Tree<V>, h: nat)
    requires IsTree(tree, h)
    requires forall n :: 0 <= n < |tree| ==> forall k :: 0 <= k < |tree[n]| ==> tree[n][k].IsEmpty()
    ensures TreeBlocks(tree) == multiset{} && OnOwnPath(tree, h)
  {
    NoTreeBlocks(tree);
  }

  lemma EmptyRepresents<V>()
    ensures Represents<V>(multiset{} + multiset{}, map[])
  {
  }

  method EmptyState<V>(h: nat, dflt: V) returns (stash: seq<Block<V>>, tree: Tree<V>)
    ensures |stash| == S + h * Z && IsTree(tree, h) && OnOwnPath(tree, h)
    ensures Represents(Resting(stash, tree), map[]) && SomeEmpty(stash, 0, S)
  {
    stash := seq(S + h * Z, _ => EmptyBlock(dflt));
    tree := seq(Pow2(h) - 1, _ => seq(Z, _ => EmptyBlock(dflt)));
    AllEmpty(stash[..S]);
    EmptyTree(tree, h);
    EmptyRepresents<V>();
    assert stash[0].IsEmpty();
  }

  /** The map that the first `n` triples describe. */
  ghost function EntriesOf<V>(keys: seq<Key>, values: seq<V>, positions: seq<Position>, n: nat): (m: map<Key, Entry<V>>)
    requires n <= |keys| == |values| == |positions|
    ensures forall k :: k in m <==> k in keys[..n]
  {
    if n == 0 then map[]
    else EntriesOf(keys, values, positions, n - 1)[keys[n - 1] := Entry(positions[n - 1], values[n - 1])]
  }

  lemma {:induction false} EntriesOfAt<V>(keys: seq<Key>, values: seq<V>, positions: seq<Position>, n: nat, i: nat)
    requires i < n <= |keys| == |values| == |positions| && Distinct(keys)
    ensures keys[i] in EntriesOf(keys, values, positions, n)
    ensures EntriesOf(keys, values, positions, n)[keys[i]] == Entry(positions[i], values[i])
  {
    hide Distinct;
    if i < n - 1 {
      DistinctAt(keys, i, n - 1);
      EntriesOfAt(keys, values, positions, n - 1, i);
    }
  }

  lemma DistinctAt(keys: seq<Key>, i: nat, j: nat)
    requires Distinct(keys) && i < j < |keys|
    ensures keys[i] != keys[j]
  {
  }

  /** A key that comes again has the number of the triple as its position, which is where it is looked for. */
  ghost predicate FoundAgain<V>(keys: seq<Key>, values: seq<V>, positions: seq<Position>)
    requires |keys| == |values| == |positions|
  {
    forall i :: 0 <= i < |keys| ==> FoundAgainAt(keys, values, positions, i)
  }

  ghost predicate FoundAgainAt<V>(keys: seq<Key>, values: seq<V>, positions: seq<Position>, i: nat)
    requires i < |keys| == |values| == |positions|
  {
    var m := EntriesOf(keys, values, positions, i);
    keys[i] in m ==> m[keys[i]].pos == i
  }

  lemma DistinctFoundAgain<V>(keys: seq<Key>, values: seq<V>, positions: seq<Position>)
    requires |keys| == |values| == |positions| && Distinct(keys)
    ensures FoundAgain(keys, values, positions)
  {
    hide EntriesOf;
    forall i | 0 <= i < |keys| ensures FoundAgainAt(keys, values, positions, i) {
      assert keys[i] !in keys[..i];
    }
  }

  /** An ORAM filled with the given blocks; `ok` is false when the stash overflowed on the way. Above 2^31 blocks the
      first
      block stops it: the eviction counter is taken modulo the number of leaves, which is 0 as a 32-bit number. */
  method NewWithPositionsAndValues<V>(max: nat, keys: seq<Key>, values: seq<V>, positions: seq<Position>, dflt: V)
    returns (oram: CircuitOram<V>, ok: bool, stopped: bool)
    requires 1 < max <= 0xFFFF_FFFF
    requires |keys| == |values| == |positions| <= max && FoundAgain(keys, values, positions)
    requires forall i :: 0 <= i < |positions| ==> positions[i] != DUMMY_POS
    ensures fresh(oram) && oram.dflt == dflt && max <= oram.maxN && (stopped <==> max > 0x8000_0000 && keys != [])
    ensures max <= 0x8000_0000 ==> oram.Valid() && ok == oram.Inv1()
    ensures ok && !stopped ==> oram.contents == EntriesOf(keys, values, positions, |keys|)
  {
    hide Represents, OnOwnPath, IsTree, Resting, SomeEmpty, EntriesOf;
    NoEntries(keys, values, positions);
    oram := new CircuitOram(max, dflt);
    ok, stopped := true, max > 0x8000_0000 && keys != [];
    if max > 0x8000_0000 { return; }
    for i := 0 to |keys|
      invariant fresh(oram) && oram.Valid() && oram.dflt == dflt && max <= oram.maxN && ok == oram.Inv1()
      invariant ok ==> oram.contents == EntriesOf(keys, values, positions, i)
    {
      if !ok { return; }
      assert FoundAgainAt(keys, values, positions, i);
      oram.RoomForAll(keys[i]);
      OneMoreEntry(keys, values, positions, i);
      var _, fits, _ := oram.WriteOrInsert(i, positions[i], keys[i], values[i]);
      ok := fits;
    }
  }

  lemma {:induction false} NoEntries<V>(keys: seq<Key>, values: seq<V>, positions: seq<Position>)
    requires |keys| == |values| == |positions|
    ensures EntriesOf(keys, values, positions, 0) == map[]
  {
  }

  lemma OneMoreEntry<V>(keys: seq<Key>, values: seq<V>, positions: seq<Position>, n: nat)
    requires n < |keys| == |values| == |positions|
    ensures EntriesOf(keys, values, positions, n + 1) ==
            EntriesOf(keys, values, positions, n)[keys[n] := Entry(positions[n], values[n])]
  {
  }
}
