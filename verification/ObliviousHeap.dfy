/** Path oblivious heap: the elements are blocks of a Circuit ORAM, and a second tree of the same shape keeps, at
    each node, a block of minimum key among those in the subtree below it. */
module ObliviousHeap {
  import opened Bits
  import opened Blocks
  import opened HeapTree
  import opened EvictionSpec
  import opened CircuitOram
  import opened Randomness

  /** The largest key, which empty nodes carry; a real block with this key is never taken for a minimum. */
  const K_MAX: nat := 0xFFFF_FFFF_FFFF_FFFF

  datatype HeapElement<V> = HeapElement(key: nat, value: V)

  type Item<V> = Block<HeapElement<V>>
  type Meta<V> = seq<Item<V>>

  /** `b` is a real block in the subtree of the node of path `p` at depth `d`. */
  ghost predicate InSubtree<V(!new)>(tree: Tree<HeapElement<V>>, h: nat, d: nat, p: Position, b: Item<V>)
    requires IsTree(tree, h) && d < h
  {
    !b.IsEmpty() && exists d': nat, p': Position :: Holding(tree, h, d, p, d', p', b)
  }

  /** Witness of InSubtree: the bucket that holds the block. */
  ghost predicate Holding<V(!new)>(tree: Tree<HeapElement<V>>, h: nat, d: nat, p: Position, d': nat, p': Position,
                                   b: Item<V>)
    requires IsTree(tree, h) && d < h
  {
    d <= d' < h && GetIndex(h, d, p') == GetIndex(h, d, p) && b in tree[GetIndex(h, d', p')]
  }

  /** `m` is a block of minimum key in the subtree, and empty when the subtree holds no block below the largest key. */
  ghost predicate IsSubtreeMin<V(!new)>(tree: Tree<HeapElement<V>>, h: nat, d: nat, p: Position, m: Item<V>)
    requires IsTree(tree, h) && d < h
  {
    && (!m.IsEmpty() ==> InSubtree(tree, h, d, p, m) && m.value.key < K_MAX)
    && (forall b :: InSubtree(tree, h, d, p, b) && b.value.key < K_MAX ==>
        !m.IsEmpty() && m.value.key <= b.value.key)
  }

  /** The metadata of every node off `path` is right; the nodes on it are right from depth `n` on. */
  ghost predicate MetaRight<V(!new)>(tree: Tree<HeapElement<V>>, meta: Meta<V>, h: nat, path: Position, n: nat)
    requires IsTree(tree, h) && |meta| == Pow2(h) - 1
  {
    forall d: nat, p: Position :: d < h && (d >= n || GetIndex(h, d, p) != GetIndex(h, d, path)) ==>
      IsSubtreeMin(tree, h, d, p, meta[GetIndex(h, d, p)])
  }

  lemma {:induction false} AllRightForAnyPath<V(!new)>(tree: Tree<HeapElement<V>>, meta: Meta<V>, h: nat, p: Position,
                                                       q: Position)
    requires IsTree(tree, h) && |meta| == Pow2(h) - 1 && MetaRight(tree, meta, h, p, 0)
    ensures MetaRight(tree, meta, h, q, 0)
  {
    hide IsSubtreeMin, GetIndex, Pow2;
  }

  /** Rewriting a path leaves the subtrees off that path alone. */
  lemma {:induction false} OffPathUntouched<V(!new)>(tree: Tree<HeapElement<V>>, h: nat, path: Position,
                                                     blocks: seq<Item<V>>,
                                                     d: nat, p: Position, b: Item<V>)
    requires h <= 32 && IsTree(tree, h) && |blocks| == h * Z && d < h && GetIndex(h, d, p) != GetIndex(h, d, path)
    ensures InSubtree(WithPath(tree, h, path, blocks, h), h, d, p, b) <==> InSubtree(tree, h, d, p, b)
  {
    var tree' := WithPath(tree, h, path, blocks, h);
    hide WithPath;
    forall d': nat, p': Position
      ensures Holding(tree', h, d, p, d', p', b) <==> Holding(tree, h, d, p, d', p', b)
    {
      if d <= d' < h && GetIndex(h, d, p') == GetIndex(h, d, p) {
        WithPathAt(tree, h, path, blocks, h, d', p');
        if GetIndex(h, d', p') == GetIndex(h, d', path) {
          SharedAtDepth(h, d, d', p', path);
        }
      }
    }
  }

  lemma {:induction false} OffPathStaysRight<V(!new)>(tree: Tree<HeapElement<V>>, meta: Meta<V>, h: nat,
                                                      path: Position, blocks: seq<Item<V>>)
    requires h <= 32 && IsTree(tree, h) && |meta| == Pow2(h) - 1 && |blocks| == h * Z
    requires MetaRight(tree, meta, h, path, 0)
    ensures MetaRight(WithPath(tree, h, path, blocks, h), meta, h, path, h)
  {
    var tree' := WithPath(tree, h, path, blocks, h);
    hide WithPath, InSubtree;
    forall d: nat, p: Position | d < h && GetIndex(h, d, p) != GetIndex(h, d, path)
      ensures IsSubtreeMin(tree', h, d, p, meta[GetIndex(h, d, p)])
    {
      var m := meta[GetIndex(h, d, p)];
      assert IsSubtreeMin(tree, h, d, p, m);
      forall b ensures InSubtree(tree', h, d, p, b) <==> InSubtree(tree, h, d, p, b) {
        OffPathUntouched(tree, h, path, blocks, d, p, b);
      }
    }
  }

  /** A subtree is its root bucket and the subtrees of the two children. */
  lemma SubtreeSplits<V(!new)>(tree: Tree<HeapElement<V>>, h: nat, d: nat, p: Position, b: Item<V>)
    requires h <= 32 && IsTree(tree, h) && d + 1 < h
    ensures InSubtree(tree, h, d, p, b) <==>
            (!b.IsEmpty() && b in tree[GetIndex(h, d, p)]) || InSubtree(tree, h, d + 1, p, b)
            || InSubtree(tree, h, d + 1, FlipBit(p, d), b)
  {
    var f := FlipBit(p, d);
    hide FlipBit, GetIndex, Pow2;
    FlipSplits(h, d, p, p);
    if InSubtree(tree, h, d, p, b) {
      var d': nat, p': Position :| Holding(tree, h, d, p, d', p', b);
      FlipSplits(h, d, p, p');
      if d' > d {
        if GetIndex(h, d + 1, p') == GetIndex(h, d + 1, p) {
          assert Holding(tree, h, d + 1, p, d', p', b);
        } else {
          assert Holding(tree, h, d + 1, f, d', p', b);
        }
      }
    }
    if !b.IsEmpty() && b in tree[GetIndex(h, d, p)] {
      assert Holding(tree, h, d, p, d, p, b);
    }
    SubtreeOfChild(tree, h, d, p, p, b);
    SubtreeOfChild(tree, h, d, p, f, b);
  }

  lemma SubtreeOfChild<V(!new)>(tree: Tree<HeapElement<V>>, h: nat, d: nat, p: Position, c: Position, b: Item<V>)
    requires h <= 32 && IsTree(tree, h) && d + 1 < h && GetIndex(h, d, c) == GetIndex(h, d, p)
    ensures InSubtree(tree, h, d + 1, c, b) ==> InSubtree(tree, h, d, p, b)
  {
    if InSubtree(tree, h, d + 1, c, b) {
      var d': nat, p': Position :| Holding(tree, h, d + 1, c, d', p', b);
      SharedAtDepth(h, d, d + 1, p', c);
      assert Holding(tree, h, d, p, d', p', b);
    }
  }

  lemma SubtreeOfLeaf<V(!new)>(tree: Tree<HeapElement<V>>, h: nat, d: nat, p: Position, b: Item<V>)
    requires d + 1 == h && IsTree(tree, h)
    ensures InSubtree(tree, h, d, p, b) <==> !b.IsEmpty() && b in tree[GetIndex(h, d, p)]
  {
    hide GetIndex, Pow2;
    if !b.IsEmpty() && b in tree[GetIndex(h, d, p)] {
      assert Holding(tree, h, d, p, d, p, b);
    }
  }

  /** The smaller of a running minimum and a candidate slot. */
  function Better<V>(curr: Item<V>, b: Item<V>): Item<V> {
    if !b.IsEmpty() && b.value.key < curr.value.key then b else curr
  }

  /** An empty running minimum carries the largest key, so that any real block below that improves on it. */
  predicate Primed<V>(curr: Item<V>) {
    if curr.IsEmpty() then curr.key == 0 && curr.value.key == K_MAX else curr.value.key < K_MAX
  }

  lemma BetterIsLower<V>(curr: Item<V>, b: Item<V>)
    requires Primed(curr)
    ensures var r := Better(curr, b);
            && Primed(r) && (r == curr || (r == b && !b.IsEmpty()))
            && (!b.IsEmpty() && b.value.key < K_MAX ==> !r.IsEmpty() && r.value.key <= b.value.key)
            && (!curr.IsEmpty() ==> !r.IsEmpty() && r.value.key <= curr.value.key)
  {
  }

  lemma LowestOfFour<V>(curr: Item<V>, x: Item<V>, y: Item<V>, z: Item<V>)
    requires Primed(curr)
    ensures var m := Better(Better(Better(curr, x), y), z);
            && Primed(m) && (!m.IsEmpty() ==> m in [curr, x, y, z])
            && (forall b :: b in [curr, x, y, z] && !b.IsEmpty() && b.value.key < K_MAX ==>
                !m.IsEmpty() && m.value.key <= b.value.key)
  {
    hide Better;
    BetterIsLower(curr, x);
    BetterIsLower(Better(curr, x), y);
    BetterIsLower(Better(Better(curr, x), y), z);
  }

  lemma LeafMin<V(!new)>(tree: Tree<HeapElement<V>>, h: nat, d: nat, p: Position, start: Item<V>)
    requires d + 1 == h <= 32 && IsTree(tree, h) && start.IsEmpty() && Primed(start)
    ensures var bucket := tree[GetIndex(h, d, p)];
            var m := Better(Better(start, bucket[0]), bucket[1]);
            Primed(m) && IsSubtreeMin(tree, h, d, p, m)
  {
    var bucket := tree[GetIndex(h, d, p)];
    var m := Better(Better(start, bucket[0]), bucket[1]);
    hide InSubtree, GetIndex, Pow2, Better;
    BetterIsLower(start, bucket[0]);
    BetterIsLower(Better(start, bucket[0]), bucket[1]);
    SubtreeOfLeaf(tree, h, d, p, m);
    assert bucket[0] in bucket && bucket[1] in bucket;
    forall b | InSubtree(tree, h, d, p, b) && b.value.key < K_MAX
      ensures !m.IsEmpty() && m.value.key <= b.value.key
    {
      SubtreeOfLeaf(tree, h, d, p, b);
      assert b == bucket[0] || b == bucket[1];
    }
  }

  /** A block of a subtree is not below the block of its bucket or the minimum of the child's subtree where it lies. */
  lemma Bounded<V(!new)>(tree: Tree<HeapElement<V>>, h: nat, d: nat, p: Position, child: Item<V>, sibling: Item<V>,
                         b: Item<V>) returns (c: Item<V>)
    requires h <= 32 && d + 1 < h && IsTree(tree, h) && InSubtree(tree, h, d, p, b) && b.value.key < K_MAX
    requires IsSubtreeMin(tree, h, d + 1, p, child) && IsSubtreeMin(tree, h, d + 1, FlipBit(p, d), sibling)
    ensures var bucket := tree[GetIndex(h, d, p)];
            c in [child, bucket[0], bucket[1], sibling]
    ensures !c.IsEmpty() && c.value.key <= b.value.key
  {
    hide InSubtree, GetIndex, Pow2, FlipBit;
    SubtreeSplits(tree, h, d, p, b);
    c := if InSubtree(tree, h, d + 1, p, b) then child
         else if InSubtree(tree, h, d + 1, FlipBit(p, d), b) then sibling else b;
  }

  /** The minimum of a subtree from its bucket and the minima of the two subtrees below. */
  lemma InnerMin<V(!new)>(tree: Tree<HeapElement<V>>, h: nat, d: nat, p: Position, child: Item<V>, sibling: Item<V>)
    requires h <= 32 && d + 1 < h && IsTree(tree, h) && Primed(child)
    requires IsSubtreeMin(tree, h, d + 1, p, child) && IsSubtreeMin(tree, h, d + 1, FlipBit(p, d), sibling)
    ensures var bucket := tree[GetIndex(h, d, p)];
            var m := Better(Better(Better(child, bucket[0]), bucket[1]), sibling);
            Primed(m) && IsSubtreeMin(tree, h, d, p, m)
  {
    var bucket := tree[GetIndex(h, d, p)];
    var m := Better(Better(Better(child, bucket[0]), bucket[1]), sibling);
    hide InSubtree, GetIndex, Pow2, FlipBit, Better;
    LowestOfFour(child, bucket[0], bucket[1], sibling);
    SubtreeSplits(tree, h, d, p, m);
    forall b | InSubtree(tree, h, d, p, b) && b.value.key < K_MAX
      ensures !m.IsEmpty() && m.value.key <= b.value.key
    {
      var c := Bounded(tree, h, d, p, child, sibling, b);
    }
  }

  lemma SameNodeSameMin<V(!new)>(tree: Tree<HeapElement<V>>, h: nat, d: nat, p: Position, q: Position, m: Item<V>)
    requires IsTree(tree, h) && d < h && GetIndex(h, d, p) == GetIndex(h, d, q) && IsSubtreeMin(tree, h, d, p, m)
    ensures IsSubtreeMin(tree, h, d, q, m)
  {
    hide GetIndex, Pow2;
    forall b ensures InSubtree(tree, h, d, p, b) <==> InSubtree(tree, h, d, q, b) {
      forall d': nat, p': Position ensures Holding(tree, h, d, p, d', p', b) <==> Holding(tree, h, d, q, d', p', b) {
      }
    }
  }

  /** Recording the minimum of one more node of the path. */
  lemma {:induction false} MetaStep<V(!new)>(tree: Tree<HeapElement<V>>, meta: Meta<V>, h: nat, path: Position, d: nat,
                                             m: Item<V>)
    requires IsTree(tree, h) && |meta| == Pow2(h) - 1 && d < h
    requires MetaRight(tree, meta, h, path, d + 1) && IsSubtreeMin(tree, h, d, path, m)
    ensures MetaRight(tree, meta[GetIndex(h, d, path) := m], h, path, d)
  {
    hide IsSubtreeMin, GetIndex, Pow2;
    var meta' := meta[GetIndex(h, d, path) := m];
    forall d2: nat, p: Position | d2 < h && (d2 >= d || GetIndex(h, d2, p) != GetIndex(h, d2, path))
      ensures IsSubtreeMin(tree, h, d2, p, meta'[GetIndex(h, d2, p)])
    {
      if GetIndex(h, d2, p) == GetIndex(h, d, path) {
        DepthsAreDisjoint(h, d2, p, d, path);
        SameNodeSameMin(tree, h, d, path, p, m);
      }
    }
  }

  /** No element has a key below the largest one, so that no minimum is found. */
  ghost predicate NoneBelow<V>(contents: map<Key, Entry<HeapElement<V>>>) {
    forall k :: k in contents ==> contents[k].value.key >= K_MAX
  }

  /** A block of minimum key among the contents, when there are any below the largest key. */
  ghost predicate IsMinimum<V(!new)>(m: Item<V>, contents: map<Key, Entry<HeapElement<V>>>) {
    if NoneBelow(contents) then m.IsEmpty()
    else
      && !m.IsEmpty() && m.key in contents && contents[m.key] == Entry(m.pos, m.value)
      && forall k :: k in contents ==> m.value.key <= contents[k].value.key
  }

  /** The root's metadata together with the stash knows the minimum of everything. */
  lemma RootAndStashSeeAll<V(!new)>(stash: seq<Item<V>>, tree: Tree<HeapElement<V>>, h: nat, root: Item<V>,
                                    contents: map<Key, Entry<HeapElement<V>>>, b: Item<V>)
    requires 1 <= h <= 32 && |stash| >= S && IsTree(tree, h)
    requires Represents(Resting(stash, tree), contents) && IsSubtreeMin(tree, h, 0, 0, root)
    ensures b in Resting(stash, tree) && b.value.key < K_MAX ==>
      b in stash[..S] || (!root.IsEmpty() && root.value.key <= b.value.key)
    ensures !root.IsEmpty() ==> root in Resting(stash, tree) && root.value.key < K_MAX
    ensures b in stash[..S] && !b.IsEmpty() ==> b in Resting(stash, tree)
  {
    hide RealBlocks, TreeBlocks;
    RealBlocksMember(stash[..S], b);
    TreeBlocksMember(tree, b);
    if b in TreeBlocks(tree) {
      var n :| 0 <= n < |tree| && b in RealBlocks(tree[n]);
      RealBlocksMember(tree[n], b);
      var d, p := DepthOfNode(n, h);
      RootIsOnEveryPath(h, p);
      assert Holding(tree, h, 0, 0, d, p, b);
      assert InSubtree(tree, h, 0, 0, b);
    }
    if !root.IsEmpty() {
      var d': nat, p': Position :| Holding(tree, h, 0, 0, d', p', root);
      RealBlocksMember(tree[GetIndex(h, d', p')], root);
      TreeBlocksMember(tree, root);
    }
  }

  lemma MinimumFound<V(!new)>(stash: seq<Item<V>>, tree: Tree<HeapElement<V>>, h: nat, root: Item<V>,
                              contents: map<Key, Entry<HeapElement<V>>>, m: Item<V>)
    requires 1 <= h <= 32 && |stash| >= S && IsTree(tree, h)
    requires Represents(Resting(stash, tree), contents) && IsSubtreeMin(tree, h, 0, 0, root)
    requires m == root || (m in stash[..S] && !m.IsEmpty() && m.value.key < K_MAX)
    requires !root.IsEmpty() ==> !m.IsEmpty() && m.value.key <= root.value.key
    requires forall j :: 0 <= j < S && !stash[j].IsEmpty() && stash[j].value.key < K_MAX ==>
      !m.IsEmpty() && m.value.key <= stash[j].value.key
    ensures IsMinimum(m, contents)
  {
    hide Resting, IsSubtreeMin, IsTree;
    RootAndStashSeeAll(stash, tree, h, root, contents, m);
    forall k | k in contents && contents[k].value.key < K_MAX
      ensures !m.IsEmpty() && m.value.key <= contents[k].value.key
    {
      var b := Block(contents[k].pos, k, contents[k].value);
      RootAndStashSeeAll(stash, tree, h, root, contents, b);
      if b in stash[..S] {
        var j :| 0 <= j < S && stash[j] == b;
      }
    }
  }

  lemma RootIsOnEveryPath(h: nat, p: Position)
    requires 1 <= h
    ensures GetIndex(h, 0, p) == GetIndex(h, 0, 0) == 0
  {
    assert p % 1 == 0;
  }

  class Heap<V(!new)> {
    var data: CircuitOram<HeapElement<V>>
    var metadata: Meta<V>
    var timestamp: nat

    /** The elements by timestamp. */
    ghost function Contents(): map<Key, Entry<HeapElement<V>>>
      reads this, data
    {
      data.contents
    }

    ghost predicate ElementsValid()
      reads this, data
    {
      && data.Valid() && |metadata| == Pow2(data.h) - 1
      && (forall k :: k in data.contents ==>
          k < timestamp && data.contents[k].pos < data.maxN && data.contents[k].value.key <= K_MAX)
    }

    /** An empty root carries the largest key, unless nothing was ever inserted. */
    ghost predicate RootPrimed()
      reads this, data
      requires |metadata| > 0
    {
      && (metadata[0].IsEmpty() ==> metadata[0].key == 0)
      && (Primed(metadata[0]) || data.contents == map[])
    }

    /** The scan of a deletion along `pos` meets the element with timestamp `ts`. */
    ghost predicate Met(pos: Position, ts: Key)
      reads this, data
      requires Valid()
    {
      SomeMatch(data.stash[..S] + PathBlocks(data.tree, data.h, pos, data.h), ts)
    }

    ghost predicate Valid()
      reads this, data
    {
      && ElementsValid()
      && MetaRight(data.tree, metadata, data.h, 0, 0)
      && |metadata| > 0 && RootPrimed()
    }

    /** After a pass over `path`: the path is still loaded, and only the metadata along it may be out of date. */
    ghost predicate AwaitsUpdate(path: Position)
      reads this, data
    {
      && ElementsValid()
      && data.stash[S..] == PathBlocks(data.tree, data.h, path, data.h)
      && MetaRight(data.tree, metadata, data.h, path, data.h)
    }

    /** An empty heap for `n` elements; `dflt` stands for the zeroed value. */
    constructor (n: nat, dflt: V)
      requires 1 < n <= 0x8000_0000
      ensures Valid() && fresh(data) && Contents() == map[] && timestamp == 0 && n <= data.maxN
    {
      hide Represents, OnOwnPath, IsTree;
      var oram := new CircuitOram(n, HeapElement(0, dflt));
      data := oram;
      metadata := seq(Pow2(oram.h) - 1, _ => EmptyBlock(HeapElement(0, dflt)));
      timestamp := 0;
      new;
      NothingInSubtrees();
    }

    /** The minimum element, or an empty block when no key is below the largest one. */
    method FindMin() returns (m: Item<V>)
      requires Valid()
      ensures IsMinimum(m, Contents()) && (m.IsEmpty() ==> m.key == 0)
    {
      hide Represents, OnOwnPath, IsTree, InSubtree, MetaRight, GetIndex, Pow2, Resting;
      m := metadata[GetIndex(data.h, 0, 0)];
      RootIsRight();
      ghost var root := m;
      for i := 0 to S
        invariant m == root || (m in data.stash[..S] && !m.IsEmpty() && m.value.key < K_MAX)
        invariant Primed(m) || data.contents == map[]
        invariant !root.IsEmpty() ==> !m.IsEmpty() && m.value.key <= root.value.key
        invariant forall j :: 0 <= j < i && !data.stash[j].IsEmpty() && data.stash[j].value.key < K_MAX ==>
          !m.IsEmpty() && m.value.key <= data.stash[j].value.key
      {
        assert data.stash[i] == data.stash[..S][i];
        StashHolds(i);
        m := Better(m, data.stash[i]);
      }
      MinimumFound(data.stash, data.tree, data.h, root, data.contents, m);
    }

    lemma RootIsRight()
      requires Valid()
      ensures GetIndex(data.h, 0, 0) == 0 && IsSubtreeMin(data.tree, data.h, 0, 0, metadata[0])
    {
      hide InSubtree, Represents, OnOwnPath;
      RootIsOnEveryPath(data.h, 0);
    }

    lemma StashHolds(i: nat)
      requires Valid() && i < S
      ensures !data.stash[i].IsEmpty() ==> data.contents != map[] && data.stash[i].value.key <= K_MAX
    {
      var b := data.stash[i];
      assert b == data.stash[..S][i];
      RealBlocksMember(data.stash[..S], b);
      assert !b.IsEmpty() ==> b in Resting(data.stash, data.tree);
    }

    /** With nothing stored, empty metadata is right everywhere. */
    lemma NothingInSubtrees()
      requires data.Valid() && data.contents == map[] && |metadata| == Pow2(data.h) - 1
      requires forall n :: 0 <= n < |metadata| ==> metadata[n].IsEmpty()
      ensures MetaRight(data.tree, metadata, data.h, 0, 0)
    {
      hide RealBlocks, TreeBlocks, GetIndex, Pow2;
      assert forall b :: b !in Resting(data.stash, data.tree);
      forall d: nat, p: Position, b | d < data.h && InSubtree(data.tree, data.h, d, p, b) ensures false {
        var d': nat, p': Position :| Holding(data.tree, data.h, d, p, d', p', b);
        RealBlocksMember(data.tree[GetIndex(data.h, d', p')], b);
        TreeBlocksMember(data.tree, b);
      }
    }

    /** Evicts along the loaded path and writes it back. */
    method EvictLoaded(pos: Position)
      requires data.Loaded(pos) && |metadata| == Pow2(data.h) - 1
      requires forall k :: k in data.contents ==>
        k < timestamp && data.contents[k].pos < data.maxN && data.contents[k].value.key <= K_MAX
      requires MetaRight(data.tree, metadata, data.h, pos, 0)
      modifies data`stash, data`tree
      ensures AwaitsUpdate(pos)
      ensures EvictedBack(old(data.stash), old(data.tree), data.h, pos, Slots(data.stash, data.tree))
    {
      hide Represents, OnOwnPath, MetaRight, Evicted, PathBlocks, WithPath, Legal, Resting, Working;
      ghost var before := data.tree;
      data.EvictOnceFast(pos);
      data.WriteBackPath(pos);
      PathOfWritten(before, data.h, pos, data.stash[S..], data.h);
      assert data.stash[S..][..data.h * Z] == data.stash[S..];
      OffPathStaysRight(before, metadata, data.h, pos, data.stash[S..]);
    }

    /** Loads a path, evicts along it and writes it back. */
    method Evict(pos: Position)
      requires ElementsValid() && MetaRight(data.tree, metadata, data.h, 0, 0)
      modifies data`stash, data`tree
      ensures AwaitsUpdate(pos)
      ensures EvictedAlong(old(Slots(data.stash, data.tree)), data.h, pos, Slots(data.stash, data.tree))
    {
      hide Represents, OnOwnPath, MetaRight, PathBlocks, WithPath, Legal, Resting, Working, EvictedBack;
      AllRightForAnyPath(data.tree, metadata, data.h, 0, pos);
      data.ReadPathAndGetNodes(pos);
      assert data.stash == LoadedSlots(old(Slots(data.stash, data.tree)), data.h, pos);
      EvictLoaded(pos);
    }

    /** Recomputes the metadata along `pos`, leaf first, from the loaded buckets and the siblings' metadata. */
    method UpdateMin(pos: Position)
      requires AwaitsUpdate(pos)
      modifies this`metadata
      ensures Valid()
    {
      hide Represents, OnOwnPath, PathBlocks, IsSubtreeMin, GetIndex, FlipBit, Pow2;
      var currMin: Item<V> := Block(DUMMY_POS, 0, HeapElement(K_MAX, data.dflt.value));
      for d := data.h downto 0
        invariant |metadata| == Pow2(data.h) - 1
        invariant Primed(currMin) && (d == data.h ==> currMin.IsEmpty())
        invariant d < data.h ==> IsSubtreeMin(data.tree, data.h, d, pos, currMin)
        invariant d < data.h ==> metadata[GetIndex(data.h, d, pos)] == currMin
        invariant MetaRight(data.tree, metadata, data.h, pos, d)
      {
        PathBlocksAt(data.tree, data.h, pos, data.h, d);
        var elems := data.stash[S..][d * Z..(d + 1) * Z];
        ghost var child := currMin;
        for k := 0 to Z
          invariant currMin == if k == 0 then child else if k == 1 then Better(child, elems[0])
                    else Better(Better(child, elems[0]), elems[1])
        {
          currMin := Better(currMin, elems[k]);
        }
        if d + 1 != data.h {
          FlipSplits(data.h, d, pos, pos);
          var sibling := metadata[GetIndex(data.h, d + 1, FlipBit(pos, d))];
          InnerMin(data.tree, data.h, d, pos, child, sibling);
          currMin := Better(currMin, sibling);
        } else {
          LeafMin(data.tree, data.h, d, pos, child);
        }
        MetaStep(data.tree, metadata, data.h, pos, d, currMin);
        metadata := metadata[GetIndex(data.h, d, pos) := currMin];
      }
      RootIsOnEveryPath(data.h, pos);
    }

    /** Inserts a value with priority `key`; the pair returned names the element for Delete. Without room in the
        stash the element is lost. The element goes to the first free slot of the stash, and there are evictions along
        the two paths drawn. */
    method Insert(key: nat, value: V)
      returns (pos: Position, ts: Key, ghost paths: seq<Position>, ghost trail: seq<Slots<HeapElement<V>>>)
      requires Valid() && key <= K_MAX
      modifies this, data`stash, data`tree, data`contents
      ensures Valid() && data == old(data) && ts == old(timestamp) && timestamp == ts + 1 && ts !in old(Contents())
      ensures pos != DUMMY_POS
      ensures Contents() == Put(old(Contents()), old(data.Inv1()), ts, pos, HeapElement(key, value))
      ensures |paths| == 2 && paths[0] < data.maxN && paths[1] < data.maxN && EvictedEach(trail, data.h, paths)
      ensures trail[0] == Slots(Filled(old(data.stash), S, Block(pos, ts, HeapElement(key, value))), old(data.tree))
      ensures trail[2] == Slots(data.stash, data.tree)
    {
      hide Represents, OnOwnPath, PathBlocks, MetaRight, IsTree, Resting, EvictedAlong, Filled;
      pos := RandomPosition(data.maxN);
      ts := timestamp;
      timestamp := timestamp + 1;
      data.PlaceAtRest(Block(pos, ts, HeapElement(key, value)));
      trail := [Slots(data.stash, data.tree)];
      var first := RandomPosition(data.maxN);
      Evict(first);
      trail := trail + [Slots(data.stash, data.tree)];
      UpdateMin(first);
      var second := RandomPosition(data.maxN);
      Evict(second);
      trail := trail + [Slots(data.stash, data.tree)];
      UpdateMin(second);
      paths := [first, second];
    }

    /** Deletes the element with the given timestamp if it is in the stash or on path `pos`. It is, if it is stored and
        `pos` is its path; nothing happens when it is not stored. There is an eviction along `pos`, and one along the
        path `next` that is drawn. */
    method Delete(pos: Position, ts: Key) returns (ghost next: Position, ghost trail: seq<Slots<HeapElement<V>>>)
      requires Valid()
      modifies this`metadata, data`stash, data`tree, data`contents
      ensures Valid() && Contents() == if old(Met(pos, ts)) then old(Contents()) - {ts} else old(Contents())
      ensures (ts in old(Contents()) ==> old(Contents())[ts].pos == pos) ==> Contents() == old(Contents()) - {ts}
      ensures next < data.maxN && EvictedEach(trail, data.h, [next]) && trail[1] == Slots(data.stash, data.tree)
      ensures EvictedBack(Without(LoadedSlots(old(Slots(data.stash, data.tree)), data.h, pos), ts), old(data.tree),
                          data.h, pos, trail[0])
    {
      hide Represents, OnOwnPath, MetaRight, PathBlocks, Legal, IsTree, Resting, Working, SomeMatch, EvictedBack,
           EvictedAlong, Without;
      AllRightForAnyPath(data.tree, metadata, data.h, 0, pos);
      data.ReadPathAndGetNodes(pos);
      assert data.stash == old(data.stash)[..S] + PathBlocks(old(data.tree), old(data.h), pos, old(data.h));
      var found := data.DiscardLoaded(pos, ts);
      assert !found && ts !in old(Contents()) ==> old(Contents()) - {ts} == old(Contents());
      EvictLoaded(pos);
      trail := [Slots(data.stash, data.tree)];
      UpdateMin(pos);
      var drawn := RandomPosition(data.maxN);
      next := drawn;
      Evict(drawn);
      trail := trail + [Slots(data.stash, data.tree)];
      UpdateMin(drawn);
    }

    /** Removes a minimum element. The path it visits is a path of the tree, as the debug assertion on paths demands,
        exactly when some key is below the largest one. Otherwise it deletes element 0 from the dummy path, which takes
        the element with the first timestamp away if it is in the stash or on that path. */
    method ExtractMin() returns (m: Item<V>, ghost next: Position, ghost trail: seq<Slots<HeapElement<V>>>)
      requires Valid()
      modifies this`metadata, data`stash, data`tree, data`contents
      ensures Valid() && IsMinimum(m, old(Contents()))
      ensures m.pos < data.maxN <==> !NoneBelow(old(Contents()))
      ensures !NoneBelow(old(Contents())) ==> Contents() == old(Contents()) - {m.key}
      ensures NoneBelow(old(Contents())) ==>
        Contents() == if old(Met(DUMMY_POS, 0)) then old(Contents()) - {0} else old(Contents())
      ensures next < data.maxN && EvictedEach(trail, data.h, [next]) && trail[1] == Slots(data.stash, data.tree)
      ensures EvictedBack(Without(LoadedSlots(old(Slots(data.stash, data.tree)), data.h, m.pos), m.key), old(data.tree),
                          data.h, m.pos, trail[0])
    {
      hide Represents, OnOwnPath, MetaRight, PathBlocks, Resting, SomeMatch, EvictedEach, EvictedBack, Without,
           LoadedSlots;
      m := FindMin();
      next, trail := Delete(m.pos, m.key);
    }
  }
}
