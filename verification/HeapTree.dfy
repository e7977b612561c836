/** The binary tree of buckets, stored level by level in an array: the node of a path at depth d is named by the
    low d bits of the path. */
module HeapTree {
  import opened Bits
  import opened Blocks

  type Tree<V> = seq<seq<Block<V>>>

  /** The array index of the node at `depth` on `path`, in a tree of height `h`. */
  function GetIndex(h: nat, depth: nat, path: Position): (index: nat)
    requires depth < h
    ensures Pow2(depth) - 1 <= index < Pow2(depth + 1) - 1 <= Pow2(h) - 1
  {
    Pow2Monotone(depth + 1, h);
    Pow2(depth) - 1 + path % Pow2(depth)
  }

  ghost predicate IsTree<V>(tree: Tree<V>, h: nat) {
    && |tree| == Pow2(h) - 1
    && forall n :: 0 <= n < |tree| ==> |tree[n]| == Z
  }

  /** Nodes at different depths are different nodes. */
  lemma DepthsAreDisjoint(h: nat, d: nat, path: Position, d': nat, path': Position)
    requires d < h && d' < h && GetIndex(h, d, path) == GetIndex(h, d', path')
    ensures d == d'
  {
    if d < d' {
      Pow2Monotone(d + 1, d');
    } else if d' < d {
      Pow2Monotone(d' + 1, d);
    }
  }

  /** Two paths meet at depth `d` exactly when they share `d` low bits. */
  lemma {:induction false} SameNodeIffSharedBits(h: nat, d: nat, p: Position, q: Position)
    requires d < h && d <= 32
    ensures GetIndex(h, d, p) == GetIndex(h, d, q) <==> SharedLowBits(p, q, 32) >= d
  {
    SharedLowBitsIsCongruence(p, q, 32, d);
  }

  /** The blocks along a path from the root down, `n` levels of them. */
  ghost function PathBlocks<V>(tree: Tree<V>, h: nat, path: Position, n: nat): (s: seq<Block<V>>)
    requires n <= h && IsTree(tree, h)
    ensures |s| == n * Z
  {
    if n == 0 then [] else PathBlocks(tree, h, path, n - 1) + tree[GetIndex(h, n - 1, path)]
  }

  lemma {:induction false} PathBlocksAt<V>(tree: Tree<V>, h: nat, path: Position, n: nat, d: nat)
    requires d < n <= h && IsTree(tree, h)
    ensures PathBlocks(tree, h, path, n)[d * Z..(d + 1) * Z] == tree[GetIndex(h, d, path)]
  {
    var s := PathBlocks(tree, h, path, n);
    if d < n - 1 {
      PathBlocksAt(tree, h, path, n - 1, d);
      assert s[d * Z..(d + 1) * Z] == PathBlocks(tree, h, path, n - 1)[d * Z..(d + 1) * Z];
    }
  }

  /** `tree` with the first `n` buckets of `path` replaced by the slices of `blocks`. */
  ghost function WithPath<V>(tree: Tree<V>, h: nat, path: Position, blocks: seq<Block<V>>, n: nat): (t: Tree<V>)
    requires n <= h && IsTree(tree, h) && |blocks| >= n * Z
    ensures IsTree(t, h)
  {
    if n == 0 then tree
    else
      WithPath(tree, h, path, blocks, n - 1)[GetIndex(h, n - 1, path) := blocks[(n - 1) * Z..n * Z]]
  }

  lemma {:induction false} WithPathAt<V>(tree: Tree<V>, h: nat, path: Position, blocks: seq<Block<V>>, n: nat,
                                         d: nat, p: Position)
    requires n <= h && d < h && IsTree(tree, h) && |blocks| >= n * Z
    ensures var m := GetIndex(h, d, p);
            WithPath(tree, h, path, blocks, n)[m] ==
            if d < n && m == GetIndex(h, d, path) then blocks[d * Z..(d + 1) * Z] else tree[m]
  {
    hide GetIndex, Pow2;
    if n > 0 {
      WithPathAt(tree, h, path, blocks, n - 1, d, p);
      if GetIndex(h, n - 1, path) == GetIndex(h, d, p) {
        DepthsAreDisjoint(h, n - 1, path, d, p);
      }
    }
  }

  ghost function TreeBlocks<V>(tree: Tree<V>): multiset<Block<V>> {
    if tree == [] then multiset{} else RealBlocks(tree[0]) + TreeBlocks(tree[1..])
  }

  lemma {:induction false} TreeBlocksCons<V>(tree: Tree<V>)
    requires tree != []
    ensures TreeBlocks(tree) == RealBlocks(tree[0]) + TreeBlocks(tree[1..])
  {
  }

  lemma {:induction false} TreeBlocksUpdate<V>(tree: Tree<V>, i: nat, b: seq<Block<V>>)
    requires i < |tree|
    ensures TreeBlocks(tree[i := b]) + RealBlocks(tree[i]) == TreeBlocks(tree) + RealBlocks(b)
  {
    hide RealBlocks, TreeBlocks;
    TreeBlocksCons(tree);
    TreeBlocksCons(tree[i := b]);
    if i == 0 {
      assert tree[i := b][1..] == tree[1..];
      SumSwap(RealBlocks(b), TreeBlocks(tree[1..]), RealBlocks(tree[0]));
    } else {
      assert tree[i := b][1..] == tree[1..][i - 1 := b];
      TreeBlocksUpdate(tree[1..], i - 1, b);
      SumFrame(RealBlocks(tree[0]), TreeBlocks(tree[1..][i - 1 := b]), RealBlocks(tree[i]), TreeBlocks(tree[1..]),
               RealBlocks(b));
    }
  }

  lemma {:induction false} TreeBlocksMember<V>(tree: Tree<V>, b: Block<V>)
    ensures b in TreeBlocks(tree) <==> exists n :: 0 <= n < |tree| && b in RealBlocks(tree[n])
  {
    hide RealBlocks;
    if tree != [] {
      TreeBlocksMember(tree[1..], b);
      if n :| 0 <= n < |tree| && b in RealBlocks(tree[n]) {
        assert n > 0 ==> tree[n] == tree[1..][n - 1];
      }
      if n :| 0 <= n < |tree[1..]| && b in RealBlocks(tree[1..][n]) {
        assert tree[n + 1] == tree[1..][n];
      }
    }
  }

  /** Writing a path exchanges the blocks that were on it for the blocks written. */
  lemma {:induction false} WithPathExchanges<V>(tree: Tree<V>, h: nat, path: Position, blocks: seq<Block<V>>, n: nat)
    requires n <= h && IsTree(tree, h) && |blocks| >= n * Z
    ensures TreeBlocks(WithPath(tree, h, path, blocks, n)) + RealBlocks(PathBlocks(tree, h, path, n)) ==
            TreeBlocks(tree) + RealBlocks(blocks[..n * Z])
  {
    hide RealBlocks, TreeBlocks;
    if n == 0 {
      NoBlocks<V>();
      assert blocks[..0] == [];
    } else {
      var before := WithPath(tree, h, path, blocks, n - 1);
      var idx, slice := GetIndex(h, n - 1, path), blocks[(n - 1) * Z..n * Z];
      WithPathExchanges(tree, h, path, blocks, n - 1);
      WithPathAt(tree, h, path, blocks, n - 1, n - 1, path);
      TreeBlocksUpdate(before, idx, slice);
      RealBlocksConcat(PathBlocks(tree, h, path, n - 1), tree[idx]);
      assert blocks[..n * Z] == blocks[..(n - 1) * Z] + slice;
      RealBlocksConcat(blocks[..(n - 1) * Z], slice);
      MoveAcross(TreeBlocks(before[idx := slice]), RealBlocks(tree[idx]), TreeBlocks(before), RealBlocks(slice),
                 RealBlocks(PathBlocks(tree, h, path, n - 1)), TreeBlocks(tree), RealBlocks(blocks[..(n - 1) * Z]));
    }
  }

  lemma NoBlocks<V>()
    ensures RealBlocks<V>([]) == multiset{}
  {
  }

  lemma MoveAcross<T>(a: multiset<T>, b: multiset<T>, c: multiset<T>, d: multiset<T>, e: multiset<T>, f: multiset<T>,
                      g: multiset<T>)
    requires a + b == c + d && c + e == f + g
    ensures a + (e + b) == f + (g + d)
  {
    assert a + (e + b) == (a + b) + e;
    assert (c + d) + e == (c + e) + d;
  }

  /** The blocks on a path are among the blocks of the tree. */
  lemma {:induction false} PathWithinTree<V>(tree: Tree<V>, h: nat, path: Position)
    requires IsTree(tree, h)
    ensures RealBlocks(PathBlocks(tree, h, path, h)) <= TreeBlocks(tree)
  {
    hide RealBlocks, TreeBlocks;
    var blank := Emptied(PathBlocks(tree, h, path, h));
    WithPathExchanges(tree, h, path, blank, h);
    AllEmpty(blank);
    assert blank[..h * Z] == blank;
    var rest, path' := TreeBlocks(WithPath(tree, h, path, blank, h)), RealBlocks(PathBlocks(tree, h, path, h));
    assert rest + path' == TreeBlocks(tree) + multiset{} == TreeBlocks(tree);
    assert path' <= rest + path';
  }

  ghost function Emptied<V>(s: seq<Block<V>>): seq<Block<V>> {
    seq(|s|, i requires 0 <= i < |s| => s[i].Emptied())
  }

  lemma {:induction false} AllEmpty<V>(s: seq<Block<V>>)
    requires forall i :: 0 <= i < |s| ==> s[i].IsEmpty()
    ensures RealBlocks(s) == multiset{}
  {
    if s != [] { AllEmpty(s[1..]); }
  }

  /** Every block of the tree lies on the path of its own position. */
  ghost predicate OnOwnPath<V>(tree: Tree<V>, h: nat)
    requires IsTree(tree, h)
  {
    forall d, p: Position :: 0 <= d < h ==> BucketAtHome(tree[GetIndex(h, d, p)], h, d, p)
  }

  ghost predicate BucketAtHome<V>(bucket: seq<Block<V>>, h: nat, d: nat, p: Position)
    requires d < h
  {
    forall k :: 0 <= k < |bucket| && !bucket[k].IsEmpty() ==> GetIndex(h, d, bucket[k].pos) == GetIndex(h, d, p)
  }

  /** Copies the buckets of `path` into `out`, root first. */
  method ReadPath<V>(tree: Tree<V>, h: nat, path: Position, out: seq<Block<V>>) returns (out': seq<Block<V>>)
    requires IsTree(tree, h) && |out| == h * Z
    ensures out' == PathBlocks(tree, h, path, h)
  {
    out' := out;
    for i := 0 to h
      invariant |out'| == |out|
      invariant out'[..i * Z] == PathBlocks(tree, h, path, i)
    {
      var bucket := tree[GetIndex(h, i, path)];
      ghost var done := out'[..i * Z];
      out' := out'[..i * Z] + bucket + out'[(i + 1) * Z..];
      assert out'[..(i + 1) * Z] == done + bucket;
    }
    assert out'[..h * Z] == out';
  }

  /** Copies the slices of `blocks` back into the buckets of `path`. */
  method WritePath<V>(tree: Tree<V>, h: nat, path: Position, blocks: seq<Block<V>>) returns (tree': Tree<V>)
    requires IsTree(tree, h) && |blocks| == h * Z
    ensures tree' == WithPath(tree, h, path, blocks, h)
  {
    tree' := tree;
    for i := 0 to h
      invariant tree' == WithPath(tree, h, path, blocks, i)
    {
      tree' := tree'[GetIndex(h, i, path) := blocks[i * Z..(i + 1) * Z]];
    }
  }

  lemma {:induction false} PathOfWritten<V>(tree: Tree<V>, h: nat, path: Position, blocks: seq<Block<V>>, n: nat)
    requires n <= h && IsTree(tree, h) && |blocks| == h * Z
    ensures PathBlocks(WithPath(tree, h, path, blocks, h), h, path, n) == blocks[..n * Z]
  {
    hide WithPath, GetIndex, Pow2;
    if n > 0 {
      PathOfWritten(tree, h, path, blocks, n - 1);
      WithPathAt(tree, h, path, blocks, h, n - 1, path);
      assert blocks[..n * Z] == blocks[..(n - 1) * Z] + blocks[(n - 1) * Z..n * Z];
    }
  }

  /** Bit `k` of a path flipped: the exclusive or with 1 << k. */
  function FlipBit(p: Position, k: nat): Position
    requires k < 32
  {
    FlipInRange(p, k);
    if (p / Pow2(k)) % 2 == 0 then p + Pow2(k) else p - Pow2(k)
  }

  lemma {:induction false} FlipInRange(p: Position, k: nat)
    requires k < 32
    ensures if (p / Pow2(k)) % 2 == 0 then p + Pow2(k) < 0x1_0000_0000 else 0 <= p - Pow2(k)
  {
    Pow2Of32();
    Pow2Add(k, 32 - k);
    var m, top := Pow2(k), Pow2(31 - k);
    assert Pow2(32 - k) == 2 * top;
    hide Pow2;
    EvenRoom(p, m, top);
  }

  lemma FlipMod(p: nat, m: nat, f: nat)
    requires m > 0 && f == (if (p / m) % 2 == 0 then p + m else p - m)
    ensures f % m == p % m && f % (2 * m) == p % m + (if (p / m) % 2 == 0 then m else 0)
  {
    QuotientShift(p, m);
    ModDouble(f, m);
    if (p / m) % 2 == 1 { MulMonotone(m, 1, p / m); }
  }

  /** The flipped path meets the path exactly up to bit k, and every path that shares k bits takes one of the two. */
  lemma FlipSplits(h: nat, k: nat, p: Position, q: Position)
    requires k + 1 < h && k < 32
    ensures GetIndex(h, k, FlipBit(p, k)) == GetIndex(h, k, p)
    ensures GetIndex(h, k, q) == GetIndex(h, k, p) ==>
      GetIndex(h, k + 1, q) == GetIndex(h, k + 1, p) || GetIndex(h, k + 1, q) == GetIndex(h, k + 1, FlipBit(p, k))
    ensures GetIndex(h, k + 1, FlipBit(p, k)) != GetIndex(h, k + 1, p)
  {
    var m, f := Pow2(k), FlipBit(p, k);
    assert Pow2(k + 1) == 2 * m;
    FlipInRange(p, k);
    hide Pow2;
    FlipMod(p, m, f);
    ModDouble(p, m);
    ModDouble(q, m);
    var r, r' := p % m, q % m;
    assert p % (2 * m) in {r, r + m} && q % (2 * m) in {r', r' + m} && f % (2 * m) in {r, r + m};
    assert p % (2 * m) != f % (2 * m);
  }

  /** Two paths that part stay parted. */
  lemma SharedAtDepth(h: nat, d: nat, d': nat, p: Position, q: Position)
    requires d <= d' < h && d' <= 32 && GetIndex(h, d', p) == GetIndex(h, d', q)
    ensures GetIndex(h, d, p) == GetIndex(h, d, q)
  {
    SameNodeIffSharedBits(h, d', p, q);
    SameNodeIffSharedBits(h, d, p, q);
  }
}
