/** Blocks of an ORAM and the multiset of real (non-empty) blocks held by a run of slots. */
module Blocks {

  /** Positions are 32-bit words. */
  type Position = x: nat | x < 0x1_0000_0000

  /** The position of an empty block. */
  const DUMMY_POS: Position := 0xFFFF_FFFF

  /** ORAM indexes. */
  type Key = nat

  /** Blocks per bucket. */
  const Z: nat := 2

  datatype Block<V> = Block(pos: Position, key: Key, value: V) {
    /** Emptiness is decided by the position alone, never by the key. */
    predicate IsEmpty() {
      pos == DUMMY_POS
    }

    function Emptied(): Block<V> {
      this.(pos := DUMMY_POS)
    }
  }

  ghost function Real<V>(b: Block<V>): multiset<Block<V>> {
    if b.IsEmpty() then multiset{} else multiset{b}
  }

  ghost function RealBlocks<V>(s: seq<Block<V>>): multiset<Block<V>> {
    if s == [] then multiset{} else Real(s[0]) + RealBlocks(s[1..])
  }

  lemma {:induction false} RealBlocksConcat<V>(a: seq<Block<V>>, b: seq<Block<V>>)
    ensures RealBlocks(a + b) == RealBlocks(a) + RealBlocks(b)
  {
    if a == [] {
      assert a + b == b;
    } else {
      assert (a + b)[1..] == a[1..] + b;
      RealBlocksConcat(a[1..], b);
    }
  }

  lemma SumFrame<T>(frame: multiset<T>, a: multiset<T>, b: multiset<T>, c: multiset<T>, d: multiset<T>)
    requires a + b == c + d
    ensures (frame + a) + b == (frame + c) + d
  {
    assert (frame + a) + b == frame + (a + b);
    assert (frame + c) + d == frame + (c + d);
  }

  lemma SumSwap<T>(a: multiset<T>, b: multiset<T>, c: multiset<T>)
    ensures (a + b) + c == (c + b) + a
  {
  }

  lemma {:induction false} RealBlocksCons<V>(s: seq<Block<V>>)
    requires s != []
    ensures RealBlocks(s) == Real(s[0]) + RealBlocks(s[1..])
  {
  }

  /** Replacing one slot exchanges exactly that slot's block. */
  lemma {:induction false} RealBlocksUpdate<V>(s: seq<Block<V>>, i: nat, b: Block<V>)
    requires i < |s|
    ensures RealBlocks(s[i := b]) + Real(s[i]) == RealBlocks(s) + Real(b)
  {
    hide RealBlocks, Real;
    RealBlocksCons(s);
    RealBlocksCons(s[i := b]);
    if i == 0 {
      assert s[i := b][1..] == s[1..];
      SumSwap(Real(b), RealBlocks(s[1..]), Real(s[0]));
    } else {
      assert s[i := b][1..] == s[1..][i - 1 := b];
      RealBlocksUpdate(s[1..], i - 1, b);
      SumFrame(Real(s[0]), RealBlocks(s[1..][i - 1 := b]), Real(s[i]), RealBlocks(s[1..]), Real(b));
    }
  }

  lemma {:induction false} RealBlocksMember<V>(s: seq<Block<V>>, b: Block<V>)
    ensures b in RealBlocks(s) <==> b in s && !b.IsEmpty()
  {
    if s != [] {
      RealBlocksMember(s[1..], b);
      assert s == [s[0]] + s[1..];
    }
  }
}
