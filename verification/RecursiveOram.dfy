/** The recursive position map: each level stores, inside its own ORAM, the positions of the blocks of the next. */
module RecursiveOram {
  import opened Blocks
  import opened CircuitOram
  import opened Sequences
  import opened LinearOram
  import opened Randomness

  const LEVEL_0_BUCKETS: nat := 128
  const FAN_OUT: nat := 16
  const LINEAR_MAP_SIZE: nat := 2048

  type Node = seq<Position>
  type Level = map<Key, Entry<Node>>

  /** The number of keys of level `i`. */
  function Size(i: nat): (s: nat)
    ensures s >= LINEAR_MAP_SIZE
  {
    if i == 0 then LINEAR_MAP_SIZE else FAN_OUT * Size(i - 1)
  }

  /** What is left of key `k` when its digits above level `i` are used up. */
  function Rest(k: Key, i: nat): nat {
    if i == 0 then k / LINEAR_MAP_SIZE else Rest(k, i - 1) / FAN_OUT
  }

  /** The key of the block on level `i` that key `k` passes through: its digits, least significant first. */
  function Reordered(k: Key, i: nat): Key {
    if i == 0 then k % LINEAR_MAP_SIZE else Reordered(k, i - 1) * FAN_OUT + Rest(k, i - 1) % FAN_OUT
  }

  lemma {:induction false} ReorderedInRange(k: Key, i: nat)
    ensures Reordered(k, i) < Size(i)
  {
    if i > 0 { ReorderedInRange(k, i - 1); }
  }

  lemma {:induction false} RestVanishes(k: Key, i: nat)
    requires k < Size(i)
    ensures Rest(k, i) == 0
  {
    RestBound(k, i, 0);
  }

  lemma {:induction false} RestBound(k: Key, i: nat, j: nat)
    requires k < Size(i + j)
    ensures Rest(k, i) * LINEAR_MAP_SIZE < Size(j) 
    decreases i
  {
    if i > 0 {
      RestBound(k, i - 1, j + 1);
    }
  }

  lemma {:induction false} DigitsDetermineKey(k: Key, k': Key, i: nat)
    requires Reordered(k, i) == Reordered(k', i) && Rest(k, i) == Rest(k', i)
    ensures k == k'
  {
    if i > 0 {
      DigitsDetermineKey(k, k', i - 1);
    }
  }

  /** The digit-reordered key is injective on the keys of a map with `h` levels. */
  lemma {:induction false} ReorderedIsInjective(k: Key, k': Key, h: nat)
    requires k < Size(h) && k' < Size(h) && Reordered(k, h) == Reordered(k', h)
    ensures k == k'
  {
    RestVanishes(k, h);
    RestVanishes(k', h);
    DigitsDetermineKey(k, k', h);
  }

  /** An access uses the digits of its key that the levels have, so that it takes a key for the remainder below the
      number of keys of the last level. */
  lemma {:induction false} ReorderedOfRemainder(k: Key, h: nat)
    ensures Reordered(k, h) == Reordered(k % Size(h), h)
  {
    hide Size, Reordered, Rest;
    SizeIsFans(h);
    var k', q := k % Size(h), k / Size(h);
    assert k == q * Size(h) + k';
    SameDigits(k, k', q, h, h);
  }

  /** The power FAN_OUT^m. */
  function Fans(m: nat): (f: nat)
    ensures f > 0
  {
    if m == 0 then 1 else FAN_OUT * Fans(m - 1)
  }

  lemma {:induction false} SizeIsFans(i: nat)
    ensures Size(i) == LINEAR_MAP_SIZE * Fans(i)
  {
    if i > 0 { SizeIsFans(i - 1); }
  }

  lemma {:induction false} SameDigits(k: Key, k': Key, q: nat, h: nat, i: nat)
    requires i <= h && k == q * Size(h) + k' && Size(h) == LINEAR_MAP_SIZE * Fans(h)
    ensures Reordered(k, i) == Reordered(k', i) && Rest(k, i) == q * Fans(h - i) + Rest(k', i)
  {
    hide Size, Fans;
    if i == 0 {
      FirstDigits(k, k', q, Fans(h));
    } else {
      SameDigits(k, k', q, h, i - 1);
      FansStep(h - i);
      NextDigit(Rest(k, i - 1), Rest(k', i - 1), q, Fans(h - i));
    }
  }

  lemma FansStep(m: nat)
    ensures Fans(m + 1) == FAN_OUT * Fans(m)
  {
  }

  lemma FirstDigits(k: nat, k': nat, q: nat, f: nat)
    requires k == q * (LINEAR_MAP_SIZE * f) + k'
    ensures k % LINEAR_MAP_SIZE == k' % LINEAR_MAP_SIZE && k / LINEAR_MAP_SIZE == q * f + k' / LINEAR_MAP_SIZE
  {
    assert q * (LINEAR_MAP_SIZE * f) == LINEAR_MAP_SIZE * (q * f);
  }

  lemma NextDigit(r: nat, r': nat, q: nat, f: nat)
    requires r == q * (FAN_OUT * f) + r'
    ensures r % FAN_OUT == r' % FAN_OUT && r / FAN_OUT == q * f + r' / FAN_OUT
  {
    assert q * (FAN_OUT * f) == FAN_OUT * (q * f);
  }

  /** The position recorded, one level up, for the block of key `c` on level `i`; level |levels| is the map's output. */
  ghost function Parent(linear: seq<Node>, levels: seq<Level>, i: nat, c: Key): Position {
    var slot := c % FAN_OUT;
    if i == 0 then
      if c / FAN_OUT < |linear| && slot < |linear[c / FAN_OUT]| then linear[c / FAN_OUT][slot] else DUMMY_POS
    else
      if i <= |levels| && c / FAN_OUT in levels[i - 1] && slot < |levels[i - 1][c / FAN_OUT].value|
      then levels[i - 1][c / FAN_OUT].value[slot] else DUMMY_POS
  }

  ghost predicate LevelShaped(level: Level, size: nat) {
    && (forall c: Key :: c in level <==> c < size)
    && (forall c :: c in level ==> |level[c].value| == FAN_OUT)
  }

  /** A map for the keys below `n`. */
  ghost predicate Shaped(linear: seq<Node>, levels: seq<Level>, n: nat) {
    && n <= Size(|levels|)
    && (forall b :: 0 <= b < |linear| ==> |linear[b]| == FAN_OUT)
    && (if levels == [] then n <= FAN_OUT * |linear| else |linear| == LEVEL_0_BUCKETS)
    && (forall i :: 0 <= i < |levels| ==> LevelShaped(levels[i], Size(i)))
  }

  /** Every slot holds the current position of the block it stands for. */
  ghost predicate Linked(linear: seq<Node>, levels: seq<Level>) {
    forall i, c :: 0 <= i < |levels| && c in levels[i] ==> levels[i][c].pos == Parent(linear, levels, i, c)
  }

  /** The position the map holds for key `k`. */
  ghost function PositionOf(linear: seq<Node>, levels: seq<Level>, k: Key): Position {
    Parent(linear, levels, |levels|, Reordered(k, |levels|))
  }

  lemma {:induction false} PositionIs(linear: seq<Node>, levels: seq<Level>, k: Key)
    ensures PositionOf(linear, levels, k) == Parent(linear, levels, |levels|, Reordered(k, |levels|))
  {
  }

  function SetSlot(node: Node, slot: nat, p: Position): Node
    requires slot < |node|
  {
    node[slot := p]
  }

  /** The first level after an access that records `p` for the bucket block of key `k`. */
  ghost function LinearAfter(linear: seq<Node>, k: Key, p: Position): seq<Node> {
    var c := Reordered(k, 0);
    if c / FAN_OUT < |linear| && c % FAN_OUT < |linear[c / FAN_OUT]|
    then linear[c / FAN_OUT := SetSlot(linear[c / FAN_OUT], c % FAN_OUT, p)] else linear
  }

  /** Level `i` after an access that moves the block of `k` to `p` and records `q` for its child. */
  ghost function LevelAfter(level: Level, k: Key, i: nat, p: Position, q: Position): Level {
    var c, slot := Reordered(k, i), Rest(k, i) % FAN_OUT;
    if c in level && slot < |level[c].value| then level[c := Entry(p, SetSlot(level[c].value, slot, q))] else level
  }

  /** `levels'` is `levels` after an access to `k` that chose the positions `qs`, one for each level and the new one. */
  ghost predicate Accessed(linear: seq<Node>, levels: seq<Level>, k: Key, qs: seq<Position>,
                           linear': seq<Node>, levels': seq<Level>)
    requires |qs| == |levels| + 1
  {
    && linear' == LinearAfter(linear, k, qs[0])
    && |levels'| == |levels|
    && forall i :: 0 <= i < |levels| ==> levels'[i] == LevelAfter(levels[i], k, i, qs[i], qs[i + 1])
  }

  /** An access changes the recorded position of exactly one block per level: the one `k` passes through. */
  lemma {:induction false} ParentAfter(linear: seq<Node>, levels: seq<Level>, n: nat, k: Key, qs: seq<Position>,
                                       linear': seq<Node>, levels': seq<Level>, i: nat, c: Key)
    requires Shaped(linear, levels, n) && |qs| == |levels| + 1
    requires Accessed(linear, levels, k, qs, linear', levels')
    requires i <= |levels|
    ensures Parent(linear', levels', i, c) ==
            if c == Reordered(k, i) && (i > 0 || c / FAN_OUT < |linear|) then qs[i] else Parent(linear, levels, i, c)
  {
    ReorderedInRange(k, i);
    if i == 0 {
      var r := Reordered(k, 0);
      assert c == r <==> c / FAN_OUT == r / FAN_OUT && c % FAN_OUT == r % FAN_OUT;
    } else {
      var r, slot := Reordered(k, i - 1), Rest(k, i - 1) % FAN_OUT;
      ReorderedInRange(k, i - 1);
      assert levels'[i - 1] == LevelAfter(levels[i - 1], k, i - 1, qs[i - 1], qs[i]);
      assert LevelShaped(levels[i - 1], Size(i - 1));
      assert c == r * FAN_OUT + slot <==> c / FAN_OUT == r && c % FAN_OUT == slot;
    }
  }

  lemma {:induction false} LevelAfterShaped(level: Level, k: Key, i: nat, p: Position, q: Position)
    requires LevelShaped(level, Size(i))
    ensures LevelShaped(LevelAfter(level, k, i, p, q), Size(i))
    ensures forall c :: c in level ==>
      LevelAfter(level, k, i, p, q)[c].pos == if c == Reordered(k, i) then p else level[c].pos
  {
    ReorderedInRange(k, i);
  }

  /** Accesses keep the levels linked. */
  lemma AccessKeepsLinks(linear: seq<Node>, levels: seq<Level>, n: nat, k: Key, qs: seq<Position>,
                         linear': seq<Node>, levels': seq<Level>)
    requires Shaped(linear, levels, n) && Linked(linear, levels) && |qs| == |levels| + 1
    requires Accessed(linear, levels, k, qs, linear', levels')
    ensures Shaped(linear', levels', n) && Linked(linear', levels')
  {
    hide LevelAfter, LevelShaped, Parent;
    forall i | 0 <= i < |levels| ensures LevelShaped(levels'[i], Size(i)) {
      assert levels'[i] == LevelAfter(levels[i], k, i, qs[i], qs[i + 1]);
      LevelAfterShaped(levels[i], k, i, qs[i], qs[i + 1]);
    }
    forall i, c | 0 <= i < |levels'| && c in levels'[i] ensures levels'[i][c].pos == Parent(linear', levels', i, c) {
      assert levels'[i] == LevelAfter(levels[i], k, i, qs[i], qs[i + 1]);
      LevelAfterShaped(levels[i], k, i, qs[i], qs[i + 1]);
      ParentAfter(linear, levels, n, k, qs, linear', levels', i, c);
      if i == 0 { BlockOfSlot(c, LEVEL_0_BUCKETS); }
      SameKeys(levels[i], levels'[i], Size(i), c);
    }
  }

  lemma SameKeys(level: Level, level': Level, size: nat, c: Key)
    requires LevelShaped(level, size) && LevelShaped(level', size)
    ensures c in level <==> c in level'
  {
  }

  /** An access changes the map at one key alone. */
  lemma {:induction false} AccessUpdatesOneKey(linear: seq<Node>, levels: seq<Level>, n: nat, k: Key, qs: seq<Position>,
                            linear': seq<Node>, levels': seq<Level>, j: Key)
    requires Shaped(linear, levels, n) && j < n && |qs| == |levels| + 1
    requires Accessed(linear, levels, k, qs, linear', levels')
    ensures PositionOf(linear', levels', j) ==
            if j == k % Size(|levels|) then qs[|levels|] else PositionOf(linear, levels, j)
  {
    var h := |levels|;
    ParentAfter(linear, levels, n, k, qs, linear', levels', h, Reordered(j, h));
    FirstSlot(linear, levels, n, j);
    ReorderedOfRemainder(k, h);
    if Reordered(j, h) == Reordered(k, h) { ReorderedIsInjective(j, k % Size(h), h); }
  }

  /** All positions are in range. */
  ghost predicate InRange(linear: seq<Node>, levels: seq<Level>, n: nat) {
    forall j: nat :: j < n ==> PositionOf(linear, levels, j) < n
  }

  /** What an access does to the whole map. */
  lemma {:induction false} AccessEffect(linear: seq<Node>, levels: seq<Level>, n: nat, k: Key, qs: seq<Position>,
                     linear': seq<Node>, levels': seq<Level>)
    requires Shaped(linear, levels, n) && Linked(linear, levels) && |qs| == |levels| + 1
    requires Accessed(linear, levels, k, qs, linear', levels') && qs[|levels|] < n && InRange(linear, levels, n)
    ensures Shaped(linear', levels', n) && Linked(linear', levels') && InRange(linear', levels', n)
    ensures forall j: nat :: j < n ==>
      PositionOf(linear', levels', j) ==
      if j == k % Size(|levels|) then qs[|levels|] else PositionOf(linear, levels, j)
  {
    hide Shaped, Linked, Accessed, PositionOf, Size;
    AccessKeepsLinks(linear, levels, n, k, qs, linear', levels');
    forall j: nat | j < n
      ensures PositionOf(linear', levels', j) ==
              if j == k % Size(|levels|) then qs[|levels|] else PositionOf(linear, levels, j)
    {
      AccessUpdatesOneKey(linear, levels, n, k, qs, linear', levels', j);
    }
  }

  /** The closure that an access runs on an internal node. */
  function SwapSlot(node: Node, slot: nat, p: Position): (Node, Position) {
    ReadUpdate(node, slot, DUMMY_POS, p)
  }

  /** Different ORAMs, all in working order. */
  ghost predicate DistinctOrams(orams: seq<CircuitOram<Node>>)
    reads orams
  {
    && (forall i, j :: 0 <= i < j < |orams| ==> orams[i] != orams[j])
    && (forall i :: 0 <= i < |orams| ==> orams[i].Valid())
  }

  class RecursivePositionMap {
    /** The first level, scanned in full. */
    var linear: seq<Node>
    /** The remaining levels. */
    var orams: seq<CircuitOram<Node>>
    /** Number of keys. */
    var n: nat
    /** Number of ORAM levels. */
    var h: nat

    constructor (linear: seq<Node>, orams: seq<CircuitOram<Node>>, n: nat)
      ensures this.linear == linear && this.orams == orams && this.n == n && h == |orams|
    {
      this.linear := linear;
      this.orams := orams;
      this.n := n;
      h := |orams|;
    }

    ghost function Levels(): (levels: seq<Level>)
      reads this`orams, orams
      ensures |levels| == |orams|
      ensures forall i :: 0 <= i < |orams| ==> levels[i] == orams[i].contents
    {
      var os := orams;
      seq(|os|, i requires 0 <= i < |os| reads os => os[i].contents)
    }

    ghost predicate OramsValid()
      reads this`orams, orams
    {
      DistinctOrams(orams)
    }

    /** The levels before `i` have room in their stash. */
    ghost predicate ReadyBelow(i: nat)
      reads this`orams, orams
      requires i <= |orams| && OramsValid()
    {
      forall j :: 0 <= j < i ==> orams[j].Inv1()
    }

    /** Every level has room in its stash. */
    ghost predicate Ready()
      reads this`orams, orams
      requires OramsValid()
    {
      ReadyBelow(|orams|)
    }

    /** All levels are in step: each slot holds the current position of its child, and all positions are in range. */
    ghost predicate Consistent()
      reads this, orams
    {
      && h == |orams| && 0 < n <= 0xFFFF_FFFF && (h > 0 ==> Size(h - 1) <= 0x8000_0000)
      && OramsValid()
      && Shaped(linear, Levels(), n) && Linked(linear, Levels())
      && InRange(linear, Levels(), n)
    }

    ghost predicate Valid()
      reads this, orams
    {
      Consistent() && Ready()
    }

    lemma OramsOfConsistent()
      requires Consistent()
      ensures OramsValid()
    {
      hide Shaped, Linked, RecursivePositionMap.OramsValid;
    }

    lemma ValidIsReady()
      requires Consistent()
      ensures OramsValid() && Valid() == Ready()
    {
      hide Shaped, Linked, RecursivePositionMap.OramsValid;
    }

    lemma Bounds()
      requires Valid()
      ensures 0 < n <= 0xFFFF_FFFF
    {
    }

    /** The position the map holds for `k`. */
    ghost function Position(k: Key): Position
      reads this, orams
    {
      PositionOf(linear, Levels(), k)
    }

    /** The levels before `i` have been accessed for `k`, the others are still as they were. */
    ghost predicate Midway(i: nat, k: Key, levels: seq<Level>, qs: seq<Position>)
      reads this`orams, orams
      requires i <= |orams| == |levels| && i < |qs|
    {
      && OramsValid()
      && (forall j :: 0 <= j < i ==> orams[j].contents == LevelAfter(levels[j], k, j, qs[j], qs[j + 1]))
      && (forall j :: i <= j < |orams| ==> orams[j].contents == levels[j] && orams[j].Inv1())
    }

    lemma NoneAccessed()
      requires OramsValid()
      ensures ReadyBelow(0)
    {
    }

    /** Visits the block of `k` on level `i`, which lies at `pos`; moves it to `p` and records `q` for its child. */
    method AccessLevel(i: nat, ghost k: Key, ghost levels: seq<Level>, ghost qs: seq<Position>,
                       pos: Position, p: Position, c: Key, slot: nat, q: Position)
      returns (nextPos: Position, fits: bool)
      requires i < |orams| == |levels| && |qs| == i + 1 && qs[i] == p != DUMMY_POS
      requires OramsValid() && Midway(i, k, levels, qs)
      requires c == Reordered(k, i) && slot == Rest(k, i) % FAN_OUT
      requires c in levels[i] && levels[i][c].pos == pos && slot < |levels[i][c].value|
      modifies orams[i]
      ensures OramsValid() && Midway(i + 1, k, levels, qs + [q])
      ensures nextPos == levels[i][c].value[slot]
      ensures ReadyBelow(i + 1) == (old(ReadyBelow(i)) && fits)
    {
      hide AccessEvicts, Advance;
      hide CircuitOram.Valid, CircuitOram.Inv1, CircuitOram.Room, LevelAfter, Rest, Reordered;
      orams[i].RoomForAll(c);
      var found, next, ok, _ := orams[i].Update(pos, p, c, (node: Node) => SwapSlot(node, slot, q));
      nextPos, fits := next, ok;
      LevelAfterIs(levels[i], k, i, p, q);
    }

    /** The new position for the block on level `i`, or the one asked for below the last level. */
    method NextPosition(i: nat, maxPos: nat, newPos: Position) returns (q: Position)
      requires i <= h && newPos != DUMMY_POS && maxPos == Size(i) && (h > 0 ==> Size(h - 1) <= 0x8000_0000)
      ensures q != DUMMY_POS && (i == h ==> q == newPos)
    {
      hide Size;
      q := newPos;
      if h != i {
        SizeMonotone(i, h - 1);
        q := RandomPosition(maxPos);
      }
    }

    /** The part of an access below the first level: `first` is the recorded position of the block on level 0,
        which moves to `p`. */
    method AccessLevels(k: Key, newPos: Position, p: Position, first: Position, ghost linear0: seq<Node>,
                        ghost levels0: seq<Level>)
      returns (ret: Position, ok: bool, ghost qs: seq<Position>)
      requires h == |orams| == |levels0| && newPos != DUMMY_POS && p != DUMMY_POS && (h == 0 ==> p == newPos)
      requires h > 0 ==> Size(h - 1) <= 0x8000_0000
      requires Shaped(linear0, levels0, n) && Linked(linear0, levels0)
      requires OramsValid() && Midway(0, k, levels0, [p])
      requires first == Parent(linear0, levels0, 0, Reordered(k, 0))
      modifies orams
      ensures |qs| == h + 1 && qs[0] == p && qs[h] == newPos
      ensures OramsValid() && Midway(h, k, levels0, qs) && ok == Ready()
      ensures ret == Parent(linear0, levels0, h, Reordered(k, h))
    {
      hide CircuitOram.Valid, CircuitOram.Inv1, CircuitOram.Room, LevelAfter, Parent, Linked, Size, Rest, Reordered,
           Shaped;
      hide LevelShaped, RecursivePositionMap.Midway, RecursivePositionMap.OramsValid, RecursivePositionMap.ReadyBelow;
      DigitsStart(k);
      NoneAccessed();
      var rest, currK, currMaxPos := k / LINEAR_MAP_SIZE, k % LINEAR_MAP_SIZE, LINEAR_MAP_SIZE;
      var newCurrPos := p;
      qs := [newCurrPos];
      ret, ok := first, true;
      for i := 0 to h
        invariant rest == Rest(k, i) && currK == Reordered(k, i) && currMaxPos == Size(i)
        invariant |qs| == i + 1 && qs[0] == p && qs[i] == newCurrPos != DUMMY_POS && (i == h ==> newCurrPos == newPos)
        invariant ret == Parent(linear0, levels0, i, currK)
        invariant OramsValid() && Midway(i, k, levels0, qs)
        invariant ok == ReadyBelow(i)
      {
        DigitsStep(k, i);
        NodeOnTheWay(linear0, levels0, n, k, i);
        var slot := rest % FAN_OUT;
        rest := rest / FAN_OUT;
        currMaxPos := currMaxPos * FAN_OUT;
        var nextCurrPos := NextPosition(i + 1, currMaxPos, newPos);
        var nextPos, fits := AccessLevel(i, k, levels0, qs, ret, newCurrPos, currK, slot, nextCurrPos);
        qs := qs + [nextCurrPos];
        ok := ok && fits;
        newCurrPos := nextCurrPos;
        ret := nextPos;
        currK := currK * FAN_OUT + slot;
      }
    }

    /** Reads the position of `k` and replaces it by `newPos`. A key past the last one is taken for its remainder below
        the number of keys of the last level. */
    method AccessPosition(k: Key, newPos: Position) returns (ret: Position, ok: bool)
      requires Valid() && newPos < n
      modifies this`linear, orams
      ensures Consistent() && ok == Ready()
      ensures ret == old(Position(k))
      ensures forall j :: 0 <= j < n ==> Position(j) == if j == k % Size(h) then newPos else old(Position(j))
      ensures k < n ==> k % Size(h) == k
    {
      hide CircuitOram.Valid, CircuitOram.Inv1, LevelAfter, LinearAfter, Parent, Linked, Size, Rest, Reordered, Shaped;
      hide DistinctOrams, PositionOf, InRange;
      ghost var linear0, levels0 := linear, Levels();
      var newCurrPos := newPos;
      if h != 0 { newCurrPos := RandomPosition(LINEAR_MAP_SIZE); }
      ret := AccessFirstLevel(k, newCurrPos);
      assert Levels() == levels0;
      PositionIs(linear0, levels0, k);
      assert InRange(linear0, levels0, n);
      ghost var qs;
      ret, ok, qs := AccessLevels(k, newPos, newCurrPos, ret, linear0, levels0);
      assert Accessed(linear0, levels0, k, qs, linear, Levels());
      AccessEffect(linear0, levels0, n, k, qs, linear, Levels());
      if k < n { KeyIsOwnRemainder(linear0, levels0, n, k); }
    }

    /** The linear scan of the first level. */
    method AccessFirstLevel(k: Key, p: Position) returns (ret: Position)
      requires Shaped(linear, Levels(), n)
      modifies this`linear
      ensures linear == LinearAfter(old(linear), k, p)
      ensures ret == Parent(old(linear), Levels(), 0, Reordered(k, 0))
    {
      hide Shaped, Reordered;
      var c := k % LINEAR_MAP_SIZE;
      FirstSlots(linear, Levels(), n, k);
      assert c % FAN_OUT < FAN_OUT;
      var bucket := ObliviousReadIndex(linear, c / FAN_OUT, seq(FAN_OUT, _ => DUMMY_POS));
      var bucket';
      bucket', ret := ObliviousReadUpdateIndex(bucket, c % FAN_OUT, 0, p);
      linear := ObliviousWriteIndex(linear, c / FAN_OUT, bucket');
    }
  }

  lemma {:induction false} FirstSlots(linear: seq<Node>, levels: seq<Level>, n: nat, k: Key)
    requires Shaped(linear, levels, n)
    ensures var c := k % LINEAR_MAP_SIZE;
            c == Reordered(k, 0) && (c / FAN_OUT < |linear| ==> |linear[c / FAN_OUT]| == FAN_OUT)
  {
  }

  lemma {:induction false} KeyIsOwnRemainder(linear: seq<Node>, levels: seq<Level>, n: nat, k: Key)
    requires Shaped(linear, levels, n) && k < n
    ensures k % Size(|levels|) == k
  {
    SmallRemainder(k, Size(|levels|));
  }

  lemma SmallRemainder(k: nat, s: nat)
    requires k < s
    ensures k % s == k
  {
  }

  lemma {:induction false} FirstSlot(linear: seq<Node>, levels: seq<Level>, n: nat, k: Key)
    requires Shaped(linear, levels, n) && k < n
    ensures var c := k % LINEAR_MAP_SIZE;
            c == Reordered(k, 0) && c / FAN_OUT < |linear| && |linear[c / FAN_OUT]| == FAN_OUT
  {
    BlockOfSlot(k % LINEAR_MAP_SIZE, |linear|);
    if levels == [] { assert k < Size(0) && k % LINEAR_MAP_SIZE == k; }
  }

  lemma BlockOfSlot(c: nat, blocks: nat)
    requires c < FAN_OUT * blocks
    ensures c / FAN_OUT < blocks
  {
  }

  lemma {:induction false} LevelAfterIs(level: Level, k: Key, i: nat, p: Position, q: Position)
    requires Reordered(k, i) in level && Rest(k, i) % FAN_OUT < |level[Reordered(k, i)].value|
    ensures var c, slot := Reordered(k, i), Rest(k, i) % FAN_OUT;
            LevelAfter(level, k, i, p, q) == level[c := Entry(p, SwapSlot(level[c].value, slot, q).0)]
  {
  }

  lemma {:induction false} DigitsStart(k: Key)
    ensures Rest(k, 0) == k / LINEAR_MAP_SIZE && Reordered(k, 0) == k % LINEAR_MAP_SIZE && Size(0) == LINEAR_MAP_SIZE
  {
  }

  lemma DigitsStep(k: Key, i: nat)
    ensures Rest(k, i + 1) == Rest(k, i) / FAN_OUT
    ensures Reordered(k, i + 1) == Reordered(k, i) * FAN_OUT + Rest(k, i) % FAN_OUT
    ensures Size(i + 1) == Size(i) * FAN_OUT
  {
  }

  lemma {:induction false} SizeMonotone(i: nat, j: nat)
    requires i <= j
    ensures Size(i) <= Size(j)
    decreases j - i
  {
    if i < j { SizeMonotone(i, j - 1); }
  }

  /** The node an access visits on level `i` is there, at the position recorded for it. */
  lemma NodeOnTheWay(linear: seq<Node>, levels: seq<Level>, n: nat, k: Key, i: nat)
    requires Shaped(linear, levels, n) && Linked(linear, levels) && i < |levels|
    ensures var c, slot := Reordered(k, i), Rest(k, i) % FAN_OUT;
            && c in levels[i] && |levels[i][c].value| == FAN_OUT
            && levels[i][c].pos == Parent(linear, levels, i, c)
            && levels[i][c].value[slot] == Parent(linear, levels, i + 1, Reordered(k, i + 1))
  {
    hide Size, Parent;
    ReorderedInRange(k, i);
    assert LevelShaped(levels[i], Size(i));
    assert Reordered(k, i) in levels[i];
    DigitsStep(k, i);
    hide Reordered, Rest;
    ParentOfChild(linear, levels, i, Reordered(k, i), Rest(k, i) % FAN_OUT);
  }

  lemma ParentOfChild(linear: seq<Node>, levels: seq<Level>, i: nat, c: Key, slot: nat)
    requires i < |levels| && c in levels[i] && slot < |levels[i][c].value| && slot < FAN_OUT
    ensures Parent(linear, levels, i + 1, c * FAN_OUT + slot) == levels[i][c].value[slot]
  {
    assert (c * FAN_OUT + slot) / FAN_OUT == c && (c * FAN_OUT + slot) % FAN_OUT == slot;
  }

  /** The greatest e with 16^e <= m. */
  function Ilog16(m: nat): nat
    requires m > 0
  {
    if m < FAN_OUT then 0 else 1 + Ilog16(m / FAN_OUT)
  }

  /** How many ORAM levels a map for `n` keys needs. */
  function LevelsFor(n: nat): nat {
    if n <= LINEAR_MAP_SIZE then 0
    else
      var h := Ilog16(n / LINEAR_MAP_SIZE);
      if Size(h) < n then h + 1 else h
  }

  lemma {:induction false} Ilog16Bounds(m: nat, n: nat, i: nat)
    requires m > 0 && m * Size(i) <= n < (m + 1) * Size(i)
    ensures Size(Ilog16(m) + i) <= n < Size(Ilog16(m) + i + 1)
    decreases m
  {
    var s := Size(i);
    if m < FAN_OUT {
      Multiples(1, m, s);
      Multiples(m + 1, FAN_OUT, s);
    } else {
      BoundsStep(m, s);
      Ilog16Bounds(m / FAN_OUT, n, i + 1);
    }
  }

  lemma BoundsStep(m: nat, s: nat)
    ensures (m / FAN_OUT) * (FAN_OUT * s) <= m * s && (m + 1) * s <= (m / FAN_OUT + 1) * (FAN_OUT * s)
  {
    var q := m / FAN_OUT;
    assert q * (FAN_OUT * s) == (FAN_OUT * q) * s && (q + 1) * (FAN_OUT * s) == (FAN_OUT * (q + 1)) * s;
    Multiples(FAN_OUT * q, m, s);
    Multiples(m + 1, FAN_OUT * (q + 1), s);
  }

  lemma Multiples(a: nat, b: nat, s: nat)
    requires a <= b
    ensures a * s <= b * s
  {
  }

  /** The levels hold all keys, and no level too many is made. */
  lemma LevelsForFits(n: nat)
    ensures n <= Size(LevelsFor(n))
    ensures LevelsFor(n) > 0 ==> n > LINEAR_MAP_SIZE && Size(LevelsFor(n) - 1) < n
  {
    if n > LINEAR_MAP_SIZE {
      Ilog16Bounds(n / LINEAR_MAP_SIZE, n, 0);
      var h := Ilog16(n / LINEAR_MAP_SIZE);
      if h > 0 { SizeMonotone(h - 1, h); assert Size(h) == FAN_OUT * Size(h - 1); }
    }
  }

  /** A block of the level being built: a random position and the slice of child positions it stores. */
  ghost function BuiltLevel(positions: seq<Position>, children: seq<Position>): (level: Level)
    requires |children| == FAN_OUT * |positions|
  {
    map c: Key | 0 <= c < |positions| :: Entry(positions[c], children[FAN_OUT * c..FAN_OUT * (c + 1)])
  }

  /** `levels` are finished levels, the first of them level `i`, that expect their blocks at `positions`, and hold
      positions below `n` at the bottom. */
  ghost predicate Built(levels: seq<Level>, i: nat, positions: seq<Position>, n: nat) {
    && (forall c :: 0 <= c < |positions| ==> positions[c] != DUMMY_POS)
    && (levels == [] ==> forall c :: 0 <= c < |positions| ==> positions[c] < n)
    && (levels != [] ==> |positions| == Size(i))
    && (forall j :: 0 <= j < |levels| ==> LevelShaped(levels[j], Size(i + j)))
    && (levels != [] ==> forall c :: c in levels[0] ==> c < |positions| && levels[0][c].pos == positions[c])
    && (forall j, c :: 1 <= j < |levels| && c in levels[j] ==> levels[j][c].pos == Parent([], levels, j, c))
    && (levels != [] ==> forall c: Key :: c < Size(i + |levels|) ==> Parent([], levels, |levels|, c) < n)
  }

  lemma ParentShift(level: Level, levels: seq<Level>, j: nat, c: Key)
    requires 1 <= j <= |levels|
    ensures Parent([], [level] + levels, j + 1, c) == Parent([], levels, j, c)
  {
    assert ([level] + levels)[j] == levels[j - 1];
  }

  lemma ParentInBuilt(positions: seq<Position>, children: seq<Position>, levels: seq<Level>, c: Key)
    requires |children| == FAN_OUT * |positions| && c < |children|
    ensures Parent([], [BuiltLevel(positions, children)] + levels, 1, c) == children[c]
  {
    var level := BuiltLevel(positions, children);
    assert ([level] + levels)[0] == level;
    assert c / FAN_OUT in level;
    assert level[c / FAN_OUT].value == children[FAN_OUT * (c / FAN_OUT)..FAN_OUT * (c / FAN_OUT + 1)];
  }

  lemma BuiltLevelShaped(positions: seq<Position>, children: seq<Position>)
    requires |children| == FAN_OUT * |positions|
    ensures LevelShaped(BuiltLevel(positions, children), |positions|)
  {
  }

  /** Prepending a freshly built level keeps the levels linked. */
  lemma BuiltStep(levels: seq<Level>, i: nat, children: seq<Position>, n: nat, positions: seq<Position>)
    requires Built(levels, i + 1, children, n) && |children| == FAN_OUT * |positions| == Size(i + 1)
    requires |positions| == Size(i)
    requires forall c :: 0 <= c < |positions| ==> positions[c] != DUMMY_POS
    ensures Built([BuiltLevel(positions, children)] + levels, i, positions, n)
  {
    hide Size, Parent, LevelShaped, BuiltLevel;
    var level := BuiltLevel(positions, children);
    var levels' := [level] + levels;
    BuiltLevelShaped(positions, children);
    forall j | 0 <= j < |levels'| ensures LevelShaped(levels'[j], Size(i + j)) {
      if j > 0 {
        assert levels'[j] == levels[j - 1] && LevelShaped(levels[j - 1], Size((i + 1) + (j - 1)));
        assert (i + 1) + (j - 1) == i + j;
      }
    }
    BuiltLinks(levels, i, children, n, positions);
    BuiltBottom(levels, i, children, n, positions);
    forall c | c in level ensures c < |positions| && level[c].pos == positions[c] {
      BuiltLevelAt(positions, children, c);
    }
  }

  lemma BuiltLevelAt(positions: seq<Position>, children: seq<Position>, c: Key)
    requires |children| == FAN_OUT * |positions| && c in BuiltLevel(positions, children)
    ensures c < |positions| && BuiltLevel(positions, children)[c].pos == positions[c]
  {
  }

  lemma BuiltLinks(levels: seq<Level>, i: nat, children: seq<Position>, n: nat, positions: seq<Position>)
    requires Built(levels, i + 1, children, n) && |children| == FAN_OUT * |positions| == Size(i + 1)
    ensures var levels' := [BuiltLevel(positions, children)] + levels;
            forall j, c :: 1 <= j < |levels'| && c in levels'[j] ==> levels'[j][c].pos == Parent([], levels', j, c)
  {
    hide Size, Parent, LevelShaped, BuiltLevel;
    var level := BuiltLevel(positions, children);
    var levels': seq<Level> := [level] + levels;
    forall j, c | 1 <= j < |levels'| && c in levels'[j] ensures levels'[j][c].pos == Parent([], levels', j, c) {
      assert levels'[j] == levels[j - 1];
      if j == 1 {
        assert c in levels[0];
        ParentInBuilt(positions, children, levels, c);
      } else {
        ParentShift(level, levels, j - 1, c);
      }
    }
  }

  lemma BuiltBottom(levels: seq<Level>, i: nat, children: seq<Position>, n: nat, positions: seq<Position>)
    requires Built(levels, i + 1, children, n) && |children| == FAN_OUT * |positions| == Size(i + 1)
    ensures var levels' := [BuiltLevel(positions, children)] + levels;
            forall c: Key :: c < Size(i + |levels'|) ==> Parent([], levels', |levels'|, c) < n
  {
    hide Size, Parent, LevelShaped, BuiltLevel;
    var level := BuiltLevel(positions, children);
    var levels' := [level] + levels;
    assert i + |levels'| == (i + 1) + |levels|;
    forall c: Key | c < Size(i + |levels'|) ensures Parent([], levels', |levels'|, c) < n {
      if levels == [] {
        ParentInBuilt(positions, children, levels, c);
      } else {
        ParentShift(level, levels, |levels|, c);
      }
    }
  }

  lemma {:induction false} EntriesAreBuilt(keys: seq<Key>, values: seq<Node>, positions: seq<Position>,
                                           children: seq<Position>)
    requires |keys| == |values| == |positions| && |children| == FAN_OUT * |positions|
    requires forall c :: 0 <= c < |keys| ==> keys[c] == c
    requires forall c :: 0 <= c < |keys| ==> values[c] == children[FAN_OUT * c..FAN_OUT * (c + 1)]
    ensures Distinct(keys)
    ensures EntriesOf(keys, values, positions, |keys|) == BuiltLevel(positions, children)
  {
    hide EntriesOf, BuiltLevel;
    var m, level := EntriesOf(keys, values, positions, |keys|), BuiltLevel(positions, children);
    assert keys[..|keys|] == keys;
    forall c: Key ensures c in m <==> c in level {
      BuiltLevelKeys(positions, children, c);
      if c < |keys| { assert keys[c] == c; }
    }
    forall c: Key | c in m ensures m[c] == level[c] {
      BuiltLevelKeys(positions, children, c);
      EntriesOfAt(keys, values, positions, |keys|, c);
    }
    assert m.Keys == level.Keys;
  }

  lemma BuiltLevelKeys(positions: seq<Position>, children: seq<Position>, c: Key)
    requires |children| == FAN_OUT * |positions|
    ensures c in BuiltLevel(positions, children) <==> c < |positions|
    ensures c < |positions| ==>
      BuiltLevel(positions, children)[c] == Entry(positions[c], children[FAN_OUT * c..FAN_OUT * (c + 1)])
  {
  }

  /** The buckets of the first level: positions in order, the last bucket padded. */
  method FillFirstLevel(positions: seq<Position>, buckets: nat) returns (linear: seq<Node>)
    requires |positions| <= FAN_OUT * buckets
    ensures |linear| == buckets && forall b :: 0 <= b < buckets ==> |linear[b]| == FAN_OUT
    ensures forall c: Key :: c < |positions| ==> Parent(linear, [], 0, c) == positions[c]
  {
    linear := [];
    for b := 0 to buckets
      invariant |linear| == b && forall a :: 0 <= a < b ==> |linear[a]| == FAN_OUT
      invariant forall a, j :: 0 <= a < b && 0 <= j < FAN_OUT && a * FAN_OUT + j < |positions| ==>
        linear[a][j] == positions[a * FAN_OUT + j]
    {
      var inner: Node := seq(FAN_OUT, _ => DUMMY_POS);
      for j := 0 to FAN_OUT
        invariant |inner| == FAN_OUT
        invariant forall i :: 0 <= i < j && b * FAN_OUT + i < |positions| ==> inner[i] == positions[b * FAN_OUT + i]
      {
        if b * FAN_OUT + j >= |positions| { break; }
        inner := SetSlot(inner, j, positions[b * FAN_OUT + j]);
      }
      linear := linear + [inner];
    }
    forall c: Key | c < |positions| ensures Parent(linear, [], 0, c) == positions[c] {
      assert c / FAN_OUT < buckets;
      assert linear[c / FAN_OUT][c % FAN_OUT] == positions[c / FAN_OUT * FAN_OUT + c % FAN_OUT];
    }
  }

  lemma ParentFirstLevel(linear: seq<Node>, levels: seq<Level>, levels': seq<Level>, c: Key)
    ensures Parent(linear, levels, 0, c) == Parent(linear, levels', 0, c)
  {
  }

  lemma ParentDeeper(linear: seq<Node>, linear': seq<Node>, levels: seq<Level>, i: nat, c: Key)
    requires i > 0
    ensures Parent(linear, levels, i, c) == Parent(linear', levels, i, c)
  {
  }

  /** A finished stack of levels with its first level in front is linked and holds positions in range. */
  lemma {:induction false} BuiltIsLinked(linear: seq<Node>, levels: seq<Level>, positions: seq<Position>, n: nat)
    requires Built(levels, 0, positions, n)
    requires forall c: Key :: c < |positions| ==> Parent(linear, [], 0, c) == positions[c]
    requires n <= Size(|levels|) && (levels == [] ==> |positions| == n)
    ensures Linked(linear, levels)
    ensures forall k: Key :: k < n ==> PositionOf(linear, levels, k) < n
  {
    hide Parent, Size, LevelShaped;
    forall i, c | 0 <= i < |levels| && c in levels[i] ensures levels[i][c].pos == Parent(linear, levels, i, c) {
      if i == 0 {
        ParentFirstLevel(linear, levels, [], c);
      } else {
        ParentDeeper(linear, [], levels, i, c);
      }
    }
    forall k: Key | k < n ensures PositionOf(linear, levels, k) < n {
      var c := Reordered(k, |levels|);
      ReorderedInRange(k, |levels|);
      if levels == [] {
        DigitsStart(k);
        SmallKeys(k, n);
        ParentFirstLevel(linear, levels, [], c);
      } else {
        ParentDeeper(linear, [], levels, |levels|, c);
      }
    }
  }

  lemma SmallKeys(k: Key, n: nat)
    requires k < n <= Size(0)
    ensures k % LINEAR_MAP_SIZE == k
  {
  }

  /** One freshly filled ORAM level over the given child positions. */
  method NewLevel(i: nat, children: seq<Position>) returns (oram: CircuitOram<Node>, ok: bool, positions: seq<Position>)
    requires |children| == FAN_OUT * Size(i) && Size(i) <= 0x8000_0000
    ensures fresh(oram) && |positions| == Size(i) && (forall c :: 0 <= c < |positions| ==> positions[c] != DUMMY_POS)
    ensures oram.Valid() && ok == oram.Inv1()
    ensures ok ==> oram.contents == BuiltLevel(positions, children)
  {
    hide BuiltLevel, CircuitOram.Valid, CircuitOram.Inv1, Size, EntriesOf, FoundAgain;
    var curr := Size(i);
    positions := RandomPositions(curr, curr);
    var keys := seq(curr, c => c);
    var values: seq<Node> := seq(curr, c requires 0 <= c < curr => children[FAN_OUT * c..FAN_OUT * (c + 1)]);
    EntriesAreBuilt(keys, values, positions, children);
    DistinctFoundAgain(keys, values, positions);
    var stopped;
    oram, ok, stopped := NewWithPositionsAndValues(curr, keys, values, positions, seq(FAN_OUT, _ => DUMMY_POS));
  }

  /** `orams` are valid, distinct and hold `levels`. */
  ghost predicate Holds(orams: seq<CircuitOram<Node>>, levels: seq<Level>)
    reads orams
  {
    && |orams| == |levels|
    && (forall i, j :: 0 <= i < j < |orams| ==> orams[i] != orams[j])
    && (forall i :: 0 <= i < |orams| ==> orams[i].Valid() && orams[i].Inv1() && orams[i].contents == levels[i])
  }

  lemma HoldsIsDistinct(oram: CircuitOram<Node>, orams: seq<CircuitOram<Node>>, levels: seq<Level>)
    requires Holds(orams, levels) && oram.Valid() && forall j :: 0 <= j < |orams| ==> orams[j] != oram
    ensures DistinctOrams(orams) && DistinctOrams([oram] + orams)
  {
    hide CircuitOram.Valid, CircuitOram.Inv1;
  }

  lemma HoldsMore(oram: CircuitOram<Node>, orams: seq<CircuitOram<Node>>, levels: seq<Level>)
    requires Holds(orams, levels) && oram.Valid() && oram.Inv1()
    requires forall j :: 0 <= j < |orams| ==> orams[j] != oram
    ensures Holds([oram] + orams, [oram.contents] + levels)
  {
    hide CircuitOram.Valid, CircuitOram.Inv1;
  }

  lemma HoldsIsValid(pm: RecursivePositionMap, levels: seq<Level>)
    requires Holds(pm.orams, levels) && pm.h == |pm.orams| && 0 < pm.n <= 0xFFFF_FFFF
    requires pm.h > 0 ==> Size(pm.h - 1) <= 0x8000_0000
    requires Shaped(pm.linear, levels, pm.n) && Linked(pm.linear, levels)
    requires forall k: Key :: k < pm.n ==> PositionOf(pm.linear, levels, k) < pm.n
    ensures pm.Valid()
  {
    hide CircuitOram.Valid, CircuitOram.Inv1, Size, Shaped, Linked, PositionOf;
    assert InRange(pm.linear, levels, pm.n);
    assert pm.Levels() == levels;
  }

  /** The ORAM levels, deepest first: each holds the positions drawn for the one below it. */
  method BuildLevels(h: nat, leaves: seq<Position>, n: nat)
    returns (orams: seq<CircuitOram<Node>>, positions: seq<Position>, ok: bool, ghost levels: seq<Level>)
    requires 0 < n <= 0xFFFF_FFFF && |leaves| == (if h == 0 then n else Size(h))
    requires (h > 0 ==> Size(h - 1) <= 0x8000_0000)
    requires forall c :: 0 <= c < |leaves| ==> leaves[c] < n
    ensures forall j :: 0 <= j < |orams| ==> fresh(orams[j])
    ensures ok ==> |orams| == h && |positions| == (if h == 0 then n else Size(0))
    ensures ok ==> Holds(orams, levels) && Built(levels, 0, positions, n)
    ensures !ok ==> DistinctOrams(orams) && orams != [] && !orams[0].Inv1()
  {
    hide CircuitOram.Valid, CircuitOram.Inv1, BuiltLevel, Parent, Size, LevelShaped, Built, Holds;
    positions := leaves;
    orams, levels, ok := [], [], true;
    NothingBuilt(h, positions, n);
    NothingHeld();
    for i := h downto 0
      invariant |orams| == h - i && |positions| == if h == 0 then n else Size(i)
      invariant forall j :: 0 <= j < |orams| ==> fresh(orams[j])
      invariant Holds(orams, levels) && Built(levels, i, positions, n)
    {
      DigitsStep(0, i);
      SizeMonotone(i, h - 1);
      var oram, fits, parents := NewLevel(i, positions);
      if !fits {
        HoldsIsDistinct(oram, orams, levels);
        ok, orams := false, [oram] + orams;
        return;
      }
      BuiltStep(levels, i, positions, n, parents);
      HoldsMore(oram, orams, levels);
      levels := [BuiltLevel(parents, positions)] + levels;
      orams := [oram] + orams;
      positions := parents;
    }
  }

  lemma NothingHeld()
    ensures Holds([], [])
  {
  }

  /** No level has a size between 2^31 and 2^32. */
  lemma {:induction false} SizeOfWord(i: nat)
    requires Size(i) < 0xFFFF_FFFF
    ensures Size(i) <= 0x8000_0000
  {
    hide Size;
    SmallSizes();
    if i <= 5 { SizeMonotone(i, 5); } else { SizeMonotone(6, i); }
  }

  lemma SmallSizes()
    ensures Size(5) == 0x8000_0000 && Size(6) == 0x8_0000_0000
  {
    assert Size(2) == 0x8_0000;
    assert Size(4) == 0x800_0000;
  }

  /** A position map for the keys below `n`, filled with arbitrary positions; `ok` is false when a stash overflowed. */
  method NewPositionMap(n: nat) returns (pm: RecursivePositionMap, ok: bool)
    requires 0 < n <= 0xFFFF_FFFF
    ensures fresh(pm) && forall i :: 0 <= i < |pm.orams| ==> fresh(pm.orams[i])
    ensures pm.OramsValid() && ok == pm.Ready()
    ensures ok ==> pm.Valid() && pm.n == n && pm.h == LevelsFor(n)
  {
    hide CircuitOram.Valid, CircuitOram.Inv1, Size, Built, Holds, Shaped, Linked, PositionOf;
    var h := LevelsFor(n);
    LevelsForFits(n);
    if h > 0 { SizeOfWord(h - 1); }
    DigitsStart(0);
    var leaves := RandomPositions(if h == 0 then n else Size(h), n);
    var orams, positions, built, levels := BuildLevels(h, leaves, n);
    ok := built;
    if !ok {
      pm := new RecursivePositionMap([], orams, n);
      return;
    }
    var buckets := if h == 0 then (n + FAN_OUT - 1) / FAN_OUT else LEVEL_0_BUCKETS;
    var linear := FillFirstLevel(positions, buckets);
    HoldsLength(orams, levels);
    BuiltIsLinked(linear, levels, positions, n);
    BuiltIsShaped(linear, levels, positions, n);
    pm := new RecursivePositionMap(linear, orams, n);
    HoldsIsValid(pm, levels);
  }

  lemma HoldsLength(orams: seq<CircuitOram<Node>>, levels: seq<Level>)
    requires Holds(orams, levels)
    ensures |orams| == |levels|
  {
  }

  lemma NothingBuilt(h: nat, positions: seq<Position>, n: nat)
    requires n <= 0xFFFF_FFFF && forall c :: 0 <= c < |positions| ==> positions[c] < n
    ensures Built([], h, positions, n)
  {
  }

  lemma {:induction false} BuiltIsShaped(linear: seq<Node>, levels: seq<Level>, positions: seq<Position>, n: nat)
    requires Built(levels, 0, positions, n) && n <= Size(|levels|)
    requires forall b :: 0 <= b < |linear| ==> |linear[b]| == FAN_OUT
    requires if levels == [] then n <= FAN_OUT * |linear| else |linear| == LEVEL_0_BUCKETS
    ensures Shaped(linear, levels, n)
  {
    hide Size, LevelShaped, Parent;
    forall i | 0 <= i < |levels| ensures LevelShaped(levels[i], Size(i)) {
      assert LevelShaped(levels[i], Size(0 + i));
    }
  }
}
