/** Several oblivious arrays of the same length in one data ORAM, each with a position map of its own. */
module MultiWayArray {
  import opened Bits
  import opened Blocks
  import opened CircuitOram
  import opened Options
  import opened RecursiveOram
  import opened Randomness

  /** The key under which element `index` of subarray `subarray` is stored, for 2^w subarrays. */
  function RealIndex(subarray: nat, index: nat, w: nat): nat {
    BitOr(index * Pow2(w), subarray)
  }

  /** Different elements of the subarrays have different keys, all below 2^w times the length. */
  lemma {:induction false} RealIndexIsInjective(subarray: nat, index: nat, subarray': nat, index': nat, w: nat, n: nat)
    requires subarray < Pow2(w) && subarray' < Pow2(w) && index < n && index' < n
    ensures RealIndex(subarray, index, w) < n * Pow2(w)
    ensures RealIndex(subarray, index, w) == RealIndex(subarray', index', w) <==>
      subarray == subarray' && index == index'
  {
    hide Pow2, BitOr;
    BitOrOfMultiple(index, subarray, w);
    BitOrOfMultiple(index', subarray', w);
    KeyDigits(index, subarray, Pow2(w), n);
    KeyDigits(index', subarray', Pow2(w), n);
  }

  lemma KeyDigits(index: nat, subarray: nat, m: nat, n: nat)
    requires subarray < m && index < n
    ensures index * m + subarray < n * m
    ensures (index * m + subarray) / m == index && (index * m + subarray) % m == subarray
  {
    MulMonotone(m, index + 1, n);
    DivModUnique(index * m + subarray, m, index, subarray);
  }

  // ---------------------------------------------------------------- the position maps

  /** The ORAMs of all position maps. */
  ghost function OramsOf(maps: seq<RecursivePositionMap>): set<CircuitOram<Node>>
    reads maps`orams
  {
    set m, o | m in maps && o in m.orams :: o
  }

  /** Two maps share no part. */
  ghost predicate Apart(a: RecursivePositionMap, b: RecursivePositionMap)
    reads a`orams, b`orams
  {
    a != b && forall i, j :: 0 <= i < |a.orams| && 0 <= j < |b.orams| ==> a.orams[i] != b.orams[j]
  }

  /** Position maps in working order, for indices below `n`, none of them sharing a part. */
  ghost predicate AllConsistent(maps: seq<RecursivePositionMap>, n: nat)
    reads maps, OramsOf(maps)
  {
    && (forall s, t :: 0 <= s < |maps| && 0 <= t < |maps| && s != t ==> Apart(maps[s], maps[t]))
    && (forall s :: 0 <= s < |maps| ==>
        maps[s] in maps && (forall o :: o in maps[s].orams ==> o in OramsOf(maps)) && maps[s].Consistent()
        && maps[s].n == n)
  }

  /** No stash has overflowed. */
  ghost predicate AllReady(maps: seq<RecursivePositionMap>, n: nat)
    requires AllConsistent(maps, n)
    reads maps, OramsOf(maps)
  {
    forall s :: 0 <= s < |maps| ==> maps[s].Valid()
  }

  /** The positions that a map holds. */
  ghost function PositionsIn(m: RecursivePositionMap, n: nat): (r: seq<Position>)
    reads m, m.orams
    ensures |r| == n && forall i :: 0 <= i < n ==> r[i] == m.Position(i)
  {
    seq(n, i requires 0 <= i < n reads m, m.orams => m.Position(i))
  }

  /** The positions that the maps hold. */
  ghost function PositionsOf(maps: seq<RecursivePositionMap>, n: nat): (r: seq<seq<Position>>)
    requires AllConsistent(maps, n)
    reads maps, OramsOf(maps)
    ensures |r| == |maps| && forall s :: 0 <= s < |maps| ==> r[s] == PositionsIn(maps[s], n)
  {
    seq(|maps|, s requires 0 <= s < |maps| && AllConsistent(maps, n) reads maps, OramsOf(maps) =>
      PositionsIn(maps[s], n))
  }

  ghost function Relocated(ps: seq<seq<Position>>, s: nat, i: nat, p: Position): (r: seq<seq<Position>>)
    requires s < |ps| && i < |ps[s]|
    ensures |r| == |ps|
  {
    ps[s := SetSlot(ps[s], i, p)]
  }

  /** An access to one map changes one position, and no other map. */
  method AccessOne(maps: seq<RecursivePositionMap>, ghost n: nat, s: nat, index: nat, newPos: Position)
    returns (ret: Position, ok: bool)
    requires AllConsistent(maps, n) && AllReady(maps, n) && s < |maps| && index < n && newPos < n
    modifies maps`linear, OramsOf(maps)
    ensures AllConsistent(maps, n) && ok == AllReady(maps, n)
    ensures ret == old(PositionsOf(maps, n))[s][index]
    ensures PositionsOf(maps, n) == Relocated(old(PositionsOf(maps, n)), s, index, newPos)
  {
    hide RecursivePositionMap.Consistent, RecursivePositionMap.Ready, RecursivePositionMap.Position, Size;
    hide RecursivePositionMap.OramsValid;
    hide PositionsIn, RecursivePositionMap.Valid;
    assert maps[s] in maps;
    ret, ok := maps[s].AccessPosition(index, newPos);
    maps[s].ValidIsReady();
    assert PositionsIn(maps[s], n) == SetSlot(old(PositionsIn(maps[s], n)), index, newPos);
    forall t | 0 <= t < |maps| && t != s
      ensures maps[t].Consistent() && maps[t].Valid() && PositionsIn(maps[t], n) == old(PositionsIn(maps[t], n))
    {
      assert Apart(maps[s], maps[t]);
    }
  }

  lemma LengthBounds(maps: seq<RecursivePositionMap>, n: nat)
    requires AllConsistent(maps, n) && AllReady(maps, n) && maps != []
    ensures 0 < n < 0x1_0000_0000
  {
    hide RecursivePositionMap.Valid, RecursivePositionMap.Consistent;
    maps[0].Bounds();
  }

  // ---------------------------------------------------------------- the elements

  /** Every element sits at the position that the map of its subarray holds for its index. */
  ghost predicate Matched<T>(contents: map<Key, Entry<T>>, ps: seq<seq<Position>>, w: nat, n: nat) {
    forall s: nat, i: nat :: s < |ps| && i < n ==> MatchedAt(contents, ps, w, s, i)
  }

  ghost predicate MatchedAt<T>(contents: map<Key, Entry<T>>, ps: seq<seq<Position>>, w: nat, s: nat, i: nat)
    requires s < |ps|
  {
    RealIndex(s, i, w) in contents ==> i < |ps[s]| && contents[RealIndex(s, i, w)].pos == ps[s][i]
  }

  ghost function ElemOf<T>(contents: map<Key, Entry<T>>, w: nat, s: nat, i: nat): Option<T> {
    var k := RealIndex(s, i, w);
    if k in contents then Some(contents[k].value) else None
  }

  /** Storing an element at a new position, or finding nothing to move there. */
  lemma {:induction false} StoreStep<T>(contents: map<Key, Entry<T>>, ps: seq<seq<Position>>, w: nat, n: nat, s: nat,
                                        i: nat, p: Position, contents': map<Key, Entry<T>>)
    requires Matched(contents, ps, w, n) && s < |ps| == Pow2(w) && i < n && (forall r :: r in ps ==> |r| == n)
    requires var k := RealIndex(s, i, w);
             || (k !in contents && contents' == contents)
             || (k in contents' && contents' == contents[k := contents'[k]] && contents'[k].pos == p)
    ensures Matched(contents', Relocated(ps, s, i, p), w, n)
    ensures forall t: nat, j: nat :: t < |ps| && j < n && (t != s || j != i) ==>
      ElemOf(contents', w, t, j) == ElemOf(contents, w, t, j)
  {
    hide RealIndex, Pow2;
    var ps' := Relocated(ps, s, i, p);
    forall t: nat, j: nat | t < |ps| && j < n
      ensures MatchedAt(contents', ps', w, t, j)
      ensures t != s || j != i ==> ElemOf(contents', w, t, j) == ElemOf(contents, w, t, j)
    {
      RealIndexIsInjective(s, i, t, j, w, n);
      assert MatchedAt(contents, ps, w, t, j);
    }
  }

  class MultiWayArray<T> {
    var data: CircuitOram<T>
    var posMaps: seq<RecursivePositionMap>
    /** There are 2^w subarrays. */
    const w: nat
    /** The length of each. */
    const n: nat

    ghost predicate PartsConsistent()
      reads this, data, posMaps, OramsOf(posMaps)
    {
      && |posMaps| == Pow2(w) && AllConsistent(posMaps, n)
      && DataApart() && data.Valid()
    }

    /** The data ORAM is no part of a position map. */
    ghost predicate DataApart()
      reads this, posMaps`orams
    {
      (data as object) !in (set o: object | o in OramsOf(posMaps))
    }

    ghost predicate Ready()
      reads this, data, posMaps, OramsOf(posMaps)
      requires PartsConsistent()
    {
      data.Inv1() && AllReady(posMaps, n)
    }

    ghost predicate Valid()
      reads this, data, posMaps, OramsOf(posMaps)
    {
      PartsConsistent() && Ready() && Matched(data.contents, PositionsOf(posMaps, n), w, n)
    }

    /** The element last written at index `i` of subarray `s`, if any. */
    ghost function Elem(s: nat, i: nat): Option<T>
      reads this, data
    {
      ElemOf(data.contents, w, s, i)
    }

    constructor (data: CircuitOram<T>, posMaps: seq<RecursivePositionMap>, w: nat, n: nat)
      ensures this.data == data && this.posMaps == posMaps && this.w == w && this.n == n
    {
      this.data, this.posMaps, this.w, this.n := data, posMaps, w, n;
    }

    /** Looks up the position of an element and replaces it by an arbitrary new one. */
    method Relocate(subarray: nat, index: nat) returns (oldPos: Position, newPos: Position, ok: bool)
      requires Valid() && subarray < Pow2(w) && index < n
      modifies posMaps`linear, OramsOf(posMaps)
      ensures PartsConsistent() && data.Inv1() && ok == AllReady(posMaps, n) && newPos != DUMMY_POS
      ensures oldPos == old(PositionsOf(posMaps, n))[subarray][index]
      ensures PositionsOf(posMaps, n) == Relocated(old(PositionsOf(posMaps, n)), subarray, index, newPos)
    {
      hide AllConsistent, AllReady, Matched, CircuitOram.Valid, CircuitOram.Inv1, Pow2, PositionsOf, Relocated;
      LengthBounds(posMaps, n);
      newPos := RandomPosition(n);
      oldPos, ok := AccessOne(posMaps, n, subarray, index, newPos);
    }

    // The steps on the data ORAM, which leave the position maps alone.

    method ReadData(oldPos: Position, newPos: Position, key: Key, out: T) returns (out': T, ok: bool)
      requires PartsConsistent() && Ready() && newPos != DUMMY_POS
      requires key in data.contents ==> data.contents[key].pos == oldPos
      modifies data
      ensures PartsConsistent() && ok == Ready() && PositionsOf(posMaps, n) == old(PositionsOf(posMaps, n))
      ensures data.dflt == old(data.dflt)
      ensures out' == if key in old(data.contents) then old(data.contents)[key].value else out
      ensures data.contents ==
              if key in old(data.contents) then old(data.contents)[key := Entry(newPos, out')] else old(data.contents)
    {
      hide AccessEvicts, Advance;
      hide AllConsistent, AllReady, CircuitOram.Valid, CircuitOram.Inv1, CircuitOram.Room, Pow2, PositionsOf;
      data.RoomForAll(key);
      var found;
      ghost var trail;
      found, out', ok, trail := data.Read(oldPos, newPos, key, out);
    }

    method WriteData(oldPos: Position, newPos: Position, key: Key, value: T) returns (ok: bool)
      requires PartsConsistent() && Ready() && newPos != DUMMY_POS
      requires key in data.contents ==> data.contents[key].pos == oldPos
      modifies data
      ensures PartsConsistent() && ok == Ready() && PositionsOf(posMaps, n) == old(PositionsOf(posMaps, n))
      ensures data.contents == old(data.contents)[key := Entry(newPos, value)]
    {
      hide AccessEvicts, Advance;
      hide AllConsistent, AllReady, CircuitOram.Valid, CircuitOram.Inv1, CircuitOram.Room, Pow2, PositionsOf;
      data.RoomForAll(key);
      var found;
      ghost var trail;
      found, ok, trail := data.WriteOrInsert(oldPos, newPos, key, value);
    }

    method UpdateData<R>(oldPos: Position, newPos: Position, key: Key, f: T -> (T, R))
      returns (found: bool, rv: R, ok: bool)
      requires PartsConsistent() && Ready() && newPos != DUMMY_POS
      requires key in data.contents ==> data.contents[key].pos == oldPos
      modifies data
      ensures PartsConsistent() && ok == Ready() && PositionsOf(posMaps, n) == old(PositionsOf(posMaps, n))
      ensures found == (key in old(data.contents))
      ensures var before := if found then old(data.contents)[key].value else data.dflt;
              rv == f(before).1 && data.contents == old(data.contents)[key := Entry(newPos, f(before).0)]
    {
      hide AccessEvicts, Advance;
      hide AllConsistent, AllReady, CircuitOram.Valid, CircuitOram.Inv1, CircuitOram.Room, Pow2, PositionsOf;
      data.RoomForAll(key);
      ghost var trail;
      found, rv, ok, trail := data.Update(oldPos, newPos, key, f);
    }

    /** Reads an element; `out` comes back unchanged when nothing was ever written there. */
    method Read(subarray: nat, index: nat, out: T) returns (out': T, ok: bool)
      requires Valid() && subarray < Pow2(w) && index < n
      modifies data, posMaps`linear, OramsOf(posMaps)
      ensures PartsConsistent() && ok == Ready()
      ensures ok ==> Valid() && forall s: nat, i: nat :: s < Pow2(w) && i < n ==> Elem(s, i) == old(Elem(s, i))
      ensures ok ==> out' == match old(Elem(subarray, index)) { case Some(v) => v case None => out }
    {
      hide AllConsistent, AllReady, Matched, CircuitOram.Valid, CircuitOram.Inv1, CircuitOram.Room, Pow2, RealIndex;
      hide PositionsOf, MatchedAt, Relocated;
      ghost var ps, before := PositionsOf(posMaps, n), data.contents;
      var key := RealIndex(subarray, index, w);
      FoundWhereSought(before, ps, w, n, subarray, index);
      var oldPos, newPos;
      oldPos, newPos, ok := Relocate(subarray, index);
      out' := out;
      if !ok { return; }
      out', ok := ReadData(oldPos, newPos, key, out);
      StoreStep(before, ps, w, n, subarray, index, newPos, data.contents);
    }

    /** Writes an element. */
    method Write(subarray: nat, index: nat, value: T) returns (ok: bool)
      requires Valid() && subarray < Pow2(w) && index < n
      modifies data, posMaps`linear, OramsOf(posMaps)
      ensures PartsConsistent() && ok == Ready()
      ensures ok ==> Valid() && forall s: nat, i: nat :: s < Pow2(w) && i < n ==>
        Elem(s, i) == if s == subarray && i == index then Some(value) else old(Elem(s, i))
    {
      hide AllConsistent, AllReady, Matched, CircuitOram.Valid, CircuitOram.Inv1, CircuitOram.Room, Pow2, RealIndex;
      hide PositionsOf, MatchedAt, Relocated;
      ghost var ps, before := PositionsOf(posMaps, n), data.contents;
      var key := RealIndex(subarray, index, w);
      FoundWhereSought(before, ps, w, n, subarray, index);
      var oldPos, newPos;
      oldPos, newPos, ok := Relocate(subarray, index);
      if !ok { return; }
      ok := WriteData(oldPos, newPos, key, value);
      StoreStep(before, ps, w, n, subarray, index, newPos, data.contents);
    }

    /** Applies `f` to an element, or to the default value when nothing was written there. */
    method Update<R>(subarray: nat, index: nat, f: T -> (T, R)) returns (found: bool, rv: R, ok: bool)
      requires Valid() && subarray < Pow2(w) && index < n
      modifies data, posMaps`linear, OramsOf(posMaps)
      ensures PartsConsistent() && ok == Ready()
      ensures ok ==> Valid() && found == old(Elem(subarray, index)).Some?
      ensures ok ==>
        var before := if found then old(Elem(subarray, index)).value else data.dflt;
        rv == f(before).1 && forall s: nat, i: nat :: s < Pow2(w) && i < n ==>
          Elem(s, i) == if s == subarray && i == index then Some(f(before).0) else old(Elem(s, i))
    {
      hide AllConsistent, AllReady, Matched, CircuitOram.Valid, CircuitOram.Inv1, CircuitOram.Room, Pow2, RealIndex;
      hide PositionsOf, MatchedAt, Relocated;
      ghost var ps, before := PositionsOf(posMaps, n), data.contents;
      var key := RealIndex(subarray, index, w);
      FoundWhereSought(before, ps, w, n, subarray, index);
      var oldPos, newPos;
      oldPos, newPos, ok := Relocate(subarray, index);
      if !ok {
        found, rv := false, f(data.dflt).1;
        return;
      }
      found, rv, ok := UpdateData(oldPos, newPos, key, f);
      StoreStep(before, ps, w, n, subarray, index, newPos, data.contents);
    }
  }

  /** The map of the subarray holds the position of the element. */
  lemma FoundWhereSought<T>(contents: map<Key, Entry<T>>, ps: seq<seq<Position>>, w: nat, n: nat, s: nat, i: nat)
    requires Matched(contents, ps, w, n) && s < |ps| && i < n && |ps[s]| == n
    ensures RealIndex(s, i, w) in contents ==> contents[RealIndex(s, i, w)].pos == ps[s][i]
  {
    hide RealIndex;
    assert MatchedAt(contents, ps, w, s, i);
  }

  lemma {:induction false} NoMaps(n: nat)
    ensures AllConsistent([], n) && AllReady([], n)
  {
  }

  lemma OneMoreMap(maps: seq<RecursivePositionMap>, m: RecursivePositionMap, n: nat)
    requires AllConsistent(maps, n) && AllReady(maps, n) && m.Valid() && m.n == n
    requires forall s :: 0 <= s < |maps| ==> Apart(maps[s], m) && Apart(m, maps[s])
    ensures AllConsistent(maps + [m], n) && AllReady(maps + [m], n)
  {
    hide RecursivePositionMap.Consistent, RecursivePositionMap.Ready, Apart;
    assert m.Consistent();
    var maps' := maps + [m];
    forall s | 0 <= s < |maps'|
      ensures maps'[s] in maps' && (forall o :: o in maps'[s].orams ==> o in OramsOf(maps'))
    {
      assert maps'[s] in maps';
    }
  }

  /** The position maps of 2^w subarrays; without all of them, `failed` is one whose stashes overflowed. */
  method NewPositionMaps(count: nat, n: nat)
    returns (maps: seq<RecursivePositionMap>, ok: bool, ghost failed: RecursivePositionMap)
    requires count > 0 && 0 < n <= 0xFFFF_FFFF
    ensures forall s :: 0 <= s < |maps| ==> fresh(maps[s])
    ensures forall s, i :: 0 <= s < |maps| && 0 <= i < |maps[s].orams| ==> fresh(maps[s].orams[i])
    ensures ok ==> |maps| == count && AllConsistent(maps, n) && AllReady(maps, n)
    ensures !ok ==> failed.OramsValid() && !failed.Ready()
  {
    hide RecursivePositionMap.Consistent, RecursivePositionMap.Ready, RecursivePositionMap.Valid;
    hide RecursivePositionMap.OramsValid;
    maps := [];
    NoMaps(n);
    for s := 0 to count
      invariant |maps| == s && AllConsistent(maps, n) && AllReady(maps, n)
      invariant forall t :: 0 <= t < s ==> fresh(maps[t])
      invariant forall t, i :: 0 <= t < s && 0 <= i < |maps[t].orams| ==> fresh(maps[t].orams[i])
    {
      var map', fits := NewPositionMap(n);
      failed := map';
      if !fits { return maps, false, failed; }
      OneMoreMap(maps, map', n);
      maps := maps + [map'];
    }
    ok, failed := true, maps[0];
  }

  lemma NothingMatched<T>(ps: seq<seq<Position>>, w: nat, n: nat)
    ensures Matched<T>(map[], ps, w, n)
  {
  }

  /** Subarrays of `n` elements, none of them written yet. */
  method NewMultiWayArray<T>(n: nat, w: nat, dflt: T)
    returns (a: MultiWayArray<T>, ok: bool, ghost failed: RecursivePositionMap)
    requires 1 < n <= 0x8000_0000
    ensures fresh(a) && a.w == w && a.n == n && n <= a.data.maxN
    ensures ok ==> a.Valid() && a.data.dflt == dflt && fresh(a.data) && forall s: nat, i: nat :: a.Elem(s, i) == None
    ensures !ok ==> failed.OramsValid() && !failed.Ready()
  {
    hide AllReady, CircuitOram.Valid, CircuitOram.Inv1, Pow2, RealIndex, PositionsOf, Matched;
    hide RecursivePositionMap.Consistent, RecursivePositionMap.Valid, RecursivePositionMap.Ready,
         RecursivePositionMap.OramsValid;
    var data := new CircuitOram(n, dflt);
    var maps;
    maps, ok, failed := NewPositionMaps(Pow2(w), n);
    a := new MultiWayArray(data, maps, w, n);
    if ok {
      assert AllConsistent(maps, n);
      assert a.DataApart();
      NothingMatched<T>(PositionsOf(maps, n), w, n);
    }
  }
}
