/** An oblivious array: a data ORAM whose positions are kept in a recursive position map. */
module DynamicArray {
  import opened Blocks
  import opened CircuitOram
  import opened Options
  import opened RecursiveOram
  import opened Randomness

  class DynamicArray<T> {
    var data: CircuitOram<T>
    var posMap: RecursivePositionMap

    /** The parts are in working order and do not overlap. */
    ghost predicate PartsConsistent()
      reads this, data, posMap, posMap.orams
    {
      && (data as object) !in (set o: object | o in posMap.orams)
      && data.Valid() && posMap.OramsValid() && posMap.Consistent()
    }

    /** No stash has overflowed. */
    ghost predicate Ready()
      reads this, data, posMap, posMap.orams
      requires data.Valid() && posMap.OramsValid()
    {
      data.Inv1() && posMap.Ready()
    }

    /** Every element sits at the position the map holds for its index. */
    ghost predicate InStep()
      reads this, data, posMap, posMap.orams
    {
      forall k :: k in data.contents && k < posMap.n ==> data.contents[k].pos == posMap.Position(k)
    }

    /** The parts are in working order and have room. */
    ghost predicate Working()
      reads this, data, posMap, posMap.orams
    {
      PartsConsistent() && Ready()
    }

    ghost predicate Valid()
      reads this, data, posMap, posMap.orams
    {
      Working() && InStep()
    }

    /** Two arrays share no part. */
    ghost predicate Apart(other: DynamicArray<T>)
      reads this, other, posMap, other.posMap
    {
      && this != other && data != other.data && posMap != other.posMap
      && (forall i, j :: 0 <= i < |posMap.orams| && 0 <= j < |other.posMap.orams| ==>
          posMap.orams[i] != other.posMap.orams[j])
      && (forall i :: 0 <= i < |posMap.orams| ==> posMap.orams[i] as object != other.data)
      && (forall i :: 0 <= i < |other.posMap.orams| ==> other.posMap.orams[i] as object != data)
    }

    function Len(): nat
      reads this, posMap
    {
      posMap.n
    }

    /** The element last written at index `i`, if any. */
    ghost function Elem(i: nat): Option<T>
      reads this, data
    {
      if i in data.contents then Some(data.contents[i].value) else None
    }

    constructor (data: CircuitOram<T>, posMap: RecursivePositionMap)
      ensures this.data == data && this.posMap == posMap
    {
      this.data, this.posMap := data, posMap;
    }

    /** How many indices have a place of their own in the position map; a greater index shares one. */
    ghost function Places(): (s: nat)
      reads this, posMap
      ensures s > 0
    {
      Size(posMap.h)
    }

    /** Looks up the position of `index` and replaces it by an arbitrary new one. */
    method Relocate(index: nat) returns (oldPos: Position, newPos: Position, ok: bool)
      requires Working()
      modifies posMap`linear, posMap.orams
      ensures newPos < Len() && newPos != DUMMY_POS && oldPos == old(posMap.Position(index))
      ensures PartsConsistent() && data.Inv1() && ok == posMap.Ready()
      ensures forall j :: 0 <= j < Len() ==>
        posMap.Position(j) == if j == index % Places() then newPos else old(posMap.Position(j))
      ensures index < Len() ==> index % Places() == index
    {
      hide CircuitOram.Valid, CircuitOram.Inv1, RecursivePositionMap.Position, RecursivePositionMap.Consistent;
      hide RecursivePositionMap.Ready, Size;
      posMap.Bounds();
      newPos := RandomPosition(Len());
      oldPos, ok := posMap.AccessPosition(index, newPos);
      posMap.OramsOfConsistent();
    }

    /** Reads index `index`; `out` comes back unchanged when nothing was ever written there. */
    method Read(index: nat, out: T) returns (out': T, ok: bool)
      requires Valid() && index < Len()
      modifies data, posMap`linear, posMap.orams
      ensures PartsConsistent() && ok == Ready()
      ensures ok ==> Valid() && forall j :: 0 <= j < Len() ==> Elem(j) == old(Elem(j))
      ensures ok ==> out' == match old(Elem(index)) { case Some(v) => v case None => out }
    {
      hide AccessEvicts, Advance;
      hide CircuitOram.Valid, CircuitOram.Inv1, CircuitOram.Room, RecursivePositionMap.Position,
           RecursivePositionMap.Consistent, RecursivePositionMap.Ready, RecursivePositionMap.OramsValid;
      var oldPos, newPos;
      oldPos, newPos, ok := Relocate(index);
      out' := out;
      if !ok { return; }
      data.RoomForAll(index);
      var found;
      ghost var trail;
      found, out', ok, trail := data.Read(oldPos, newPos, index, out);
    }

    /** Writes index `index`. An index past the end is stored as well, and takes over a position in the map; `newPos` is
        the position chosen. */
    method Write(index: nat, value: T) returns (ok: bool, ghost newPos: Position)
      requires Working()
      requires index in data.contents ==> data.contents[index].pos == posMap.Position(index)
      modifies data, posMap`linear, posMap.orams
      ensures PartsConsistent() && ok == Ready()
      ensures data.maxN == old(data.maxN)
      ensures ok ==> data.contents == old(data.contents)[index := Entry(newPos, value)]
      ensures ok ==> forall j :: 0 <= j < Len() ==>
        posMap.Position(j) == if j == index % Places() then newPos else old(posMap.Position(j))
      ensures ok && old(InStep()) && index < Len() ==>
        Valid() && forall j :: 0 <= j < Len() ==> Elem(j) == if j == index then Some(value) else old(Elem(j))
    {
      hide AccessEvicts, Advance;
      hide CircuitOram.Valid, CircuitOram.Inv1, CircuitOram.Room, RecursivePositionMap.Position,
           RecursivePositionMap.Consistent, RecursivePositionMap.Ready, RecursivePositionMap.OramsValid, Size;
      var oldPos, newPosition;
      oldPos, newPosition, ok := Relocate(index);
      newPos := newPosition;
      if !ok { return; }
      data.RoomForAll(index);
      var found;
      ghost var trail;
      found, ok, trail := data.WriteOrInsert(oldPos, newPosition, index, value);
    }

    /** Applies `f` to the element at `index`, or to the default value when nothing was written there. */
    method Update<R>(index: nat, f: T -> (T, R)) returns (found: bool, rv: R, ok: bool)
      requires Valid() && index < Len()
      modifies data, posMap`linear, posMap.orams
      ensures PartsConsistent() && ok == Ready()
      ensures ok ==> Valid() && found == old(Elem(index)).Some?
      ensures ok ==>
        var before := if found then old(Elem(index)).value else data.dflt;
        rv == f(before).1 && forall j :: 0 <= j < Len() ==>
          Elem(j) == if j == index then Some(f(before).0) else old(Elem(j))
    {
      hide AccessEvicts, Advance;
      hide CircuitOram.Valid, CircuitOram.Inv1, CircuitOram.Room, RecursivePositionMap.Position,
           RecursivePositionMap.Consistent, RecursivePositionMap.Ready, RecursivePositionMap.OramsValid;
      var oldPos, newPos;
      oldPos, newPos, ok := Relocate(index);
      if !ok {
        found, rv := false, f(data.dflt).1;
        return;
      }
      data.RoomForAll(index);
      ghost var trail;
      found, rv, ok, trail := data.Update(oldPos, newPos, index, f);
    }

    /** The element at index `i`, or the default value when nothing was written there. */
    ghost function Copied(i: nat): T
      reads this, data
    {
      match Elem(i) { case Some(v) => v case None => data.dflt }
    }

    /** The positions that the map holds for the indices of the array. */
    ghost function Positions(): (ps: seq<Position>)
      reads this, posMap, posMap.orams
      ensures |ps| == Len() && forall j :: 0 <= j < Len() ==> ps[j] == posMap.Position(j)
    {
      seq(Len(), j requires 0 <= j reads this, posMap, posMap.orams => posMap.Position(j))
    }

    /** The array holds the given values and nothing else. */
    ghost predicate Mirrors(values: seq<T>)
      reads this, data, posMap, posMap.orams
    {
      Mirror(data.contents, Positions(), Places(), values)
    }

    /** Copies the element at index `i`. */
    method CopyOne(target: DynamicArray<T>, i: nat, ghost values: seq<T>) returns (ok: bool)
      requires Valid() && target.Working() && Apart(target) && i < Len()
      requires |values| == i && target.Mirrors(values) && target.Len() <= target.Places()
      modifies data, posMap`linear, posMap.orams
      modifies target.data, target.posMap`linear, target.posMap.orams
      ensures PartsConsistent() && target.PartsConsistent() && ok == (Ready() && target.Ready())
      ensures target.data.maxN == old(target.data.maxN)
      ensures ok ==> Valid() && target.Mirrors(values + [old(Copied(i))])
      ensures ok ==> forall j :: 0 <= j < Len() ==> Elem(j) == old(Elem(j))
    {
      hide CircuitOram.Valid, CircuitOram.Inv1, CircuitOram.Room, RecursivePositionMap.Position,
           RecursivePositionMap.Consistent, RecursivePositionMap.Ready, RecursivePositionMap.OramsValid, Size;
      hide Mirror, LastOf;
      var value;
      value, ok := Read(i, data.dflt);
      if !ok { return; }
      NothingThere(target.data.contents, target.Positions(), target.Places(), values);
      ghost var before, positions := target.data.contents, target.Positions();
      ghost var newPos;
      ok, newPos := target.Write(i, value);
      if ok {
        ghost var after := target.data.contents;
        MirrorStep(before, positions, after, target.Positions(), target.Places(), values, newPos, value);
      }
    }

    /** Every element of this array, or the default value in place of one never written, written to `target`. */
    method CopyInto(target: DynamicArray<T>) returns (ok: bool, ghost values: seq<T>)
      requires Valid() && target.Valid() && Apart(target)
      requires target.data.contents == map[] && target.Len() <= target.Places()
      modifies data, posMap`linear, posMap.orams
      modifies target.data, target.posMap`linear, target.posMap.orams
      ensures PartsConsistent() && target.PartsConsistent() && ok == (Ready() && target.Ready())
      ensures target.data.maxN == old(target.data.maxN)
      ensures ok ==> |values| == Len() && target.Mirrors(values)
      ensures ok ==> forall j :: 0 <= j < Len() ==> values[j] == old(Copied(j))
    {
      hide CircuitOram.Valid, CircuitOram.Inv1, CircuitOram.Room, RecursivePositionMap.Position,
           RecursivePositionMap.Consistent, RecursivePositionMap.Ready, RecursivePositionMap.OramsValid;
      hide DynamicArray.InStep, DynamicArray.PartsConsistent, DynamicArray.Ready, DynamicArray.Mirrors, Size, Mirror;
      ok, values := true, [];
      target.MirrorsNothing();
      for i := 0 to Len()
        invariant ok && Valid() && target.Working() && Apart(target)
        invariant target.Len() <= target.Places() && target.data.maxN == old(target.data.maxN)
        invariant |values| == i && target.Mirrors(values)
        invariant forall j :: 0 <= j < Len() ==> Elem(j) == old(Elem(j))
        invariant forall j :: 0 <= j < i ==> values[j] == old(Copied(j))
      {
        ghost var next := Copied(i);
        ok := CopyOne(target, i, values);
        if !ok { return; }
        values := values + [next];
      }
    }

    lemma MirrorsNothing()
      requires data.contents == map[]
      ensures Mirrors([])
    {
    }

    /** An array with the same parts is the same array. */
    lemma SameParts(other: DynamicArray<T>, values: seq<T>)
      requires data == other.data && posMap == other.posMap && other.Working() && other.Mirrors(values)
      ensures Working() && Mirrors(values) && Len() == other.Len() && Places() == other.Places()
    {
      hide CircuitOram.Valid, CircuitOram.Inv1, RecursivePositionMap.Position, RecursivePositionMap.Consistent,
           RecursivePositionMap.Ready, RecursivePositionMap.OramsValid, Size, Mirror;
      assert Positions() == other.Positions();
    }

    /** What an array that mirrors some values holds. */
    lemma MirrorsMean(values: seq<T>)
      requires Working() && Mirrors(values)
      ensures forall j: nat :: j < |values| ==> Elem(j) == Some(values[j])
      ensures forall j: nat :: |values| <= j ==> Elem(j) == None
      ensures forall j: nat :: j < Len() && j < |values| ==>
        PositionOfLast(data.contents, Positions(), Places(), |values|, j)
      ensures |values| <= Places() ==> Valid()
    {
      hide CircuitOram.Valid, CircuitOram.Inv1, RecursivePositionMap.Position, RecursivePositionMap.Consistent,
           RecursivePositionMap.Ready, RecursivePositionMap.OramsValid, Size, PositionOfLast;
      if |values| <= Places() { MirrorsInStep(values); }
    }

    /** When every index has a place of its own, the positions are in step. */
    lemma MirrorsInStep(values: seq<T>)
      requires Mirrors(values) && |values| <= Places()
      ensures InStep()
    {
      forall k | k in data.contents && k < posMap.n ensures data.contents[k].pos == posMap.Position(k) {
        LastOfIsOwn(k, |values|, Places());
        assert PositionOfLast(data.contents, Positions(), Places(), |values|, k);
      }
    }

    /** Replaces the array by one of `n` elements that holds the same elements; elements never written become the
        default
        value. All of them are stored, also those past the end of a shorter array. The positions are in step as long as
        every old index has a place of its own; otherwise the map holds for an index the position of the last old index
        that shares its place. */
    method Resize(n: nat) returns (ok: bool, ghost built: DynamicArray<T>)
      requires Valid() && 1 < n <= 0x8000_0000
      modifies this, data, posMap`linear, posMap.orams
      ensures old(data).Valid() && old(posMap).Consistent() && built.data.Valid() && built.posMap.OramsValid()
      ensures ok == (old(data).Inv1() && old(posMap).Ready() && built.data.Inv1() && built.posMap.Ready())
      ensures ok ==> data == built.data && posMap == built.posMap
      ensures ok ==> PartsConsistent() && Ready() && Len() == n && data.dflt == old(data.dflt)
      ensures ok ==> Places() == Size(LevelsFor(n)) >= n && data.maxN >= n
      ensures ok ==> forall j :: 0 <= j < old(Len()) ==> Elem(j) == Some(old(Copied(j)))
      ensures ok ==> forall j :: old(Len()) <= j ==> Elem(j) == None
      ensures ok ==> forall j: nat :: j < n && j < old(Len()) ==>
        PositionOfLast(data.contents, Positions(), Places(), old(Len()), j)
      ensures ok && old(Len()) <= Places() ==> Valid()
    {
      hide CircuitOram.Valid, CircuitOram.Inv1, CircuitOram.Room, RecursivePositionMap.Position,
           RecursivePositionMap.Consistent, RecursivePositionMap.Ready, RecursivePositionMap.OramsValid, Size,
             LevelsFor;
      hide DynamicArray.Mirrors, DynamicArray.InStep, PositionOfLast, DynamicArray.Positions;
      posMap.OramsOfConsistent();
      var newArray: DynamicArray<T>;
      newArray, ok := NewDynamicArray(n, data.dflt);
      built := newArray;
      if !ok { return; }
      ghost var values;
      ok, values := CopyInto(newArray);
      newArray.posMap.OramsOfConsistent();
      if !ok { return; }
      data, posMap := newArray.data, newArray.posMap;
      SameParts(newArray, values);
      MirrorsMean(values);
    }
  }

  /** The last index below `m` that shares the place of index `j` in a position map with `s` places. */
  function LastOf(j: nat, m: nat, s: nat): (t: nat)
    requires s > 0
  {
    if m == 0 then 0 else if (m - 1) % s == j then m - 1 else LastOf(j, m - 1, s)
  }

  lemma {:induction false} LastOfIs(j: nat, m: nat, s: nat)
    requires j < m && j < s
    ensures LastOf(j, m, s) < m && LastOf(j, m, s) % s == j
  {
    if (m - 1) % s != j {
      SmallRemainder(j, s);
      LastOfIs(j, m - 1, s);
    }
  }

  /** The contents are the given values; the position of an index is that of the last index that shares its place. */
  ghost predicate Mirror<T>(contents: map<Key, Entry<T>>, positions: seq<Position>, s: nat, values: seq<T>)
    requires s > 0
  {
    && (forall k: Key :: k in contents <==> k < |values|)
    && (forall k: Key :: k in contents && k < |values| ==> contents[k].value == values[k])
    && (forall j: nat :: j < |positions| && j < |values| ==> PositionOfLast(contents, positions, s, |values|, j))
  }

  ghost predicate PositionOfLast<T>(contents: map<Key, Entry<T>>, positions: seq<Position>, s: nat, m: nat, j: nat)
    requires s > 0 && j < |positions|
  {
    LastOf(j, m, s) in contents && positions[j] == contents[LastOf(j, m, s)].pos
  }

  lemma NothingThere<T>(contents: map<Key, Entry<T>>, positions: seq<Position>, s: nat, values: seq<T>)
    requires s > 0 && Mirror(contents, positions, s, values)
    ensures |values| !in contents
  {
  }

  lemma MirrorStep<T>(contents: map<Key, Entry<T>>, positions: seq<Position>, contents': map<Key, Entry<T>>,
                      positions': seq<Position>, s: nat, values: seq<T>, p: Position, value: T)
    requires s > 0 && Mirror(contents, positions, s, values) && |positions| == |positions'| <= s
    requires contents' == contents[|values| := Entry(p, value)]
    requires forall j :: 0 <= j < |positions| ==> positions'[j] == if j == |values| % s then p else positions[j]
    ensures Mirror(contents', positions', s, values + [value])
  {
    hide LastOf;
    var m := |values|;
    var next := m + 1;
    forall j: nat | j < |positions'| && j < next ensures PositionOfLast(contents', positions', s, next, j) {
      LastOfNext(j, m, s);
      if j == m { SmallRemainder(j, s); }
      if j != m % s {
        assert PositionOfLast(contents, positions, s, m, j);
        LastOfIs(j, m, s);
      }
    }
  }

  lemma LastOfNext(j: nat, m: nat, s: nat)
    requires s > 0
    ensures LastOf(j, m + 1, s) == if m % s == j then m else LastOf(j, m, s)
  {
  }

  /** An index keeps its place to itself exactly when the next index that shares the place is not below `m`. */
  lemma {:induction false} LastOfIsOwn(j: nat, m: nat, s: nat)
    requires j < m && j < s
    ensures LastOf(j, m, s) == j <==> m <= j + s
  {
    var last := m - 1;
    if last == j {
      SmallRemainder(j, s);
    } else if last % s == j {
      SharedPlace(j, last, s);
    } else {
      if last == j + s { NextShared(j, s); }
      LastOfIsOwn(j, last, s);
    }
  }

  lemma SharedPlace(j: nat, t: nat, s: nat)
    requires j < s && t > j && t % s == j
    ensures t >= j + s
  {
    if t < s { SmallRemainder(t, s); }
    if s <= t < j + s { RemainderBelow(t, s); }
  }

  lemma RemainderBelow(t: nat, s: nat)
    requires s <= t < 2 * s
    ensures t % s == t - s
  {
  }

  lemma NextShared(j: nat, s: nat)
    requires j < s
    ensures (j + s) % s == j
  {
  }

  /** An array of `n` elements, none of them written yet. */
  method NewDynamicArray<T>(n: nat, dflt: T) returns (a: DynamicArray<T>, ok: bool)
    requires 1 < n <= 0x8000_0000
    ensures fresh(a) && fresh(a.data) && fresh(a.posMap)
    ensures forall j :: 0 <= j < |a.posMap.orams| ==> fresh(a.posMap.orams[j])
    ensures a.data.Valid() && a.data.Inv1() && a.posMap.OramsValid() && ok == a.posMap.Ready() && n <= a.data.maxN
    ensures ok ==> a.Valid() && a.Len() == n && a.data.dflt == dflt && a.data.contents == map[]
    ensures ok ==> a.Places() == Size(LevelsFor(n)) >= n
  {
    hide CircuitOram.Valid, CircuitOram.Inv1, RecursivePositionMap.Position, RecursivePositionMap.Consistent,
           RecursivePositionMap.Ready, RecursivePositionMap.OramsValid, Size, LevelsFor;
    var data := new CircuitOram(n, dflt);
    var posMap;
    posMap, ok := NewPositionMap(n);
    LevelsForFits(n);
    a := new DynamicArray(data, posMap);
  }
}
