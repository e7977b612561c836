/** A bounded queue kept in unordered slots: timestamps carry the order. */
module ShortQueue {

  /** A slot; timestamp 0 marks it empty. */
  datatype Slot<T> = Slot(timestamp: nat, value: T) {
    predicate IsEmpty() { timestamp == 0 }
  }

  /** Slot at[k] holds element k of `contents`, with timestamp base + 1 + k, and the other slots are empty. */
  ghost predicate Holds<T>(slots: seq<Slot<T>>, contents: seq<T>, at: seq<nat>, base: nat) {
    && |at| == |contents|
    && (forall k: nat :: k < |at| ==> at[k] < |slots| && slots[at[k]] == Slot(base + 1 + k, contents[k]))
    && (forall i: nat :: i < |slots| && !slots[i].IsEmpty() ==>
          base < slots[i].timestamp <= base + |at| && at[slots[i].timestamp - base - 1] == i)
  }

  /** The first empty slot, or the number of slots. */
  function FirstEmpty<T>(slots: seq<Slot<T>>): (i: nat)
    ensures i <= |slots| && (forall j: nat :: j < i ==> !slots[j].IsEmpty()) && (i < |slots| ==> slots[i].IsEmpty())
  {
    if slots == [] || slots[0].IsEmpty() then 0 else 1 + FirstEmpty(slots[1..])
  }

  lemma RangeSize(s: set<nat>, n: nat)
    requires forall i: nat :: i < n ==> i in s
    ensures |s| >= n
  {
    if n > 0 {
      var s' := s - {n - 1};
      RangeSize(s', n - 1);
    }
  }

  function Values(at: seq<nat>): (s: set<nat>)
    ensures |s| <= |at| && forall k :: 0 <= k < |at| ==> at[k] in s
  {
    if at == [] then {} else Values(at[..|at| - 1]) + {at[|at| - 1]}
  }

  /** A queue that is not full has an empty slot. */
  lemma {:induction false} RoomForOne<T>(slots: seq<Slot<T>>, contents: seq<T>, at: seq<nat>, base: nat)
    requires Holds(slots, contents, at, base) && |contents| < |slots|
    ensures FirstEmpty(slots) < |slots|
  {
    if FirstEmpty(slots) == |slots| {
      forall i: nat | i < |slots| ensures i in Values(at) {
        assert at[slots[i].timestamp - base - 1] == i;
      }
      RangeSize(Values(at), |slots|);
    }
  }

  /** The slots in use are those that hold an element. */
  lemma SlotsInUse<T>(slots: seq<Slot<T>>, contents: seq<T>, at: seq<nat>, base: nat)
    requires Holds(slots, contents, at, base)
    ensures forall i: nat :: i < |slots| ==> (slots[i].IsEmpty() <==> i !in at)
  {
    forall i: nat | i < |slots| ensures slots[i].IsEmpty() <==> i !in at {
      if !slots[i].IsEmpty() { assert at[slots[i].timestamp - base - 1] == i; }
      if i in at {
        var k :| 0 <= k < |at| && at[k] == i;
        assert slots[at[k]] == Slot(base + 1 + k, contents[k]);
      }
    }
  }

  lemma HoldsMore<T>(slots: seq<Slot<T>>, contents: seq<T>, at: seq<nat>, base: nat, i: nat, x: T)
    requires Holds(slots, contents, at, base) && i < |slots| && slots[i].IsEmpty()
    ensures Holds(slots[i := Slot(base + |contents| + 1, x)], contents + [x], at + [i], base)
  {
  }

  lemma HoldsLess<T>(slots: seq<Slot<T>>, contents: seq<T>, at: seq<nat>, base: nat)
    requires Holds(slots, contents, at, base) && contents != []
    ensures |at| == |contents|
    ensures at[0] < |slots| && slots[at[0]] == Slot(base + 1, contents[0])
    ensures Holds(slots[at[0] := Slot(0, contents[0])], contents[1..], at[1..], base + 1)
  {
    var slots', at' := slots[at[0] := Slot(0, contents[0])], at[1..];
    forall k: nat | k < |at'| ensures at'[k] < |slots| && slots'[at'[k]] == Slot(base + 1 + 1 + k, contents[1..][k]) {
      assert slots[at[k + 1]] == Slot(base + 1 + (k + 1), contents[k + 1]);
    }
  }

  class ShortQueue<T> {
    /** Timestamp of the element added last. */
    var highestTimestamp: nat
    /** Timestamp of the oldest element. */
    var lowestTimestamp: nat
    var size: nat
    var elements: seq<Slot<T>>

    /** The queued elements, oldest first, and the slots they are in. */
    ghost var contents: seq<T>
    ghost var at: seq<nat>

    ghost predicate Valid()
      reads this
    {
      && size == |contents| <= highestTimestamp && size <= |elements|
      && Holds(elements, contents, at, highestTimestamp - size)
      && 0 < lowestTimestamp && (size > 0 ==> lowestTimestamp == highestTimestamp - size + 1)
    }

    constructor (n: nat, dflt: T)
      ensures Valid() && contents == [] && elements == seq(n, _ => Slot(0, dflt)) && highestTimestamp == 0
    {
      highestTimestamp, lowestTimestamp, size := 0, 1, 0;
      elements := seq(n, _ => Slot(0, dflt));
      contents, at := [], [];
    }

    /** Adds `element` in the first empty slot if `isReal`. */
    method MaybePush(isReal: bool, element: T)
      requires Valid() && (isReal ==> size < |elements|)
      modifies this
      ensures Valid() && contents == old(contents) + (if isReal then [element] else [])
      ensures at == old(at) + (if isReal then [FirstEmpty(old(elements))] else [])
      ensures isReal ==> FirstEmpty(old(elements)) < |old(elements)| && highestTimestamp == old(highestTimestamp) + 1
      ensures isReal ==>
        elements == old(elements)[FirstEmpty(old(elements)) := Slot(old(highestTimestamp) + 1, element)]
      ensures !isReal ==>
        elements == old(elements) && unchanged(`highestTimestamp) && unchanged(`lowestTimestamp) && unchanged(`size)
    {
      hide Holds, PushScan, FirstEmpty;
      ghost var slots, base := elements, highestTimestamp - size;
      if isReal {
        RoomForOne(slots, contents, at, base);
        size := size + 1;
        highestTimestamp := highestTimestamp + 1;
      }
      var inserted := !isReal;
      var lowest: nat := highestTimestamp;
      ghost var top, count := highestTimestamp, size;
      PushStart(slots, isReal, top, element);
      for i := 0 to |elements|
        invariant PushScan(slots, elements, i, isReal, top, element, inserted, lowest) && |elements| == |slots|
        invariant unchanged(`contents) && unchanged(`at) && unchanged(`lowestTimestamp) && highestTimestamp == top
        invariant size == count
      {
        PushStep(slots, elements, i, isReal, top, element, inserted, lowest);
        var curr := elements[i];
        var isEmpty := curr.IsEmpty();
        var shouldInsert := !inserted && isEmpty;
        var isLowest := !isEmpty && curr.timestamp < lowest;
        if shouldInsert { elements := elements[i := Slot(highestTimestamp, element)]; }
        if isLowest { lowest := curr.timestamp; }
        inserted := inserted || shouldInsert;
      }
      PushEnd(slots, elements, isReal, top, element, inserted, lowest);
      if isReal {
        FirstIsEmpty(slots);
        HoldsMore(slots, contents, at, base, FirstEmpty(slots), element);
        OldestIs(slots, contents, at, base, lowest, highestTimestamp);
        contents, at := contents + [element], at + [FirstEmpty(slots)];
        lowestTimestamp := lowest;
      }
    }

    /** Removes the oldest element into `out` if `isReal`. */
    method MaybePop(isReal: bool, out: T) returns (out': T)
      requires Valid() && (isReal ==> size > 0)
      modifies this
      ensures Valid() && contents == if isReal then old(contents)[1..] else old(contents)
      ensures at == if isReal then old(at)[1..] else old(at)
      ensures out' == if isReal then old(contents)[0] else out
      ensures |elements| == |old(elements)|
      ensures isReal ==> forall i :: 0 <= i < |elements| ==>
        elements[i] == if old(elements)[i].timestamp == old(lowestTimestamp) then Slot(0, old(elements)[i].value)
          else old(elements)[i]
      ensures !isReal ==>
        elements == old(elements) && unchanged(`highestTimestamp) && unchanged(`lowestTimestamp) && unchanged(`size)
    {
      hide Holds, PopScan;
      ghost var slots, base := elements, highestTimestamp - size;
      ghost var oldest, popped := 0, out;
      if isReal {
        HoldsLess(slots, contents, at, base);
        oldest, popped := at[0], contents[0];
        OnlyOldest(slots, contents, at, base);
        size := size - 1;
      }
      var secondLowest: nat := highestTimestamp;
      ghost var top, low, count := highestTimestamp, lowestTimestamp, size;
      out' := out;
      PopStart(slots, isReal, oldest, popped, top, low, out);
      for i := 0 to |elements|
        invariant PopScan(slots, elements, i, isReal, oldest, popped, top, low, secondLowest, out, out')
        invariant |elements| == |slots|
        invariant unchanged(`contents) && unchanged(`at) && lowestTimestamp == low && highestTimestamp == top
        invariant size == count
      {
        PopStep(slots, elements, i, isReal, oldest, popped, top, low, secondLowest, out, out');
        var curr := elements[i];
        var isLowest := curr.timestamp == lowestTimestamp;
        var couldBeSecondLowest := !curr.IsEmpty() && !isLowest && curr.timestamp < secondLowest;
        var shouldPop := isReal && isLowest;
        if couldBeSecondLowest { secondLowest := curr.timestamp; }
        if shouldPop {
          out' := curr.value;
          elements := elements[i := Slot(0, curr.value)];
        }
      }
      PopEnd(slots, elements, isReal, oldest, popped, top, low, secondLowest, out, out');
      if isReal {
        SecondIs(slots, contents, at, base, secondLowest, highestTimestamp);
        contents, at := contents[1..], at[1..];
        lowestTimestamp := secondLowest;
      }
    }
  }

  // ---------------------------------------------------------------- the scans

  /** A push after `i` slots: `inserted` and `lowest` are the loop's variables, `top` the new highest timestamp. */
  ghost predicate PushScan<T>(slots: seq<Slot<T>>, cur: seq<Slot<T>>, i: nat, isReal: bool, top: nat, x: T,
                              inserted: bool, lowest: nat) {
    && |cur| == |slots| && i <= |slots|
    && cur == (if isReal && FirstEmpty(slots) < i then slots[FirstEmpty(slots) := Slot(top, x)] else slots)
    && inserted == (!isReal || FirstEmpty(slots) < i)
    && lowest <= top && (lowest == top || exists j: nat :: j < i && IsTimestamp(slots, j, lowest))
    && forall j: nat :: j < i && !slots[j].IsEmpty() ==> lowest <= slots[j].timestamp
  }

  lemma {:induction false} FirstIsEmpty<T>(slots: seq<Slot<T>>)
    requires FirstEmpty(slots) < |slots|
    ensures slots[FirstEmpty(slots)].IsEmpty()
  {
  }

  lemma PushStart<T>(slots: seq<Slot<T>>, isReal: bool, top: nat, x: T)
    ensures PushScan(slots, slots, 0, isReal, top, x, !isReal, top)
  {
  }

  lemma PushStep<T>(slots: seq<Slot<T>>, cur: seq<Slot<T>>, i: nat, isReal: bool, top: nat, x: T, inserted: bool,
                    lowest: nat)
    requires PushScan(slots, cur, i, isReal, top, x, inserted, lowest) && i < |slots|
    ensures |cur| == |slots|
    ensures var insert, isLowest := !inserted && cur[i].IsEmpty(), !cur[i].IsEmpty() && cur[i].timestamp < lowest;
            PushScan(slots, if insert then cur[i := Slot(top, x)] else cur, i + 1, isReal, top, x, inserted || insert,
                     if isLowest then cur[i].timestamp else lowest)
  {
    assert cur[i] == slots[i];
    if !cur[i].IsEmpty() { assert IsTimestamp(slots, i, cur[i].timestamp); }
  }

  lemma {:induction false} PushEnd<T>(slots: seq<Slot<T>>, cur: seq<Slot<T>>, isReal: bool, top: nat, x: T,
                                      inserted: bool, lowest: nat)
    requires PushScan(slots, cur, |slots|, isReal, top, x, inserted, lowest)
    ensures isReal && FirstEmpty(slots) < |slots| ==> cur == slots[FirstEmpty(slots) := Slot(top, x)]
    ensures !isReal ==> cur == slots
    ensures lowest <= top && (lowest == top || exists j: nat :: IsTimestamp(slots, j, lowest))
    ensures forall j: nat :: j < |slots| && !slots[j].IsEmpty() ==> lowest <= slots[j].timestamp
  {
  }

  /** A pop after `i` slots. */
  ghost predicate PopScan<T>(slots: seq<Slot<T>>, cur: seq<Slot<T>>, i: nat, isReal: bool, oldest: nat, popped: T,
                             top: nat, low: nat, second: nat, out: T, out': T)
  {
    && |cur| == |slots| && i <= |slots|
    && (isReal ==> oldest < |slots| && slots[oldest].value == popped && forall j: nat :: j < |slots| ==>
        (slots[j].timestamp == low <==> j == oldest))
    && cur == (if isReal && oldest < i then slots[oldest := Slot(0, popped)] else slots)
    && out' == (if isReal && oldest < i then popped else out)
    && second <= top && (second == top || exists j: nat :: j < i && IsTimestamp(slots, j, second) && second != low)
    && forall j: nat :: j < i && !slots[j].IsEmpty() && slots[j].timestamp != low ==> second <= slots[j].timestamp
  }

  lemma PopStart<T>(slots: seq<Slot<T>>, isReal: bool, oldest: nat, popped: T, top: nat, low: nat, out: T)
    requires isReal ==> oldest < |slots| && slots[oldest].value == popped
    requires isReal ==> forall j: nat :: j < |slots| ==> (slots[j].timestamp == low <==> j == oldest)
    ensures PopScan(slots, slots, 0, isReal, oldest, popped, top, low, top, out, out)
  {
  }

  lemma PopStep<T>(slots: seq<Slot<T>>, cur: seq<Slot<T>>, i: nat, isReal: bool, oldest: nat, popped: T, top: nat,
                   low: nat, second: nat, out: T, out': T)
    requires PopScan(slots, cur, i, isReal, oldest, popped, top, low, second, out, out') && i < |slots|
    ensures |cur| == |slots|
    ensures var pop := isReal && cur[i].timestamp == low;
            var next := !cur[i].IsEmpty() && cur[i].timestamp != low && cur[i].timestamp < second;
            PopScan(slots, if pop then cur[i := Slot(0, cur[i].value)] else cur, i + 1, isReal, oldest, popped, top,
                    low, if next then cur[i].timestamp else second, out, if pop then cur[i].value else out')
  {
    assert cur[i] == slots[i];
    if !cur[i].IsEmpty() { assert IsTimestamp(slots, i, cur[i].timestamp); }
  }

  lemma PopEnd<T>(slots: seq<Slot<T>>, cur: seq<Slot<T>>, isReal: bool, oldest: nat, popped: T, top: nat, low: nat,
                  second: nat, out: T, out': T)
    requires PopScan(slots, cur, |slots|, isReal, oldest, popped, top, low, second, out, out')
    ensures cur == if isReal then slots[oldest := Slot(0, popped)] else slots
    ensures out' == if isReal then popped else out
    ensures isReal ==>
      forall j: nat :: j < |slots| ==> cur[j] == if slots[j].timestamp == low then Slot(0, slots[j].value) else slots[j]
    ensures second <= top && (second == top || exists j: nat :: IsTimestamp(slots, j, second) && second != low)
    ensures forall j: nat :: j < |slots| && !slots[j].IsEmpty() && slots[j].timestamp != low ==>
      second <= slots[j].timestamp
  {
  }

  lemma OnlyOldest<T>(slots: seq<Slot<T>>, contents: seq<T>, at: seq<nat>, base: nat)
    requires Holds(slots, contents, at, base) && contents != []
    ensures |at| > 0 && at[0] < |slots| && slots[at[0]].value == contents[0]
    ensures forall j: nat :: j < |slots| ==> (slots[j].timestamp == base + 1 <==> j == at[0])
  {
    assert slots[at[0]] == Slot(base + 1, contents[0]);
  }

  ghost predicate IsTimestamp<T>(slots: seq<Slot<T>>, j: nat, t: nat) {
    j < |slots| && !slots[j].IsEmpty() && slots[j].timestamp == t
  }

  /** The least timestamp in the slots, or the new one, is that of the oldest element after a push. */
  lemma OldestIs<T>(slots: seq<Slot<T>>, contents: seq<T>, at: seq<nat>, base: nat, lowest: nat, highest: nat)
    requires Holds(slots, contents, at, base) && highest == base + |contents| + 1
    requires lowest == highest || exists j: nat :: IsTimestamp(slots, j, lowest)
    requires lowest <= highest && forall j: nat :: j < |slots| && !slots[j].IsEmpty() ==> lowest <= slots[j].timestamp
    ensures lowest == base + 1
  {
    if contents != [] { assert slots[at[0]] == Slot(base + 1, contents[0]); }
  }

  /** The least timestamp but one is that of the oldest element after a pop. */
  lemma SecondIs<T>(slots: seq<Slot<T>>, contents: seq<T>, at: seq<nat>, base: nat, second: nat, highest: nat)
    requires Holds(slots, contents, at, base) && highest == base + |contents| && contents != []
    requires second == highest || exists j: nat :: IsTimestamp(slots, j, second) && second != base + 1
    requires second <= highest
    requires forall j: nat :: j < |slots| && !slots[j].IsEmpty() && slots[j].timestamp != base + 1 ==>
      second <= slots[j].timestamp
    ensures second > 0 && (|contents| > 1 ==> second == base + 2)
  {
    if |contents| > 1 { assert slots[at[1]] == Slot(base + 1 + 1, contents[1]); }
  }
}
