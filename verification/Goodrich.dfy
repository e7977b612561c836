/** Goodrich's compaction: every kept element moves left by the binary digits of its distance, lowest digit first. */
module Goodrich {
  import opened Bits
  import opened Compaction
  import opened CompactInPlace

  /** The number of dummies before element `x`: the distance it has to move. */
  ghost function Before<T>(s: seq<T>, isDummy: T -> bool, x: nat): (r: nat)
    requires x <= |s|
    ensures r <= x
  {
    if x == 0 then 0 else Before(s, isDummy, x - 1) + (if isDummy(s[x - 1]) then 1 else 0)
  }

  lemma {:induction false} BeforeGrows<T>(s: seq<T>, isDummy: T -> bool, x: nat, y: nat)
    requires x <= y <= |s|
    ensures Before(s, isDummy, x) <= Before(s, isDummy, y) <= Before(s, isDummy, x) + (y - x)
    decreases y
  {
    if x < y { BeforeGrows(s, isDummy, x, y - 1); }
  }

  ghost predicate Live<T>(s: seq<T>, isDummy: T -> bool, x: int) {
    0 <= x < |s| && !isDummy(s[x])
  }

  lemma SameQuotient(d: nat, m: nat)
    requires m > 0
    ensures d % m <= d && (d - d % m) / m == d / m
  {
    var q, r := d / m, d % m;
    assert d == m * q + r;
    MulMonotone(m, 0, q);
    DivModUnique(d - r, m, q, 0);
  }

  /** Where element `x` is once it has moved by the digits below `m`, a power of two. */
  ghost function Place<T>(s: seq<T>, isDummy: T -> bool, x: nat, m: nat): (q: nat)
    requires x < |s| && m > 0
    ensures q <= x
  {
    SameQuotient(Before(s, isDummy, x), m);
    x - Before(s, isDummy, x) % m
  }

  /** How far it then still has to move. */
  ghost function Left<T>(s: seq<T>, isDummy: T -> bool, x: nat, m: nat): nat
    requires x < |s| && m > 0
  {
    SameQuotient(Before(s, isDummy, x), m);
    Before(s, isDummy, x) - Before(s, isDummy, x) % m
  }

  /** Remainders grow no faster than numbers do. */
  lemma RemainderGap(u: nat, v: nat, m: nat)
    requires m > 0 && u <= v
    ensures v % m - u % m <= v - u
  {
    assert u == m * (u / m) + u % m && v == m * (v / m) + v % m;
    GapOf(m, u / m, u % m, v / m, v % m);
  }

  lemma GapOf(m: nat, a: nat, r: nat, b: nat, t: nat)
    requires r < m && t < m && m * a + r <= m * b + t
    ensures m * a <= m * b
  {
    MulMonotone(m, a, b);
    MulMonotone(m, b + 1, a);
    assert m * (b + 1) == m * b + m;
  }

  /** Kept elements stay in order, so they never collide. */
  lemma PlacesIncrease<T>(s: seq<T>, isDummy: T -> bool, x: nat, y: nat, m: nat)
    requires Live(s, isDummy, x) && x < y < |s| && m > 0
    ensures Place(s, isDummy, x, m) < Place(s, isDummy, y, m)
  {
    BeforeGrows(s, isDummy, x + 1, y);
    RemainderGap(Before(s, isDummy, x), Before(s, isDummy, y), m);
  }

  lemma PlacesDiffer<T>(s: seq<T>, isDummy: T -> bool, x: nat, y: nat, m: nat)
    requires Live(s, isDummy, x) && Live(s, isDummy, y) && m > 0 && x != y
    ensures Place(s, isDummy, x, m) != Place(s, isDummy, y, m)
  {
    if x < y { PlacesIncrease(s, isDummy, x, y, m); }
    if y < x { PlacesIncrease(s, isDummy, y, x, m); }
  }

  /** Whether digit `m` of the distance of `x` is set. */
  ghost predicate Moves<T>(s: seq<T>, isDummy: T -> bool, x: nat, m: nat)
    requires x < |s| && m > 0
  {
    (Before(s, isDummy, x) / m) % 2 == 1
  }

  /** The step by digit `m`. */
  lemma PlaceStep<T>(s: seq<T>, isDummy: T -> bool, x: nat, m: nat)
    requires x < |s| && m > 0
    ensures !Moves(s, isDummy, x, m) ==>
      Place(s, isDummy, x, 2 * m) == Place(s, isDummy, x, m) && Left(s, isDummy, x, 2 * m) == Left(s, isDummy, x, m)
    ensures Moves(s, isDummy, x, m) ==>
      Place(s, isDummy, x, m) >= m && Left(s, isDummy, x, m) >= m
      && Place(s, isDummy, x, 2 * m) == Place(s, isDummy, x, m) - m
      && Left(s, isDummy, x, 2 * m) == Left(s, isDummy, x, m) - m
  {
    hide Before;
    StepOf(Before(s, isDummy, x), m);
  }

  lemma StepOf(d: nat, m: nat)
    requires m > 0
    ensures d % (2 * m) == d % m + (if (d / m) % 2 == 1 then m else 0)
    ensures (d / m) % 2 == 1 ==> d - d % m >= m
  {
    ModDouble(d, m);
    assert d == m * (d / m) + d % m;
    MulMonotone(m, 1, d / m);
  }

  /** The digit is read off what is left to move. */
  lemma {:induction false} DigitOfLeft<T>(s: seq<T>, isDummy: T -> bool, x: nat, k: nat)
    requires x < |s|
    ensures BitAnd(Left(s, isDummy, x, Pow2(k)), Pow2(k)) != 0 <==> Moves(s, isDummy, x, Pow2(k))
  {
    hide Pow2, BitAnd, Before;
    BitAndPow2(Left(s, isDummy, x, Pow2(k)), k);
    SameQuotient(Before(s, isDummy, x), Pow2(k));
  }

  // ---------------------------------------------------------------- the state of a pass

  /** The digit reached by `x` when the pass for digit `m` has treated the slots below `t`. */
  ghost function Digit<T>(s: seq<T>, isDummy: T -> bool, x: nat, m: nat, t: nat): (r: nat)
    requires x < |s| && m > 0
    ensures r > 0
  {
    if Place(s, isDummy, x, m) < t then 2 * m else m
  }

  ghost function Now<T>(s: seq<T>, isDummy: T -> bool, x: nat, m: nat, t: nat): (q: nat)
    requires x < |s| && m > 0
    ensures q <= x
  {
    Place(s, isDummy, x, Digit(s, isDummy, x, m, t))
  }

  ghost function LeftNow<T>(s: seq<T>, isDummy: T -> bool, x: nat, m: nat, t: nat): nat
    requires x < |s| && m > 0
  {
    Left(s, isDummy, x, Digit(s, isDummy, x, m, t))
  }

  /** Slot `q` holds kept element `at[q]`, or none when that is negative. */
  ghost predicate SlotOk<T>(s: seq<T>, isDummy: T -> bool, a: seq<T>, csum: seq<nat>, at: seq<int>, m: nat, t: nat,
                            q: nat)
    requires |a| == |csum| == |at| == |s| && m > 0 && q < |s|
  {
    if at[q] < 0 then csum[q] == 0
    else
      && Live(s, isDummy, at[q]) && a[q] == s[at[q]]
      && q == Now(s, isDummy, at[q], m, t) && csum[q] == LeftNow(s, isDummy, at[q], m, t)
  }

  /** Every kept element is where it should be after the slots below `t` were treated for digit `m`. */
  ghost predicate Shifted<T>(s: seq<T>, isDummy: T -> bool, a: seq<T>, csum: seq<nat>, at: seq<int>, m: nat, t: nat) {
    && |a| == |csum| == |at| == |s| && m > 0
    && (forall q: nat :: q < |s| ==> SlotOk(s, isDummy, a, csum, at, m, t, q))
    && (forall x: nat :: Live(s, isDummy, x) ==> at[Now(s, isDummy, x, m, t)] == x)
  }

  /** Treating slot `t` changes the digit of the element that was there, and of no other. */
  lemma NowStep<T>(s: seq<T>, isDummy: T -> bool, x: nat, m: nat, t: nat)
    requires x < |s| && m > 0
    ensures Place(s, isDummy, x, m) != t ==>
      Now(s, isDummy, x, m, t + 1) == Now(s, isDummy, x, m, t)
        && LeftNow(s, isDummy, x, m, t + 1) == LeftNow(s, isDummy, x, m, t)
    ensures Place(s, isDummy, x, m) == t ==>
      Now(s, isDummy, x, m, t) == t && LeftNow(s, isDummy, x, m, t) == Left(s, isDummy, x, m)
      && Now(s, isDummy, x, m, t + 1) == Place(s, isDummy, x, 2 * m)
      && LeftNow(s, isDummy, x, m, t + 1) == Left(s, isDummy, x, 2 * m)
  {
  }

  /** The element in slot `t`, which was not treated yet, was there before the pass. */
  lemma StillThere<T>(s: seq<T>, isDummy: T -> bool, x: nat, m: nat, t: nat)
    requires x < |s| && m > 0 && Now(s, isDummy, x, m, t) == t
    ensures Place(s, isDummy, x, m) == t
  {
    PlaceStep(s, isDummy, x, m);
  }

  /** A slot whose element does not move in this pass, or that holds none. */
  lemma SlotStays<T>(s: seq<T>, isDummy: T -> bool, a: seq<T>, csum: seq<nat>, at: seq<int>, m: nat, t: nat)
    requires Shifted(s, isDummy, a, csum, at, m, t) && t < |s|
    requires at[t] >= 0 ==> Live(s, isDummy, at[t]) && !Moves(s, isDummy, at[t], m)
    ensures Shifted(s, isDummy, a, csum, at, m, t + 1)
  {
    hide Place, Left, Now, LeftNow, Moves;
    var t' := t + 1;
    forall q: nat | q < |s| ensures SlotOk(s, isDummy, a, csum, at, m, t', q) {
      assert SlotOk(s, isDummy, a, csum, at, m, t, q);
      if at[q] >= 0 { StaysPut(s, isDummy, a, csum, at, m, t, at[q]); }
    }
    forall x: nat | Live(s, isDummy, x) ensures at[Now(s, isDummy, x, m, t + 1)] == x {
      StaysPut(s, isDummy, a, csum, at, m, t, x);
    }
  }

  lemma StaysPut<T>(s: seq<T>, isDummy: T -> bool, a: seq<T>, csum: seq<nat>, at: seq<int>, m: nat, t: nat, x: nat)
    requires Shifted(s, isDummy, a, csum, at, m, t) && t < |s| && Live(s, isDummy, x) && x < |s|
    requires at[t] >= 0 ==> at[t] < |s| && !Moves(s, isDummy, at[t], m)
    ensures Now(s, isDummy, x, m, t + 1) == Now(s, isDummy, x, m, t)
    ensures LeftNow(s, isDummy, x, m, t + 1) == LeftNow(s, isDummy, x, m, t)
  {
    hide Place, Left, Now, LeftNow, Moves, SlotOk;
    NowStep(s, isDummy, x, m, t);
    PlaceStep(s, isDummy, x, m);
    assert at[Now(s, isDummy, x, m, t)] == x;
  }

  /** A slot whose element moves: the slot it moves to holds none. */
  lemma SlotMoves<T>(s: seq<T>, isDummy: T -> bool, a: seq<T>, csum: seq<nat>, at: seq<int>, m: nat, t: nat)
    requires Shifted(s, isDummy, a, csum, at, m, t) && m <= t < |s|
    requires at[t] >= 0 && Live(s, isDummy, at[t]) && Moves(s, isDummy, at[t], m)
    ensures csum[t] >= m
    ensures Shifted(s, isDummy, a[t - m := a[t]][t := a[t - m]], csum[t - m := csum[t] - m][t := 0],
                    at[t - m := at[t]][t := -1], m, t + 1)
  {
    var j, x := t - m, at[t];
    assert SlotOk(s, isDummy, a, csum, at, m, t, t);
    StillThere(s, isDummy, x, m, t);
    PlaceStep(s, isDummy, x, m);
    NowStep(s, isDummy, x, m, t);
    hide Place, Left, Now, LeftNow, Moves;
    var a', csum', at' := a[j := a[t]][t := a[j]], csum[j := csum[t] - m][t := 0], at[j := at[t]][t := -1];
    var t' := t + 1;
    forall q: nat | q < |s| ensures SlotOk(s, isDummy, a', csum', at', m, t', q) {
      assert SlotOk(s, isDummy, a, csum, at, m, t, q);
      if q != j && q != t && at[q] >= 0 { OthersStay(s, isDummy, a, csum, at, m, t, at[q]); }
    }
    forall y: nat | Live(s, isDummy, y) ensures at'[Now(s, isDummy, y, m, t + 1)] == y {
      if y != x { OthersStay(s, isDummy, a, csum, at, m, t, y); }
    }
  }

  /** Every other element stays, and not in the slot that element at[t] moves to. */
  lemma OthersStay<T>(s: seq<T>, isDummy: T -> bool, a: seq<T>, csum: seq<nat>, at: seq<int>, m: nat, t: nat, y: nat)
    requires Shifted(s, isDummy, a, csum, at, m, t) && m <= t < |s|
    requires at[t] >= 0 && Live(s, isDummy, at[t]) && Moves(s, isDummy, at[t], m)
    requires y < |s| && Live(s, isDummy, y) && y != at[t]
    ensures Now(s, isDummy, y, m, t + 1) == Now(s, isDummy, y, m, t)
    ensures LeftNow(s, isDummy, y, m, t + 1) == LeftNow(s, isDummy, y, m, t)
    ensures Now(s, isDummy, y, m, t) != t && Now(s, isDummy, y, m, t) != t - m
  {
    var x := at[t];
    assert SlotOk(s, isDummy, a, csum, at, m, t, t);
    StillThere(s, isDummy, x, m, t);
    PlaceStep(s, isDummy, x, m);
    PlaceStep(s, isDummy, y, m);
    NowStep(s, isDummy, y, m, t);
    assert at[Now(s, isDummy, y, m, t)] == y;
    PlacesDiffer(s, isDummy, x, y, 2 * m);
    PlacesDiffer(s, isDummy, x, y, m);
  }

  /** Between passes: after the last slot all elements have taken the step, before slot `m` none has to. */
  lemma NextDigit<T>(s: seq<T>, isDummy: T -> bool, a: seq<T>, csum: seq<nat>, at: seq<int>, m: nat)
    requires Shifted(s, isDummy, a, csum, at, m, |s|)
    ensures Shifted(s, isDummy, a, csum, at, 2 * m, 0)
  {
    forall x: nat | x < |s|
      ensures Now(s, isDummy, x, 2 * m, 0) == Now(s, isDummy, x, m, |s|)
      ensures LeftNow(s, isDummy, x, 2 * m, 0) == LeftNow(s, isDummy, x, m, |s|)
    {
    }
    hide Place, Left, Now, LeftNow;
    Renamed(s, isDummy, a, csum, at, m, |s|, 2 * m, 0);
  }

  lemma FirstSlots<T>(s: seq<T>, isDummy: T -> bool, a: seq<T>, csum: seq<nat>, at: seq<int>, m: nat)
    requires Shifted(s, isDummy, a, csum, at, m, 0)
    ensures Shifted(s, isDummy, a, csum, at, m, m)
  {
    forall x: nat | x < |s|
      ensures Now(s, isDummy, x, m, m) == Now(s, isDummy, x, m, 0)
      ensures LeftNow(s, isDummy, x, m, m) == LeftNow(s, isDummy, x, m, 0)
    {
      PlaceStep(s, isDummy, x, m);
    }
    hide Place, Left, Now, LeftNow;
    Renamed(s, isDummy, a, csum, at, m, 0, m, m);
  }

  lemma Renamed<T>(s: seq<T>, isDummy: T -> bool, a: seq<T>, csum: seq<nat>, at: seq<int>, m: nat, t: nat, m': nat,
                   t': nat)
    requires Shifted(s, isDummy, a, csum, at, m, t) && m' > 0
    requires forall x: nat :: x < |s| ==>
      Now(s, isDummy, x, m', t') == Now(s, isDummy, x, m, t)
        && LeftNow(s, isDummy, x, m', t') == LeftNow(s, isDummy, x, m, t)
    ensures Shifted(s, isDummy, a, csum, at, m', t')
  {
    hide Now, LeftNow;
    forall q: nat | q < |s| ensures SlotOk(s, isDummy, a, csum, at, m', t', q) {
      assert SlotOk(s, isDummy, a, csum, at, m, t, q);
    }
  }

  // ---------------------------------------------------------------- the procedure

  /** The prefix sum of the kept elements. */
  ghost function KeptSum<T>(s: seq<T>, isDummy: T -> bool): (p: seq<nat>)
    ensures |p| == |s| + 1 && forall x :: 0 <= x <= |s| ==> p[x] == x - Before(s, isDummy, x)
  {
    seq(|s| + 1, x requires 0 <= x <= |s| => x - Before(s, isDummy, x))
  }

  lemma {:induction false} KeptSumCounts<T>(s: seq<T>, isDummy: T -> bool)
    ensures Counts(KeptSum(s, isDummy), s, isDummy) && Steps(KeptSum(s, isDummy))
    ensures forall x: nat :: x <= |s| ==> Rank(KeptSum(s, isDummy), x) == x - Before(s, isDummy, x)
  {
    var p := KeptSum(s, isDummy);
    forall i: nat | i < |s| ensures p[i] <= p[i + 1] <= p[i] + 1 && (Marked(p, i) <==> !isDummy(s[i])) {
      assert Before(s, isDummy, i + 1) == Before(s, isDummy, i) + (if isDummy(s[i]) then 1 else 0);
    }
  }

  /** After the last pass every kept element is at its rank. */
  lemma {:induction false} AllPlaced<T>(s: seq<T>, isDummy: T -> bool, a: seq<T>, csum: seq<nat>, at: seq<int>, m: nat)
    requires Shifted(s, isDummy, a, csum, at, m, 0) && |s| <= m && |a| == |s| && multiset(a) == multiset(s)
    ensures StablyCompacted(s, a, isDummy, |s| - Before(s, isDummy, |s|))
  {
    hide StablyCompacted, Shifted, Kept, Counts, KeptSum, Steps, Before, Rank;
    var p := KeptSum(s, isDummy);
    KeptSumCounts(s, isDummy);
    forall x: nat | x < |s| && !isDummy(s[x]) ensures Rank(p, x) < |a| && a[Rank(p, x)] == s[x] {
      PlacedAt(s, isDummy, a, csum, at, m, x);
    }
    KeptComeFirst(p, s, a, isDummy, |s|);
    assert s[..|s|] == s;
    DummiesComeLast(s, a, isDummy, Rank(p, |s|));
  }

  lemma PlacedAt<T>(s: seq<T>, isDummy: T -> bool, a: seq<T>, csum: seq<nat>, at: seq<int>, m: nat, x: nat)
    requires Shifted(s, isDummy, a, csum, at, m, 0) && |s| <= m && Live(s, isDummy, x)
    ensures a[x - Before(s, isDummy, x)] == s[x]
  {
    var q := Now(s, isDummy, x, m, 0);
    DivModUnique(Before(s, isDummy, x), m, 0, Before(s, isDummy, x));
    assert at[q] == x;
    assert SlotOk(s, isDummy, a, csum, at, m, 0, q);
  }

  /** The counters before the first pass. */
  ghost function StartSlots<T>(s: seq<T>, isDummy: T -> bool): (at: seq<int>)
    ensures |at| == |s| && forall q :: 0 <= q < |s| ==> at[q] == if isDummy(s[q]) then -1 else q
  {
    seq(|s|, q requires 0 <= q < |s| => if isDummy(s[q]) then -1 else q)
  }

  lemma {:induction false} Start<T>(s: seq<T>, isDummy: T -> bool, csum: seq<nat>)
    requires |csum| == |s|
    requires forall q: nat :: q < |s| ==> csum[q] == if isDummy(s[q]) then 0 else Before(s, isDummy, q)
    ensures Shifted(s, isDummy, s, csum, StartSlots(s, isDummy), 1, 0)
  {
  }

  /** Fills the counters; returns the number of dummies. */
  method CountDummies<T>(arr: array<T>, isDummy: T -> bool, csum: array<nat>) returns (dummyCount: nat)
    requires arr.Length > 0 && csum.Length == arr.Length && csum as object != arr
    modifies csum
    ensures dummyCount == Before(arr[..], isDummy, arr.Length)
    ensures forall q: nat :: q < arr.Length ==> csum[q] == if isDummy(arr[q]) then 0 else Before(arr[..], isDummy, q)
  {
    hide Before;
    ghost var s := arr[..];
    BeforeStep(s, isDummy, 0);
    csum[0] := 0;
    dummyCount := if isDummy(arr[0]) then 1 else 0;
    for i := 1 to arr.Length
      invariant arr[..] == s && dummyCount == Before(s, isDummy, i)
      invariant forall q: nat :: q < i ==> csum[q] == if isDummy(s[q]) then 0 else Before(s, isDummy, q)
    {
      BeforeStep(s, isDummy, i);
      csum[i] := 0;
      var pred := isDummy(arr[i]);
      if pred { dummyCount := dummyCount + 1; }
      if !pred { csum[i] := dummyCount; }
    }
  }

  lemma BeforeStep<T>(s: seq<T>, isDummy: T -> bool, x: nat)
    requires x < |s|
    ensures Before(s, isDummy, 0) == 0
    ensures Before(s, isDummy, x + 1) == Before(s, isDummy, x) + (if isDummy(s[x]) then 1 else 0)
  {
  }

  /** One pass: every element whose digit is set moves left by 2^i. */
  method ShiftPass<T>(arr: array<T>, csum: array<nat>, i: nat, ghost s: seq<T>, isDummy: T -> bool, ghost at0: seq<int>)
    returns (ghost at: seq<int>)
    requires csum as object != arr && csum.Length == arr.Length && Pow2(i) < arr.Length && |s| == arr.Length
    requires Shifted(s, isDummy, arr[..], csum[..], at0, Pow2(i), 0)
    modifies arr, csum
    ensures Shifted(s, isDummy, arr[..], csum[..], at, Pow2(i + 1), 0) && multiset(arr[..]) == multiset(old(arr[..]))
  {
    hide Pow2, BitAnd;
    hide Shifted;
    var offset := Pow2(i);
    at := at0;
    FirstSlots(s, isDummy, arr[..], csum[..], at, offset);
    for j := 0 to arr.Length - offset
      invariant Shifted(s, isDummy, arr[..], csum[..], at, offset, j + offset)
      invariant multiset(arr[..]) == multiset(old(arr[..]))
    {
      var a, b := j, j + offset;
      var pred := BitAnd(csum[b], offset) != 0;
      DigitAt(s, isDummy, arr[..], csum[..], at, i, b);
      if pred {
        SlotMoves(s, isDummy, arr[..], csum[..], at, offset, b);
        arr[a], arr[b] := arr[b], arr[a];
        csum[a] := csum[b] - offset;
        csum[b] := 0;
        at := at[a := at[b]][b := -1];
      } else {
        SlotStays(s, isDummy, arr[..], csum[..], at, offset, b);
      }
    }
    NextDigit(s, isDummy, arr[..], csum[..], at, offset);
    NextPower(i);
  }

  lemma NextPower(i: nat)
    ensures Pow2(i + 1) == 2 * Pow2(i)
  {
  }

  lemma {:induction false} DigitAt<T>(s: seq<T>, isDummy: T -> bool, a: seq<T>, csum: seq<nat>, at: seq<int>, i: nat,
                                      b: nat)
    requires Shifted(s, isDummy, a, csum, at, Pow2(i), b) && b < |s|
    ensures |at| == |csum| == |s|
    ensures BitAnd(csum[b], Pow2(i)) != 0 ==> at[b] >= 0 && Live(s, isDummy, at[b]) && Moves(s, isDummy, at[b], Pow2(i))
    ensures BitAnd(csum[b], Pow2(i)) == 0 && at[b] >= 0 ==>
      Live(s, isDummy, at[b]) && !Moves(s, isDummy, at[b], Pow2(i))
  {
    hide Pow2, BitAnd, Moves;
    var m := Pow2(i);
    assert SlotOk(s, isDummy, a, csum, at, m, b, b);
    if at[b] >= 0 {
      StillThere(s, isDummy, at[b], m, b);
      NowStep(s, isDummy, at[b], m, b);
      DigitOfLeft(s, isDummy, at[b], i);
    } else {
      NoDigits(i);
    }
  }

  lemma {:induction false} NoDigits(i: nat)
    ensures BitAnd(0, Pow2(i)) == 0
  {
    BitAndPow2(0, i);
    DivModUnique(0, Pow2(i), 0, 0);
  }

  /** Moves the elements that are not dummies to the front, in order, and returns how many there are. */
  method CompactGoodrich<T>(arr: array<T>, isDummy: T -> bool) returns (ret: nat)
    modifies arr
    ensures StablyCompacted(old(arr[..]), arr[..], isDummy, ret)
  {
    hide StablyCompacted, Shifted, Pow2, TrailingZeros, NextPowerOfTwo, Before, StartSlots;
    ghost var s := arr[..];
    if arr.Length == 0 {
      NothingToDo(s, isDummy);
      return 0;
    }
    var l2len := TrailingZeros(NextPowerOfTwo(arr.Length));
    PassCount(arr.Length);
    var csum := new nat[arr.Length];
    var dummyCount := CountDummies(arr, isDummy, csum);
    ret := arr.Length - dummyCount;
    ghost var at := StartSlots(s, isDummy);
    Start(s, isDummy, csum[..]);
    assert arr[..] == s;
    for i := 0 to l2len
      invariant Shifted(s, isDummy, arr[..], csum[..], at, Pow2(i), 0) && multiset(arr[..]) == multiset(s)
    {
      PassFits(arr.Length, i);
      at := ShiftPass(arr, csum, i, s, isDummy, at);
    }
    AllPlaced(s, isDummy, arr[..], csum[..], at, Pow2(l2len));
  }

  lemma NothingToDo<T>(s: seq<T>, isDummy: T -> bool)
    requires s == []
    ensures StablyCompacted(s, s, isDummy, 0)
  {
  }

  /** The least power of two that is at least `n`. */
  function NextPowerOfTwo(n: nat): (r: nat)
    requires n > 0
    ensures r > 0
  {
    if n == 1 then 1 else Pow2(Ilog2(n - 1) + 1)
  }

  lemma PassCount(n: nat)
    requires n > 0
    ensures n <= Pow2(TrailingZeros(NextPowerOfTwo(n))) && Pow2(0) == 1
  {
    if n == 1 { TrailingZerosOfPow2(0); } else { TrailingZerosOfPow2(Ilog2(n - 1) + 1); }
  }

  lemma {:induction false} PassFits(n: nat, i: nat)
    requires n > 0 && i < TrailingZeros(NextPowerOfTwo(n))
    ensures Pow2(i) < n
  {
    if n == 1 {
      TrailingZerosOfPow2(0);
    } else {
      TrailingZerosOfPow2(Ilog2(n - 1) + 1);
      Pow2Monotone(i, Ilog2(n - 1));
    }
  }

  /** Two stable compactions of the same sequence agree on the kept elements and on their number. */
  lemma CompactionsAgree<T>(s: seq<T>, r1: seq<T>, r2: seq<T>, isDummy: T -> bool, n1: nat, n2: nat)
    requires StablyCompacted(s, r1, isDummy, n1) && StablyCompacted(s, r2, isDummy, n2)
    ensures n1 == n2 && r1[..n1] == r2[..n1] && multiset(r1[n1..]) == multiset(r2[n1..])
  {
  }
}
