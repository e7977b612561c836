/** Batcher's odd-even merge sort in its iterative form, for any length. */
module Batcher {
  import opened Bits
  import opened Networks

  // ---------------------------------------------------------------- the network

  /** The slots x that round (p, k) compares with x + k. */
  ghost function Paired(p: nat, k: nat): nat -> bool
    requires p > 0 && k > 0
  {
    x => (x / k) % 2 == (if k == p then 0 else 1) && x / (2 * p) == (x + k) / (2 * p)
  }

  ghost function RoundNet(n: nat, p: nat, k: nat): Network
    requires 0 < k <= p < n
  {
    Layer(Paired(p, k), k, 0, n - k, true)
  }

  /** The first `m` rounds of the phase that merges blocks of 2^a; round m compares at distance 2^(a+1-m). */
  ghost function RoundsNet(n: nat, a: nat, m: nat): Network
    requires m <= a + 1 && Pow2(a) < n
  {
    if m == 0 then [] else (Pow2Monotone(a + 1 - m, a); RoundsNet(n, a, m - 1) + RoundNet(n, Pow2(a), Pow2(a + 1 - m)))
  }

  /** The first `a` phases. */
  ghost function PhasesNet(n: nat, a: nat): Network
    requires a == 0 || Pow2(a - 1) < n
  {
    if a == 0 then []
    else (Pow2Monotone(if a == 1 then 0 else a - 2, a - 1); PhasesNet(n, a - 1) + RoundsNet(n, a - 1, a))
  }

  /** The least a with 2^a >= n. */
  ghost function Phases(n: nat): nat {
    if n <= 1 then 0 else Ilog2(n - 1) + 1
  }

  lemma {:induction false} PhasesAre(n: nat, a: nat)
    ensures a < Phases(n) <==> Pow2(a) < n
  {
    if n > 1 {
      var l := Ilog2(n - 1);
      if a <= l { Pow2Monotone(a, l); } else { Pow2Monotone(l + 1, a); }
    }
  }

  ghost function BatcherNet(n: nat): Network {
    var a := Phases(n);
    if a > 0 then (PhasesAre(n, a - 1); PhasesNet(n, a)) else []
  }

  // ---------------------------------------------------------------- rows

  /** The sequence continued by ones. */
  ghost function At(b: seq<bool>, x: nat): bool {
    x < |b| ==> b[x]
  }

  /** Rows of width `w` from slot `s` on. */
  ghost function Rows(b: seq<bool>, s: nat, w: nat): (nat, nat) -> bool {
    (r: nat, c: nat) => At(b, s + r * w + c)
  }

  /** Along a row, down a column, or two rows further down anywhere. */
  ghost predicate Onward(r: nat, c: nat, t: nat, d: nat) {
    (t == r && c <= d) || (t == r + 1 && c == d) || t == r + 2
  }

  /** Ones stay ones onward: rows and columns are sorted, and a row is at most the whole row after the next. */
  ghost predicate Staircase(f: (nat, nat) -> bool, w: nat, rows: nat) {
    forall r: nat, c: nat, t: nat, d: nat :: r < rows && t < rows && c < w && d < w && Onward(r, c, t, d) && f(r, c) ==>
      f(t, d)
  }

  lemma Follows(f: (nat, nat) -> bool, w: nat, rows: nat, r: nat, c: nat, t: nat, d: nat)
    requires Staircase(f, w, rows) && r < rows && c < w && d < w && Onward(r, c, t, d)
    ensures t < rows && f(r, c) ==> f(t, d)
  {
  }

  ghost predicate HalvedBit(f: (nat, nat) -> bool, w: nat, r: nat, c: nat) {
    if r % 2 == 1 then f(r / 2, w + c) else f(r / 2, c)
  }

  /** Every row cut in two. */
  ghost function Halved(f: (nat, nat) -> bool, w: nat): (nat, nat) -> bool {
    (r: nat, c: nat) => HalvedBit(f, w, r, c)
  }

  ghost predicate ComparedBit(f: (nat, nat) -> bool, rows: nat, parity: nat, r: nat, c: nat) {
    if r % 2 == parity && r + 1 < rows then f(r, c) && f(r + 1, c)
    else if r > 0 && (r - 1) % 2 == parity then f(r - 1, c) || f(r, c)
    else f(r, c)
  }

  /** Each row of the given parity compared with the next one. */
  ghost function Compared(f: (nat, nat) -> bool, rows: nat, parity: nat): (nat, nat) -> bool {
    (r: nat, c: nat) => ComparedBit(f, rows, parity, r, c)
  }

  /** The heart of the merge: cutting the rows in two and comparing each odd row with the next keeps the staircase. */
  lemma StaircaseStep(f: (nat, nat) -> bool, w: nat, rows: nat)
    requires Staircase(f, 2 * w, rows)
    ensures Staircase(Compared(Halved(f, w), 2 * rows, 1), w, 2 * rows)
  {
    hide Staircase, Onward, Compared, Halved;
    var g := Compared(Halved(f, w), 2 * rows, 1);
    forall r: nat, c: nat, t: nat, d: nat
      | r < 2 * rows && t < 2 * rows && c < w && d < w && Onward(r, c, t, d) && g(r, c) ensures g(t, d)
    {
      StepFollows(f, w, rows, r, c, t, d);
    }
    Climbs(g, w, 2 * rows);
  }

  lemma Climbs(g: (nat, nat) -> bool, w: nat, rows: nat)
    requires forall r: nat, c: nat, t: nat, d: nat ::
             r < rows && t < rows && c < w && d < w && Onward(r, c, t, d) && g(r, c) ==> g(t, d)
    ensures Staircase(g, w, rows)
  {
  }

  lemma StepFollows(f: (nat, nat) -> bool, w: nat, rows: nat, r: nat, c: nat, t: nat, d: nat)
    requires Staircase(f, 2 * w, rows) && r < 2 * rows && t < 2 * rows && c < w && d < w && Onward(r, c, t, d)
    ensures Compared(Halved(f, w), 2 * rows, 1)(r, c) ==> Compared(Halved(f, w), 2 * rows, 1)(t, d)
  {
    hide Staircase, Compared, Halved;
    var q, u := r / 2, t / 2;
    assert (r == 2 * q || r == 2 * q + 1) && (t == 2 * u || t == 2 * u + 1);
    CutRow(f, w, rows, q, c);
    CutRow(f, w, rows, u, d);
    HalfRow(f, w, rows, q, c, d);
    if q > 0 { HalfRow(f, w, rows, q - 1, c, d); }
    if q + 1 < rows { HalfRow(f, w, rows, q + 1, c, d); }
  }

  /** The two rows that row `q` becomes. */
  lemma CutRow(f: (nat, nat) -> bool, w: nat, rows: nat, q: nat, c: nat)
    requires q < rows
    ensures Compared(Halved(f, w), 2 * rows, 1)(2 * q, c) <==> (q > 0 && f(q - 1, w + c)) || f(q, c)
    ensures Compared(Halved(f, w), 2 * rows, 1)(2 * q + 1, c) <==> f(q, w + c) && (q + 1 < rows ==> f(q + 1, c))
  {
    hide Halved;
    HalvedAt(f, w, q, c);
    HalvedAt(f, w, q + 1, c);
    if q > 0 {
      HalvedAt(f, w, q - 1, c);
      assert 2 * (q - 1) + 1 == 2 * q - 1;
    }
  }

  lemma HalvedAt(f: (nat, nat) -> bool, w: nat, q: nat, c: nat)
    ensures Halved(f, w)(2 * q, c) == f(q, c) && Halved(f, w)(2 * q + 1, c) == f(q, w + c)
  {
    hide Halved;
    HalvedRowOf(f, w, 2 * q, q, c);
    HalvedRowOf(f, w, 2 * q + 1, q, c);
  }

  lemma HalvedRowOf(f: (nat, nat) -> bool, w: nat, r: nat, q: nat, c: nat)
    requires r / 2 == q
    ensures Halved(f, w)(r, c) == if r % 2 == 1 then f(q, w + c) else f(q, c)
  {
  }

  /** What a staircase says about the two halves of row `q` and the rows after it. */
  lemma HalfRow(f: (nat, nat) -> bool, w: nat, rows: nat, q: nat, c: nat, d: nat)
    requires Staircase(f, 2 * w, rows) && q < rows && c < w && d < w
    ensures f(q, c) ==> f(q, w + d)
    ensures c <= d ==> (f(q, c) ==> f(q, d)) && (f(q, w + c) ==> f(q, w + d))
    ensures q + 1 < rows ==> (f(q, c) ==> f(q + 1, c)) && (f(q, w + c) ==> f(q + 1, w + c))
    ensures q + 2 < rows ==> (f(q, w + c) ==> f(q + 2, d))
  {
    hide Staircase;
    Follows(f, 2 * w, rows, q, c, q, w + d);
    Follows(f, 2 * w, rows, q, c, q + 1, c);
    Follows(f, 2 * w, rows, q, w + c, q + 1, w + c);
    Follows(f, 2 * w, rows, q, w + c, q + 2, d);
    if c <= d {
      Follows(f, 2 * w, rows, q, c, q, d);
      Follows(f, 2 * w, rows, q, w + c, q, w + d);
    }
  }

  lemma SameStaircase(f: (nat, nat) -> bool, g: (nat, nat) -> bool, w: nat, rows: nat)
    requires Staircase(f, w, rows) && forall r: nat, c: nat :: r < rows && c < w ==> g(r, c) == f(r, c)
    ensures Staircase(g, w, rows)
  {
    hide Onward;
  }

  /** Comparing two sorted rows slot by slot gives a staircase. */
  lemma FirstStaircase(f: (nat, nat) -> bool, w: nat)
    requires forall r: nat, c: nat, d: nat :: r < 2 && c <= d < w && f(r, c) ==> f(r, d)
    ensures Staircase(Compared(f, 2, 0), w, 2)
  {
  }

  // ---------------------------------------------------------------- what a round does

  lemma RoundFits(n: nat, p: nat, k: nat)
    requires 0 < k <= p < n
    ensures LayerFits(Paired(p, k), k, 0, n - k, n)
  {
    forall x: nat | Paired(p, k)(x) ensures !Paired(p, k)(x + k) { NotTwice(p, k, x); }
    hide Paired;
    assert LayerFits(Paired(p, k), k, 0, n - k, n);
  }

  lemma {:induction false} RoundAt(b: seq<bool>, p: nat, k: nat, x: nat)
    requires 0 < k <= p < |b|
    ensures At(Apply(RoundNet(|b|, p, k), b, BoolLe), x) ==
            if Paired(p, k)(x) then At(b, x) && At(b, x + k)
            else if x >= k && Paired(p, k)(x - k) then At(b, x - k) || At(b, x)
            else At(b, x)
  {
    RoundFits(|b|, p, k);
    var r := Apply(RoundNet(|b|, p, k), b, BoolLe);
    hide Apply, Layer, LayerFits, Paired, AfterLayer, At;
    if x < |b| { LayerEffect(b, Paired(p, k), k, 0, |b| - k, x); }
    if x >= k && Paired(p, k)(x - k) { NotTwice(p, k, x - k); }
    PaddedLayer(b, r, Paired(p, k), k, x);
  }

  lemma PaddedLayer(b: seq<bool>, r: seq<bool>, f: nat -> bool, k: nat, x: nat)
    requires 0 < k < |b| == |r| && (x < |b| ==> r[x] == AfterLayer(b, f, k, 0, |b| - k, x))
    requires x >= k && f(x - k) ==> !f(x)
    ensures At(r, x) ==
            if f(x) then At(b, x) && At(b, x + k)
            else if x >= k && f(x - k) then At(b, x - k) || At(b, x)
            else At(b, x)
  {
  }

  lemma NotTwice(p: nat, k: nat, x: nat)
    requires p > 0 && k > 0 && Paired(p, k)(x)
    ensures !Paired(p, k)(x + k)
  {
    QuotientShift(x, k);
  }

  lemma RowFits(k: nat, r: nat, rows: nat)
    requires r < rows
    ensures r * k + k <= rows * k
    ensures r + 1 < rows ==> r * k + 2 * k <= rows * k
    ensures r + 1 == rows ==> r * k + k == rows * k
  {
    MulMonotone(k, r + 1, rows);
    if r + 1 < rows { MulMonotone(k, r + 2, rows); }
  }

  /** Quotients of a slot of row `r` in block `q` of `rows` rows of width `k`. */
  lemma RowQuotient(k: nat, rows: nat, q: nat, r: nat, c: nat, x: nat)
    requires r < rows && c < k && x == q * (rows * k) + r * k + c
    ensures rows * k > 0
    ensures x / k == q * rows + r && x / (rows * k) == q
  {
    RowFits(k, r, rows);
    var t := rows * k;
    assert t > 0;
    DivModUnique(x, t, q, r * k + c) by { assert t * q == q * (rows * k); }
    RowNumber(k, rows, q, r);
    DivModUnique(x, k, q * rows + r, c);
  }

  lemma RowNumber(k: nat, rows: nat, q: nat, r: nat)
    ensures q * (rows * k) + r * k == k * (q * rows + r)
  {
    assert q * (rows * k) == (q * rows) * k;
  }

  /** A slot and the one below it lie in the same block unless the row is the last. */
  lemma RowBelow(k: nat, rows: nat, q: nat, r: nat, c: nat, x: nat)
    requires r < rows && c < k && x == q * (rows * k) + r * k + c
    ensures rows * k > 0
    ensures (x + k) / (rows * k) == q <==> r + 1 < rows
  {
    RowFits(k, r, rows);
    if r + 1 < rows {
      assert (r + 1) * k == r * k + k;
      RowQuotient(k, rows, q, r + 1, c, x + k);
    } else {
      assert (q + 1) * (rows * k) == q * (rows * k) + rows * k;
      assert 0 * k == 0;
      RowQuotient(k, rows, q + 1, 0, c, x + k);
    }
  }

  /** Which slots of block `q` of 2p are compared with the next row. */
  lemma PairedRow(p: nat, k: nat, rows: nat, q: nat, r: nat, c: nat, x: nat)
    requires 2 * p == rows * k && rows % 2 == 0 && r < rows && c < k && x == q * (2 * p) + r * k + c
    ensures p > 0
    ensures Paired(p, k)(x) <==> r % 2 == (if k == p then 0 else 1) && r + 1 < rows
  {
    RowQuotient(k, rows, q, r, c, x);
    RowBelow(k, rows, q, r, c, x);
    EvenRows(q, rows, r);
  }

  lemma EvenRows(q: nat, rows: nat, r: nat)
    requires rows % 2 == 0
    ensures (q * rows + r) % 2 == r % 2
  {
    assert q * rows == 2 * (q * (rows / 2));
  }

  /** Which slots of block `q` of 2p are compared with the previous row. */
  lemma PairedAbove(p: nat, k: nat, rows: nat, q: nat, r: nat, c: nat, x: nat)
    requires 0 < p && 2 * p == rows * k && rows % 2 == 0 && r < rows && c < k && x == q * (2 * p) + r * k + c
    ensures x >= k && Paired(p, k)(x - k) <==> r > 0 && (r - 1) % 2 == (if k == p then 0 else 1)
  {
    hide Paired;
    if r > 0 {
      assert (r - 1) * k == r * k - k;
      MulMonotone(k, 1, r);
      PairedRow(p, k, rows, q, r - 1, c, x - k);
    } else if q > 0 {
      assert (q - 1) * (2 * p) == q * (2 * p) - 2 * p;
      MulMonotone(2 * p, 1, q);
      RowFits(k, rows - 1, rows);
      PairedRow(p, k, rows, q - 1, rows - 1, c, x - k);
    } else {
      assert x == c;
    }
  }

  /** A round compares rows. */
  lemma {:induction false} RoundRows(b: seq<bool>, p: nat, k: nat, rows: nat, q: nat, r: nat, c: nat)
    requires 0 < k <= p < |b| && 2 * p == rows * k && rows % 2 == 0 && r < rows && c < k
    ensures Rows(Apply(RoundNet(|b|, p, k), b, BoolLe), q * (2 * p), k)(r, c) ==
            Compared(Rows(b, q * (2 * p), k), rows, if k == p then 0 else 1)(r, c)
  {
    hide Apply, RoundNet, Paired, At, Rows, Compared;
    var s, res := q * (2 * p), Apply(RoundNet(|b|, p, k), b, BoolLe);
    var x := s + r * k + c;
    RoundAt(b, p, k, x);
    PairedRow(p, k, rows, q, r, c, x);
    PairedAbove(p, k, rows, q, r, c, x);
    Neighbours(b, s, k, r, c, x);
    Neighbours(res, s, k, r, c, x);
    ComparedAt(Rows(b, s, k), rows, if k == p then 0 else 1, r, c);
  }

  lemma ComparedAt(f: (nat, nat) -> bool, rows: nat, parity: nat, r: nat, c: nat)
    ensures Compared(f, rows, parity)(r, c) ==
            if r % 2 == parity && r + 1 < rows then f(r, c) && f(r + 1, c)
            else if r > 0 && (r - 1) % 2 == parity then f(r - 1, c) || f(r, c)
            else f(r, c)
  {
  }

  lemma Neighbours(b: seq<bool>, s: nat, k: nat, r: nat, c: nat, x: nat)
    requires x == s + r * k + c
    ensures Rows(b, s, k)(r, c) == At(b, x) && Rows(b, s, k)(r + 1, c) == At(b, x + k)
    ensures r > 0 ==> x >= k && Rows(b, s, k)(r - 1, c) == At(b, x - k)
  {
    hide At;
    assert (r + 1) * k == r * k + k;
    if r > 0 {
      MulMonotone(k, 1, r);
      assert (r - 1) * k == r * k - k;
    }
  }

  // ---------------------------------------------------------------- a phase

  ghost predicate BlockSorted(b: seq<bool>, s: nat, w: nat) {
    forall x: nat, y: nat :: s <= x <= y < s + w && At(b, x) ==> At(b, y)
  }

  /** Every block of width `w` is sorted. */
  ghost predicate BlocksSorted(b: seq<bool>, w: nat) {
    forall q: nat :: BlockSorted(b, q * w, w)
  }

  /** Every block of 2p is a staircase of rows of width `k`. */
  ghost predicate Staircases(b: seq<bool>, p: nat, k: nat, rows: nat) {
    forall q: nat :: Staircase(Rows(b, q * (2 * p), k), k, rows)
  }

  lemma {:induction false} FirstRound(b: seq<bool>, p: nat)
    requires 0 < p < |b| && BlocksSorted(b, p)
    ensures Staircases(Apply(RoundNet(|b|, p, p), b, BoolLe), p, p, 2)
  {
    hide Apply, RoundNet, Compared, Staircase;
    var b' := Apply(RoundNet(|b|, p, p), b, BoolLe);
    forall q: nat ensures Staircase(Rows(b', q * (2 * p), p), p, 2) {
      var f := Rows(b, q * (2 * p), p);
      BothRowsSorted(b, p, q);
      FirstStaircase(f, p);
      forall r: nat, c: nat | r < 2 && c < p ensures Rows(b', q * (2 * p), p)(r, c) == Compared(f, 2, 0)(r, c) {
        RoundRows(b, p, p, 2, q, r, c);
      }
      SameStaircase(Compared(f, 2, 0), Rows(b', q * (2 * p), p), p, 2);
    }
  }

  lemma BothRowsSorted(b: seq<bool>, p: nat, q: nat)
    requires BlocksSorted(b, p)
    ensures forall r: nat, c: nat, d: nat :: r < 2 && c <= d < p && Rows(b, q * (2 * p), p)(r, c) ==>
      Rows(b, q * (2 * p), p)(r, d)
  {
    hide At;
    assert q * (2 * p) == (2 * q) * p && (2 * q + 1) * p == (2 * q) * p + p;
    assert BlockSorted(b, (2 * q) * p, p) && BlockSorted(b, (2 * q + 1) * p, p);
  }

  /** Rows of width `k` fill a block of 2p. */
  ghost predicate Tiled(p: nat, k: nat, rows: nat) {
    2 * p == rows * k
  }

  lemma {:induction false} NextRound(b: seq<bool>, p: nat, k: nat, rows: nat)
    requires 0 < k < p < |b| && Tiled(p, 2 * k, rows) && Staircases(b, p, 2 * k, rows)
    ensures Staircases(Apply(RoundNet(|b|, p, k), b, BoolLe), p, k, 2 * rows)
  {
    hide Apply, RoundNet, Compared, Staircase, Rows, Halved;
    var b' := Apply(RoundNet(|b|, p, k), b, BoolLe);
    assert rows * (2 * k) == (2 * rows) * k;
    forall q: nat ensures Staircase(Rows(b', q * (2 * p), k), k, 2 * rows) {
      var f := Rows(b, q * (2 * p), 2 * k);
      StaircaseStep(f, k, rows);
      var g := Compared(Halved(f, k), 2 * rows, 1);
      forall r: nat, c: nat | r < 2 * rows && c < k ensures Rows(b', q * (2 * p), k)(r, c) == g(r, c) {
        RoundRows(b, p, k, 2 * rows, q, r, c);
        HalvedRows(b, q * (2 * p), k, rows, r, c);
      }
      SameStaircase(g, Rows(b', q * (2 * p), k), k, 2 * rows);
    }
  }

  lemma HalvedRows(b: seq<bool>, s: nat, k: nat, rows: nat, r: nat, c: nat)
    ensures Compared(Halved(Rows(b, s, 2 * k), k), 2 * rows, 1)(r, c) == Compared(Rows(b, s, k), 2 * rows, 1)(r, c)
  {
    hide Rows;
    HalvedRow(b, s, k, r, c);
    HalvedRow(b, s, k, r + 1, c);
    if r > 0 { HalvedRow(b, s, k, r - 1, c); }
  }

  lemma HalvedRow(b: seq<bool>, s: nat, k: nat, r: nat, c: nat)
    ensures Halved(Rows(b, s, 2 * k), k)(r, c) == Rows(b, s, k)(r, c)
  {
    hide Rows, Halved;
    var q := r / 2;
    HalvedAt(Rows(b, s, 2 * k), k, q, c);
    RowHalves(b, s, k, q, c);
    assert r == 2 * q || r == 2 * q + 1;
  }

  lemma RowHalves(b: seq<bool>, s: nat, k: nat, q: nat, c: nat)
    ensures Rows(b, s, 2 * k)(q, c) == Rows(b, s, k)(2 * q, c)
    ensures Rows(b, s, 2 * k)(q, k + c) == Rows(b, s, k)(2 * q + 1, c)
  {
    hide At;
    assert q * (2 * k) == (2 * q) * k && (2 * q + 1) * k == (2 * q) * k + k;
  }

  /** After the last round, at distance one, the blocks of 2p are sorted. */
  lemma LastRound(b: seq<bool>, p: nat)
    requires Staircases(b, p, 1, 2 * p)
    ensures BlocksSorted(b, 2 * p)
  {
    forall q: nat ensures BlockSorted(b, q * (2 * p), 2 * p) {
      var s := q * (2 * p);
      forall x: nat, y: nat | s <= x <= y < s + 2 * p && At(b, x) ensures At(b, y) {
        assert At(b, s + (x - s));
        ColumnSorted(b, s, 2 * p, x - s, y - s);
      }
    }
  }

  lemma {:induction false} ColumnSorted(b: seq<bool>, s: nat, rows: nat, c: nat, d: nat)
    requires Staircase(Rows(b, s, 1), 1, rows) && c <= d < rows && At(b, s + c)
    ensures At(b, s + d)
    decreases d
  {
    if c < d {
      ColumnSorted(b, s, rows, c, d - 1);
      Follows(Rows(b, s, 1), 1, rows, d - 1, 0, d, 0);
    }
  }

  /** What the first `m` rounds of a phase leave. */
  ghost predicate RoundsDone(b: seq<bool>, a: nat, m: nat) {
    m <= a + 1 && Staircases(b, Pow2(a), Pow2(a + 1 - m), Pow2(m))
  }

  /** The rounds of a phase, one by one. */
  lemma {:induction false} RoundsKeepStaircases(b: seq<bool>, a: nat, m: nat)
    requires 0 < m <= a + 1 && Pow2(a) < |b| && BlocksSorted(b, Pow2(a))
    ensures RoundsDone(Apply(RoundsNet(|b|, a, m), b, BoolLe), a, m)
  {
    hide Apply, RoundNet, RoundsDone, BlocksSorted, RoundsNet, Pow2;
    RoundsNetStep(|b|, a, m);
    var net := RoundsNet(|b|, a, m - 1);
    ApplyConcat(net, RoundNet(|b|, Pow2(a), Pow2(a + 1 - m)), b, BoolLe);
    if m == 1 {
      NoRounds(b, a);
      FirstRoundDone(b, a);
    } else {
      RoundsKeepStaircases(b, a, m - 1);
      NextRoundDone(Apply(net, b, BoolLe), a, m);
    }
  }

  lemma {:induction false} FirstRoundDone(b: seq<bool>, a: nat)
    requires Pow2(a) < |b| && BlocksSorted(b, Pow2(a))
    ensures RoundsDone(Apply(RoundNet(|b|, Pow2(a), Pow2(a)), b, BoolLe), a, 1)
  {
    hide Apply, RoundNet, Staircases, BlocksSorted, Pow2;
    RoundWidths(a, 1);
    FirstRound(b, Pow2(a));
  }

  lemma NextRoundDone(b: seq<bool>, a: nat, m: nat)
    requires 1 < m <= a + 1 && Pow2(a + 1 - m) <= Pow2(a) < |b| && RoundsDone(b, a, m - 1)
    ensures RoundsDone(Apply(RoundNet(|b|, Pow2(a), Pow2(a + 1 - m)), b, BoolLe), a, m)
  {
    hide Apply, RoundNet, Staircases, Pow2, Tiled;
    RoundWidths(a, m);
    NextRound(b, Pow2(a), Pow2(a + 1 - m), Pow2(m - 1));
  }

  lemma RoundWidths(a: nat, m: nat)
    requires 0 < m <= a + 1
    ensures m == 1 ==> Pow2(a + 1 - m) == Pow2(a) && Pow2(m) == 2
    ensures m > 1 ==> Pow2(a + 1 - (m - 1)) == 2 * Pow2(a + 1 - m) && Pow2(m) == 2 * Pow2(m - 1)
    ensures m > 1 ==> Pow2(a + 1 - m) < Pow2(a) && Tiled(Pow2(a), 2 * Pow2(a + 1 - m), Pow2(m - 1))
  {
    if m > 1 {
      Pow2Add(m - 1, a + 1 - (m - 1));
      Pow2Monotone(a + 1 - m, a);
    } else {
      assert Pow2(1) == 2 * Pow2(0);
    }
  }

  lemma RoundsNetStep(n: nat, a: nat, m: nat)
    requires 0 < m <= a + 1 && Pow2(a) < n
    ensures Pow2(a + 1 - m) <= Pow2(a)
    ensures RoundsNet(n, a, m) == RoundsNet(n, a, m - 1) + RoundNet(n, Pow2(a), Pow2(a + 1 - m))
  {
    Pow2Monotone(a + 1 - m, a);
  }

  lemma {:induction false} NoRounds(b: seq<bool>, a: nat)
    requires Pow2(a) < |b|
    ensures Apply(RoundsNet(|b|, a, 0), b, BoolLe) == b
  {
  }

  /** A phase doubles the width of the sorted blocks. */
  lemma PhaseSorts(b: seq<bool>, a: nat)
    requires Pow2(a) < |b| && BlocksSorted(b, Pow2(a))
    ensures BlocksSorted(Apply(RoundsNet(|b|, a, a + 1), b, BoolLe), Pow2(a + 1))
  {
    hide Apply, RoundsNet, Staircases, BlocksSorted;
    RoundsKeepStaircases(b, a, a + 1);
    assert Pow2(a + 1 - (a + 1)) == 1;
    LastRound(Apply(RoundsNet(|b|, a, a + 1), b, BoolLe), Pow2(a));
  }

  lemma PhasesNetStep(n: nat, a: nat)
    requires a > 0 && Pow2(a - 1) < n
    ensures a > 1 ==> Pow2(a - 2) < n
    ensures PhasesNet(n, a) == PhasesNet(n, a - 1) + RoundsNet(n, a - 1, a)
  {
    hide RoundsNet;
    Pow2Monotone(if a == 1 then 0 else a - 2, a - 1);
  }

  lemma UnitBlocks(b: seq<bool>)
    ensures BlocksSorted(b, 1)
  {
  }

  lemma {:induction false} PhasesSort(b: seq<bool>, a: nat)
    requires a == 0 || Pow2(a - 1) < |b|
    ensures BlocksSorted(Apply(PhasesNet(|b|, a), b, BoolLe), Pow2(a))
  {
    if a == 0 {
      assert Pow2(0) == 1;
      UnitBlocks(Apply([], b, BoolLe));
    } else {
      hide Apply, RoundsNet, BlocksSorted, Pow2, PhasesNet;
      PhasesNetStep(|b|, a);
      PhasesSort(b, a - 1);
      ApplyConcat(PhasesNet(|b|, a - 1), RoundsNet(|b|, a - 1, a), b, BoolLe);
      PhaseSorts(Apply(PhasesNet(|b|, a - 1), b, BoolLe), a - 1);
    }
  }

  lemma BatcherSortsBits(n: nat)
    ensures SortsBits(BatcherNet(n), n)
  {
    hide Apply, PhasesNet, BlocksSorted;
    forall b: seq<bool> | |b| == n ensures Sorted(Apply(BatcherNet(n), b, BoolLe), BoolLe) {
      var a := Phases(n);
      if a > 0 {
        PhasesAre(n, a - 1);
        PhasesAre(n, a);
        PhasesSort(b, a);
        OneBlockSorted(Apply(PhasesNet(n, a), b, BoolLe), Pow2(a));
      }
    }
  }

  lemma OneBlockSorted(b: seq<bool>, w: nat)
    requires BlocksSorted(b, w) && |b| <= w
    ensures Sorted(b, BoolLe)
  {
    assert BlockSorted(b, 0 * w, w);
    forall i, j | 0 <= i < j < |b| ensures BoolLe(b[i], b[j]) {
      if b[i] { assert At(b, i); assert At(b, j); }
    }
  }

  lemma {:induction false} RoundsWithin(n: nat, a: nat, m: nat)
    requires m <= a + 1 && Pow2(a) < n
    ensures Within(RoundsNet(n, a, m), 0, n)
  {
    if m > 0 {
      hide Pow2, RoundsNet;
      RoundsWithin(n, a, m - 1);
      RoundsNetStep(n, a, m);
      RoundWithin(n, Pow2(a), Pow2(a + 1 - m));
    } else {
      assert RoundsNet(n, a, 0) == [];
    }
  }

  lemma RoundWithin(n: nat, p: nat, k: nat)
    requires 0 < k <= p < n
    ensures Within(RoundNet(n, p, k), 0, n)
  {
    hide Paired;
    LayerWithin(Paired(p, k), k, 0, n - k, true, n);
    assert Within(Layer(Paired(p, k), k, 0, n - k, true), 0, n);
  }

  lemma {:induction false} PhasesWithin(n: nat, a: nat)
    requires a == 0 || Pow2(a - 1) < n
    ensures Within(PhasesNet(n, a), 0, n)
  {
    hide PhasesNet, RoundsNet, Within, Pow2;
    if a == 0 {
      NoPhases(n);
      EmptyWithin(0, n);
    } else {
      PhasesNetStep(n, a);
      PhasesWithin(n, a - 1);
      RoundsWithin(n, a - 1, a);
      WithinConcat(PhasesNet(n, a - 1), RoundsNet(n, a - 1, a), 0, n);
    }
  }

  lemma {:induction false} NoPhases(n: nat)
    ensures PhasesNet(n, 0) == []
  {
  }

  /** The network sorts every sequence, whatever its length and order. */
  lemma {:induction false} BatcherSorts<T(!new)>(s: seq<T>, le: (T, T) -> bool)
    requires TotalPreorder(le)
    ensures SortedPermutation(s, Apply(BatcherNet(|s|), s, le), le)
  {
    hide Apply, PhasesNet, Sorted, TotalPreorder;
    var a := Phases(|s|);
    if a > 0 {
      PhasesAre(|s|, a - 1);
      PhasesWithin(|s|, a);
    }
    BatcherSortsBits(|s|);
    ZeroOnePrinciple(BatcherNet(|s|), s, le);
  }

  // ---------------------------------------------------------------- in place

  lemma RowParity(p: nat, k: nat, m: nat, j: nat, i: nat)
    requires 0 < k && 0 < p && j == m * k && i < k
    ensures Paired(p, k)(j + i) <==> m % 2 == (if k == p then 0 else 1) && (j + i) / (2 * p) == (j + i + k) / (2 * p)
  {
    DivModUnique(j + i, k, m, i);
  }

  /** The slots of the next row are not compared. */
  lemma IdleRow(p: nat, k: nat, m: nat, j: nat)
    requires 0 < k && 0 < p && j == m * k && m % 2 == (if k == p then 1 else 0)
    ensures forall x: nat :: j <= x < j + k ==> !Paired(p, k)(x)
  {
    hide Paired;
    forall x: nat | j <= x < j + k ensures !Paired(p, k)(x) {
      RowParity(p, k, m, j, x - j);
    }
  }

  /** Slot `j` begins row `m`, whose parity is that of the rows that round (p, k) compares with the next ones. */
  ghost predicate RowAt(p: nat, k: nat, m: nat, j: nat) {
    j == m * k && m % 2 == (if k == p then 0 else 1)
  }

  lemma FirstRow(p: nat, k: nat)
    requires 0 < k <= p
    ensures RowAt(p, k, if k == p then 0 else 1, k % p)
    ensures forall x: nat :: x < k % p ==> !Paired(p, k)(x)
  {
    hide Paired;
    if k < p { IdleRow(p, k, 0, 0); }
  }

  /** The layer reaches the same comparators when its end moves past an idle row. */
  lemma {:induction false} SkipRow(p: nat, k: nat, m: nat, j: nat, end: nat)
    requires 0 < k && 0 < p && RowAt(p, k, m, j) && j < end
    ensures Layer(Paired(p, k), k, 0, Min(j + k, end), true) == Layer(Paired(p, k), k, 0, Min(j + 2 * k, end), true)
    ensures RowAt(p, k, m + 2, j + 2 * k)
  {
    hide Paired, Layer;
    if j + k < end {
      assert j + k == (m + 1) * k;
      IdleRow(p, k, m + 1, j + k);
      var top := Min(j + 2 * k, end);
      LayerSplit(Paired(p, k), k, 0, j + k, top, true);
      LayerIdle(Paired(p, k), k, j + k, top, true);
    }
  }

  /** One step of the inner loop: compares slot `x` with slot x + k when they lie in the same block of 2p. */
  method CompareWithin<T>(arr: array<T>, p: nat, k: nat, ghost m: nat, i: nat, j: nat, ghost s: seq<T>,
                          le: (T, T) -> bool)
    requires 0 < k && 0 < p && j == m * k && m % 2 == (if k == p then 0 else 1) && i < k && i + j + k < arr.Length
    requires arr[..] == Apply(Layer(Paired(p, k), k, 0, j + i, true), s, le)
    modifies arr
    ensures arr[..] == Apply(Layer(Paired(p, k), k, 0, j + i + 1, true), s, le)
  {
    hide Apply, Paired, Layer, Exchange;
    RowParity(p, k, m, j, i);
    LayerStep(Paired(p, k), k, 0, j + i + 1, true);
    if (i + j) / (p * 2) == (i + j + k) / (p * 2) {
      ApplyOne(Layer(Paired(p, k), k, 0, j + i, true), Comparator(i + j, i + j + k, true), s, le);
      CompareSwap(arr, i + j, i + j + k, le);
    }
  }

  /** Round (p, k) in ascending order. */
  method Round<T>(arr: array<T>, p: nat, k: nat, le: (T, T) -> bool)
    requires 0 < k <= p < arr.Length
    modifies arr
    ensures arr[..] == Apply(RoundNet(arr.Length, p, k), old(arr[..]), le)
  {
    hide Apply, Paired, Layer;
    ghost var s := arr[..];
    var n := arr.Length;
    var j := k % p;
    ghost var m := if k == p then 0 else 1;
    FirstRow(p, k);
    LayerIdle(Paired(p, k), k, 0, Min(j, n - k), true);
    ApplyNone(s, le);
    while j < n - k
      invariant RowAt(p, k, m, j)
      invariant arr[..] == Apply(Layer(Paired(p, k), k, 0, Min(j, n - k), true), s, le)
    {
      for i := 0 to Min(k, n - j - k)
        invariant arr[..] == Apply(Layer(Paired(p, k), k, 0, j + i, true), s, le)
      {
        CompareWithin(arr, p, k, m, i, j, s, le);
      }
      SkipRow(p, k, m, j, n - k);
      j := j + 2 * k;
      m := m + 2;
    }
  }

  /** A phase: rounds at distance p, p/2, ..., 1. */
  method MergePhase<T>(arr: array<T>, p: nat, ghost a: nat, le: (T, T) -> bool)
    requires p == Pow2(a) < arr.Length
    modifies arr
    ensures arr[..] == Apply(RoundsNet(arr.Length, a, a + 1), old(arr[..]), le)
  {
    hide Apply, Pow2, RoundNet, RoundsNet;
    ghost var s := arr[..];
    ghost var m := 0;
    var k := p;
    StartRounds(arr.Length, a, s, le);
    while k > 0
      invariant m <= a + 1 && k == RoundDistance(a, m)
      invariant arr[..] == Apply(RoundsNet(arr.Length, a, m), s, le)
    {
      RoundDistances(a, m);
      RoundsNetStep(arr.Length, a, m + 1);
      ApplyConcat(RoundsNet(arr.Length, a, m), RoundNet(arr.Length, p, k), s, le);
      Round(arr, p, k, le);
      k := k / 2;
      m := m + 1;
    }
    RoundDistances(a, m);
  }

  /** The value of the distance counter after `m` rounds. */
  ghost function RoundDistance(a: nat, m: nat): nat
    requires m <= a + 1
  {
    if m == a + 1 then 0 else Pow2(a - m)
  }

  lemma {:induction false} StartRounds<T>(n: nat, a: nat, s: seq<T>, le: (T, T) -> bool)
    requires Pow2(a) < n
    ensures Apply(RoundsNet(n, a, 0), s, le) == s && RoundDistance(a, 0) == Pow2(a)
  {
  }

  lemma RoundDistances(a: nat, m: nat)
    requires m <= a + 1
    ensures m <= a ==>
      RoundDistance(a, m) == Pow2(a + 1 - (m + 1)) <= Pow2(a) && RoundDistance(a, m + 1) == RoundDistance(a, m) / 2
    ensures RoundDistance(a, m) == 0 <==> m == a + 1
  {
    if m <= a {
      Pow2Monotone(a - m, a);
      if m < a { assert Pow2(a - m) == 2 * Pow2(a - m - 1); } else { assert Pow2(0) == 1; }
    }
  }

  /** The sort as published: sorts an array of any length in place. */
  method BatcherSortPaper<T(!new)>(arr: array<T>, le: (T, T) -> bool)
    requires TotalPreorder(le)
    modifies arr
    ensures arr[..] == Apply(BatcherNet(arr.Length), old(arr[..]), le)
    ensures SortedPermutation(old(arr[..]), arr[..], le)
  {
    hide Apply, Pow2, RoundsNet, PhasesNet, Phases, TotalPreorder, SortedPermutation;
    ghost var s := arr[..];
    BatcherSorts(s, le);
    var n := arr.Length;
    var p := 1;
    ghost var a := 0;
    StartPhases(n, s, le);
    while p < n
      invariant p == Pow2(a) && (a == 0 || Pow2(a - 1) < n)
      invariant arr[..] == Apply(PhasesNet(n, a), s, le)
      decreases n - p
    {
      NextPhase(n, a, s, le);
      MergePhase(arr, p, a, le);
      p := p * 2;
      a := a + 1;
    }
    LastPhase(n, a, s, le);
  }

  lemma {:induction false} StartPhases<T>(n: nat, s: seq<T>, le: (T, T) -> bool)
    ensures Pow2(0) == 1 && Apply(PhasesNet(n, 0), s, le) == s
  {
  }

  lemma NextPhase<T>(n: nat, a: nat, s: seq<T>, le: (T, T) -> bool)
    requires Pow2(a) < n
    ensures Pow2(a + 1) == 2 * Pow2(a) && (a > 0 ==> Pow2(a - 1) < n)
    ensures Apply(PhasesNet(n, a + 1), s, le) == Apply(RoundsNet(n, a, a + 1), Apply(PhasesNet(n, a), s, le), le)
  {
    hide Apply, PhasesNet, RoundsNet;
    PhasesNetStep(n, a + 1);
    ApplyConcat(PhasesNet(n, a), RoundsNet(n, a, a + 1), s, le);
  }

  lemma LastPhase<T>(n: nat, a: nat, s: seq<T>, le: (T, T) -> bool)
    requires n <= Pow2(a) && (a == 0 || Pow2(a - 1) < n)
    ensures Apply(PhasesNet(n, a), s, le) == Apply(BatcherNet(n), s, le)
  {
    hide Apply, Phases;
    PhasesAre(n, a);
    if a > 0 { PhasesAre(n, a - 1); }
    assert Phases(n) == a;
  }

  // ---------------------------------------------------------------- the faster variant

  ghost predicate Disjoint(c: Comparator, d: Comparator) {
    c.left != d.left && c.left != d.right && c.right != d.left && c.right != d.right
  }

  lemma ExchangesCommute<T>(s: seq<T>, c: Comparator, d: Comparator, le: (T, T) -> bool)
    requires Disjoint(c, d)
    ensures Exchange(Exchange(s, c, le), d, le) == Exchange(Exchange(s, d, le), c, le)
  {
  }

  /** A comparator may be moved before comparators that touch other slots. */
  lemma {:induction false} MoveBefore<T>(a: Network, b: Network, c: Comparator, s: seq<T>, le: (T, T) -> bool)
    requires forall i :: 0 <= i < |b| ==> Disjoint(c, b[i])
    ensures Exchange(Apply(a + b, s, le), c, le) == Apply(a + ([c] + b), s, le)
  {
    hide Exchange, Disjoint;
    if b == [] {
      assert a + b == a && a + ([c] + b) == a + [c];
      ApplyOne(a, c, s, le);
    } else {
      var b', d := b[..|b| - 1], b[|b| - 1];
      assert a + b == (a + b') + [d] && a + ([c] + b) == (a + ([c] + b')) + [d];
      ApplyOne(a + b', d, s, le);
      ApplyOne(a + ([c] + b'), d, s, le);
      MoveBefore(a, b', c, s, le);
      ExchangesCommute(Apply(a + b', s, le), c, d, le);
    }
  }

  lemma {:induction false} LayerDisjoint(f: nat -> bool, k: nat, lo: nat, hi: nat, x: nat)
    requires x < lo && hi <= x + k
    ensures forall i :: 0 <= i < |Layer(f, k, lo, hi, true)| ==>
      Disjoint(Comparator(x, x + k, true), Layer(f, k, lo, hi, true)[i])
    decreases hi
  {
    if lo < hi { LayerDisjoint(f, k, lo, hi - 1, x); }
  }

  /** Comparing slot `x` after the later slots of its row has the same effect as before them. */
  lemma {:induction false} DescendingStep<T>(f: nat -> bool, k: nat, base: nat, x: nat, hi: nat, s: seq<T>,
                                             le: (T, T) -> bool)
    requires base <= x < hi <= x + k && f(x)
    ensures Exchange(Apply(Layer(f, k, 0, base, true) + Layer(f, k, x + 1, hi, true), s, le),
                     Comparator(x, x + k, true), le)
         == Apply(Layer(f, k, 0, base, true) + Layer(f, k, x, hi, true), s, le)
  {
    hide Apply, Exchange;
    var c := Comparator(x, x + k, true);
    LayerSplit(f, k, x, x + 1, hi, true);
    assert Layer(f, k, x, x + 1, true) == [c];
    LayerDisjoint(f, k, x + 1, hi, x);
    MoveBefore(Layer(f, k, 0, base, true), Layer(f, k, x + 1, hi, true), c, s, le);
  }

  /** Whether a slot is compared depends on its row only. */
  lemma SameForRow(p: nat, k: nat, rows: nat, m: nat, j: nat, i: nat)
    requires 0 < k && 0 < p && 2 * p == rows * k && j == m * k && i < k && m % 2 == (if k == p then 0 else 1)
    ensures Paired(p, k)(j + i) <==> j / (2 * p) == (j + k) / (2 * p)
  {
    hide Paired;
    RowParity(p, k, m, j, i);
    BlockOfRow(k, rows, m, 0, j);
    BlockOfRow(k, rows, m, i, j + i);
    assert (m + 1) * k == j + k;
    BlockOfRow(k, rows, m + 1, 0, j + k);
    BlockOfRow(k, rows, m + 1, i, j + k + i);
  }

  lemma BlockOfRow(k: nat, rows: nat, m: nat, i: nat, x: nat)
    requires i < k && rows > 0 && x == m * k + i
    ensures rows * k > 0 && x / (rows * k) == m / rows
  {
    var q, r := m / rows, m % rows;
    assert m * k == q * (rows * k) + r * k by { assert m == rows * q + r; assert (rows * q) * k == q * (rows * k); }
    RowQuotient(k, rows, q, r, i, x);
  }

  /** Round (p, k) of the faster variant: one test for each row, and rows in descending order. */
  method DescendingRound<T>(arr: array<T>, p: nat, k: nat, ghost a: nat, ghost rows: nat, le: (T, T) -> bool)
    requires 0 < k <= p < arr.Length && p == Pow2(a) && Tiled(p, k, rows)
    modifies arr
    ensures arr[..] == Apply(RoundNet(arr.Length, p, k), old(arr[..]), le)
  {
    hide Apply, Paired, Layer, Pow2, RowAt, Tiled;
    ghost var s := arr[..];
    var n := arr.Length;
    BitAndLowOnes(k, a);
    var j := BitAnd(k, p - 1);
    ghost var m := if k == p then 0 else 1;
    FirstRow(p, k);
    LayerIdle(Paired(p, k), k, 0, Min(j, n - k), true);
    ApplyNone(s, le);
    while j < n - k
      invariant RowAt(p, k, m, j)
      invariant arr[..] == Apply(Layer(Paired(p, k), k, 0, Min(j, n - k), true), s, le)
    {
      DescendingRow(arr, p, k, a, rows, m, j, s, le);
      SkipRow(p, k, m, j, n - k);
      j := j + 2 * k;
      m := m + 2;
    }
  }

  /** One row of the faster variant. */
  method DescendingRow<T>(arr: array<T>, p: nat, k: nat, ghost a: nat, ghost rows: nat, ghost m: nat, j: nat,
                          ghost s: seq<T>, le: (T, T) -> bool)
    requires 0 < k <= p < arr.Length && p == Pow2(a) && Tiled(p, k, rows)
    requires RowAt(p, k, m, j) && j + k < arr.Length
    requires arr[..] == Apply(Layer(Paired(p, k), k, 0, j, true), s, le)
    modifies arr
    ensures arr[..] == Apply(Layer(Paired(p, k), k, 0, Min(j + k, arr.Length - k), true), s, le)
  {
    hide Apply, Paired, Layer, Exchange, Pow2, RowAt, Tiled;
    ghost var f := Paired(p, k);
    var n := arr.Length;
    var count := Min(k, n - j - k);
    RowIsUniform(p, k, rows, m, j);
    DoubledPower(a);
    SameAfterLowOnes(j, j + k, a + 1);
    LayerSplit(f, k, 0, j, j + count, true);
    if BitOr(j, 2 * p - 1) == BitOr(j + k, 2 * p - 1) {
      var i := count;
      NoneYet(f, k, j, j + count);
      while i > 0
        invariant 0 <= i <= count
        invariant arr[..] == Apply(Layer(f, k, 0, j, true) + Layer(f, k, j + i, j + count, true), s, le)
      {
        i := i - 1;
        DescendingStep(f, k, j, j + i, j + count, s, le);
        CompareSwap(arr, i + j, i + j + k, le);
      }
    } else {
      LayerIdle(f, k, j, j + count, true);
      assert Layer(f, k, 0, j, true) + [] == Layer(f, k, 0, j, true);
    }
  }

  lemma RowIsUniform(p: nat, k: nat, rows: nat, m: nat, j: nat)
    requires 0 < k && 0 < p && Tiled(p, k, rows) && RowAt(p, k, m, j)
    ensures forall x: nat :: j <= x < j + k ==> (Paired(p, k)(x) <==> j / (2 * p) == (j + k) / (2 * p))
  {
    hide Paired;
    forall x: nat | j <= x < j + k ensures Paired(p, k)(x) <==> j / (2 * p) == (j + k) / (2 * p) {
      SameForRow(p, k, rows, m, j, x - j);
    }
  }

  lemma DoubledPower(a: nat)
    ensures Pow2(a + 1) == 2 * Pow2(a)
  {
  }

  lemma {:induction false} NoneYet(f: nat -> bool, k: nat, j: nat, x: nat)
    ensures Layer(f, k, 0, j, true) + Layer(f, k, x, x, true) == Layer(f, k, 0, j, true)
  {
  }

  /** A phase of the faster variant. */
  method DescendingPhase<T>(arr: array<T>, p: nat, ghost a: nat, le: (T, T) -> bool)
    requires p == Pow2(a) < arr.Length
    modifies arr
    ensures arr[..] == Apply(RoundsNet(arr.Length, a, a + 1), old(arr[..]), le)
  {
    hide Apply, Pow2, RoundNet, RoundsNet;
    ghost var s := arr[..];
    ghost var m := 0;
    var k := p;
    StartRounds(arr.Length, a, s, le);
    while k > 0
      invariant m <= a + 1 && k == RoundDistance(a, m)
      invariant arr[..] == Apply(RoundsNet(arr.Length, a, m), s, le)
    {
      RoundDistances(a, m);
      RoundsNetStep(arr.Length, a, m + 1);
      ApplyConcat(RoundsNet(arr.Length, a, m), RoundNet(arr.Length, p, k), s, le);
      RowsOfRound(a, m);
      DescendingRound(arr, p, k, a, Pow2(m + 1), le);
      k := k / 2;
      m := m + 1;
    }
    RoundDistances(a, m);
  }

  lemma RowsOfRound(a: nat, m: nat)
    requires m <= a
    ensures 2 * Pow2(a) == Pow2(m + 1) * Pow2(a - m)
  {
    Pow2Add(m + 1, a - m);
    assert (m + 1) + (a - m) == a + 1;
  }

  /** The variant with a single test for each row does the same to every array as the published sort. */
  method BatcherSortUntrustedButFaster<T(!new)>(arr: array<T>, le: (T, T) -> bool)
    requires TotalPreorder(le)
    modifies arr
    ensures arr[..] == Apply(BatcherNet(arr.Length), old(arr[..]), le)
    ensures SortedPermutation(old(arr[..]), arr[..], le)
  {
    hide Apply, Pow2, RoundsNet, PhasesNet, Phases, TotalPreorder, SortedPermutation;
    ghost var s := arr[..];
    BatcherSorts(s, le);
    var n := arr.Length;
    var p := 1;
    ghost var a := 0;
    StartPhases(n, s, le);
    while p < n
      invariant p == Pow2(a) && (a == 0 || Pow2(a - 1) < n)
      invariant arr[..] == Apply(PhasesNet(n, a), s, le)
      decreases n - p
    {
      NextPhase(n, a, s, le);
      DescendingPhase(arr, p, a, le);
      p := p * 2;
      a := a + 1;
    }
    LastPhase(n, a, s, le);
  }
}
