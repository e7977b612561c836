/** Comparator networks: lists of compare-exchange steps that do not depend on the data, and the 0-1 principle. */
module Networks {
  import opened Sequences

  /** Compares the elements at `left` and `right` and exchanges them when they are out of order; with `up` the smaller
      one goes to `left`. */
  datatype Comparator = Comparator(left: nat, right: nat, up: bool)

  type Network = seq<Comparator>

  ghost predicate TotalPreorder<T(!new)>(le: (T, T) -> bool) {
    && (forall x, y :: le(x, y) || le(y, x))
    && (forall x, y, z :: le(x, y) && le(y, z) ==> le(x, z))
  }

  ghost predicate Sorted<T>(s: seq<T>, le: (T, T) -> bool) {
    forall i, j :: 0 <= i < j < |s| ==> le(s[i], s[j])
  }

  ghost predicate Within(net: Network, lo: nat, hi: nat) {
    forall i :: 0 <= i < |net| ==> lo <= net[i].left < hi && lo <= net[i].right < hi && net[i].left != net[i].right
  }

  lemma EmptyWithin(lo: nat, hi: nat)
    ensures Within([], lo, hi)
  {
  }

  lemma WithinConcat(a: Network, b: Network, lo: nat, hi: nat)
    requires Within(a, lo, hi) && Within(b, lo, hi)
    ensures Within(a + b, lo, hi)
  {
  }

  /** Ascending steps exchange strict inversions only; descending steps exchange ties as well. */
  predicate MustSwap<T>(x: T, y: T, up: bool, le: (T, T) -> bool) {
    if up then !le(x, y) else le(x, y)
  }

  function Exchange<T>(s: seq<T>, c: Comparator, le: (T, T) -> bool): (r: seq<T>)
    ensures |r| == |s|
  {
    if c.left < |s| && c.right < |s| && MustSwap(s[c.left], s[c.right], c.up, le)
    then s[c.left := s[c.right]][c.right := s[c.left]] else s
  }

  function Apply<T>(net: Network, s: seq<T>, le: (T, T) -> bool): (r: seq<T>)
    ensures |r| == |s|
  {
    if net == [] then s else Exchange(Apply(net[..|net| - 1], s, le), net[|net| - 1], le)
  }

  lemma {:induction false} ApplyOne<T>(net: Network, c: Comparator, s: seq<T>, le: (T, T) -> bool)
    ensures Apply(net + [c], s, le) == Exchange(Apply(net, s, le), c, le)
  {
    assert (net + [c])[..|net|] == net;
  }

  lemma {:induction false} ApplyConcat<T>(a: Network, b: Network, s: seq<T>, le: (T, T) -> bool)
    ensures Apply(a + b, s, le) == Apply(b, Apply(a, s, le), le)
  {
    if b == [] {
      assert a + b == a;
    } else {
      var b', c := b[..|b| - 1], b[|b| - 1];
      assert a + b == (a + b') + [c] && b == b' + [c];
      ApplyConcat(a, b', s, le);
      ApplyOne(a + b', c, s, le);
    }
  }

  /** A network only rearranges. */
  lemma {:induction false} ApplyPermutes<T>(net: Network, s: seq<T>, le: (T, T) -> bool)
    requires Within(net, 0, |s|)
    ensures multiset(Apply(net, s, le)) == multiset(s)
  {
    if net != [] {
      var r, c := Apply(net[..|net| - 1], s, le), net[|net| - 1];
      ApplyPermutes(net[..|net| - 1], s, le);
      ExchangePermutes(r, c.left, c.right);
    }
  }

  /** A network confined to a range leaves the rest alone. */
  lemma {:induction false} ApplyOutside<T>(net: Network, lo: nat, hi: nat, s: seq<T>, le: (T, T) -> bool, x: nat)
    requires Within(net, lo, hi) && hi <= |s| && x < |s| && !(lo <= x < hi)
    ensures Apply(net, s, le)[x] == s[x]
  {
    if net != [] {
      ApplyOutside(net[..|net| - 1], lo, hi, s, le, x);
    }
  }

  /** A network confined to a range keeps any property that all elements of the range have. */
  lemma {:induction false} ApplyInside<T>(net: Network, lo: nat, hi: nat, s: seq<T>, le: (T, T) -> bool, p: T -> bool)
    requires Within(net, lo, hi) && hi <= |s| && forall x :: lo <= x < hi ==> p(s[x])
    ensures forall x :: lo <= x < hi ==> p(Apply(net, s, le)[x])
  {
    if net != [] {
      ApplyInside(net[..|net| - 1], lo, hi, s, le, p);
    }
  }

  // ---------------------------------------------------------------- the 0-1 principle

  function BoolLe(a: bool, b: bool): bool { a ==> b }

  function Map<T, U>(s: seq<T>, f: T -> U): (r: seq<U>)
    ensures |r| == |s|
  {
    seq(|s|, i requires 0 <= i < |s| => f(s[i]))
  }

  ghost predicate Monotone<T(!new)>(f: T -> bool, le: (T, T) -> bool) {
    forall x, y :: le(x, y) && f(x) ==> f(y)
  }

  lemma ExchangeCommutes<T(!new)>(s: seq<T>, c: Comparator, le: (T, T) -> bool, f: T -> bool)
    requires TotalPreorder(le) && Monotone(f, le) && c.left != c.right
    ensures Map(Exchange(s, c, le), f) == Exchange(Map(s, f), c, BoolLe)
  {
    if c.left < |s| && c.right < |s| {
      var x, y := s[c.left], s[c.right];
      assert le(x, y) || le(y, x);
    }
  }

  lemma {:induction false} ApplyCommutes<T(!new)>(net: Network, s: seq<T>, le: (T, T) -> bool, f: T -> bool)
    requires TotalPreorder(le) && Monotone(f, le) && Within(net, 0, |s|)
    ensures Map(Apply(net, s, le), f) == Apply(net, Map(s, f), BoolLe)
  {
    if net != [] {
      ApplyCommutes(net[..|net| - 1], s, le, f);
      ExchangeCommutes(Apply(net[..|net| - 1], s, le), net[|net| - 1], le, f);
    }
  }

  ghost predicate SortsBits(net: Network, n: nat) {
    forall b: seq<bool> :: |b| == n ==> Sorted(Apply(net, b, BoolLe), BoolLe)
  }

  /** The 0-1 principle: a network that sorts all sequences of bits sorts everything, for every order. */
  lemma {:induction false} ZeroOnePrinciple<T(!new)>(net: Network, s: seq<T>, le: (T, T) -> bool)
    requires TotalPreorder(le) && Within(net, 0, |s|) && SortsBits(net, |s|)
    ensures Sorted(Apply(net, s, le), le) && multiset(Apply(net, s, le)) == multiset(s)
  {
    ApplyPermutes(net, s, le);
    var r := Apply(net, s, le);
    forall i, j | 0 <= i < j < |r| ensures le(r[i], r[j]) {
      var t := r[j];
      var above := (x: T) => !le(x, t);
      ApplyCommutes(net, s, le, above);
      assert Sorted(Apply(net, Map(s, above), BoolLe), BoolLe);
      assert BoolLe(Map(r, above)[i], Map(r, above)[j]);
      assert le(t, t);
    }
  }

  // ---------------------------------------------------------------- descending networks

  function Not(b: seq<bool>): (r: seq<bool>)
    ensures |r| == |b| && forall i :: 0 <= i < |b| ==> r[i] == !b[i]
  {
    seq(|b|, i requires 0 <= i < |b| => !b[i])
  }

  function Flip(net: Network): (r: Network)
    ensures |r| == |net|
    ensures forall i :: 0 <= i < |net| ==> r[i] == net[i].(up := !net[i].up)
  {
    seq(|net|, i requires 0 <= i < |net| => net[i].(up := !net[i].up))
  }

  lemma FlipConcat(a: Network, b: Network)
    ensures Flip(a + b) == Flip(a) + Flip(b) && Flip([]) == []
  {
  }

  /** Turning every comparator round is the same as turning every bit round, before and after. */
  lemma {:induction false} FlipIsNot(net: Network, b: seq<bool>)
    requires Within(net, 0, |b|)
    ensures Apply(Flip(net), b, BoolLe) == Not(Apply(net, Not(b), BoolLe))
  {
    if net == [] {
      assert Not(Not(b)) == b;
    } else {
      var net', c := net[..|net| - 1], net[|net| - 1];
      assert Flip(net)[..|net| - 1] == Flip(net');
      FlipIsNot(net', b);
    }
  }

  // ---------------------------------------------------------------- layers

  /** The comparators (x, x + d) for the active x in [lo, hi), in ascending order. */
  ghost function Layer(active: nat -> bool, d: nat, lo: nat, hi: nat, up: bool): Network {
    if hi <= lo then []
    else Layer(active, d, lo, hi - 1, up) + (if active(hi - 1) then [Comparator(hi - 1, hi - 1 + d, up)] else [])
  }

  lemma {:induction false} LayerSplit(active: nat -> bool, d: nat, lo: nat, mid: nat, hi: nat, up: bool)
    requires lo <= mid <= hi
    ensures Layer(active, d, lo, hi, up) == Layer(active, d, lo, mid, up) + Layer(active, d, mid, hi, up)
    decreases hi
  {
    if mid < hi { LayerSplit(active, d, lo, mid, hi - 1, up); }
  }

  lemma {:induction false} LayerIdle(active: nat -> bool, d: nat, lo: nat, hi: nat, up: bool)
    requires forall x: nat :: lo <= x < hi ==> !active(x)
    ensures Layer(active, d, lo, hi, up) == []
    decreases hi
  {
    if lo < hi { LayerIdle(active, d, lo, hi - 1, up); }
  }

  lemma {:induction false} LayerWithin(active: nat -> bool, d: nat, lo: nat, hi: nat, up: bool, top: nat)
    requires d > 0 && forall x: nat :: lo <= x < hi && active(x) ==> x + d < top
    ensures Within(Layer(active, d, lo, hi, up), lo, top)
    decreases hi
  {
    if lo < hi { LayerWithin(active, d, lo, hi - 1, up, top); }
  }

  lemma {:induction false} LayerFlip(active: nat -> bool, d: nat, lo: nat, hi: nat, up: bool)
    ensures Layer(active, d, lo, hi, !up) == Flip(Layer(active, d, lo, hi, up))
    decreases hi
  {
    if lo < hi { LayerFlip(active, d, lo, hi - 1, up); }
  }

  /** What a layer of disjoint ascending comparators does to each bit. */
  ghost function AfterLayer(b: seq<bool>, active: nat -> bool, d: nat, lo: nat, hi: nat, x: nat): bool
    requires x < |b|
  {
    if lo <= x < hi && active(x) && x + d < |b| then b[x] && b[x + d]
    else if lo + d <= x < hi + d && active(x - d) then b[x - d] || b[x]
    else b[x]
  }

  /** The comparators of a layer touch no element twice. */
  ghost predicate LayerFits(active: nat -> bool, d: nat, lo: nat, hi: nat, n: nat) {
    && d > 0
    && (forall x: nat :: lo <= x < hi && active(x) ==> x + d < n)
    && (forall x: nat :: lo <= x < hi && active(x) && x + d < hi ==> !active(x + d))
  }

  lemma {:induction false} LayerEffect(b: seq<bool>, active: nat -> bool, d: nat, lo: nat, hi: nat, x: nat)
    requires LayerFits(active, d, lo, hi, |b|) && x < |b|
    ensures Apply(Layer(active, d, lo, hi, true), b, BoolLe)[x] == AfterLayer(b, active, d, lo, hi, x)
    decreases hi
  {
    if lo < hi {
      hide AfterLayer, Exchange, Apply, Layer;
      var top := hi - 1;
      var net := Layer(active, d, lo, top, true);
      LayerStep(active, d, lo, hi, true);
      LayerEffect(b, active, d, lo, top, x);
      if active(top) {
        ApplyOne(net, Comparator(top, top + d, true), b, BoolLe);
        LayerEffect(b, active, d, lo, top, top);
        LayerEffect(b, active, d, lo, top, top + d);
        LastComparator(b, Apply(net, b, BoolLe), active, d, lo, hi, x);
      } else {
        IdleTop(b, active, d, lo, hi, x);
      }
    } else {
      NoLayer(b, active, d, lo, hi);
    }
  }

  lemma LayerStep(active: nat -> bool, d: nat, lo: nat, hi: nat, up: bool)
    requires lo < hi
    ensures active(hi - 1) ==>
      Layer(active, d, lo, hi, up) == Layer(active, d, lo, hi - 1, up) + [Comparator(hi - 1, hi - 1 + d, up)]
    ensures !active(hi - 1) ==> Layer(active, d, lo, hi, up) == Layer(active, d, lo, hi - 1, up)
  {
  }

  lemma IdleTop(b: seq<bool>, active: nat -> bool, d: nat, lo: nat, hi: nat, x: nat)
    requires lo < hi && x < |b| && !active(hi - 1)
    ensures AfterLayer(b, active, d, lo, hi - 1, x) == AfterLayer(b, active, d, lo, hi, x)
  {
  }

  lemma {:induction false} NoLayer(b: seq<bool>, active: nat -> bool, d: nat, lo: nat, hi: nat)
    requires hi <= lo
    ensures Apply(Layer(active, d, lo, hi, true), b, BoolLe) == b
    ensures forall x: nat :: x < |b| ==> AfterLayer(b, active, d, lo, hi, x) == b[x]
  {
  }

  lemma LastComparator(b: seq<bool>, r: seq<bool>, active: nat -> bool, d: nat, lo: nat, hi: nat, x: nat)
    requires LayerFits(active, d, lo, hi, |b|) && x < |b| == |r| && lo < hi && active(hi - 1)
    requires r[x] == AfterLayer(b, active, d, lo, hi - 1, x)
    requires r[hi - 1] == AfterLayer(b, active, d, lo, hi - 1, hi - 1)
    requires r[hi - 1 + d] == AfterLayer(b, active, d, lo, hi - 1, hi - 1 + d)
    ensures Exchange(r, Comparator(hi - 1, hi - 1 + d, true), BoolLe)[x] == AfterLayer(b, active, d, lo, hi, x)
  {
    if lo + d <= hi - 1 { Untouched(active, d, lo, hi, |b|, hi - 1); }
    assert r[hi - 1] == b[hi - 1] && r[hi - 1 + d] == b[hi - 1 + d];
  }

  lemma Untouched(active: nat -> bool, d: nat, lo: nat, hi: nat, n: nat, x: nat)
    requires LayerFits(active, d, lo, hi, n) && lo + d <= x < hi && active(x)
    ensures !active(x - d)
  {
    var y: nat := x - d;
    assert y + d == x;
  }

  // ---------------------------------------------------------------- networks in place

  ghost predicate SortedPermutation<T>(s: seq<T>, r: seq<T>, le: (T, T) -> bool) {
    Sorted(r, le) && multiset(r) == multiset(s)
  }

  lemma {:induction false} ApplyNone<T>(s: seq<T>, le: (T, T) -> bool)
    ensures Apply([], s, le) == s
  {
  }

  lemma {:induction false} LayerGrows<T>(f: nat -> bool, d: nat, lo: nat, x: nat, up: bool, net: Network, s: seq<T>,
                                         le: (T, T) -> bool)
    requires lo <= x && f(x)
    ensures Apply(net + Layer(f, d, lo, x + 1, up), s, le) ==
            Exchange(Apply(net + Layer(f, d, lo, x, up), s, le), Comparator(x, x + d, up), le)
  {
    hide Apply, Exchange;
    var layer, c := Layer(f, d, lo, x, up), Comparator(x, x + d, up);
    assert net + (layer + [c]) == (net + layer) + [c];
    ApplyOne(net + layer, c, s, le);
  }

  /** The compare-swap step of the sorters without payload. */
  method CompareSwap<T>(arr: array<T>, left: nat, right: nat, le: (T, T) -> bool)
    requires left < arr.Length && right < arr.Length && left != right
    modifies arr
    ensures arr[..] == Exchange(old(arr[..]), Comparator(left, right, true), le)
  {
    if !le(arr[left], arr[right]) {
      arr[left], arr[right] := arr[right], arr[left];
    }
  }
}
