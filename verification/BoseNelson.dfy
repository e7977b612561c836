/** The Bose-Nelson sorting network, for any length. */
module BoseNelson {
  import opened Bits
  import opened Networks

  /** The sizes a merge is called with: both positive, and at most one apart. */
  ghost predicate Balanced(size1: nat, size2: nat) {
    0 < size1 <= size2 + 1 && 0 < size2 <= size1 + 1
  }

  /** The part of the second range that is merged with the first half of the first one. */
  function SecondCut(size1: nat, size2: nat): nat {
    if size1 % 2 == 0 then (size2 + 1) / 2 else size2 / 2
  }

  predicate IsBase(size1: nat, size2: nat) {
    (size1 == 1 && size2 <= 2) || (size1 == 2 && size2 == 1)
  }

  /** All three recursive calls are balanced again, and the cut leaves no part of the second range too long. */
  lemma CutsAreBalanced(size1: nat, size2: nat)
    requires Balanced(size1, size2) && !IsBase(size1, size2)
    ensures var s1, s2 := size1 / 2, SecondCut(size1, size2);
            && 0 < s1 < size1 && 0 < s2 < size2
            && Balanced(s1, s2) && Balanced(size1 - s1, size2 - s2) && Balanced(size1 - s1, s2)
            && s1 <= s2 && size2 - s2 <= size1 - s1
  {
  }

  ghost function MergeNet(start1: nat, size1: nat, start2: nat, size2: nat): Network
    requires Balanced(size1, size2)
    decreases size1 + size2
  {
    if size1 == 1 && size2 == 1 then [Comparator(start1, start2, true)]
    else if size1 == 1 && size2 == 2 then [Comparator(start1, start2 + 1, true), Comparator(start1, start2, true)]
    else if size1 == 2 && size2 == 1 then [Comparator(start1, start2, true), Comparator(start1 + 1, start2, true)]
    else
      var s1, s2 := size1 / 2, SecondCut(size1, size2);
      CutsAreBalanced(size1, size2);
      MergeNet(start1, s1, start2, s2)
      + MergeNet(start1 + s1, size1 - s1, start2 + s2, size2 - s2)
      + MergeNet(start1 + s1, size1 - s1, start2, s2)
  }

  ghost function SortNet(start: nat, size: nat): Network
    decreases size
  {
    if size <= 1 then []
    else
      var half := size / 2;
      SortNet(start, half) + SortNet(start + half, size - half) + MergeNet(start, half, start + half, size - half)
  }

  // ---------------------------------------------------------------- which slots a network touches

  ghost predicate InRange(x: nat, start: nat, size: nat) {
    start <= x < start + size
  }

  /** Every comparator has both ends in one of the two ranges. */
  ghost predicate Confined(net: Network, start1: nat, size1: nat, start2: nat, size2: nat) {
    forall i :: 0 <= i < |net| ==>
      && net[i].left != net[i].right
      && (InRange(net[i].left, start1, size1) || InRange(net[i].left, start2, size2))
      && (InRange(net[i].right, start1, size1) || InRange(net[i].right, start2, size2))
  }

  lemma {:induction false} ConfinedFrame<T>(net: Network, start1: nat, size1: nat, start2: nat, size2: nat, s: seq<T>,
                                            le: (T, T) -> bool, x: nat)
    requires Confined(net, start1, size1, start2, size2) && x < |s|
    requires !InRange(x, start1, size1) && !InRange(x, start2, size2)
    ensures Apply(net, s, le)[x] == s[x]
  {
    if net != [] { ConfinedFrame(net[..|net| - 1], start1, size1, start2, size2, s, le, x); }
  }

  lemma ConfinedWider(net: Network, start1: nat, size1: nat, start2: nat, size2: nat, t1: nat, n1: nat, t2: nat,
                      n2: nat)
    requires Confined(net, start1, size1, start2, size2)
    requires t1 <= start1 && start1 + size1 <= t1 + n1
    requires (t2 <= start2 && start2 + size2 <= t2 + n2) || (t1 <= start2 && start2 + size2 <= t1 + n1)
    ensures Confined(net, t1, n1, t2, n2)
  {
  }

  lemma ConfinedConcat(a: Network, b: Network, start1: nat, size1: nat, start2: nat, size2: nat)
    requires Confined(a, start1, size1, start2, size2) && Confined(b, start1, size1, start2, size2)
    ensures Confined(a + b, start1, size1, start2, size2)
  {
    hide InRange;
  }

  lemma MergeParts(start1: nat, size1: nat, start2: nat, size2: nat)
    requires Balanced(size1, size2) && !IsBase(size1, size2)
    ensures var s1, s2 := size1 / 2, SecondCut(size1, size2);
            && Balanced(s1, s2) && Balanced(size1 - s1, size2 - s2) && Balanced(size1 - s1, s2)
            && MergeNet(start1, size1, start2, size2) ==
               MergeNet(start1, s1, start2, s2)
               + MergeNet(start1 + s1, size1 - s1, start2 + s2, size2 - s2)
               + MergeNet(start1 + s1, size1 - s1, start2, s2)
  {
    CutsAreBalanced(size1, size2);
  }

  lemma {:induction false} BaseConfined(start1: nat, size1: nat, start2: nat, size2: nat)
    requires Balanced(size1, size2) && IsBase(size1, size2) && start1 + size1 <= start2
    ensures Confined(MergeNet(start1, size1, start2, size2), start1, size1, start2, size2)
  {
    if size1 == 1 && size2 == 1 {
    } else if size1 == 1 {
    } else {
    }
  }

  lemma {:induction false} MergeConfined(start1: nat, size1: nat, start2: nat, size2: nat)
    requires Balanced(size1, size2) && start1 + size1 <= start2
    ensures Confined(MergeNet(start1, size1, start2, size2), start1, size1, start2, size2)
    decreases size1 + size2
  {
    hide MergeNet, Confined, SecondCut, Balanced, IsBase;
    if IsBase(size1, size2) {
      BaseConfined(start1, size1, start2, size2);
    } else {
      var s1, s2 := size1 / 2, SecondCut(size1, size2);
      CutsAreBalanced(size1, size2);
      MergeParts(start1, size1, start2, size2);
      MergeConfined(start1, s1, start2, s2);
      MergeConfined(start1 + s1, size1 - s1, start2 + s2, size2 - s2);
      MergeConfined(start1 + s1, size1 - s1, start2, s2);
      var a, b, c := MergeNet(start1, s1, start2, s2), MergeNet(start1 + s1, size1 - s1, start2 + s2, size2 - s2),
                     MergeNet(start1 + s1, size1 - s1, start2, s2);
      ConfinedWider(a, start1, s1, start2, s2, start1, size1, start2, size2);
      ConfinedWider(b, start1 + s1, size1 - s1, start2 + s2, size2 - s2, start1, size1, start2, size2);
      ConfinedWider(c, start1 + s1, size1 - s1, start2, s2, start1, size1, start2, size2);
      ConfinedConcat(a, b, start1, size1, start2, size2);
      ConfinedConcat(a + b, c, start1, size1, start2, size2);
    }
  }

  // ---------------------------------------------------------------- counting zeros

  /** The range is sorted and begins with exactly `z` zeros. */
  ghost predicate HasZeros(b: seq<bool>, start: nat, size: nat, z: nat) {
    z <= size && start + size <= |b| && forall x: nat :: start <= x < start + size ==> (b[x] <==> x >= start + z)
  }

  lemma SplitZeros(b: seq<bool>, start: nat, size: nat, z: nat, k: nat)
    requires HasZeros(b, start, size, z) && k <= size
    ensures HasZeros(b, start, k, Min(z, k)) && HasZeros(b, start + k, size - k, z - Min(z, k))
  {
  }

  lemma JoinZeros(b: seq<bool>, start: nat, size: nat, k: nat, y: nat, z: nat)
    requires k <= size && HasZeros(b, start, k, y) && HasZeros(b, start + k, size - k, z)
    requires y == k || z == 0
    ensures HasZeros(b, start, size, y + z)
  {
  }

  lemma {:induction false} KeepsZeros(net: Network, start1: nat, size1: nat, start2: nat, size2: nat, b: seq<bool>,
                                      start: nat, size: nat, z: nat)
    requires Confined(net, start1, size1, start2, size2) && HasZeros(b, start, size, z)
    requires start + size <= start1 || start1 + size1 <= start
    requires start + size <= start2 || start2 + size2 <= start
    ensures HasZeros(Apply(net, b, BoolLe), start, size, z)
  {
    hide Apply, Confined;
    forall x: nat | start <= x < start + size ensures Apply(net, b, BoolLe)[x] == b[x] {
      ConfinedFrame(net, start1, size1, start2, size2, b, BoolLe, x);
    }
  }

  /** Both ranges together begin with all the zeros they had. */
  ghost predicate Merged(b: seq<bool>, start1: nat, size1: nat, start2: nat, size2: nat, z: nat) {
    z <= size1 + size2 && HasZeros(b, start1, size1, Min(z, size1)) && HasZeros(b, start2, size2, z - Min(z, size1))
  }

  lemma {:induction false} BaseMerges(b: seq<bool>, start1: nat, size1: nat, start2: nat, size2: nat, z1: nat, z2: nat)
    requires Balanced(size1, size2) && IsBase(size1, size2) && start1 + size1 <= start2
    requires HasZeros(b, start1, size1, z1) && HasZeros(b, start2, size2, z2)
    ensures Merged(Apply(MergeNet(start1, size1, start2, size2), b, BoolLe), start1, size1, start2, size2, z1 + z2)
  {
    hide HasZeros, Apply, Exchange, Merged;
    ApplyNone(b, BoolLe);
    if size1 == 1 && size2 == 1 {
      ApplyOne([], Comparator(start1, start2, true), b, BoolLe);
      assert [] + [Comparator(start1, start2, true)] == MergeNet(start1, size1, start2, size2);
      OneAndOne(b, start1, start2, z1, z2);
    } else if size1 == 1 {
      var c, d := Comparator(start1, start2 + 1, true), Comparator(start1, start2, true);
      ApplyOne([], c, b, BoolLe);
      ApplyOne([] + [c], d, b, BoolLe);
      assert ([] + [c]) + [d] == MergeNet(start1, size1, start2, size2);
      OneAndTwo(b, start1, start2, z1, z2);
    } else {
      var c, d := Comparator(start1, start2, true), Comparator(start1 + 1, start2, true);
      ApplyOne([], c, b, BoolLe);
      ApplyOne([] + [c], d, b, BoolLe);
      assert ([] + [c]) + [d] == MergeNet(start1, size1, start2, size2);
      TwoAndOne(b, start1, start2, z1, z2);
    }
  }

  lemma OneAndOne(b: seq<bool>, i: nat, j: nat, z1: nat, z2: nat)
    requires i < j && HasZeros(b, i, 1, z1) && HasZeros(b, j, 1, z2)
    ensures Merged(Exchange(b, Comparator(i, j, true), BoolLe), i, 1, j, 1, z1 + z2)
  {
    assert b[i] == (z1 == 0) && b[j] == (z2 == 0);
  }

  lemma OneAndTwo(b: seq<bool>, i: nat, j: nat, z1: nat, z2: nat)
    requires i < j && HasZeros(b, i, 1, z1) && HasZeros(b, j, 2, z2)
    ensures Merged(Exchange(Exchange(b, Comparator(i, j + 1, true), BoolLe), Comparator(i, j, true), BoolLe), i, 1, j,
                   2, z1 + z2)
  {
    assert b[i] == (z1 == 0) && b[j] == (z2 == 0) && b[j + 1] == (z2 < 2);
  }

  lemma TwoAndOne(b: seq<bool>, i: nat, j: nat, z1: nat, z2: nat)
    requires i + 1 < j && HasZeros(b, i, 2, z1) && HasZeros(b, j, 1, z2)
    ensures Merged(Exchange(Exchange(b, Comparator(i, j, true), BoolLe), Comparator(i + 1, j, true), BoolLe), i, 2, j,
                   1, z1 + z2)
  {
    assert b[i] == (z1 == 0) && b[i + 1] == (z1 < 2) && b[j] == (z2 == 0);
  }

  /** Where the zeros are after merging the first halves, the second halves, and the two middle parts. */
  lemma CutZeros(size1: nat, size2: nat, z1: nat, z2: nat)
    requires Balanced(size1, size2) && !IsBase(size1, size2) && z1 <= size1 && z2 <= size2
    ensures var s1, s2 := size1 / 2, SecondCut(size1, size2);
            var y := Min(z1, s1) + Min(z2, s2);
            var x := z1 + z2 - y;
            var low, high := Min(y, s1), Min(x, size1 - s1);
            var middle := high + (y - low);
            && (low == s1 || Min(middle, size1 - s1) == 0)
            && low + Min(middle, size1 - s1) == Min(z1 + z2, size1)
            && (middle - Min(middle, size1 - s1) == s2 || x - high == 0)
  {
    CutsAreBalanced(size1, size2);
  }

  /** The zeros of the four parts the cuts make. */
  ghost predicate FourParts(b: seq<bool>, start1: nat, s1: nat, n1: nat, start2: nat, s2: nat, n2: nat,
                            z1: nat, y1: nat, z2: nat, y2: nat)
  {
    && HasZeros(b, start1, s1, z1) && HasZeros(b, start1 + s1, n1, y1)
    && HasZeros(b, start2, s2, z2) && HasZeros(b, start2 + s2, n2, y2)
  }

  lemma SplitFour(b: seq<bool>, start1: nat, size1: nat, start2: nat, size2: nat, z1: nat, z2: nat, s1: nat, s2: nat)
    requires HasZeros(b, start1, size1, z1) && HasZeros(b, start2, size2, z2) && s1 <= size1 && s2 <= size2
    ensures Min(z1, s1) <= z1 && Min(z2, s2) <= z2
    ensures FourParts(b, start1, s1, size1 - s1, start2, s2, size2 - s2, Min(z1, s1), z1 - Min(z1, s1), Min(z2, s2),
                      z2 - Min(z2, s2))
  {
    hide HasZeros;
    SplitZeros(b, start1, size1, z1, s1);
    SplitZeros(b, start2, size2, z2, s2);
  }

  /** The cut of a merge that is not a base case. */
  ghost predicate Cut(start1: nat, size1: nat, start2: nat, size2: nat, s1: nat, s2: nat) {
    && start1 + size1 <= start2 && 0 < s1 < size1 && 0 < s2 < size2
    && Balanced(s1, s2) && Balanced(size1 - s1, size2 - s2) && Balanced(size1 - s1, s2)
  }

  /** The first recursive call. */
  lemma {:induction false} MergeFirstHalves(b: seq<bool>, start1: nat, size1: nat, start2: nat, size2: nat, s1: nat,
                                            s2: nat,
                                            z1: nat, y1: nat, z2: nat, y2: nat)
    requires Cut(start1, size1, start2, size2, s1, s2)
    requires FourParts(b, start1, s1, size1 - s1, start2, s2, size2 - s2, z1, y1, z2, y2)
    ensures Min(z1 + z2, s1) <= z1 + z2
    ensures FourParts(Apply(MergeNet(start1, s1, start2, s2), b, BoolLe), start1, s1, size1 - s1, start2, s2,
                      size2 - s2, Min(z1 + z2, s1), y1, z1 + z2 - Min(z1 + z2, s1), y2)
    decreases size1 + size2, 0
  {
    hide Apply, HasZeros, MergeNet, Confined, Balanced;
    var net := MergeNet(start1, s1, start2, s2);
    MergeMerges(b, start1, s1, start2, s2, z1, z2);
    MergeConfined(start1, s1, start2, s2);
    KeepsZeros(net, start1, s1, start2, s2, b, start1 + s1, size1 - s1, y1);
    KeepsZeros(net, start1, s1, start2, s2, b, start2 + s2, size2 - s2, y2);
  }

  /** The second recursive call. */
  lemma MergeSecondHalves(b: seq<bool>, start1: nat, size1: nat, start2: nat, size2: nat, s1: nat, s2: nat,
                          z1: nat, y1: nat, z2: nat, y2: nat)
    requires Cut(start1, size1, start2, size2, s1, s2)
    requires FourParts(b, start1, s1, size1 - s1, start2, s2, size2 - s2, z1, y1, z2, y2)
    ensures Min(y1 + y2, size1 - s1) <= y1 + y2
    ensures FourParts(Apply(MergeNet(start1 + s1, size1 - s1, start2 + s2, size2 - s2), b, BoolLe), start1, s1,
                      size1 - s1, start2, s2, size2 - s2,
                      z1, Min(y1 + y2, size1 - s1), z2, y1 + y2 - Min(y1 + y2, size1 - s1))
    decreases size1 + size2, 0
  {
    hide Apply, HasZeros, MergeNet, Confined, Balanced;
    var net := MergeNet(start1 + s1, size1 - s1, start2 + s2, size2 - s2);
    MergeMerges(b, start1 + s1, size1 - s1, start2 + s2, size2 - s2, y1, y2);
    MergeConfined(start1 + s1, size1 - s1, start2 + s2, size2 - s2);
    KeepsZeros(net, start1 + s1, size1 - s1, start2 + s2, size2 - s2, b, start1, s1, z1);
    KeepsZeros(net, start1 + s1, size1 - s1, start2 + s2, size2 - s2, b, start2, s2, z2);
  }

  /** The third recursive call. */
  lemma MergeMiddle(b: seq<bool>, start1: nat, size1: nat, start2: nat, size2: nat, s1: nat, s2: nat,
                    z1: nat, y1: nat, z2: nat, y2: nat)
    requires Cut(start1, size1, start2, size2, s1, s2)
    requires FourParts(b, start1, s1, size1 - s1, start2, s2, size2 - s2, z1, y1, z2, y2)
    ensures Min(y1 + z2, size1 - s1) <= y1 + z2
    ensures FourParts(Apply(MergeNet(start1 + s1, size1 - s1, start2, s2), b, BoolLe), start1, s1, size1 - s1, start2,
                      s2, size2 - s2, z1, Min(y1 + z2, size1 - s1), y1 + z2 - Min(y1 + z2, size1 - s1), y2)
    decreases size1 + size2, 0
  {
    hide Apply, HasZeros, MergeNet, Confined, Balanced;
    var net := MergeNet(start1 + s1, size1 - s1, start2, s2);
    MergeMerges(b, start1 + s1, size1 - s1, start2, s2, y1, z2);
    MergeConfined(start1 + s1, size1 - s1, start2, s2);
    KeepsZeros(net, start1 + s1, size1 - s1, start2, s2, b, start1, s1, z1);
    KeepsZeros(net, start1 + s1, size1 - s1, start2, s2, b, start2 + s2, size2 - s2, y2);
  }

  lemma JoinFour(b: seq<bool>, start1: nat, size1: nat, start2: nat, size2: nat, z1: nat, z2: nat, low: nat, a: nat,
                 c: nat, d: nat)
    requires Balanced(size1, size2) && !IsBase(size1, size2) && z1 <= size1 && z2 <= size2
    requires var s1, s2 := size1 / 2, SecondCut(size1, size2);
             var y := Min(z1, s1) + Min(z2, s2);
             var x := z1 + z2 - y;
             var middle := Min(x, size1 - s1) + (y - Min(y, s1));
             && low == Min(y, s1) && a == Min(middle, size1 - s1) && c == middle - a && d == x - Min(x, size1 - s1)
             && s2 <= size2 && FourParts(b, start1, s1, size1 - s1, start2, s2, size2 - s2, low, a, c, d)
    ensures Merged(b, start1, size1, start2, size2, z1 + z2)
  {
    CutZeros(size1, size2, z1, z2);
    CutsAreBalanced(size1, size2);
    var s1, s2 := size1 / 2, SecondCut(size1, size2);
    hide HasZeros, SecondCut, IsBase, Balanced;
    JoinZeros(b, start1, size1, s1, low, a);
    JoinZeros(b, start2, size2, s2, c, d);
  }

  /** A merge of two sorted ranges puts all zeros of both first. */
  lemma {:induction false} MergeMerges(b: seq<bool>, start1: nat, size1: nat, start2: nat, size2: nat, z1: nat, z2: nat)
    requires Balanced(size1, size2) && start1 + size1 <= start2
    requires HasZeros(b, start1, size1, z1) && HasZeros(b, start2, size2, z2)
    ensures Merged(Apply(MergeNet(start1, size1, start2, size2), b, BoolLe), start1, size1, start2, size2, z1 + z2)
    decreases size1 + size2, 2
  {
    ZerosFit(b, start1, size1, z1);
    ZerosFit(b, start2, size2, z2);
    var s1, s2 := size1 / 2, SecondCut(size1, size2);
    if IsBase(size1, size2) {
      BaseMerges(b, start1, size1, start2, size2, z1, z2);
    } else {
      CutsAreBalanced(size1, size2);
      MergeByCuts(b, start1, size1, start2, size2, z1, z2, s1, s2);
    }
  }

  lemma {:induction false} MergeByCuts(b: seq<bool>, start1: nat, size1: nat, start2: nat, size2: nat, z1: nat,
                                       z2: nat, s1: nat, s2: nat)
    requires Balanced(size1, size2) && !IsBase(size1, size2) && s1 == size1 / 2 && s2 == SecondCut(size1, size2)
    requires s1 <= size1 && s2 <= size2 && Cut(start1, size1, start2, size2, s1, s2) && z1 <= size1 && z2 <= size2
    requires HasZeros(b, start1, size1, z1) && HasZeros(b, start2, size2, z2)
    ensures Merged(Apply(MergeNet(start1, size1, start2, size2), b, BoolLe), start1, size1, start2, size2, z1 + z2)
    decreases size1 + size2, 1
  {
    hide MergeNet, SecondCut, Balanced, IsBase, Apply, HasZeros, Min, Merged, FourParts, Cut;
    MergeParts(start1, size1, start2, size2);
    var net1, net2, net3 := MergeNet(start1, s1, start2, s2),
                            MergeNet(start1 + s1, size1 - s1, start2 + s2, size2 - s2),
                            MergeNet(start1 + s1, size1 - s1, start2, s2);
    ApplyConcat(net1, net2, b, BoolLe);
    ApplyConcat(net1 + net2, net3, b, BoolLe);
    var b1 := Apply(net1, b, BoolLe);
    var b2 := Apply(net2, b1, BoolLe);
    SplitFour(b, start1, size1, start2, size2, z1, z2, s1, s2);
    var a1, c1, a2, c2 := Min(z1, s1), z1 - Min(z1, s1), Min(z2, s2), z2 - Min(z2, s2);
    MergeFirstHalves(b, start1, size1, start2, size2, s1, s2, a1, c1, a2, c2);
    var low, rest := Min(a1 + a2, s1), a1 + a2 - Min(a1 + a2, s1);
    MergeSecondHalves(b1, start1, size1, start2, size2, s1, s2, low, c1, rest, c2);
    var high, last := Min(c1 + c2, size1 - s1), c1 + c2 - Min(c1 + c2, size1 - s1);
    MergeMiddle(b2, start1, size1, start2, size2, s1, s2, low, high, rest, last);
    assert c1 + c2 == z1 + z2 - (a1 + a2);
    JoinFour(Apply(net3, b2, BoolLe), start1, size1, start2, size2, z1, z2, low, Min(high + rest, size1 - s1),
             high + rest - Min(high + rest, size1 - s1), last);
  }

  lemma ZerosFit(b: seq<bool>, start: nat, size: nat, z: nat)
    requires HasZeros(b, start, size, z)
    ensures z <= size
  {
  }

  // ---------------------------------------------------------------- sorting

  lemma SortParts(start: nat, size: nat)
    ensures size <= 1 ==> SortNet(start, size) == []
    ensures size > 1 ==>
            var half := size / 2;
            && Balanced(half, size - half)
            && SortNet(start, size) ==
               SortNet(start, half) + SortNet(start + half, size - half) +
                 MergeNet(start, half, start + half, size - half)
  {
  }

  lemma ConfinedNone(start: nat, size: nat)
    ensures Confined([], start, size, start, size)
  {
  }

  lemma {:induction false} SortWithin(start: nat, size: nat)
    ensures Confined(SortNet(start, size), start, size, start, size)
    decreases size
  {
    SortParts(start, size);
    ConfinedNone(start, size);
    hide SortNet, MergeNet, Confined, Balanced;
    if size > 1 {
      var half := size / 2;
      SortWithin(start, half);
      SortWithin(start + half, size - half);
      MergeConfined(start, half, start + half, size - half);
      var a, b, c := SortNet(start, half), SortNet(start + half, size - half),
                     MergeNet(start, half, start + half, size - half);
      ConfinedWider(a, start, half, start, half, start, size, start, size);
      ConfinedWider(b, start + half, size - half, start + half, size - half, start, size, start, size);
      ConfinedWider(c, start, half, start + half, size - half, start, size, start, size);
      ConfinedConcat(a, b, start, size, start, size);
      ConfinedConcat(a + b, c, start, size, start, size);
    }
  }

  /** The network turns any range of bits into zeros followed by ones. */
  lemma {:induction false} SortSorts(b: seq<bool>, start: nat, size: nat) returns (z: nat)
    requires start + size <= |b|
    ensures HasZeros(Apply(SortNet(start, size), b, BoolLe), start, size, z)
    decreases size
  {
    if size <= 1 {
      SortParts(start, size);
      ApplyNone(b, BoolLe);
      z := if size == 1 && !b[start] then 1 else 0;
    } else {
      z := SortHalves(b, start, size);
    }
  }

  lemma SortHalves(b: seq<bool>, start: nat, size: nat) returns (z: nat)
    requires start + size <= |b| && size > 1
    ensures HasZeros(Apply(SortNet(start, size), b, BoolLe), start, size, z)
    decreases size, 0
  {
    hide HasZeros, Apply, Confined, SortNet, MergeNet;
    var half := size / 2;
    SortParts(start, size);
    var net1, net2, net3 := SortNet(start, half), SortNet(start + half, size - half),
                            MergeNet(start, half, start + half, size - half);
    ApplyConcat(net1, net2, b, BoolLe);
    ApplyConcat(net1 + net2, net3, b, BoolLe);
    var b1 := Apply(net1, b, BoolLe);
    var b2 := Apply(net2, b1, BoolLe);
    var z1 := SortSorts(b, start, half);
    var z2 := SortSorts(b1, start + half, size - half);
    SortWithin(start + half, size - half);
    KeepsZeros(net2, start + half, size - half, start + half, size - half, b1, start, half, z1);
    MergeMerges(b2, start, half, start + half, size - half, z1, z2);
    z := z1 + z2;
    ZerosFit(b2, start, half, z1);
    ZerosFit(b2, start + half, size - half, z2);
    JoinMerged(Apply(net3, b2, BoolLe), start, half, size, z);
  }

  lemma JoinMerged(b: seq<bool>, start: nat, half: nat, size: nat, z: nat)
    requires half <= size && Merged(b, start, half, start + half, size - half, z)
    ensures HasZeros(b, start, size, z)
  {
    hide HasZeros;
    JoinZeros(b, start, size, half, Min(z, half), z - Min(z, half));
  }

  lemma {:induction false} BoseNelsonSortsBits(n: nat)
    ensures SortsBits(SortNet(0, n), n)
  {
    hide SortNet, Apply;
    forall b: seq<bool> | |b| == n ensures Sorted(Apply(SortNet(0, n), b, BoolLe), BoolLe) {
      var z := SortSorts(b, 0, n);
      ZerosSorted(Apply(SortNet(0, n), b, BoolLe), z);
    }
  }

  lemma ZerosSorted(b: seq<bool>, z: nat)
    requires HasZeros(b, 0, |b|, z)
    ensures Sorted(b, BoolLe)
  {
    forall i, j | 0 <= i < j < |b| ensures BoolLe(b[i], b[j]) {
      assert b[i] <==> i >= z;
      assert b[j] <==> j >= z;
    }
  }

  lemma ConfinedIsWithin(net: Network, n: nat)
    requires Confined(net, 0, n, 0, n)
    ensures Within(net, 0, n)
  {
  }

  /** The network sorts every sequence, whatever its length and order. */
  lemma {:induction false} BoseNelsonSorts<T(!new)>(s: seq<T>, le: (T, T) -> bool)
    requires TotalPreorder(le)
    ensures SortedPermutation(s, Apply(SortNet(0, |s|), s, le), le)
  {
    hide Apply, SortNet, Sorted, TotalPreorder, Confined, Within;
    SortWithin(0, |s|);
    ConfinedIsWithin(SortNet(0, |s|), |s|);
    BoseNelsonSortsBits(|s|);
    ZeroOnePrinciple(SortNet(0, |s|), s, le);
  }

  // ---------------------------------------------------------------- in place

  lemma {:induction false} ApplyTwo<T>(c: Comparator, d: Comparator, s: seq<T>, le: (T, T) -> bool)
    ensures Apply([c], s, le) == Exchange(s, c, le)
    ensures Apply([c, d], s, le) == Exchange(Exchange(s, c, le), d, le)
  {
    hide Exchange;
    assert [] + [c] == [c] && [c] + [d] == [c, d];
    ApplyOne([], c, s, le);
    ApplyOne([c], d, s, le);
  }

  /** Merges two sorted ranges that need not be adjacent. */
  method BnMerge<T>(arr: array<T>, start1: nat, size1: nat, start2: nat, size2: nat, le: (T, T) -> bool)
    requires Balanced(size1, size2) && start1 + size1 <= start2 && start2 + size2 <= arr.Length
    modifies arr
    ensures arr[..] == Apply(MergeNet(start1, size1, start2, size2), old(arr[..]), le)
    decreases size1 + size2
  {
    hide Apply, Exchange, MergeNet, SecondCut, Balanced;
    ghost var s := arr[..];
    MergeBase(start1, size1, start2, size2);
    if size1 == 1 && size2 == 1 {
      ApplyTwo(Comparator(start1, start2, true), Comparator(start1, start2, true), s, le);
      CompareSwap(arr, start1, start2, le);
    } else if size1 == 1 && size2 == 2 {
      ApplyTwo(Comparator(start1, start2 + 1, true), Comparator(start1, start2, true), s, le);
      CompareSwap(arr, start1, start2 + 1, le);
      CompareSwap(arr, start1, start2, le);
    } else if size1 == 2 && size2 == 1 {
      ApplyTwo(Comparator(start1, start2, true), Comparator(start1 + 1, start2, true), s, le);
      CompareSwap(arr, start1, start2, le);
      CompareSwap(arr, start1 + 1, start2, le);
    } else {
      var s1 := size1 / 2;
      var s2 := SecondCut(size1, size2);
      CutsAreBalanced(size1, size2);
      MergeParts(start1, size1, start2, size2);
      ghost var net1, net2 := MergeNet(start1, s1, start2, s2),
                              MergeNet(start1 + s1, size1 - s1, start2 + s2, size2 - s2);
      ApplyConcat(net1, net2, s, le);
      ApplyConcat(net1 + net2, MergeNet(start1 + s1, size1 - s1, start2, s2), s, le);
      BnMerge(arr, start1, s1, start2, s2, le);
      BnMerge(arr, start1 + s1, size1 - s1, start2 + s2, size2 - s2, le);
      BnMerge(arr, start1 + s1, size1 - s1, start2, s2, le);
    }
  }

  lemma MergeBase(start1: nat, size1: nat, start2: nat, size2: nat)
    requires Balanced(size1, size2)
    ensures size1 == 1 && size2 == 1 ==> MergeNet(start1, size1, start2, size2) == [Comparator(start1, start2, true)]
    ensures size1 == 1 && size2 == 2 ==>
      MergeNet(start1, size1, start2, size2) == [Comparator(start1, start2 + 1, true), Comparator(start1, start2, true)]
    ensures size1 == 2 && size2 == 1 ==>
      MergeNet(start1, size1, start2, size2) == [Comparator(start1, start2, true), Comparator(start1 + 1, start2, true)]
    ensures size1 > 0 && size2 > 0 && (size1 == 1 ==> size2 <= 2)
  {
  }

  method BnSort<T>(arr: array<T>, start: nat, size: nat, le: (T, T) -> bool)
    requires start + size <= arr.Length
    modifies arr
    ensures arr[..] == Apply(SortNet(start, size), old(arr[..]), le)
    decreases size
  {
    hide Apply, MergeNet, SortNet, Balanced;
    ghost var s := arr[..];
    SortParts(start, size);
    if size <= 1 {
      ApplyNone(s, le);
      return;
    }
    var s2 := size / 2;
    ghost var net1, net2 := SortNet(start, s2), SortNet(start + s2, size - s2);
    ApplyConcat(net1, net2, s, le);
    ApplyConcat(net1 + net2, MergeNet(start, s2, start + s2, size - s2), s, le);
    BnSort(arr, start, s2, le);
    BnSort(arr, start + s2, size - s2, le);
    BnMerge(arr, start, s2, start + s2, size - s2, le);
  }

  /** Sorts an array of any length in place. */
  method BoseNelsonSort<T(!new)>(arr: array<T>, le: (T, T) -> bool)
    requires TotalPreorder(le)
    modifies arr
    ensures SortedPermutation(old(arr[..]), arr[..], le)
  {
    hide Apply, SortNet, TotalPreorder, SortedPermutation;
    BoseNelsonSorts(arr[..], le);
    BnSort(arr, 0, arr.Length, le);
  }
}
