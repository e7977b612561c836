/** Rotation by a hidden amount, from conditional reversals. */
module Rotate {
  import opened Bits

  function Reversed<T>(s: seq<T>): (r: seq<T>)
    ensures |r| == |s| && forall i :: 0 <= i < |s| ==> r[i] == s[|s| - 1 - i]
  {
    seq(|s|, i requires 0 <= i < |s| => s[|s| - 1 - i])
  }

  /** `s` rotated left by `k`. */
  function Rotated<T>(s: seq<T>, k: nat): (r: seq<T>)
    requires k <= |s|
    ensures |r| == |s|
  {
    s[k..] + s[..k]
  }

  lemma RotatedAt<T>(s: seq<T>, k: nat, j: nat)
    requires k <= |s| && j < |s|
    ensures Rotated(s, k)[j] == s[(j + k) % |s|]
  {
    if j + k < |s| { DivModUnique(j + k, |s|, 0, j + k); } else { DivModUnique(j + k, |s|, 1, j + k - |s|); }
  }

  /** Reversing both parts and then the whole exchanges the parts. */
  lemma ThreeReversals<T>(s: seq<T>, k: nat)
    requires k <= |s|
    ensures Reversed(Reversed(s[..k]) + Reversed(s[k..])) == Rotated(s, k)
  {
  }

  /** A sequence with the elements from `start` to `end` in reverse order. */
  ghost function WithReversed<T>(s: seq<T>, start: nat, end: nat): (r: seq<T>)
    requires start <= end <= |s|
    ensures |r| == |s|
  {
    s[..start] + Reversed(s[start..end]) + s[end..]
  }

  /** The same, one reversal after the other. */
  lemma ThreeSteps<T>(s: seq<T>, k: nat)
    requires k <= |s|
    ensures WithReversed(WithReversed(WithReversed(s, 0, k), k, |s|), 0, |s|) == Rotated(s, k)
  {
    hide Reversed, Rotated;
    var a, b := Reversed(s[..k]), Reversed(s[k..]);
    assert s[0..k] == s[..k];
    assert WithReversed(s, 0, k) == a + s[k..];
    assert (a + s[k..])[k..|s|] == s[k..] && (a + s[k..])[..k] == a;
    assert WithReversed(a + s[k..], k, |s|) == a + b;
    assert (a + b)[0..|s|] == a + b;
    assert WithReversed(a + b, 0, |s|) == Reversed(a + b);
    ThreeReversals(s, k);
  }

  /** Rotations add up. */
  lemma RotatedTwice<T>(s: seq<T>, a: nat, b: nat)
    requires a + b <= |s|
    ensures Rotated(Rotated(s, a), b) == Rotated(s, a + b)
  {
  }

  /** The outermost `i` pairs of s[start..end] exchanged. */
  ghost function Mirrored<T>(s: seq<T>, start: nat, end: nat, i: nat): (r: seq<T>)
    requires start <= end <= |s| && 2 * i <= end - start
    ensures |r| == |s|
  {
    seq(|s|, x requires 0 <= x < |s| =>
        if start <= x < start + i || end - i <= x < end then s[start + end - 1 - x] else s[x])
  }

  lemma MirrorNone<T>(s: seq<T>, start: nat, end: nat)
    requires start <= end <= |s|
    ensures Mirrored(s, start, end, 0) == s
  {
  }

  lemma MirrorStep<T>(s: seq<T>, start: nat, end: nat, i: nat)
    requires start <= end <= |s| && 2 * (i + 1) <= end - start
    ensures var m, a, b := Mirrored(s, start, end, i), start + i, end - 1 - i;
            Mirrored(s, start, end, i + 1) == m[a := m[b]][b := m[a]]
  {
  }

  lemma MirrorAll<T>(s: seq<T>, start: nat, end: nat)
    requires start <= end <= |s|
    ensures Mirrored(s, start, end, (end - start) / 2) == s[..start] + Reversed(s[start..end]) + s[end..]
  {
    var m, r := Mirrored(s, start, end, (end - start) / 2), s[..start] + Reversed(s[start..end]) + s[end..];
    forall x | 0 <= x < |s| ensures m[x] == r[x] {
      if start <= x < end { assert Reversed(s[start..end])[x - start] == s[start + end - 1 - x]; }
    }
  }

  /** Reverses arr[start..end] when `enable` holds. */
  method ReverseRegion<T>(arr: array<T>, start: nat, end: nat, enable: bool)
    requires start <= end <= arr.Length
    modifies arr
    ensures arr[..] == if enable then WithReversed(old(arr[..]), start, end) else old(arr[..])
  {
    hide Mirrored, Reversed;
    ghost var s := arr[..];
    var half := (end - start) / 2;
    MirrorNone(s, start, end);
    for i := 0 to half
      invariant arr[..] == if enable then Mirrored(s, start, end, i) else s
    {
      var a, b := start + i, end - 1 - i;
      MirrorStep(s, start, end, i);
      if enable { arr[a], arr[b] := arr[b], arr[a]; }
    }
    MirrorAll(s, start, end);
  }

  /** The step for one power of two: three conditional reversals. */
  method RotateStep<T>(arr: array<T>, s: nat, enable: bool)
    requires s < arr.Length
    modifies arr
    ensures arr[..] == if enable then Rotated(old(arr[..]), s) else old(arr[..])
  {
    hide Reversed, Rotated, WithReversed;
    ThreeSteps(arr[..], s);
    ReverseRegion(arr, 0, s, enable);
    ReverseRegion(arr, s, arr.Length, enable);
    ReverseRegion(arr, 0, arr.Length, enable);
  }

  lemma {:induction false} RotationGrows<T>(t: seq<T>, k: nat, i: nat)
    requires k <= |t|
    ensures Pow2(i + 1) == 2 * Pow2(i) && k % Pow2(i) <= k && k % Pow2(i + 1) <= k
    ensures Rotated(t, k % Pow2(i + 1)) ==
            if BitAnd(Pow2(i), k) != 0 && Pow2(i) <= |t| then Rotated(Rotated(t, k % Pow2(i)), Pow2(i))
            else Rotated(t, k % Pow2(i))
  {
    BitAndCommutes(Pow2(i), k);
    BitAndPow2(k, i);
    ModDouble(k, Pow2(i));
    ModAtMost(k, Pow2(i));
    ModAtMost(k, Pow2(i + 1));
    if (k / Pow2(i)) % 2 == 1 { RotatedTwice(t, k % Pow2(i), Pow2(i)); }
  }

  lemma ModAtMost(x: nat, d: nat)
    requires d > 0
    ensures x % d <= x
  {
    if x < d { DivModUnique(x, d, 0, x); }
  }

  lemma {:induction false} FullTurn<T>(t: seq<T>, k: nat, i: nat)
    requires |t| > 0 && k <= |t| <= Pow2(i)
    ensures k % Pow2(i) <= k && Rotated(t, k % Pow2(i)) == Rotated(t, k % |t|)
  {
    ModAtMost(k, Pow2(i));
    if k < |t| {
      DivModUnique(k, |t|, 0, k);
      DivModUnique(k, Pow2(i), 0, k);
    } else {
      DivModUnique(k, |t|, 1, 0);
      if k == Pow2(i) { DivModUnique(k, Pow2(i), 1, 0); } else { DivModUnique(k, Pow2(i), 0, k); }
    }
  }

  /** Rotates left by `k`. */
  method RotateLeft<T>(arr: array<T>, k: nat)
    requires arr.Length > 1 ==> k <= arr.Length
    modifies arr
    ensures arr[..] == if arr.Length == 0 then [] else Rotated(old(arr[..]), k % arr.Length)
  {
    hide Rotated, Pow2, BitAnd;
    var n := arr.Length;
    ghost var t := arr[..];
    if n <= 1 {
      ShortTurn(t, k);
      return;
    }
    var s := 1;
    ghost var i := 0;
    NoTurn(t, k);
    while s < n
      invariant s == Pow2(i) && k % s <= k && arr[..] == Rotated(t, k % s)
      decreases n - s
    {
      var enable := BitAnd(s, k) != 0;
      RotationGrows(t, k, i);
      RotateStep(arr, s, enable);
      s := s * 2;
      i := i + 1;
    }
    FullTurn(t, k, i);
  }

  lemma ShortTurn<T>(t: seq<T>, k: nat)
    requires |t| <= 1
    ensures t == if |t| == 0 then [] else Rotated(t, k % |t|)
  {
  }

  lemma NoTurn<T>(t: seq<T>, k: nat)
    ensures Pow2(0) == 1 && k % 1 == 0 && Rotated(t, 0) == t
  {
  }
}
