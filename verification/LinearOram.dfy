/** Linear scans over an array: every slot is visited, one takes part. */
module LinearOram {
  import opened Bits
  import opened Rotate

  /** Reads slot `index` into `ret` and overwrites it with `value`; out of range, nothing happens. */
  function ReadUpdate<T>(data: seq<T>, index: nat, ret: T, value: T): (seq<T>, T) {
    if index < |data| then (data[index := value], data[index]) else (data, ret)
  }

  method ObliviousReadUpdateIndex<T>(data: seq<T>, index: nat, ret: T, value: T) returns (data': seq<T>, ret': T)
    ensures (data', ret') == ReadUpdate(data, index, ret, value)
  {
    data', ret' := data, ret;
    for i := 0 to |data|
      invariant |data'| == |data| && data'[i..] == data[i..]
      invariant (data', ret') == if index < i then (data[index := value], data[index]) else (data, ret)
    {
      assert data'[i] == data'[i..][0] == data[i];
      if i == index {
        ret' := data'[i];
        data' := data'[i := value];
      }
    }
  }

  method ObliviousReadIndex<T>(data: seq<T>, index: nat, out: T) returns (out': T)
    ensures out' == if index < |data| then data[index] else out
  {
    out' := out;
    for i := 0 to |data|
      invariant out' == if index < i then data[index] else out
    {
      if i == index { out' := data[i]; }
    }
  }

  method ObliviousWriteIndex<T>(data: seq<T>, index: nat, value: T) returns (data': seq<T>)
    ensures data' == if index < |data| then data[index := value] else data
  {
    data' := data;
    for i := 0 to |data|
      invariant data' == if index < i then data[index := value] else data
    {
      if i == index { data' := data'[i := value]; }
    }
  }
  // ---------------------------------------------------------------- copying a window

  /** What a copy of the window that starts at `offset` leaves in slot `j`. */
  ghost function Copied<T>(dst: seq<T>, src: seq<T>, offset: nat, j: nat): T
    requires j < |dst|
  {
    if offset >= |src| then dst[j]
    else if offset + j < |src| then src[offset + j]
    else dst[(offset + j) % |dst|]
  }

  /** Slot `r` after the first `i` elements of `src` were seen. */
  ghost predicate Placed<T>(dst: seq<T>, src: seq<T>, offset: nat, mid: seq<T>, i: nat, j: nat)
    requires |mid| == |dst| && j < |dst| && i <= |src|
  {
    mid[(offset + j) % |dst|] == if offset + j < i then src[offset + j] else dst[(offset + j) % |dst|]
  }

  /** All slots after the first `i` elements of `src` were seen. */
  ghost predicate AllPlaced<T>(dst: seq<T>, src: seq<T>, offset: nat, mid: seq<T>, i: nat) {
    && |mid| == |dst| && i <= |src|
    && forall j: nat :: j < |dst| ==> Placed(dst, src, offset, mid, i, j)
  }

  lemma SameSlot(offset: nat, j: nat, i: nat, n: nat)
    requires n > 0 && j < n && offset <= i < offset + n && (offset + j) % n == i % n
    ensures i == offset + j
  {
    assert offset + j == n * ((offset + j) / n) + i % n;
    assert i == n * (i / n) + i % n;
    SameSlotOf(offset, j, i, n, (offset + j) / n, i / n, i % n);
  }

  lemma SameSlotOf(offset: nat, j: nat, i: nat, n: nat, q: nat, r: nat, m: nat)
    requires j < n && offset <= i < offset + n && offset + j == n * q + m && i == n * r + m
    ensures i == offset + j
  {
    CloseMultiples(n, q, r);
  }

  lemma CloseMultiples(n: nat, q: nat, r: nat)
    requires n * q < n * r + n && n * r < n * q + n
    ensures q == r
  {
    assert n * (q + 1) == n * q + n && n * (r + 1) == n * r + n;
    MulMonotone(n, q + 1, r);
    MulMonotone(n, r + 1, q);
  }

  /** Copies src[offset..] over `dst`, as far as both reach; slots past the end of `src` keep old elements of `dst`. */
  method ObliviousMemcpy<T>(dst: array<T>, src: seq<T>, offset: nat)
    requires dst.Length > 0
    modifies dst
    ensures forall j: nat :: j < dst.Length ==> dst[j] == Copied(old(dst[..]), src, offset, j)
  {
    var len := dst.Length;
    ghost var d := dst[..];
    for i := 0 to |src|
      invariant AllPlaced(d, src, offset, dst[..], i)
      invariant i <= offset ==> dst[..] == d
    {
      var choice := i >= offset && i < offset + len;
      ghost var mid := dst[..];
      if choice { dst[i % len] := src[i]; }
      PlaceOne(d, src, offset, mid, dst[..], i);
    }
    var shiftAmount := offset % len;
    if offset >= |src| { shiftAmount := 0; }
    ghost var mid := dst[..];
    RotateLeft(dst, shiftAmount);
    AfterRotation(d, src, offset, mid, dst[..], shiftAmount);
  }

  lemma PlaceOne<T>(d: seq<T>, src: seq<T>, offset: nat, mid: seq<T>, mid': seq<T>, i: nat)
    requires |d| > 0 && |mid| == |d| && i < |src|
    requires mid' == if offset <= i < offset + |d| then mid[i % |d| := src[i]] else mid
    requires AllPlaced(d, src, offset, mid, i)
    ensures AllPlaced(d, src, offset, mid', i + 1)
  {
    var i' := i + 1;
    forall j: nat | j < |d| ensures Placed(d, src, offset, mid', i', j) {
      assert Placed(d, src, offset, mid, i, j);
      if offset <= i < offset + |d| && (offset + j) % |d| == i % |d| { SameSlot(offset, j, i, |d|); }
    }
  }

  lemma AfterRotation<T>(d: seq<T>, src: seq<T>, offset: nat, mid: seq<T>, r: seq<T>, shift: nat)
    requires |d| == |mid| > 0 && shift == (if offset >= |src| then 0 else offset % |d|) && shift < |d|
    requires AllPlaced(d, src, offset, mid, |src|)
    requires |src| <= offset ==> mid == d
    requires r == Rotated(mid, shift % |d|)
    ensures forall j: nat :: j < |d| ==> r[j] == Copied(d, src, offset, j)
  {
    hide Rotated;
    DivModUnique(shift, |d|, 0, shift);
    forall j: nat | j < |d| ensures r[j] == Copied(d, src, offset, j) {
      RotatedAt(mid, shift, j);
      if offset < |src| {
        assert Placed(d, src, offset, mid, |src|, j);
        SlotAfterShift(offset, j, |d|);
      } else {
        DivModUnique(j, |d|, 0, j);
      }
    }
  }

  lemma SlotAfterShift(offset: nat, j: nat, n: nat)
    requires n > 0
    ensures (j + offset % n) % n == (offset + j) % n
  {
    assert offset == n * (offset / n) + offset % n;
    assert j + offset % n == n * ((j + offset % n) / n) + (j + offset % n) % n;
    ShiftOf(offset, j, n, offset / n, offset % n, (j + offset % n) / n, (j + offset % n) % n);
  }

  lemma ShiftOf(offset: nat, j: nat, n: nat, q: nat, r: nat, q': nat, r': nat)
    requires offset == n * q + r && j + r == n * q' + r' && r' < n
    ensures (offset + j) % n == r'
  {
    assert n * (q + q') == n * q + n * q';
    DivModUnique(offset + j, n, q + q', r');
  }

  /** An array that every operation scans in full. */
  class LinearOram<T> {
    var data: seq<T>

    constructor (maxN: nat, dflt: T)
      ensures data == seq(maxN, _ => dflt)
    {
      data := seq(maxN, _ => dflt);
    }

    method Read(index: nat, ret: T) returns (ret': T)
      requires index < |data|
      ensures ret' == data[index]
    {
      ret' := ret;
      for i := 0 to |data|
        invariant ret' == if index < i then data[index] else ret
      {
        if i == index { ret' := data[i]; }
      }
    }

    method Write(index: nat, value: T)
      modifies this
      ensures data == if index < |old(data)| then old(data)[index := value] else old(data)
    {
      data := ObliviousWriteIndex(data, index, value);
    }

    method ReadUpdate(index: nat, value: T, ret: T) returns (ret': T)
      modifies this
      ensures data == if index < |old(data)| then old(data)[index := value] else old(data)
      ensures ret' == if index < |old(data)| then old(data)[index] else ret
    {
      data, ret' := ObliviousReadUpdateIndex(data, index, ret, value);
    }
  }
}
