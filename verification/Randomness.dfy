/** Random choices are modelled as arbitrary ones. */
module Randomness {
  import opened Blocks

  /** Any number below `bound`. */
  method RandomPosition(bound: nat) returns (p: Position)
    requires 0 < bound < 0x1_0000_0000
    ensures p < bound
  {
    p :| p < bound;
  }

  method RandomPositions(count: nat, bound: nat) returns (ps: seq<Position>)
    requires 0 < bound < 0x1_0000_0000
    ensures |ps| == count && forall i :: 0 <= i < count ==> ps[i] < bound
  {
    ps := [];
    for i := 0 to count
      invariant |ps| == i && forall j :: 0 <= j < i ==> ps[j] < bound
    {
      var p := RandomPosition(bound);
      ps := ps + [p];
    }
  }
}
