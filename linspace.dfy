/** The positions `np.linspace(0, len - 1, num=num, dtype=int)` picks from a
    cluster of `len` members (scripts/kmeans_frame_selection.py, line 104),
    as an exact integer function: one value gives position 0; two or more
    give floor(j * (len - 1) / (num - 1)) for j = 0 .. num - 1. */
module Linspace {
  import opened Common
  import Arith

  /** The j-th of `num` evenly spaced positions over 0 .. len - 1. */
  function Position(len: nat, num: nat, j: nat): (p: nat)
    requires len >= 1 && j < num
  {
    if num == 1 then 0 else (j * (len - 1)) / (num - 1)
  }

  /** All `num` positions, in the order numpy yields them. */
  function Positions(len: nat, num: nat): (r: seq<nat>)
    requires len >= 1 || num == 0
    ensures |r| == num
  {
    seq(num, j requires 0 <= j < num => Position(len, num, j))
  }

  /** Every position indexes the member list. */
  lemma PositionsInRange(len: nat, num: nat)
    requires len >= 1
    ensures forall j :: 0 <= j < num ==> Positions(len, num)[j] <= len - 1
  {
    forall j | 0 <= j < num
      ensures Positions(len, num)[j] <= len - 1
    {
      if num >= 2 {
        var a, b := len - 1, num - 1;
        Arith.MulMonotone(j, b, a);
        assert b * a == a * b;
        Arith.MulMonotone(0, j, a);
        Arith.DivMonotone(j * a, a * b, b);
        Arith.MulDivCancel(a, b);
      }
    }
  }

  /** The first position is the first member; with two or more positions
      the last one is exactly the last member. */
  lemma PositionsEndpoints(len: nat, num: nat)
    requires len >= 1 && num >= 1
    ensures Positions(len, num)[0] == 0
    ensures num >= 2 ==> Positions(len, num)[num - 1] == len - 1
  {
    if num >= 2 {
      Arith.MulDivCancel(len - 1, num - 1);
      assert (num - 1) * (len - 1) == (len - 1) * (num - 1);
    }
  }

  /** The positions never go backwards. */
  lemma PositionsNondecreasing(len: nat, num: nat)
    requires len >= 1
    ensures Sorted(Positions(len, num))
  {
    var r := Positions(len, num);
    forall i, j | 0 <= i < j < num
      ensures r[i] <= r[j]
    {
      if num >= 2 {
        Arith.MulMonotone(i, j, len - 1);
        Arith.MulMonotone(0, i, len - 1);
        Arith.DivMonotone(i * (len - 1), j * (len - 1), num - 1);
      }
    }
  }

  /** With at least as many members as positions, no position repeats. */
  lemma PositionsStrictWhenEnoughMembers(len: nat, num: nat)
    requires len >= 1 && len >= num
    ensures StrictlyIncreasing(Positions(len, num))
  {
    var r := Positions(len, num);
    forall i, j | 0 <= i < j < num
      ensures r[i] < r[j]
    {
      assert num >= 2;
      var a, b := len - 1, num - 1;
      Arith.MulSucc(i, a);
      Arith.MulMonotone(0, i, a);
      Arith.DivStepsByOne(i * a, a, b);
      Arith.MulMonotone(i + 1, j, a);
      Arith.DivMonotone((i + 1) * a, j * a, b);
    }
  }

  /** A nondecreasing run that starts at 0 and never repeats climbs at
      least one step per position. */
  lemma {:induction false} ClimbsWithoutRepeats(r: seq<nat>, k: nat)
    requires |r| >= 1 && r[0] == 0 && k < |r|
    requires forall j :: 0 <= j < |r| - 1 ==> r[j] < r[j + 1]
    ensures r[k] >= k
  {
    if k > 0 {
      ClimbsWithoutRepeats(r, k - 1);
    }
  }

  /** With fewer members than positions, some position is picked twice in
      a row: the source keeps such repeats. */
  lemma PositionsRepeatWhenTooFewMembers(len: nat, num: nat)
    requires 1 <= len < num
    ensures exists j :: 0 <= j < num - 1 && Positions(len, num)[j] == Positions(len, num)[j + 1]
  {
    var r := Positions(len, num);
    PositionsEndpoints(len, num);
    PositionsInRange(len, num);
    if forall j :: 0 <= j < num - 1 ==> r[j] != r[j + 1] {
      PositionsNondecreasing(len, num);
      ClimbsWithoutRepeats(r, num - 1);
      assert false;
    }
  }
}
