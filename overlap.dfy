/**
 * MachineController::overlapInSeconds: how many seconds two periods share.
 *
 * A period [start, end) is read as the set of whole seconds it contains;
 * the overlap is then the size of the common part, which gives the
 * reference definition the function is proved against.
 */
module Overlap {

  function Max(a: int, b: int): int { if a >= b then a else b }
  function Min(a: int, b: int): int { if a <= b then a else b }

  /**
   * The later start against the earlier end, clamped at zero. The source
   * floors the difference, which is the identity on integer timestamps.
   */
  function OverlapInSeconds(start1: int, end1: int, start2: int, end2: int): (r: nat)
    ensures r <= Max(0, end1 - start1) && r <= Max(0, end2 - start2)
    ensures end1 <= start2 || end2 <= start1 ==> r == 0
    ensures start2 <= start1 <= end1 <= end2 ==> r == end1 - start1
    ensures r > 0 <==> start1 < end2 && start2 < end1 && start1 < end1 && start2 < end2
  {
    var lastStart := if start1 >= start2 then start1 else start2;
    var firstEnd := if end1 <= end2 then end1 else end2;
    var overlap := firstEnd - lastStart;
    if overlap > 0 then overlap else 0
  }

  /** The overlap does not depend on which period comes first. */
  lemma OverlapSymmetric(start1: int, end1: int, start2: int, end2: int)
    ensures OverlapInSeconds(start1, end1, start2, end2) == OverlapInSeconds(start2, end2, start1, end1)
  {
  }

  /** The whole seconds of the period [a, b), gathered from the end down. */
  function Seconds(a: int, b: int): (r: set<int>)
    ensures forall t :: t in r <==> a <= t < b
    decreases b - a
  {
    if b <= a then {} else Seconds(a, b - 1) + {b - 1}
  }

  /** A period holds as many seconds as its length, and none when it is empty or reversed. */
  lemma {:induction false} SecondsCount(a: int, b: int)
    ensures |Seconds(a, b)| == Max(0, b - a)
    decreases b - a
  {
    if b > a {
      SecondsCount(a, b - 1);
      assert b - 1 !in Seconds(a, b - 1);
    }
  }

  /** Reference definition: the overlap is the number of seconds both periods contain. */
  lemma OverlapCountsCommonSeconds(start1: int, end1: int, start2: int, end2: int)
    ensures OverlapInSeconds(start1, end1, start2, end2) == |Seconds(start1, end1) * Seconds(start2, end2)|
  {
    var lastStart := Max(start1, start2);
    var firstEnd := Min(end1, end2);
    assert Seconds(start1, end1) * Seconds(start2, end2) == Seconds(lastStart, firstEnd);
    SecondsCount(lastStart, firstEnd);
  }
}
